/** Where the walk goes on when a node is replaced or removed: the places behind it, and their keys,
    stay as they are. */
module TrieAfter {
  import opened Options
  import opened TrieNode
  import opened TrieOrder
  import opened TrieWalk

  /** The places ps are the rest of the walk from the first of them. */
  ghost predicate StartsAt<V>(root: Node<V>, ps: seq<Position>) {
    ps == [] || (Stands(root, ps[0]) && ps[0] != End && Remaining(root, ps[0]) == ps)
  }

  /** All places in ps denote the same keys in both trees. */
  ghost predicate Unmoved<V>(n: Node<V>, n': Node<V>, ps: seq<Position>) {
    forall i :: 0 <= i < |ps| ==> SameKey(n, n', ps[i])
  }

  ghost predicate SameKey<V>(n: Node<V>, n': Node<V>, x: Position) {
    x != End && Stands(n, x) && Stands(n', x) && KeyAt(n', x) == KeyAt(n, x)
  }

  /** The keys from an iterator to the end. */
  ghost function RestKeys<V>(root: Node<V>, it: Position): seq<Key>
    requires Stands(root, it)
  {
    KeysAt(root, Remaining(root, it))
  }

  ghost function KeysAt<V>(root: Node<V>, ps: seq<Position>): (ks: seq<Key>)
    ensures |ks| == |ps|
    ensures forall i :: 0 <= i < |ps| && ps[i] != End && Stands(root, ps[i]) ==> ks[i] == KeyAt(root, ps[i])
  {
    seq(|ps|, i requires 0 <= i < |ps| => if ps[i] != End && Stands(root, ps[i]) then KeyAt(root, ps[i]) else [])
  }

  // ---------- the first place behind a gap ----------

  /** The first place below a node. */
  lemma {:induction false} NodeHead<V>(root: Node<V>, p: Key)
    requires Wf(root) && ValidPath(root, p)
    ensures StartsAt(root, Positions(NodeAt(root, p), p) + After(root, p))
    decreases NodeAt(root, p)
  {
    hide After, ValidPath, Remaining;
    WfAt(root, p);
    match NodeAt(root, p)
    case Hash(b) =>
      HashHead(root, p);
    case Trie(v, ch) =>
      if v.Some? {
        ValueHead(root, p);
      } else {
        var d := FirstChild(NodeAt(root, p), 0);
        EnterChild(root, p, 0, d);
        assert [] + ChildPositions(NodeAt(root, p), p, 0) == ChildPositions(NodeAt(root, p), p, 0);
        NodeHead(root, p + [d]);
      }
  }

  lemma HashHead<V>(root: Node<V>, p: Key)
    requires ValidPath(root, p) && NodeAt(root, p).Hash? && NodeAt(root, p).bucket != []
    ensures StartsAt(root, Positions(NodeAt(root, p), p) + After(root, p))
  {
    hide After;
  }

  lemma ValueHead<V>(root: Node<V>, p: Key)
    requires ValidPath(root, p) && NodeAt(root, p).Trie? && NodeAt(root, p).val.Some?
    ensures StartsAt(root, Positions(NodeAt(root, p), p) + After(root, p))
  {
    hide After, ChildPositions;
    var c, a := ChildPositions(NodeAt(root, p), p, 0), After(root, p);
    assert ([AtValue(p)] + c) + a == [AtValue(p)] + c + a;
  }

  /** The first child with a character of at least c, if there is one. */
  lemma FirstChild<V>(n: Node<V>, c: nat) returns (d: Byte)
    requires n.Trie? && c <= 256 && exists e :: e in n.children && c <= e
    ensures d in n.children && c <= d && forall e :: c <= e < d ==> e !in n.children
    decreases 256 - c
  {
    if c in n.children {
      d := c;
    } else {
      var e :| e in n.children && c <= e;
      d := FirstChild(n, c + 1);
    }
  }

  /** The first place below the children from character c on, or behind the node. */
  lemma {:induction false} GapHead<V>(root: Node<V>, q: Key, c: nat)
    requires Wf(root) && ValidPath(root, q) && NodeAt(root, q).Trie? && c <= 256
    ensures StartsAt(root, ChildPositions(NodeAt(root, q), q, c) + After(root, q))
    decreases |q|
  {
    hide Remaining, Wf, StartsAt, ValidPath;
    var n := NodeAt(root, q);
    if exists e :: e in n.children && c <= e {
      var d := FirstChild(n, c);
      EnterChild(root, q, c, d);
      NodeHead(root, q + [d]);
    } else {
      NoMoreChildren(n, q, c);
      assert [] + After(root, q) == After(root, q);
      AfterHead(root, q);
    }
  }

  /** The first place behind a subtree. */
  lemma {:induction false} AfterHead<V>(root: Node<V>, q: Key)
    requires Wf(root) && ValidPath(root, q)
    ensures StartsAt(root, After(root, q))
    decreases |q|, 0
  {
    hide Remaining, Wf;
    if q != [] {
      var r, d := q[..|q| - 1], q[|q| - 1];
      assert q == r + [d];
      PathInit(root, r, d);
      AfterSnoc(root, r, d);
      var e: nat := d;
      GapHead(root, r, e + 1);
    }
  }

  // ---------- a node replaced, a child removed ----------

  lemma {:induction false} SameChildPositions<V>(n: Node<V>, n': Node<V>, q: Key, c: nat)
    requires n.Trie? && n'.Trie? && c <= 256
    requires forall d: Byte :: c <= d ==>
      (d in n.children <==> d in n'.children) && (d in n.children ==> n.children[d] == n'.children[d])
    ensures ChildPositions(n, q, c) == ChildPositions(n', q, c)
    decreases 256 - c
  {
    if c < 256 {
      var d: Byte := c;
      SameChildPositions(n, n', q, c + 1);
    }
  }

  lemma {:induction false} UpdateSnoc<V>(n: Node<V>, q: Key, c: Byte, s: Node<V>)
    requires ValidPath(n, q) && NodeAt(n, q).Trie? && c in NodeAt(n, q).children && ValidPath(n, q + [c])
    ensures Update(n, q + [c], s) == Update(n, q, Trie(NodeAt(n, q).val, NodeAt(n, q).children[c := s]))
    decreases |q|
  {
    if q != [] {
      assert (q + [c])[1..] == q[1..] + [c];
      UpdateSnoc(n.children[q[0]], q[1..], c, s);
    } else {
      assert (q + [c])[1..] == [];
    }
  }

  /** What follows a subtree does not depend on it. */
  lemma {:induction false} AfterUpdate<V>(n: Node<V>, p: Key, s: Node<V>)
    requires ValidPath(n, p)
    ensures ValidPath(Update(n, p, s), p) && After(Update(n, p, s), p) == After(n, p)
    decreases |p|
  {
    UpdatePath(n, p, s);
    if p != [] {
      var q, c := p[..|p| - 1], p[|p| - 1];
      var e: nat := c;
      assert p == q + [c];
      PathInit(n, q, c);
      var t := Trie(NodeAt(n, q).val, NodeAt(n, q).children[c := s]);
      UpdateSnoc(n, q, c, s);
      UpdatePath(n, q, t);
      AfterUpdate(n, q, t);
      AfterSnoc(n, q, c);
      AfterSnoc(Update(n, q, t), q, c);
      SameChildPositions(NodeAt(n, q), t, q, e + 1);
    }
  }

  lemma TailPrefix(p: Key, k: Key)
    requires p != [] && k != [] && p[0] == k[0]
    ensures p <= k <==> p[1..] <= k[1..]
  {
    if p[1..] <= k[1..] {
      assert p == [p[0]] + p[1..] && k == [k[0]] + k[1..];
    }
  }

  /** Places outside a subtree keep their keys when it is replaced. */
  lemma {:induction false} OutsideUpdate<V>(n: Node<V>, p: Key, s: Node<V>, x: Position)
    requires ValidPath(n, p) && x != End && Stands(n, x) && !(p <= x.path)
    ensures SameKey(n, Update(n, p, s), x)
    decreases |p|
  {
    if p != [] && x.path != [] && x.path[0] == p[0] {
      var c := p[0];
      TailPrefix(p, x.path);
      var y := Tail(x);
      OutsideUpdate(n.children[c], p[1..], s, y);
      TailKey(n, x);
      TailKey(Update(n, p, s), x);
    }
  }

  /** The same place seen from a child of the root. */
  function Tail(x: Position): Position
    requires x != End && x.path != []
  {
    match x
    case AtValue(p) => AtValue(p[1..])
    case AtEntry(p, i) => AtEntry(p[1..], i)
  }

  lemma TailKey<V>(n: Node<V>, x: Position)
    requires x != End && x.path != [] && n.Trie? && x.path[0] in n.children
    ensures Stands(n, x) <==> Stands(n.children[x.path[0]], Tail(x))
    ensures Stands(n, x) ==> KeyAt(n, x) == [x.path[0]] + KeyAt(n.children[x.path[0]], Tail(x))
  {
    if Stands(n, x) && x.AtEntry? {
      var b := NodeAt(n, x.path).bucket;
      assert x.path + b[x.index].key == [x.path[0]] + (x.path[1..] + b[x.index].key);
    }
  }

  lemma AllOutside<V>(n: Node<V>, p: Key, s: Node<V>)
    requires ValidPath(n, p)
    ensures Unmoved(n, Update(n, p, s), After(n, p))
  {
    forall i | 0 <= i < |After(n, p)| ensures SameKey(n, Update(n, p, s), After(n, p)[i]) {
      AfterOutside(n, p, i);
      OutsideUpdate(n, p, s, After(n, p)[i]);
    }
  }

  function WithoutChild<V>(n: Node<V>, c: Byte): Node<V>
    requires n.Trie?
  {
    Trie(n.val, n.children - {c})
  }

  lemma {:induction false} OutsideDrop<V>(n: Node<V>, q: Key, c: Byte, x: Position)
    requires ValidPath(n, q) && NodeAt(n, q).Trie? && x != End && Stands(n, x) && !(q + [c] <= x.path)
    ensures SameKey(n, Update(n, q, WithoutChild(NodeAt(n, q), c)), x)
    decreases |q|
  {
    var u := Update(n, q, WithoutChild(NodeAt(n, q), c));
    if q != [] && x.path != [] && x.path[0] == q[0] {
      var d := q[0];
      TailPrefix(q + [c], x.path);
      assert (q + [c])[1..] == q[1..] + [c];
      OutsideDrop(n.children[d], q[1..], c, Tail(x));
      TailKey(n, x);
      TailKey(u, x);
    } else if q == [] && x.path != [] {
      assert x.path[0] != c by {
        assert [c] <= x.path <==> x.path[0] == c;
        assert q + [c] == [c];
      }
    }
  }

  /** What followed a child that is removed follows the gap that it leaves. */
  lemma AfterDrop<V>(n: Node<V>, q: Key, c: Byte)
    requires ValidPath(n, q) && NodeAt(n, q).Trie? && c in NodeAt(n, q).children && ValidPath(n, q + [c])
    requires Wf(Update(n, q, WithoutChild(NodeAt(n, q), c)))
    ensures StartsAt(Update(n, q, WithoutChild(NodeAt(n, q), c)), After(n, q + [c]))
    ensures Unmoved(n, Update(n, q, WithoutChild(NodeAt(n, q), c)), After(n, q + [c]))
  {
    var t := WithoutChild(NodeAt(n, q), c);
    var u := Update(n, q, t);
    var e: nat := c;
    AfterSnoc(n, q, c);
    UpdatePath(n, q, t);
    AfterUpdate(n, q, t);
    SameChildPositions(NodeAt(n, q), t, q, e + 1);
    GapHead(u, q, e + 1);
    forall i | 0 <= i < |After(n, q + [c])| ensures SameKey(n, u, After(n, q + [c])[i]) {
      AfterOutside(n, q + [c], i);
      OutsideDrop(n, q, c, After(n, q + [c])[i]);
    }
  }

  /** What is left of a removal: the places a follow, if the tree is not gone. */
  ghost predicate Continues<V>(n: Node<V>, o: Option<Node<V>>, a: seq<Position>) {
    if o.None? then a == [] else StartsAt(o.value, a) && Unmoved(n, o.value, a)
  }

  lemma ContinuesTrans<V>(n: Node<V>, u: Node<V>, o: Option<Node<V>>, a: seq<Position>)
    requires Unmoved(n, u, a) && Continues(u, o, a)
    ensures Continues(n, o, a)
  {
    hide StartsAt;
    if o.Some? {
      forall i | 0 <= i < |a| ensures SameKey(n, o.value, a[i]) {
        assert SameKey(n, u, a[i]) && SameKey(u, o.value, a[i]);
      }
    }
  }

  /** `next` denotes the key after that of `it`, and the same keys follow. */
  ghost predicate NextKey<V>(n: Node<V>, it: Position, o: Option<Node<V>>, next: Position) {
    && Stands(n, it) && it != End
    && (if o.None? then next == End && RestKeys(n, it) == [KeyAt(n, it)]
        else Stands(o.value, next) && RestKeys(n, it) == [KeyAt(n, it)] + RestKeys(o.value, next))
  }

  lemma NextAfterRemoval<V>(n: Node<V>, it: Position, o: Option<Node<V>>, a: seq<Position>, next: Position)
    requires Stands(n, it) && it != End && Remaining(n, it) == [it] + a
    requires Stands(n, next) && Remaining(n, next) == a && Continues(n, o, a)
    ensures NextKey(n, it, o, next)
  {
    RemainingHead(n, next);
    if o.Some? {
      AtEnd(o.value);
      assert Stands(o.value, next) && Remaining(o.value, next) == a;
    } else {
      assert next == End;
    }
    hide Remaining, Stands, KeyAt, KeysAt, StartsAt;
    assert RestKeys(n, it) == [KeyAt(n, it)] + KeysAt(n, a) by { KeysAtFirst(n, it, a); }
    if o.Some? {
      SameKeysAt(n, o.value, a);
    } else {
      NoKeys(n);
    }
  }

  lemma KeysAtFirst<V>(n: Node<V>, it: Position, a: seq<Position>)
    requires Stands(n, it) && it != End
    ensures KeysAt(n, [it] + a) == [KeyAt(n, it)] + KeysAt(n, a)
  {
    hide Stands, KeyAt;
  }

  lemma NoKeys<V>(n: Node<V>)
    ensures KeysAt(n, []) == []
  {
  }

  lemma SameKeysAt<V>(n: Node<V>, n': Node<V>, a: seq<Position>)
    requires Unmoved(n, n', a)
    ensures KeysAt(n', a) == KeysAt(n, a)
  {
    forall i | 0 <= i < |a| ensures KeysAt(n', a)[i] == KeysAt(n, a)[i] {
      assert SameKey(n, n', a[i]);
      hide Stands, KeyAt;
    }
  }

  /** Removing an entry that is not the last of its bucket. */
  lemma NextInBucket<V>(n: Node<V>, p: Key, i: nat)
    requires Stands(n, AtEntry(p, i)) && i + 1 < |NodeAt(n, p).bucket|
    ensures var b := NodeAt(n, p).bucket;
      NextKey(n, AtEntry(p, i), Some(Update(n, p, Hash(b[..i] + b[i + 1..]))), AtEntry(p, i))
  {
    var b := NodeAt(n, p).bucket;
    var b' := b[..i] + b[i + 1..];
    var u, it := Update(n, p, Hash(b')), AtEntry(p, i);
    EntryGone(n, p, b', i);
    assert KeyAt(n, it) == p + b[i].key;
    hide After, Update, RestKeys, KeysAt, KeyAt, NodeAt, ValidPath, Stands, BucketKeysFrom;
    BucketRest(n, p, i);
    BucketRest(u, p, i);
    BucketKeysShift(p, b, i);
    ConsConcat(p + b[i].key, BucketKeysFrom(p, b', i), KeysAt(n, After(n, p)));
    NextKeyIs(n, it, u, it);
  }

  lemma ConsConcat<T>(x: T, b: seq<T>, c: seq<T>)
    ensures ([x] + b) + c == [x] + (b + c)
  {
  }

  lemma NextKeyIs<V>(n: Node<V>, it: Position, u: Node<V>, next: Position)
    requires Stands(n, it) && it != End && Stands(u, next) && RestKeys(n, it) == [KeyAt(n, it)] + RestKeys(u, next)
    ensures NextKey(n, it, Some(u), next)
  {
  }

  /** Another bucket at p: what follows it stays. */
  lemma EntryGone<V>(n: Node<V>, p: Key, b': seq<Entry<V>>, i: nat)
    requires ValidPath(n, p) && i < |b'|
    ensures var u := Update(n, p, Hash(b'));
      Stands(u, AtEntry(p, i)) && NodeAt(u, p) == Hash(b') && After(u, p) == After(n, p)
        && KeysAt(u, After(u, p)) == KeysAt(n, After(n, p))
  {
    hide After, Update, KeysAt;
    UpdatePath(n, p, Hash(b'));
    AfterUpdate(n, p, Hash(b'));
    AllOutside(n, p, Hash(b'));
    SameKeysAt(n, Update(n, p, Hash(b')), After(n, p));
  }

  /** The keys of a bucket from an entry on. */
  ghost function BucketKeysFrom<V>(p: Key, b: seq<Entry<V>>, i: nat): seq<Key>
    requires i <= |b|
  {
    seq(|b| - i, j requires 0 <= j < |b| - i => p + b[i + j].key)
  }

  lemma BucketKeysShift<V>(p: Key, b: seq<Entry<V>>, i: nat)
    requires i < |b|
    ensures BucketKeysFrom(p, b, i) == [p + b[i].key] + BucketKeysFrom(p, b[..i] + b[i + 1..], i)
  {
  }

  lemma BucketRest<V>(n: Node<V>, p: Key, i: nat)
    requires Stands(n, AtEntry(p, i))
    ensures RestKeys(n, AtEntry(p, i)) == BucketKeysFrom(p, NodeAt(n, p).bucket, i) + KeysAt(n, After(n, p))
  {
    hide After, NodeAt, ValidPath;
    var b := NodeAt(n, p).bucket;
    var r, a := BucketPositions(p, i, |b|), After(n, p);
    BucketKeysAt(n, p, i);
    hide BucketPositions;
    KeysAtConcat(n, r, a);
  }

  lemma KeysAtConcat<V>(n: Node<V>, r: seq<Position>, a: seq<Position>)
    ensures KeysAt(n, r + a) == KeysAt(n, r) + KeysAt(n, a)
  {
    hide Stands, KeyAt;
  }

  lemma BucketKeysAt<V>(n: Node<V>, p: Key, i: nat)
    requires Stands(n, AtEntry(p, i))
    ensures KeysAt(n, BucketPositions(p, i, |NodeAt(n, p).bucket|)) == BucketKeysFrom(p, NodeAt(n, p).bucket, i)
  {
    hide NodeAt, ValidPath;
  }

  // ---------- a value removed ----------

  lemma {:induction false} ValueDropped<V>(n: Node<V>, p: Key, x: Position)
    requires ValidPath(n, p) && NodeAt(n, p).Trie? && x != End && Stands(n, x) && x != AtValue(p)
    ensures SameKey(n, Update(n, p, Trie(None, NodeAt(n, p).children)), x)
    decreases |p|
  {
    var u := Update(n, p, Trie(None, NodeAt(n, p).children));
    if p != [] && x.path != [] && x.path[0] == p[0] {
      assert p == [p[0]] + p[1..] && x.path == [p[0]] + x.path[1..];
      ValueDropped(n.children[p[0]], p[1..], Tail(x));
      TailKey(n, x);
      TailKey(u, x);
    }
  }

  /** No place below the children of a node is the value of the node. */
  lemma NotTheValue<V>(n: Node<V>, p: Key, i: nat)
    requires Wf(n) && ValidPath(n, p) && NodeAt(n, p).Trie? && i < |ChildPositions(NodeAt(n, p), p, 0)|
    ensures var x := ChildPositions(NodeAt(n, p), p, 0)[i];
      x != End && Stands(n, x) && x != AtValue(p)
  {
    WfAt(n, p);
    ChildPositionsMatch(n, p, 0);
    var x, k := ChildPositions(NodeAt(n, p), p, 0)[i], ChildKeys(NodeAt(n, p), 0)[i];
    assert Denotes(n, p, x, k);
    ChildKeysIs(NodeAt(n, p), 0, k);
    assert k in ChildKeys(NodeAt(n, p), 0);
    assert |p + k| > |p|;
  }

  /** A value goes from a node with children: its children follow. */
  lemma ValueContinues<V>(n: Node<V>, p: Key)
    requires Wf(n) && ValidPath(n, p) && NodeAt(n, p).Trie? && Wf(Update(n, p, Trie(None, NodeAt(n, p).children)))
    ensures Continues(n, Some(Update(n, p, Trie(None, NodeAt(n, p).children))),
                      ChildPositions(NodeAt(n, p), p, 0) + After(n, p))
  {
    var t := Trie(None, NodeAt(n, p).children);
    var u := Update(n, p, t);
    var c, a := ChildPositions(NodeAt(n, p), p, 0), After(n, p);
    AfterUpdate(n, p, t);
    UpdatePath(n, p, t);
    SameChildPositions(NodeAt(n, p), t, p, 0);
    GapHead(u, p, 0);
    forall i | 0 <= i < |c + a| ensures SameKey(n, u, (c + a)[i]) {
      if i < |c| {
        NotTheValue(n, p, i);
      } else {
        AfterOutside(n, p, i - |c|);
      }
      ValueDropped(n, p, (c + a)[i]);
    }
  }
}
