/** The order in which iterators walk over a HAT-trie: the value of a node before its children,
    children by increasing character, the entries of a bucket in bucket order. */
module TrieOrder {
  import opened Options
  import opened TrieNode

  /** What an iterator denotes: the value of a trie node, or an entry of a bucket. */
  datatype Position = End | AtValue(path: Key) | AtEntry(path: Key, index: nat)

  function BucketPositions(p: Key, from: nat, size: nat): (r: seq<Position>)
    requires from <= size
    ensures |r| == size - from && forall i :: 0 <= i < |r| ==> r[i] == AtEntry(p, from + i)
    decreases size - from
  {
    if from == size then [] else [AtEntry(p, from)] + BucketPositions(p, from + 1, size)
  }

  /** All positions in the subtree n, which stands at path p. */
  function Positions<V>(n: Node<V>, p: Key): seq<Position>
    decreases n, 257
  {
    match n
    case Hash(b) => BucketPositions(p, 0, |b|)
    case Trie(v, _) => (if v.Some? then [AtValue(p)] else []) + ChildPositions(n, p, 0)
  }

  /** Those below the children with a character of at least c. */
  function ChildPositions<V>(n: Node<V>, p: Key, c: nat): seq<Position>
    requires n.Trie? && c <= 256
    decreases n, 256 - c
  {
    if c == 256 then []
    else (if c in n.children then Positions(n.children[c], p + [c]) else []) + ChildPositions(n, p, c + 1)
  }

  /** The positions that follow the subtree at path p in the whole tree. */
  function After<V>(root: Node<V>, p: Key): seq<Position>
    requires ValidPath(root, p)
    decreases |p|
  {
    if p == [] then []
    else
      var q := p[..|p| - 1];
      var c: nat := p[|p| - 1];
      assert q + [p[|p| - 1]] == p;
      PathInit(root, q, p[|p| - 1]);
      ChildPositions(NodeAt(root, q), q, c + 1) + After(root, q)
  }

  /** A position that an iterator can stand at. */
  predicate Stands<V>(root: Node<V>, it: Position) {
    match it
    case End => true
    case AtValue(p) => ValidPath(root, p) && NodeAt(root, p).Trie? && NodeAt(root, p).val.Some?
    case AtEntry(p, i) => ValidPath(root, p) && NodeAt(root, p).Hash? && i < |NodeAt(root, p).bucket|
  }

  /** The positions from an iterator to the end. */
  function Remaining<V>(root: Node<V>, it: Position): seq<Position>
    requires Stands(root, it)
  {
    match it
    case End => []
    case AtValue(p) => [it] + ChildPositions(NodeAt(root, p), p, 0) + After(root, p)
    case AtEntry(p, i) => BucketPositions(p, i, |NodeAt(root, p).bucket|) + After(root, p)
  }

  /** `key()` of an iterator. */
  function KeyAt<V>(root: Node<V>, it: Position): Key
    requires Stands(root, it) && it != End
  {
    match it
    case AtValue(p) => p
    case AtEntry(p, i) => p + NodeAt(root, p).bucket[i].key
  }

  function ValueAt<V>(root: Node<V>, it: Position): V
    requires Stands(root, it) && it != End
  {
    match it
    case AtValue(p) => NodeAt(root, p).val.value
    case AtEntry(p, i) => NodeAt(root, p).bucket[i].value
  }

  // ---------- the walk visits each key once ----------

  /** The keys of a subtree, in walking order, relative to it. */
  function KeyList<V>(n: Node<V>): seq<Key>
    decreases n, 257
  {
    match n
    case Hash(b) => seq(|b|, i requires 0 <= i < |b| => b[i].key)
    case Trie(v, _) => (if v.Some? then [[]] else []) + ChildKeys(n, 0)
  }

  function ChildKeys<V>(n: Node<V>, c: nat): seq<Key>
    requires n.Trie? && c <= 256
    decreases n, 256 - c
  {
    if c == 256 then []
    else (if c in n.children then Prefixed([c], KeyList(n.children[c])) else []) + ChildKeys(n, c + 1)
  }

  function Prefixed(p: Key, ks: seq<Key>): (r: seq<Key>)
    ensures |r| == |ks| && forall i :: 0 <= i < |ks| ==> r[i] == p + ks[i]
  {
    seq(|ks|, i requires 0 <= i < |ks| => p + ks[i])
  }

  ghost predicate NoDuplicates<T>(s: seq<T>) {
    forall i, j :: 0 <= i < j < |s| ==> s[i] != s[j]
  }

  lemma {:induction false} KeyListIs<V>(n: Node<V>, k: Key)
    requires Wf(n)
    ensures k in KeyList(n) <==> Lookup(n, k).Some?
    decreases n, 257
  {
    match n
    case Hash(b) =>
      if k in KeyList(n) {
        var i :| 0 <= i < |b| && KeyList(n)[i] == k;
        GetAt(b, i);
      }
      if Get(b, k).Some? {
        assert KeyList(n)[IndexOf(b, k)] == k;
      }
    case Trie(v, ch) =>
      ChildKeysIs(n, 0, k);
  }

  lemma {:induction false} ChildKeysIs<V>(n: Node<V>, c: nat, k: Key)
    requires n.Trie? && Wf(n) && c <= 256
    ensures k in ChildKeys(n, c) <==>
      k != [] && k[0] >= c && k[0] in n.children && Lookup(n.children[k[0]], k[1..]).Some?
    decreases n, 256 - c
  {
    if c < 256 {
      ChildKeysIs(n, c + 1, k);
      if c in n.children {
        PrefixedHas([c], KeyList(n.children[c]), k);
        if k != [] && k[0] == c {
          KeyListIs(n.children[c], k[1..]);
        }
      }
    }
  }

  lemma PrefixedHas(p: Key, ks: seq<Key>, k: Key)
    ensures k in Prefixed(p, ks) <==> p <= k && k[|p|..] in ks
  {
    if k in Prefixed(p, ks) {
      var i :| 0 <= i < |ks| && Prefixed(p, ks)[i] == k;
      assert k[|p|..] == ks[i];
    }
    if p <= k && k[|p|..] in ks {
      var i :| 0 <= i < |ks| && ks[i] == k[|p|..];
      assert Prefixed(p, ks)[i] == p + k[|p|..] == k;
    }
  }

  lemma {:induction false} KeyListDistinct<V>(n: Node<V>)
    requires Wf(n)
    ensures NoDuplicates(KeyList(n))
    decreases n, 257
  {
    if n.Trie? {
      ChildKeysDistinct(n, 0);
      ChildKeysIs(n, 0, []);
    }
  }

  lemma {:induction false} ChildKeysDistinct<V>(n: Node<V>, c: nat)
    requires n.Trie? && Wf(n) && c <= 256
    ensures NoDuplicates(ChildKeys(n, c))
    decreases n, 256 - c
  {
    if c < 256 {
      ChildKeysDistinct(n, c + 1);
      if c in n.children {
        var a, b := Prefixed([c], KeyList(n.children[c])), ChildKeys(n, c + 1);
        KeyListDistinct(n.children[c]);
        assert NoDuplicates(a) by {
          forall i, j | 0 <= i < j < |a| ensures a[i] != a[j] {
            assert a[i][1..] == KeyList(n.children[c])[i] && a[j][1..] == KeyList(n.children[c])[j];
          }
        }
        forall k | k in a ensures k !in b {
          ChildKeysIs(n, c + 1, k);
        }
        AppendDistinct(a, b);
      }
    }
  }

  lemma AppendDistinct<T>(a: seq<T>, b: seq<T>)
    requires NoDuplicates(a) && NoDuplicates(b) && forall x :: x in a ==> x !in b
    ensures NoDuplicates(a + b)
  {
    forall i, j | 0 <= i < j < |a + b| ensures (a + b)[i] != (a + b)[j] {
      if i < |a| <= j {
        assert a[i] in a && b[j - |a|] in b;
      }
    }
  }

  // ---------- positions and keys ----------

  /** The i-th position of a subtree stands for the i-th key of the subtree. */
  ghost predicate Matches<V>(root: Node<V>, p: Key, ps: seq<Position>, ks: seq<Key>) {
    |ps| == |ks| && forall i :: 0 <= i < |ps| ==> Denotes(root, p, ps[i], ks[i])
  }

  /** Position `it` lies below path p and its key is k, relative to p. */
  ghost predicate Denotes<V>(root: Node<V>, p: Key, it: Position, k: Key) {
    Stands(root, it) && it != End && KeyAt(root, it) == p + k && p <= it.path
  }

  lemma MatchesAppend<V>(root: Node<V>, p: Key, a: seq<Position>, b: seq<Position>, ka: seq<Key>, kb: seq<Key>)
    requires Matches(root, p, a, ka) && Matches(root, p, b, kb)
    ensures Matches(root, p, a + b, ka + kb)
  {
    hide Denotes;
  }

  lemma MatchesPrefixed<V>(root: Node<V>, p: Key, c: Byte, a: seq<Position>, ka: seq<Key>)
    requires Matches(root, p + [c], a, ka)
    ensures Matches(root, p, a, Prefixed([c], ka))
  {
    forall i | 0 <= i < |a| ensures Denotes(root, p, a[i], Prefixed([c], ka)[i]) {
      assert Denotes(root, p + [c], a[i], ka[i]);
      assert p + [c] + ka[i] == p + ([c] + ka[i]);
    }
  }

  lemma {:induction false} PositionsMatch<V>(root: Node<V>, p: Key)
    requires ValidPath(root, p)
    ensures Matches(root, p, Positions(NodeAt(root, p), p), KeyList(NodeAt(root, p)))
    decreases NodeAt(root, p), 257
  {
    var n := NodeAt(root, p);
    if n.Trie? {
      ChildPositionsMatch(root, p, 0);
      var v: seq<Position>, k: seq<Key> := if n.val.Some? then [AtValue(p)] else [], if n.val.Some? then [[]] else [];
      assert Matches(root, p, v, k) by { assert p + [] == p; }
      MatchesAppend(root, p, v, ChildPositions(n, p, 0), k, ChildKeys(n, 0));
    }
  }

  lemma {:induction false} ChildPositionsMatch<V>(root: Node<V>, p: Key, c: nat)
    requires ValidPath(root, p) && NodeAt(root, p).Trie? && c <= 256
    ensures Matches(root, p, ChildPositions(NodeAt(root, p), p, c), ChildKeys(NodeAt(root, p), c))
    decreases NodeAt(root, p), 256 - c
  {
    var n := NodeAt(root, p);
    if c < 256 {
      ChildPositionsMatch(root, p, c + 1);
      if c in n.children {
        PathSnoc(root, p, c);
        PositionsMatch(root, p + [c]);
        MatchesPrefixed(root, p, c, Positions(n.children[c], p + [c]), KeyList(n.children[c]));
        MatchesAppend(root, p, Positions(n.children[c], p + [c]), ChildPositions(n, p, c + 1),
                      Prefixed([c], KeyList(n.children[c])), ChildKeys(n, c + 1));
      }
    }
  }

  lemma {:induction false} ChildPositionsSkip<V>(n: Node<V>, p: Key, c: nat, d: nat)
    requires n.Trie? && c <= d <= 256 && forall e :: c <= e < d ==> e !in n.children
    ensures ChildPositions(n, p, c) == ChildPositions(n, p, d)
    decreases d - c
  {
    if c < d {
      ChildPositionsSkip(n, p, c + 1, d);
    }
  }

  lemma AfterSnoc<V>(root: Node<V>, p: Key, c: Byte)
    requires ValidPath(root, p) && NodeAt(root, p).Trie? && c in NodeAt(root, p).children
    ensures ValidPath(root, p + [c]) && NodeAt(root, p + [c]) == NodeAt(root, p).children[c]
    ensures var d: nat := c; After(root, p + [c]) == ChildPositions(NodeAt(root, p), p, d + 1) + After(root, p)
  {
    PathSnoc(root, p, c);
    assert (p + [c])[..|p|] == p;
  }

  /** Entering the first child at or after character c. */
  lemma EnterChild<V>(root: Node<V>, p: Key, c: nat, d: Byte)
    requires ValidPath(root, p) && NodeAt(root, p).Trie? && c <= d && d in NodeAt(root, p).children
    requires forall e :: c <= e < d ==> e !in NodeAt(root, p).children
    ensures ValidPath(root, p + [d]) && NodeAt(root, p + [d]) == NodeAt(root, p).children[d]
    ensures ChildPositions(NodeAt(root, p), p, c) + After(root, p)
      == Positions(NodeAt(root, p + [d]), p + [d]) + After(root, p + [d])
  {
    AfterSnoc(root, p, d);
    ChildPositionsSkip(NodeAt(root, p), p, c, d);
  }

  /** What follows a node also follows its descendants. */
  lemma {:induction false} AfterShrinks<V>(root: Node<V>, p: Key, q: Key)
    requires ValidPath(root, q) && p <= q
    ensures ValidPath(root, p) && |After(root, p)| <= |After(root, q)|
    decreases |q|
  {
    if p != q {
      var r, c := q[..|q| - 1], q[|q| - 1];
      assert q == r + [c];
      PathInit(root, r, c);
      AfterShrinks(root, p, r);
      AfterSnoc(root, r, c);
    }
  }

  /** Nothing that follows a subtree lies in it. */
  lemma {:induction false} AfterOutside<V>(root: Node<V>, p: Key, i: nat)
    requires ValidPath(root, p) && i < |After(root, p)|
    ensures Stands(root, After(root, p)[i]) && After(root, p)[i] != End && !(p <= After(root, p)[i].path)
    decreases |p|
  {
    if p != [] {
      var q, c := p[..|p| - 1], p[|p| - 1];
      var d: nat := c;
      assert p == q + [c];
      PathInit(root, q, c);
      AfterSnoc(root, q, c);
      var a := ChildPositions(NodeAt(root, q), q, d + 1);
      if i < |a| {
        ChildOutside(root, q, c, d + 1, i);
      } else {
        AfterOutside(root, q, i - |a|);
      }
    }
  }

  lemma {:induction false} ChildOutside<V>(root: Node<V>, q: Key, c: Byte, d: nat, i: nat)
    requires ValidPath(root, q) && NodeAt(root, q).Trie? && c < d <= 256
    requires i < |ChildPositions(NodeAt(root, q), q, d)|
    ensures var it := ChildPositions(NodeAt(root, q), q, d)[i];
      Stands(root, it) && it != End && !(q + [c] <= it.path)
    decreases 256 - d
  {
    var n := NodeAt(root, q);
    var a := if d in n.children then Positions(n.children[d], q + [d]) else [];
    if i < |a| {
      PathSnoc(root, q, d);
      PositionsMatch(root, q + [d]);
      assert Denotes(root, q + [d], a[i], KeyList(n.children[d])[i]);
      assert (q + [d])[|q|] == d && (q + [c])[|q|] == c;
    } else {
      ChildOutside(root, q, c, d + 1, i - |a|);
    }
  }

  lemma RemainingHead<V>(root: Node<V>, it: Position)
    requires Stands(root, it)
    ensures it == if Remaining(root, it) == [] then End else Remaining(root, it)[0]
  {
  }
}
