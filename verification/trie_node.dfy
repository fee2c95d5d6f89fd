/** The tree of the HAT-trie as a value: a node owns its children, so a node below the root is
    named by the path of characters that leads to it. */
module TrieNode {
  import opened Options

  type Byte = c: int | 0 <= c < 256

  type Key = seq<Byte>

  datatype Entry<V> = Entry(key: Key, value: V)

  /** `hash_node`, whose array hash lists its entries in iteration order, or `trie_node`. */
  datatype Node<V> =
    | Hash(bucket: seq<Entry<V>>)
    | Trie(val: Option<V>, children: map<Byte, Node<V>>)

  // ---------- buckets ----------

  ghost predicate Distinct<V>(b: seq<Entry<V>>) {
    forall i, j :: 0 <= i < j < |b| ==> b[i].key != b[j].key
  }

  /** Index of the entry with the key, or the number of entries. */
  function IndexOf<V>(b: seq<Entry<V>>, k: Key): (i: nat)
    ensures i <= |b| && (i < |b| ==> b[i].key == k) && forall j :: 0 <= j < i ==> b[j].key != k
  {
    if b == [] || b[0].key == k then 0 else 1 + IndexOf(b[1..], k)
  }

  function Get<V>(b: seq<Entry<V>>, k: Key): Option<V> {
    var i := IndexOf(b, k);
    if i < |b| then Some(b[i].value) else None
  }

  lemma GetAt<V>(b: seq<Entry<V>>, i: nat)
    requires Distinct(b) && i < |b|
    ensures IndexOf(b, b[i].key) == i && Get(b, b[i].key) == Some(b[i].value)
  {
  }

  lemma GetAppend<V>(b: seq<Entry<V>>, e: Entry<V>, k: Key)
    requires Distinct(b) && IndexOf(b, e.key) == |b|
    ensures Distinct(b + [e])
    ensures Get(b + [e], k) == if k == e.key then Some(e.value) else Get(b, k)
  {
    var c := b + [e];
    assert Distinct(c);
    assert forall j :: 0 <= j < |b| ==> c[j] == b[j];
    assert c[|b|] == e;
  }

  lemma GetRemove<V>(b: seq<Entry<V>>, i: nat, k: Key)
    requires Distinct(b) && i < |b|
    ensures Distinct(b[..i] + b[i + 1..])
    ensures Get(b[..i] + b[i + 1..], k) == if k == b[i].key then None else Get(b, k)
  {
    var c := b[..i] + b[i + 1..];
    assert forall j :: 0 <= j < |c| ==> c[j] == b[if j < i then j else j + 1];
    var j := IndexOf(b, k);
    if j < |b| && j != i {
      assert c[if j < i then j else j - 1] == b[j];
    }
  }

  // ---------- the map of a tree ----------

  function Lookup<V>(n: Node<V>, k: Key): Option<V> {
    match n
    case Hash(b) => Get(b, k)
    case Trie(v, ch) => if k == [] then v else if k[0] in ch then Lookup(ch[k[0]], k[1..]) else None
  }

  /** No empty bucket, no trie node without child or value. */
  ghost predicate Wf<V>(n: Node<V>) {
    match n
    case Hash(b) => b != [] && Distinct(b)
    case Trie(v, ch) => (v.Some? || ch != map[]) && forall c :: c in ch ==> Wf(ch[c])
  }

  /** No bucket has more than t entries. */
  ghost predicate Bounded<V>(n: Node<V>, t: nat) {
    match n
    case Hash(b) => |b| <= t
    case Trie(_, ch) => forall c :: c in ch ==> Bounded(ch[c], t)
  }

  ghost function KeySet<V>(n: Node<V>): set<Key> {
    match n
    case Hash(b) => set i | 0 <= i < |b| :: b[i].key
    case Trie(v, ch) =>
      (if v.Some? then {[]} else {}) + set c, k | c in ch && k in KeySet(ch[c]) :: [c] + k
  }

  lemma {:induction false} KeySetIs<V>(n: Node<V>, k: Key)
    ensures k in KeySet(n) <==> Lookup(n, k).Some?
    decreases k
  {
    match n
    case Hash(b) =>
    case Trie(v, ch) =>
      if k != [] && k[0] in ch {
        KeySetIs(ch[k[0]], k[1..]);
        assert [k[0]] + k[1..] == k;
      }
  }

  // ---------- paths ----------

  predicate ValidPath<V>(n: Node<V>, p: Key) {
    p == [] || (n.Trie? && p[0] in n.children && ValidPath(n.children[p[0]], p[1..]))
  }

  function NodeAt<V>(n: Node<V>, p: Key): Node<V>
    requires ValidPath(n, p)
  {
    if p == [] then n else NodeAt(n.children[p[0]], p[1..])
  }

  /** The tree with the node at p replaced by s. */
  function Update<V>(n: Node<V>, p: Key, s: Node<V>): Node<V>
    requires ValidPath(n, p)
  {
    if p == [] then s else Trie(n.val, n.children[p[0] := Update(n.children[p[0]], p[1..], s)])
  }

  lemma {:induction false} PathSnoc<V>(n: Node<V>, p: Key, c: Byte)
    requires ValidPath(n, p)
    ensures ValidPath(n, p + [c]) <==> NodeAt(n, p).Trie? && c in NodeAt(n, p).children
    ensures ValidPath(n, p + [c]) ==> NodeAt(n, p + [c]) == NodeAt(n, p).children[c]
    decreases p
  {
    if p != [] {
      PathSnoc(n.children[p[0]], p[1..], c);
      assert (p + [c])[1..] == p[1..] + [c];
    } else {
      assert (p + [c])[1..] == [];
    }
  }

  lemma {:induction false} PathInit<V>(n: Node<V>, p: Key, c: Byte)
    requires ValidPath(n, p + [c])
    ensures ValidPath(n, p) && NodeAt(n, p).Trie? && c in NodeAt(n, p).children
    ensures NodeAt(n, p + [c]) == NodeAt(n, p).children[c]
    decreases p
  {
    if p != [] {
      assert (p + [c])[1..] == p[1..] + [c];
      PathInit(n.children[p[0]], p[1..], c);
    } else {
      assert (p + [c])[1..] == [];
    }
  }

  lemma {:induction false} UpdatePath<V>(n: Node<V>, p: Key, s: Node<V>)
    requires ValidPath(n, p)
    ensures ValidPath(Update(n, p, s), p) && NodeAt(Update(n, p, s), p) == s
    decreases p
  {
    if p != [] {
      UpdatePath(n.children[p[0]], p[1..], s);
    }
  }

  lemma {:induction false} LookupUpdate<V>(n: Node<V>, p: Key, s: Node<V>, k: Key)
    requires ValidPath(n, p)
    ensures Lookup(Update(n, p, s), k) == if p <= k then Lookup(s, k[|p|..]) else Lookup(n, k)
    decreases p
  {
    if p == [] {
      assert k[0..] == k;
    } else if k != [] && k[0] == p[0] {
      LookupUpdate(n.children[p[0]], p[1..], s, k[1..]);
      assert p <= k <==> p[1..] <= k[1..] by {
        if p[1..] <= k[1..] { assert p == [p[0]] + p[1..] && k == [k[0]] + k[1..]; }
      }
      if p <= k { assert k[1..][|p[1..]|..] == k[|p|..]; }
    }
  }

  lemma {:induction false} LookupAt<V>(n: Node<V>, p: Key, k: Key)
    requires ValidPath(n, p) && p <= k
    ensures Lookup(n, k) == Lookup(NodeAt(n, p), k[|p|..])
    decreases p
  {
    if p == [] {
      assert k[0..] == k;
    } else {
      assert p[1..] <= k[1..];
      LookupAt(n.children[p[0]], p[1..], k[1..]);
      assert k[1..][|p[1..]|..] == k[|p|..];
    }
  }

  /** Everything off the path to p is in order, whatever stands at p itself. */
  ghost predicate WfExcept<V>(n: Node<V>, p: Key) {
    p == [] || (n.Trie? && p[0] in n.children && WfExcept(n.children[p[0]], p[1..])
                && forall c :: c in n.children && c != p[0] ==> Wf(n.children[c]))
  }

  lemma {:induction false} WfAt<V>(n: Node<V>, p: Key)
    requires Wf(n) && ValidPath(n, p)
    ensures Wf(NodeAt(n, p)) && WfExcept(n, p)
    decreases p
  {
    if p != [] {
      WfAt(n.children[p[0]], p[1..]);
    }
  }

  lemma {:induction false} WfUpdate<V>(n: Node<V>, p: Key, s: Node<V>)
    requires ValidPath(n, p) && WfExcept(n, p)
    ensures Wf(s) ==> Wf(Update(n, p, s))
    ensures WfExcept(Update(n, p, s), p)
    decreases p
  {
    if p != [] {
      WfUpdate(n.children[p[0]], p[1..], s);
      assert p[0] in Update(n, p, s).children;
    }
  }

  lemma {:induction false} WfExceptInit<V>(n: Node<V>, p: Key, c: Byte)
    requires WfExcept(n, p + [c])
    ensures WfExcept(n, p) && ValidPath(n, p) && WfExcept(NodeAt(n, p), [c])
    decreases p
  {
    if p != [] {
      assert (p + [c])[1..] == p[1..] + [c];
      WfExceptInit(n.children[p[0]], p[1..], c);
    } else {
      assert (p + [c]) == [c];
    }
  }

  lemma {:induction false} BoundedMonotone<V>(n: Node<V>, s: nat, t: nat)
    requires Bounded(n, s) && s <= t
    ensures Bounded(n, t)
  {
    match n
    case Hash(_) =>
    case Trie(_, ch) =>
      forall c | c in ch ensures Bounded(ch[c], t) {
        BoundedMonotone(ch[c], s, t);
      }
  }

  lemma {:induction false} BoundedAt<V>(n: Node<V>, p: Key, t: nat)
    requires Bounded(n, t) && ValidPath(n, p)
    ensures Bounded(NodeAt(n, p), t)
    decreases p
  {
    if p != [] {
      BoundedAt(n.children[p[0]], p[1..], t);
    }
  }

  lemma {:induction false} BoundedUpdate<V>(n: Node<V>, p: Key, s: Node<V>, t: nat)
    requires ValidPath(n, p) && Bounded(n, t) && Bounded(s, t)
    ensures Bounded(Update(n, p, s), t)
    decreases p
  {
    if p != [] {
      BoundedUpdate(n.children[p[0]], p[1..], s, t);
    }
  }

  // ---------- where the trie nodes are ----------

  predicate IsTrieAt<V>(n: Node<V>, p: Key) {
    ValidPath(n, p) && NodeAt(n, p).Trie?
  }

  /** There are no trie nodes in n' but where n has one. */
  ghost predicate NoMoreTries<V>(n: Node<V>, n': Node<V>) {
    forall p :: IsTrieAt(n', p) ==> IsTrieAt(n, p)
  }

  lemma {:induction false} TrieAtUpdate<V>(n: Node<V>, p: Key, s: Node<V>, q: Key)
    requires ValidPath(n, p)
    ensures IsTrieAt(Update(n, p, s), q) <==> if p <= q then IsTrieAt(s, q[|p|..]) else IsTrieAt(n, q)
    ensures p <= q ==> (IsTrieAt(n, q) <==> IsTrieAt(NodeAt(n, p), q[|p|..]))
    decreases |p|
  {
    if p == [] {
      assert q[0..] == q;
    } else if q != [] && q[0] == p[0] {
      TrieAtUpdate(n.children[p[0]], p[1..], s, q[1..]);
      assert p <= q <==> p[1..] <= q[1..] by {
        assert p == [p[0]] + p[1..] && q == [q[0]] + q[1..];
      }
      if p <= q {
        assert q[|p|..] == q[1..][|p[1..]|..];
      }
    }
  }

  lemma NoMoreTriesUpdate<V>(n: Node<V>, p: Key, s: Node<V>)
    requires ValidPath(n, p) && NoMoreTries(NodeAt(n, p), s)
    ensures NoMoreTries(n, Update(n, p, s))
  {
    forall q | IsTrieAt(Update(n, p, s), q) ensures IsTrieAt(n, q) {
      TrieAtUpdate(n, p, s, q);
    }
  }

  /** A child that is a bucket is no trie node. */
  lemma BucketChild<V>(v: Option<V>, ch: map<Byte, Node<V>>, w: Option<V>, c: Byte, b: seq<Entry<V>>)
    ensures NoMoreTries(Trie(v, ch), Trie(w, ch)) && NoMoreTries(Trie(v, ch), Trie(w, ch[c := Hash(b)]))
  {
    var s := Trie(w, ch[c := Hash(b)]);
    forall p | IsTrieAt(s, p) ensures IsTrieAt(Trie(v, ch), p) {
      if p != [] {
        assert IsTrieAt(s.children[p[0]], p[1..]);
      }
    }
  }

  lemma NoTries<V>(n: Node<V>, b: seq<Entry<V>>)
    ensures NoMoreTries(n, Hash(b))
  {
  }

  // ---------- changes of the map ----------

  /** n' maps key to r and everything else as n does. */
  ghost predicate Differs<V>(n: Node<V>, n': Node<V>, key: Key, r: Option<V>) {
    forall k :: Lookup(n', k) == if k == key then r else Lookup(n, k)
  }

  ghost predicate SameMap<V>(n: Node<V>, n': Node<V>) {
    forall k :: Lookup(n', k) == Lookup(n, k)
  }

  /** n' is n without the keys that start with p. */
  ghost predicate WithoutPrefix<V>(n: Node<V>, n': Node<V>, p: Key) {
    forall k :: Lookup(n', k) == if p <= k then None else Lookup(n, k)
  }

  lemma UpdateDiffers<V>(n: Node<V>, p: Key, s: Node<V>, key: Key, r: Option<V>)
    requires ValidPath(n, p) && Differs(NodeAt(n, p), s, key, r)
    ensures Differs(n, Update(n, p, s), p + key, r)
  {
    forall k ensures Lookup(Update(n, p, s), k) == if k == p + key then r else Lookup(n, k) {
      LookupUpdate(n, p, s, k);
      if p <= k {
        LookupAt(n, p, k);
        assert k == p + k[|p|..];
        assert k == p + key <==> k[|p|..] == key;
      }
    }
  }

  lemma UpdateSame<V>(n: Node<V>, p: Key, s: Node<V>)
    requires ValidPath(n, p) && SameMap(NodeAt(n, p), s)
    ensures SameMap(n, Update(n, p, s))
  {
    forall k ensures Lookup(Update(n, p, s), k) == Lookup(n, k) {
      LookupUpdate(n, p, s, k);
      if p <= k {
        LookupAt(n, p, k);
      }
    }
  }

  lemma PrefixBelow(p: Key, q: Key, k: Key)
    requires p <= k
    ensures p + q <= k <==> q <= k[|p|..]
  {
    assert k == p + k[|p|..];
    if q <= k[|p|..] {
      assert k[|p|..] == q + k[|p|..][|q|..];
      assert k == (p + q) + k[|p|..][|q|..];
    }
    if p + q <= k {
      assert k[|p|..][..|q|] == q;
    }
  }

  lemma UpdateWithout<V>(n: Node<V>, p: Key, s: Node<V>, q: Key)
    requires ValidPath(n, p) && WithoutPrefix(NodeAt(n, p), s, q)
    ensures WithoutPrefix(n, Update(n, p, s), p + q)
  {
    forall k ensures Lookup(Update(n, p, s), k) == if p + q <= k then None else Lookup(n, k) {
      LookupUpdate(n, p, s, k);
      if p <= k {
        LookupAt(n, p, k);
        PrefixBelow(p, q, k);
      }
    }
  }

  lemma SameThenDiffers<V>(a: Node<V>, b: Node<V>, c: Node<V>, key: Key, r: Option<V>)
    requires SameMap(a, b) && Differs(b, c, key, r)
    ensures Differs(a, c, key, r)
  {
  }

  lemma SameKeys<V>(n: Node<V>, n': Node<V>)
    requires SameMap(n, n')
    ensures KeySet(n') == KeySet(n)
  {
    forall k ensures k in KeySet(n') <==> k in KeySet(n) {
      KeySetIs(n, k);
      KeySetIs(n', k);
    }
  }

  lemma DiffersKeySet<V>(n: Node<V>, n': Node<V>, key: Key, r: Option<V>)
    requires Differs(n, n', key, r)
    ensures KeySet(n') == if r.Some? then KeySet(n) + {key} else KeySet(n) - {key}
  {
    hide KeySet, Lookup;
    forall k ensures k in KeySet(n') <==> if k == key then r.Some? else k in KeySet(n) {
      KeySetIs(n, k);
      KeySetIs(n', k);
    }
  }

  lemma DiffersKeys<V>(n: Node<V>, n': Node<V>, key: Key, r: Option<V>)
    requires Differs(n, n', key, r)
    ensures Lookup(n, key).None? && r.Some? ==> |KeySet(n')| == |KeySet(n)| + 1
    ensures Lookup(n, key).Some? && r.None? ==> |KeySet(n')| == |KeySet(n)| - 1
    ensures Lookup(n, key).Some? == r.Some? ==> KeySet(n') == KeySet(n)
  {
    hide KeySet, Lookup, Differs;
    DiffersKeySet(n, n', key, r);
    KeySetIs(n, key);
  }

  ghost function WithPrefix(s: set<Key>, p: Key): set<Key> {
    set k | k in s && p <= k
  }

  lemma WithoutKeys<V>(n: Node<V>, n': Node<V>, p: Key)
    requires WithoutPrefix(n, n', p)
    ensures KeySet(n') == KeySet(n) - WithPrefix(KeySet(n), p)
    ensures |KeySet(n')| == |KeySet(n)| - |WithPrefix(KeySet(n), p)|
  {
    hide KeySet, Lookup;
    forall k ensures k in KeySet(n') <==> k in KeySet(n) && !(p <= k) {
      KeySetIs(n, k);
      KeySetIs(n', k);
    }
    assert KeySet(n') == KeySet(n) - WithPrefix(KeySet(n), p);
    assert WithPrefix(KeySet(n), p) <= KeySet(n);
  }

  ghost function Extend(p: Key, s: set<Key>): set<Key> {
    set k | k in s :: p + k
  }

  lemma ConcatInjective(p: Key, j: Key, k: Key)
    requires p + j == p + k
    ensures j == k
  {
    assert (p + j)[|p|..] == j && (p + k)[|p|..] == k;
  }

  lemma {:induction false} ExtendSize(p: Key, s: set<Key>)
    ensures |Extend(p, s)| == |s|
    decreases |s|
  {
    if s != {} {
      var k := PickKey(s);
      ExtendSize(p, s - {k});
      assert Extend(p, s) == Extend(p, s - {k}) + {p + k};
      forall j | j in s - {k} ensures p + j != p + k {
        if p + j == p + k { ConcatInjective(p, j, k); }
      }
    }
  }

  lemma PickKey(s: set<Key>) returns (k: Key)
    requires s != {}
    ensures k in s
  {
    k :| k in s;
  }

  /** The keys below a node are the keys of the tree that start with its path. */
  lemma KeysBelow<V>(n: Node<V>, p: Key)
    requires ValidPath(n, p)
    ensures WithPrefix(KeySet(n), p) == Extend(p, KeySet(NodeAt(n, p)))
    ensures |WithPrefix(KeySet(n), p)| == |KeySet(NodeAt(n, p))|
  {
    hide KeySet, Lookup, NodeAt, ValidPath;
    var a, b := WithPrefix(KeySet(n), p), Extend(p, KeySet(NodeAt(n, p)));
    forall k | k in a ensures k in b {
      LookupAt(n, p, k);
      KeySetIs(n, k);
      KeySetIs(NodeAt(n, p), k[|p|..]);
      assert k == p + k[|p|..];
    }
    forall k | k in b ensures k in a {
      var j :| j in KeySet(NodeAt(n, p)) && k == p + j;
      assert k[|p|..] == j;
      LookupAt(n, p, k);
      KeySetIs(n, k);
      KeySetIs(NodeAt(n, p), j);
    }
    ExtendSize(p, KeySet(NodeAt(n, p)));
  }

  // ---------- single steps ----------

  lemma NewChild<V>(v: Option<V>, ch: map<Byte, Node<V>>, key: Key, value: V)
    requires key != [] && key[0] !in ch && Wf(Trie(v, ch))
    ensures var s := Trie(v, ch[key[0] := Hash([Entry(key[1..], value)])]);
      Wf(s) && Differs(Trie(v, ch), s, key, Some(value)) && Lookup(Trie(v, ch), key) == None
  {
    var n, s := Trie(v, ch), Trie(v, ch[key[0] := Hash([Entry(key[1..], value)])]);
    assert key[0] in s.children;
    forall k ensures Lookup(s, k) == if k == key then Some(value) else Lookup(n, k) {
      if k != [] && k[0] == key[0] {
        assert k == [k[0]] + k[1..] && key == [key[0]] + key[1..];
      }
    }
  }

  lemma NewValue<V>(v: Option<V>, ch: map<Byte, Node<V>>, value: V)
    requires Wf(Trie(v, ch))
    ensures Wf(Trie(Some(value), ch)) && Differs(Trie(v, ch), Trie(Some(value), ch), [], Some(value))
  {
  }

  lemma NewEntry<V>(b: seq<Entry<V>>, key: Key, value: V)
    requires Distinct(b) && IndexOf(b, key) == |b|
    ensures Wf(Hash(b + [Entry(key, value)])) && Differs(Hash(b), Hash(b + [Entry(key, value)]), key, Some(value))
    ensures IndexOf(b + [Entry(key, value)], key) == |b|
  {
    forall k ensures Get(b + [Entry(key, value)], k) == if k == key then Some(value) else Get(b, k) {
      GetAppend(b, Entry(key, value), k);
    }
    assert Distinct(b + [Entry(key, value)]) by { GetAppend(b, Entry(key, value), key); }
    assert (b + [Entry(key, value)])[|b|] == Entry(key, value);
  }

  /** One entry of a bursting bucket goes to the bucket for its first character. */
  function BurstStep<V>(n: Node<V>, e: Entry<V>): Node<V>
    requires n.Trie?
  {
    if e.key == [] then Trie(Some(e.value), n.children)
    else
      var b := if e.key[0] in n.children && n.children[e.key[0]].Hash? then n.children[e.key[0]].bucket else [];
      Trie(n.val, n.children[e.key[0] := Hash(b + [Entry(e.key[1..], e.value)])])
  }

  /** Children of a node that is being filled by a burst. */
  ghost predicate Buckets<V>(n: Node<V>, t: nat) {
    n.Trie? && forall c :: c in n.children ==>
      n.children[c].Hash? && n.children[c].bucket != [] && Distinct(n.children[c].bucket) && |n.children[c].bucket| <= t
  }

  lemma BurstStepIs<V>(n: Node<V>, e: Entry<V>, t: nat)
    requires Buckets(n, t) && Lookup(n, e.key) == None
    ensures Buckets(BurstStep(n, e), t + 1) && Differs(n, BurstStep(n, e), e.key, Some(e.value))
  {
    var s := BurstStep(n, e);
    if e.key != [] {
      var c := e.key[0];
      var b := if c in n.children then n.children[c].bucket else [];
      assert IndexOf(b, e.key[1..]) == |b|;
      NewEntry(b, e.key[1..], e.value);
      assert s.children[c] == Hash(b + [Entry(e.key[1..], e.value)]);
      forall k ensures Lookup(s, k) == if k == e.key then Some(e.value) else Lookup(n, k) {
        if k != [] && k[0] == c {
          assert k == [c] + k[1..] && e.key == [c] + e.key[1..];
          assert Lookup(s, k) == Lookup(Hash(b + [Entry(e.key[1..], e.value)]), k[1..]);
          assert Lookup(n, k) == Lookup(Hash(b), k[1..]);
        }
      }
    }
  }

  // ---------- removing ----------

  ghost predicate IsEmptyNode<V>(n: Node<V>) {
    n == Hash([]) || n == Trie(None, map[])
  }

  lemma BucketKeys<V>(b: seq<Entry<V>>)
    requires Distinct(b)
    ensures |KeySet(Hash(b))| == |b|
  {
    if b != [] {
      var c := b[..|b| - 1];
      BucketKeys(c);
      assert KeySet(Hash(b)) == KeySet(Hash(c)) + {b[|b| - 1].key};
    }
  }

  /** Replacing a subtree changes the number of keys by the difference of the subtrees. */
  lemma UpdateSize<V>(n: Node<V>, p: Key, s: Node<V>)
    requires ValidPath(n, p)
    ensures |KeySet(Update(n, p, s))| == |KeySet(n)| - |KeySet(NodeAt(n, p))| + |KeySet(s)|
  {
    hide KeySet, Update, Lookup, WithPrefix;
    var u := Update(n, p, s);
    UpdatePath(n, p, s);
    KeysBelow(n, p);
    KeysBelow(u, p);
    KeysBeside(n, p, s);
  }

  lemma KeysBeside<V>(n: Node<V>, p: Key, s: Node<V>)
    requires ValidPath(n, p)
    ensures var u := Update(n, p, s);
      |KeySet(n)| - |WithPrefix(KeySet(n), p)| == |KeySet(u)| - |WithPrefix(KeySet(u), p)|
  {
    hide KeySet, Update, Lookup;
    var u := Update(n, p, s);
    var a, b := WithPrefix(KeySet(n), p), WithPrefix(KeySet(u), p);
    forall k ensures k in KeySet(n) - a <==> k in KeySet(u) - b {
      KeySetIs(n, k);
      KeySetIs(u, k);
      LookupUpdate(n, p, s, k);
    }
    assert KeySet(n) - a == KeySet(u) - b;
    MinusSize(KeySet(n), a);
    MinusSize(KeySet(u), b);
  }

  lemma MinusSize<T>(s: set<T>, a: set<T>)
    requires a <= s
    ensures |s - a| == |s| - |a|
  {
    assert s == a + (s - a);
  }

  /** Taking an empty child away from a node that keeps something else. */
  lemma DropChild<V>(v: Option<V>, ch: map<Byte, Node<V>>, c: Byte)
    requires c in ch && IsEmptyNode(ch[c]) && WfExcept(Trie(v, ch), [c]) && (v.Some? || |ch| > 1)
    ensures Wf(Trie(v, ch - {c})) && SameMap(Trie(v, ch), Trie(v, ch - {c}))
  {
    assert (ch - {c}).Keys == ch.Keys - {c};
    assert |ch.Keys - {c}| == |ch| - 1;
  }

  /** A node with an empty child and nothing else stores nothing. */
  lemma OnlyChild<V>(v: Option<V>, ch: map<Byte, Node<V>>, c: Byte)
    requires c in ch && IsEmptyNode(ch[c]) && v.None? && |ch| <= 1
    ensures SameMap(Trie(v, ch), ch[c])
  {
    assert ch.Keys == {c} by {
      assert {c} <= ch.Keys;
      if ch.Keys != {c} {
        var d :| d in ch.Keys && d != c;
        assert |{c, d}| <= |ch.Keys| by { SubsetSize({c, d}, ch.Keys); }
      }
    }
  }

  lemma SubsetSize<T>(s: set<T>, t: set<T>)
    requires s <= t
    ensures |s| <= |t|
  {
    assert t == s + (t - s);
  }

  /** A missing child means that no key continues that way. */
  lemma NothingBelow<V>(n: Node<V>, p: Key, c: Byte, q: Key)
    requires ValidPath(n, p) && NodeAt(n, p).Trie? && c !in NodeAt(n, p).children && p + [c] <= q
    ensures WithoutPrefix(n, n, q)
  {
    forall k | q <= k ensures Lookup(n, k) == None {
      assert k[..|p| + 1] == q[..|p| + 1] == p + [c];
      assert p <= k && k[|p|..][0] == c;
      LookupAt(n, p, k);
    }
  }

  /** What the loop of `erase_prefix_hash_node` has done to a bucket up to index i. */
  ghost predicate Filtered<V>(b: seq<Entry<V>>, b': seq<Entry<V>>, f: Key, i: nat) {
    && Distinct(b') && i <= |b'|
    && (forall j :: 0 <= j < i ==> !(f <= b'[j].key))
    && (forall k :: Get(b', k) == Get(b, k) || (f <= k && Get(b', k) == None))
  }

  lemma FilterStep<V>(b: seq<Entry<V>>, b': seq<Entry<V>>, f: Key, i: nat)
    requires Filtered(b, b', f, i) && i < |b'|
    ensures f <= b'[i].key ==> Filtered(b, b'[..i] + b'[i + 1..], f, i)
    ensures !(f <= b'[i].key) ==> Filtered(b, b', f, i + 1)
  {
    if f <= b'[i].key {
      var c := b'[..i] + b'[i + 1..];
      forall k ensures Get(c, k) == Get(b, k) || (f <= k && Get(c, k) == None) {
        GetRemove(b', i, k);
      }
      GetRemove(b', i, []);
    }
  }

  lemma FilterDone<V>(b: seq<Entry<V>>, b': seq<Entry<V>>, f: Key)
    requires Filtered(b, b', f, |b'|)
    ensures WithoutPrefix(Hash(b), Hash(b'), f)
  {
    forall k ensures Get(b', k) == if f <= k then None else Get(b, k) {
      assert f <= k ==> IndexOf(b', k) == |b'|;
    }
  }
}
