/** Iterators of the HAT-trie, which climb and descend with loops, and the read-only prefix queries. */
module TrieWalk {
  import opened Options
  import opened TrieNode
  import opened TrieOrder

  /** `first_child` (from == 0) and `next_child`: the first child at or after a character, or 256. */
  method NextChild<V>(n: Node<V>, from: nat) returns (c: nat)
    requires n.Trie? && from <= 256
    ensures from <= c <= 256 && (c < 256 ==> c in n.children)
    ensures forall e :: from <= e < c ==> e !in n.children
  {
    c := from;
    while c < 256 && c !in n.children
      invariant from <= c <= 256 && forall e :: from <= e < c ==> e !in n.children
    {
      c := c + 1;
    }
  }

  /** `cbegin(node)`: the first position in the subtree at path p. */
  method First<V>(root: Node<V>, p: Key) returns (it: Position)
    requires Wf(root) && ValidPath(root, p)
    ensures Stands(root, it) && it != End && (it.AtEntry? ==> it.index == 0)
    ensures Remaining(root, it) == Positions(NodeAt(root, p), p) + After(root, p)
    ensures p <= it.path
  {
    hide Wf, ValidPath, After, ChildPositions;
    var q: Key := p;
    ghost var all := Positions(NodeAt(root, p), p) + After(root, p);
    while NodeAt(root, q).Trie?
      invariant ValidPath(root, q) && p <= q
      invariant Positions(NodeAt(root, q), q) + After(root, q) == all
      decreases NodeAt(root, q)
    {
      var n := NodeAt(root, q);
      if n.val.Some? {
        return AtValue(q);
      }
      var c := NextChild(n, 0);
      SomeChild(root, q, c);
      var d: Byte := c;
      EnterChild(root, q, 0, d);
      assert q <= q + [d];
      q := q + [d];
    }
    BucketNotEmpty(root, q);
    it := AtEntry(q, 0);
  }

  /** `set_next_node_ascending` and `cend(node)`: the first position after the subtree at path p. */
  method Ascend<V>(root: Node<V>, p: Key) returns (it: Position)
    requires Wf(root) && ValidPath(root, p)
    ensures Stands(root, it) && Remaining(root, it) == After(root, p) && (it.AtEntry? ==> it.index == 0)
  {
    hide Wf, ValidPath, ChildPositions, Positions, Stands, Remaining, After;
    var q := p;
    while q != []
      invariant ValidPath(root, q) && After(root, q) == After(root, p)
      decreases |q|
    {
      var r, c := q[..|q| - 1], q[|q| - 1];
      assert q == r + [c];
      PathInit(root, r, c);
      AfterSnoc(root, r, c);
      var from: nat := c;
      var d := NextChild(NodeAt(root, r), from + 1);
      if d < 256 {
        EnterChild(root, r, from + 1, d);
        it := First(root, r + [d]);
        return;
      }
      NoMoreChildren(NodeAt(root, r), r, from + 1);
      q := r;
    }
    AtEnd(root);
    it := End;
  }

  /** `operator++`. */
  method Increment<V>(root: Node<V>, it: Position) returns (next: Position)
    requires Wf(root) && Stands(root, it) && it != End
    ensures Stands(root, next) && Remaining(root, next) == Remaining(root, it)[1..]
    ensures it.AtValue? && next.AtEntry? ==> next.index == 0
  {
    hide Wf, ValidPath, After, Stands, Remaining;
    if it.AtValue? {
      next := AfterValue(root, it.path);
    } else {
      next := AfterEntry(root, it.path, it.index);
    }
  }

  method AfterValue<V>(root: Node<V>, p: Key) returns (next: Position)
    requires Wf(root) && Stands(root, AtValue(p))
    ensures Stands(root, next) && Remaining(root, next) == Remaining(root, AtValue(p))[1..]
    ensures next.AtEntry? ==> next.index == 0
  {
    hide Wf, ValidPath, After, ChildPositions, Positions, Remaining;
    var n := NodeAt(root, p);
    RemainingValue(root, p);
    var c := NextChild(n, 0);
    if c < 256 {
      var d: Byte := c;
      EnterChild(root, p, 0, d);
      next := First(root, p + [d]);
    } else {
      NoMoreChildren(n, p, 0);
      next := Ascend(root, p);
    }
  }

  method AfterEntry<V>(root: Node<V>, p: Key, i: nat) returns (next: Position)
    requires Wf(root) && Stands(root, AtEntry(p, i))
    ensures Stands(root, next) && Remaining(root, next) == Remaining(root, AtEntry(p, i))[1..]
  {
    hide Wf, ValidPath, After, Remaining;
    RemainingEntry(root, p, i);
    if i + 1 < |NodeAt(root, p).bucket| {
      next := AtEntry(p, i + 1);
    } else {
      next := Ascend(root, p);
    }
  }

  lemma RemainingValue<V>(root: Node<V>, p: Key)
    requires Stands(root, AtValue(p))
    ensures Remaining(root, AtValue(p))[1..] == ChildPositions(NodeAt(root, p), p, 0) + After(root, p)
  {
  }

  lemma RemainingEntry<V>(root: Node<V>, p: Key, i: nat)
    requires Stands(root, AtEntry(p, i))
    ensures Remaining(root, AtEntry(p, i))[1..] ==
      if i + 1 < |NodeAt(root, p).bucket| then Remaining(root, AtEntry(p, i + 1)) else After(root, p)
  {
  }

  lemma SomeChild<V>(root: Node<V>, q: Key, c: nat)
    requires Wf(root) && ValidPath(root, q) && NodeAt(root, q).Trie? && NodeAt(root, q).val.None?
    requires c <= 256 && forall e :: 0 <= e < c ==> e !in NodeAt(root, q).children
    ensures c < 256
  {
    WfAt(root, q);
    var ch := NodeAt(root, q).children;
    var e: Byte :| e in ch;
    assert c <= e;
  }

  lemma BucketNotEmpty<V>(root: Node<V>, q: Key)
    requires Wf(root) && ValidPath(root, q) && NodeAt(root, q).Hash?
    ensures |NodeAt(root, q).bucket| > 0 && Distinct(NodeAt(root, q).bucket)
  {
    WfAt(root, q);
  }

  lemma NoMoreChildren<V>(n: Node<V>, p: Key, c: nat)
    requires n.Trie? && c <= 256 && forall e :: c <= e < 256 ==> e !in n.children
    ensures ChildPositions(n, p, c) == []
  {
    ChildPositionsSkip(n, p, c, 256);
  }

  lemma AtEnd<V>(root: Node<V>)
    ensures ValidPath(root, []) && After(root, []) == [] && Stands(root, End) && Remaining(root, End) == []
  {
  }

  // ---------- counting a subtree ----------

  /** An iterator has k positions of the subtree at p behind it. */
  ghost predicate Within<V>(root: Node<V>, p: Key, it: Position, k: nat)
    requires ValidPath(root, p)
  {
    var ps := Positions(NodeAt(root, p), p);
    k <= |ps| && Stands(root, it) && Remaining(root, it) == ps[k..] + After(root, p)
  }

  /** Comparing with `cend` tells whether the subtree is exhausted. */
  lemma WithinEnd<V>(root: Node<V>, p: Key, it: Position, k: nat, last: Position)
    requires ValidPath(root, p) && Within(root, p, it, k)
    requires Stands(root, last) && Remaining(root, last) == After(root, p)
    ensures Stands(root, it) && (it == last <==> k == |Positions(NodeAt(root, p), p)|)
    ensures it != last ==> it != End && it == Positions(NodeAt(root, p), p)[k] && p <= it.path
    ensures |Positions(NodeAt(root, p), p)| == |KeyList(NodeAt(root, p))|
    ensures it != last ==> k < |KeyList(NodeAt(root, p))| && KeyAt(root, it) == p + KeyList(NodeAt(root, p))[k]
  {
    hide Positions, After, Remaining, KeyList, Stands;
    RemainingHead(root, it);
    RemainingHead(root, last);
    var ps, n := Positions(NodeAt(root, p), p), NodeAt(root, p);
    PositionsMatch(root, p);
    if k < |ps| {
      assert Denotes(root, p, ps[k], KeyList(n)[k]);
      if After(root, p) != [] {
        AfterOutside(root, p, 0);
      }
    }
  }

  lemma WithinNext<V>(root: Node<V>, p: Key, it: Position, k: nat, next: Position)
    requires ValidPath(root, p) && Within(root, p, it, k) && k < |Positions(NodeAt(root, p), p)|
    requires Stands(root, next) && Remaining(root, next) == Remaining(root, it)[1..]
    ensures Within(root, p, next, k + 1)
  {
    hide Positions, After, Remaining, Stands;
  }

  lemma WithinSkip<V>(root: Node<V>, p: Key, it: Position, k: nat, next: Position)
    requires ValidPath(root, p) && Within(root, p, it, k) && it.AtEntry? && it.index == 0 && p <= it.path
    requires Stands(root, next) && Remaining(root, next) == After(root, it.path)
    ensures Within(root, p, next, k + |NodeAt(root, it.path).bucket|)
  {
    hide Positions, After, ValidPath, BucketPositions;
    AfterShrinks(root, p, it.path);
    var ps, b := Positions(NodeAt(root, p), p), NodeAt(root, it.path).bucket;
    SplitLonger(BucketPositions(it.path, 0, |b|), After(root, it.path), ps[k..], After(root, p));
    assert ps[k..][|b|..] == ps[k + |b|..];
  }

  lemma SplitLonger<T>(a: seq<T>, b: seq<T>, c: seq<T>, d: seq<T>)
    requires a + b == c + d && |d| <= |b|
    ensures |a| <= |c| && b == c[|a|..] + d
  {
    assert b == (a + b)[|a|..] == (c + d)[|a|..];
  }

  lemma KeyListSize<V>(n: Node<V>)
    requires Wf(n)
    ensures |KeyList(n)| == |KeySet(n)|
  {
    hide KeyList, KeySet;
    KeyListDistinct(n);
    forall k ensures k in KeyList(n) <==> k in KeySet(n) {
      KeyListIs(n, k);
      KeySetIs(n, k);
    }
    DistinctSize(KeyList(n), KeySet(n));
  }

  lemma {:induction false} DistinctSize<T>(s: seq<T>, t: set<T>)
    requires NoDuplicates(s) && forall x :: x in s <==> x in t
    ensures |s| == |t|
    decreases |s|
  {
    if s == [] {
      assert t == {};
    } else {
      var x, r := s[0], s[1..];
      assert s == [x] + r;
      assert x !in r;
      assert forall y :: y in r <==> y in t - {x};
      DistinctSize(r, t - {x});
    }
  }

  /** `size_descendants`: adds up whole buckets. */
  method SizeDescendants<V>(root: Node<V>, p: Key) returns (nb: nat)
    requires Wf(root) && ValidPath(root, p)
    ensures nb == |KeySet(NodeAt(root, p))|
  {
    hide Wf, ValidPath, Positions, After, Remaining, KeySet, Within, KeyList;
    ghost var total := |Positions(NodeAt(root, p), p)|;
    var first := First(root, p);
    var last := Ascend(root, p);
    nb := 0;
    WithinStart(root, p, first);
    WithinEnd(root, p, first, nb, last);
    while first != last
      invariant nb <= total && Within(root, p, first, nb)
      invariant Stands(root, first) && (first.AtEntry? ==> first.index == 0)
      invariant first == last <==> nb == total
      invariant first != last ==> first != End && p <= first.path
      decreases total - nb
    {
      var next;
      match first {
        case AtValue(_) =>
          next := Increment(root, first);
          WithinNext(root, p, first, nb, next);
          nb := nb + 1;
        case AtEntry(q, _) =>
          BucketNotEmpty(root, q);
          next := Ascend(root, q);
          WithinSkip(root, p, first, nb, next);
          nb := nb + |NodeAt(root, q).bucket|;
      }
      first := next;
      WithinBound(root, p, first, nb);
      WithinEnd(root, p, first, nb, last);
    }
    WfAt(root, p);
    WithinEnd(root, p, first, nb, last);
    KeyListSize(NodeAt(root, p));
  }

  lemma WithinStart<V>(root: Node<V>, p: Key, it: Position)
    requires ValidPath(root, p) && Stands(root, it)
    requires Remaining(root, it) == Positions(NodeAt(root, p), p) + After(root, p)
    ensures Within(root, p, it, 0)
  {
  }

  lemma WithinBound<V>(root: Node<V>, p: Key, it: Position, k: nat)
    requires ValidPath(root, p) && Within(root, p, it, k)
    ensures k <= |Positions(NodeAt(root, p), p)|
  {
  }

  // ---------- prefixes of a string ----------

  /** Among the stored keys that are prefixes of `value` shorter than `bound`, `it` is the longest. */
  ghost predicate LongestBelow<V>(root: Node<V>, value: Key, it: Position, bound: nat) {
    bound <= |value| + 1 &&
    if it == End then
      forall j :: 0 <= j < bound ==> Lookup(root, value[..j]).None?
    else
      && Stands(root, it) && |KeyAt(root, it)| < bound && KeyAt(root, it) == value[..|KeyAt(root, it)|]
      && Lookup(root, KeyAt(root, it)) == Some(ValueAt(root, it))
      && forall j :: |KeyAt(root, it)| < j < bound ==> Lookup(root, value[..j]).None?
  }

  lemma LookupPrefix<V>(root: Node<V>, value: Key, i: nat, j: nat)
    requires i <= j <= |value| && ValidPath(root, value[..i])
    ensures Lookup(root, value[..j]) == Lookup(NodeAt(root, value[..i]), value[i..j])
  {
    assert value[..i] <= value[..j] && value[..j][i..] == value[i..j];
    LookupAt(root, value[..i], value[..j]);
  }

  /** A missing child cuts off all longer prefixes. */
  lemma LongestCut<V>(root: Node<V>, value: Key, it: Position, i: nat)
    requires i < |value| && ValidPath(root, value[..i]) && NodeAt(root, value[..i]).Trie?
    requires value[i] !in NodeAt(root, value[..i]).children && LongestBelow(root, value, it, i + 1)
    ensures LongestBelow(root, value, it, |value| + 1)
  {
    forall j | i + 1 <= j <= |value| ensures Lookup(root, value[..j]).None? {
      LookupPrefix(root, value, i, j);
      assert value[i..j][0] == value[i];
    }
  }

  /** The node itself holds the prefix of its own length. */
  lemma LongestAtNode<V>(root: Node<V>, value: Key, it: Position, i: nat)
    requires i <= |value| && ValidPath(root, value[..i]) && NodeAt(root, value[..i]).Trie?
      && LongestBelow(root, value, it, i)
    ensures LongestBelow(root, value, if NodeAt(root, value[..i]).val.Some? then AtValue(value[..i]) else it, i + 1)
  {
    LookupPrefix(root, value, i, i);
  }

  lemma LongestAtEntry<V>(root: Node<V>, value: Key, it: Position, i: nat, m: nat)
    requires i <= m <= |value| && ValidPath(root, value[..i]) && NodeAt(root, value[..i]).Hash?
    requires var b := NodeAt(root, value[..i]).bucket;
      && IndexOf(b, value[i..m]) < |b|
      && forall j :: m < j <= |value| ==> IndexOf(b, value[i..j]) == |b|
    ensures LongestBelow(root, value, AtEntry(value[..i], IndexOf(NodeAt(root, value[..i]).bucket, value[i..m])),
      |value| + 1)
  {
    assert value[..i] + value[i..m] == value[..m];
    LookupPrefix(root, value, i, m);
    forall j | m < j <= |value| ensures Lookup(root, value[..j]).None? {
      LookupPrefix(root, value, i, j);
    }
  }

  lemma LongestNoEntry<V>(root: Node<V>, value: Key, it: Position, i: nat)
    requires i <= |value| && ValidPath(root, value[..i]) && NodeAt(root, value[..i]).Hash?
      && LongestBelow(root, value, it, i)
    requires forall j :: i <= j <= |value| ==>
      IndexOf(NodeAt(root, value[..i]).bucket, value[i..j]) == |NodeAt(root, value[..i]).bucket|
    ensures LongestBelow(root, value, it, |value| + 1)
  {
    forall j | i <= j <= |value| ensures Lookup(root, value[..j]).None? {
      LookupPrefix(root, value, i, j);
    }
  }

  /** `longest_prefix_impl`: the longest stored key that is a prefix of `value`. */
  method LongestPrefix<V>(root: Node<V>, value: Key) returns (it: Position)
    ensures LongestBelow(root, value, it, |value| + 1)
  {
    hide Lookup, LongestBelow;
    it := End;
    NothingBelowZero(root, value);
    for i := 0 to |value|
      invariant ValidPath(root, value[..i]) && LongestBelow(root, value, it, i)
    {
      var p := value[..i];
      match NodeAt(root, p) {
        case Trie(v, ch) =>
          LongestAtNode(root, value, it, i);
          if v.Some? {
            it := AtValue(p);
          }
          if value[i] !in ch {
            LongestCut(root, value, it, i);
            return;
          }
          PathSnoc(root, p, value[i]);
          assert p + [value[i]] == value[..i + 1];
        case Hash(b) =>
          it := LongestInBucket(root, value, i, it);
          return;
      }
    }
    assert value[..|value|] == value;
    if NodeAt(root, value).Trie? {
      LongestAtNode(root, value, it, |value|);
      if NodeAt(root, value).val.Some? {
        it := AtValue(value);
      }
    } else {
      it := LongestInBucket(root, value, |value|, it);
    }
  }

  lemma NothingBelowZero<V>(root: Node<V>, value: Key)
    ensures LongestBelow(root, value, End, 0)
  {
  }

  /** The inner loop: every remaining length, starting from the longest. */
  method LongestInBucket<V>(root: Node<V>, value: Key, i: nat, found: Position) returns (it: Position)
    requires i <= |value| && ValidPath(root, value[..i]) && NodeAt(root, value[..i]).Hash?
    requires LongestBelow(root, value, found, i)
    ensures LongestBelow(root, value, it, |value| + 1)
  {
    hide Lookup, LongestBelow, ValidPath;
    var b := NodeAt(root, value[..i]).bucket;
    for m := |value| + 1 downto i
      invariant forall j :: m <= j <= |value| ==> IndexOf(b, value[i..j]) == |b|
    {
      var j := IndexOf(b, value[i..m]);
      if j < |b| {
        LongestAtEntry(root, value, found, i, m);
        return AtEntry(value[..i], j);
      }
    }
    LongestNoEntry(root, value, found, i);
    return found;
  }

  /** The stored prefixes of `value` shorter than n, in increasing length. */
  ghost function StoredPrefixes<V>(root: Node<V>, value: Key, n: nat): seq<Key>
    requires n <= |value| + 1
  {
    if n == 0 then []
    else if Lookup(root, value[..n - 1]).Some? then StoredPrefixes(root, value, n - 1) + [value[..n - 1]]
    else StoredPrefixes(root, value, n - 1)
  }

  lemma {:induction false} StoredPrefixesAre<V>(root: Node<V>, value: Key, n: nat, k: Key)
    requires n <= |value| + 1
    ensures k in StoredPrefixes(root, value, n) <==> k <= value && |k| < n && Lookup(root, k).Some?
  {
    hide Lookup;
    if n > 0 {
      StoredPrefixesAre(root, value, n - 1, k);
      if k <= value && |k| == n - 1 {
        assert k == value[..n - 1];
      }
    }
  }

  lemma {:induction false} StoredPrefixesIncrease<V>(root: Node<V>, value: Key, n: nat, i: nat, j: nat)
    requires n <= |value| + 1 && i < j < |StoredPrefixes(root, value, n)|
    ensures |StoredPrefixes(root, value, n)[i]| < |StoredPrefixes(root, value, n)[j]|
    decreases n
  {
    hide Lookup;
    var ks := StoredPrefixes(root, value, n - 1);
    if j < |ks| {
      StoredPrefixesIncrease(root, value, n - 1, i, j);
    } else {
      assert ks[i] in ks;
      StoredPrefixesAre(root, value, n - 1, ks[i]);
    }
  }

  lemma {:induction false} NoMorePrefixes<V>(root: Node<V>, value: Key, i: nat, n: nat)
    requires i <= n <= |value| + 1 && forall j :: i <= j < n ==> Lookup(root, value[..j]).None?
    ensures StoredPrefixes(root, value, n) == StoredPrefixes(root, value, i)
    decreases n - i
  {
    if i < n {
      NoMorePrefixes(root, value, i, n - 1);
    }
  }

  /** `for_each_prefix_of_impl`: the keys handed to the visitor, in order. */
  method ForEachPrefixOf<V>(root: Node<V>, value: Key) returns (visited: seq<Key>)
    ensures visited == StoredPrefixes(root, value, |value| + 1)
  {
    hide Lookup;
    visited := [];
    for i := 0 to |value|
      invariant ValidPath(root, value[..i]) && visited == StoredPrefixes(root, value, i)
    {
      var p := value[..i];
      match NodeAt(root, p) {
        case Trie(v, ch) =>
          PrefixAtNode(root, value, i);
          if v.Some? {
            visited := visited + [KeyAt(root, AtValue(p))];
          }
          if value[i] !in ch {
            PrefixesCut(root, value, i);
            return;
          }
          PathSnoc(root, p, value[i]);
          assert p + [value[i]] == value[..i + 1];
        case Hash(b) =>
          visited := VisitBucket(root, value, i, visited);
          return;
      }
    }
    assert value[..|value|] == value;
    match NodeAt(root, value) {
      case Trie(v, ch) =>
        PrefixAtNode(root, value, |value|);
        if v.Some? {
          visited := visited + [KeyAt(root, AtValue(value))];
        }
      case Hash(_) =>
        visited := VisitBucket(root, value, |value|, visited);
    }
  }

  lemma PrefixAtNode<V>(root: Node<V>, value: Key, i: nat)
    requires i <= |value| && ValidPath(root, value[..i]) && NodeAt(root, value[..i]).Trie?
    ensures Lookup(root, value[..i]) == NodeAt(root, value[..i]).val
  {
    LookupPrefix(root, value, i, i);
  }

  lemma PrefixesCut<V>(root: Node<V>, value: Key, i: nat)
    requires i < |value| && ValidPath(root, value[..i]) && NodeAt(root, value[..i]).Trie?
    requires value[i] !in NodeAt(root, value[..i]).children
    ensures StoredPrefixes(root, value, |value| + 1) == StoredPrefixes(root, value, i + 1)
  {
    forall j | i + 1 <= j < |value| + 1 ensures Lookup(root, value[..j]).None? {
      LookupPrefix(root, value, i, j);
      assert value[i..j][0] == value[i];
    }
    NoMorePrefixes(root, value, i + 1, |value| + 1);
  }

  /** The inner loop: every remaining length, starting from the shortest. */
  method VisitBucket<V>(root: Node<V>, value: Key, i: nat, before: seq<Key>) returns (visited: seq<Key>)
    requires i <= |value| && ValidPath(root, value[..i]) && NodeAt(root, value[..i]).Hash?
    requires before == StoredPrefixes(root, value, i)
    ensures visited == StoredPrefixes(root, value, |value| + 1)
  {
    hide Lookup, ValidPath;
    var b := NodeAt(root, value[..i]).bucket;
    visited := before;
    for m := i to |value| + 1
      invariant visited == StoredPrefixes(root, value, m)
    {
      BucketPrefix(root, value, i, m);
      var j := IndexOf(b, value[i..m]);
      if j < |b| {
        visited := visited + [KeyAt(root, AtEntry(value[..i], j))];
      }
    }
  }

  lemma BucketPrefix<V>(root: Node<V>, value: Key, i: nat, m: nat)
    requires i <= m <= |value| && ValidPath(root, value[..i]) && NodeAt(root, value[..i]).Hash?
    ensures Lookup(root, value[..m]) == Get(NodeAt(root, value[..i]).bucket, value[i..m])
    ensures value[..i] + value[i..m] == value[..m]
  {
    LookupPrefix(root, value, i, m);
  }
}
