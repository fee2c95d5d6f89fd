/** `equal_prefix_range`: the prefix iterators of the HAT-trie. */
module TrieRange {
  import opened Options
  import opened TrieNode
  import opened TrieOrder
  import opened TrieWalk

  /** `filter_prefix` at entry i of the bucket at p: skips entries that do not start with f, and
      leaves the bucket when none is left. */
  method FilterPrefix<V>(root: Node<V>, p: Key, i: nat, f: Key) returns (it: Position)
    requires Wf(root) && ValidPath(root, p) && NodeAt(root, p).Hash? && i <= |NodeAt(root, p).bucket|
    ensures NextMatch(root, p, i, f, it)
  {
    hide Wf, ValidPath, After, Remaining;
    var b := NodeAt(root, p).bucket;
    var j := i;
    while j < |b| && !(f <= b[j].key)
      invariant i <= j <= |b| && forall k :: i <= k < j ==> !(f <= b[k].key)
    {
      j := j + 1;
    }
    if j < |b| {
      it := AtEntry(p, j);
    } else {
      it := Ascend(root, p);
      AscendLeaves(root, p, it);
    }
  }

  lemma AscendLeaves<V>(root: Node<V>, p: Key, it: Position)
    requires ValidPath(root, p) && Stands(root, it) && Remaining(root, it) == After(root, p)
    ensures it.AtEntry? ==> it.path != p
  {
    hide After, Remaining, Stands;
    RemainingHead(root, it);
    if After(root, p) != [] {
      AfterOutside(root, p, 0);
    }
  }

  /** `it` is the first entry from i on that starts with f, or what follows the bucket. */
  ghost predicate NextMatch<V>(root: Node<V>, p: Key, i: nat, f: Key, it: Position) {
    && Wf(root) && ValidPath(root, p) && NodeAt(root, p).Hash? && Stands(root, it)
    && var b := NodeAt(root, p).bucket;
      if it.AtEntry? && it.path == p then
        i <= it.index && f <= b[it.index].key && forall k :: i <= k < it.index ==> !(f <= b[k].key)
      else
        Remaining(root, it) == After(root, p) && forall k :: i <= k < |b| ==> !(f <= b[k].key)
  }

  /** A range of prefix iterators: where it begins and ends, and the filter for the one bucket in
      which a range with a rest of the prefix lies. */
  datatype Range = Range(begin: Position, end: Position, filter: Key)

  /** What a range must denote for a prefix: nothing, a whole subtree, or the matching entries of
      the bucket at path p with prefix == p + filter. */
  ghost predicate Covers<V>(root: Node<V>, r: Range, prefix: Key) {
    || (r.begin == r.end == End && forall k :: prefix <= k ==> Lookup(root, k).None?)
    || (r.filter == [] && IsSubtree(root, r, prefix))
    || (r.filter != [] && exists p :: IsBucket(root, r, p) && prefix == p + r.filter)
  }

  ghost predicate IsSubtree<V>(root: Node<V>, r: Range, p: Key) {
    && ValidPath(root, p) && Within(root, p, r.begin, 0)
    && Stands(root, r.end) && Remaining(root, r.end) == After(root, p)
  }

  ghost predicate IsBucket<V>(root: Node<V>, r: Range, p: Key) {
    && ValidPath(root, p) && NodeAt(root, p).Hash? && NextMatch(root, p, 0, r.filter, r.begin)
    && Stands(root, r.end) && Remaining(root, r.end) == After(root, p)
  }

  /** `equal_prefix_range_impl`. */
  method EqualPrefixRange<V>(root: Node<V>, prefix: Key) returns (r: Range)
    requires Wf(root)
    ensures Covers(root, r, prefix)
  {
    hide Wf, Lookup, After, Remaining, Positions, Within, NextMatch;
    for i := 0 to |prefix|
      invariant ValidPath(root, prefix[..i])
    {
      var p := prefix[..i];
      match NodeAt(root, p) {
        case Trie(_, ch) =>
          if prefix[i] !in ch {
            assert p + [prefix[i]] <= prefix;
            CutOff(root, p, prefix[i], prefix);
            return Range(End, End, []);
          }
          PathSnoc(root, p, prefix[i]);
          assert p + [prefix[i]] == prefix[..i + 1];
        case Hash(_) =>
          var f := prefix[i..];
          var begin := FilterPrefix(root, p, 0, f);
          var end := Ascend(root, p);
          r := Range(begin, end, f);
          assert IsBucket(root, r, p) && prefix == p + f;
          return;
      }
    }
    assert prefix[..|prefix|] == prefix;
    var begin := First(root, prefix);
    var end := Ascend(root, prefix);
    WithinStart(root, prefix, begin);
    r := Range(begin, end, []);
    assert IsSubtree(root, r, prefix);
  }

  lemma CutOff<V>(n: Node<V>, p: Key, c: Byte, q: Key)
    requires ValidPath(n, p) && NodeAt(n, p).Trie? && c !in NodeAt(n, p).children && p + [c] <= q
    ensures forall k :: q <= k ==> Lookup(n, k).None?
  {
    NothingBelow(n, p, c, q);
    forall k | q <= k ensures Lookup(n, k).None? {
      assert Lookup(n, k) == if q <= k then None else Lookup(n, k);
    }
  }

  /** `operator++` of a prefix iterator. */
  method IncrementPrefix<V>(root: Node<V>, it: Position, f: Key) returns (next: Position)
    requires Wf(root) && Stands(root, it) && it != End
    ensures f == [] ==> Stands(root, next) && Remaining(root, next) == Remaining(root, it)[1..]
    ensures f != [] && it.AtEntry? ==> NextMatch(root, it.path, it.index + 1, f, next)
  {
    hide Wf, Remaining, After, NextMatch;
    if f == [] || it.AtValue? {
      next := Increment(root, it);
    } else {
      next := FilterPrefix(root, it.path, it.index + 1, f);
    }
  }

  /** The loop `for (it = begin; it != end; ++it)` over a whole subtree. */
  method CollectSubtree<V>(root: Node<V>, r: Range, p: Key) returns (keys: seq<Key>)
    requires Wf(root) && r.filter == [] && IsSubtree(root, r, p)
    ensures keys == Prefixed(p, KeyList(NodeAt(root, p)))
  {
    hide Wf, Positions, After, Remaining, Within, KeyList, Prefixed, Stands;
    keys := [];
    var it := r.begin;
    ghost var k := 0;
    ghost var ks := KeyList(NodeAt(root, p));
    WithinEnd(root, p, it, k, r.end);
    while it != r.end
      invariant k <= |ks| && Within(root, p, it, k) && keys == Prefixed(p, ks)[..k]
      invariant it == r.end <==> k == |ks|
      invariant it != r.end ==> it != End && Stands(root, it) && KeyAt(root, it) == p + ks[k]
      decreases |ks| - k
    {
      keys := keys + [KeyAt(root, it)];
      var next := IncrementPrefix(root, it, r.filter);
      WithinEnd(root, p, it, k, r.end);
      WithinNext(root, p, it, k, next);
      it, k := next, k + 1;
      WithinBound(root, p, it, k);
      WithinEnd(root, p, it, k, r.end);
    }
  }

  /** The keys of the entries from i on that start with f. */
  ghost function Matching<V>(b: seq<Entry<V>>, f: Key, i: nat): seq<Key>
    requires i <= |b|
    decreases |b| - i
  {
    if i == |b| then []
    else if f <= b[i].key then [b[i].key] + Matching(b, f, i + 1)
    else Matching(b, f, i + 1)
  }

  lemma {:induction false} MatchingSkip<V>(b: seq<Entry<V>>, f: Key, i: nat, j: nat)
    requires i <= j <= |b| && forall k :: i <= k < j ==> !(f <= b[k].key)
    ensures Matching(b, f, i) == Matching(b, f, j)
    decreases j - i
  {
    if i < j {
      MatchingSkip(b, f, i + 1, j);
    }
  }

  lemma {:induction false} MatchingAre<V>(b: seq<Entry<V>>, f: Key, i: nat)
    requires Distinct(b) && i <= |b|
    ensures forall k :: k in Matching(b, f, i) <==> f <= k && i <= IndexOf(b, k) < |b|
    ensures NoDuplicates(Matching(b, f, i))
    decreases |b| - i
  {
    if i < |b| {
      MatchingAre(b, f, i + 1);
      GetAt(b, i);
    }
  }

  /** What a step of `FilterPrefix` does to the keys still to come. */
  lemma MatchStep<V>(root: Node<V>, p: Key, i: nat, f: Key, it: Position, end: Position)
    requires NextMatch(root, p, i, f, it) && i <= |NodeAt(root, p).bucket|
    requires Stands(root, end) && Remaining(root, end) == After(root, p)
    ensures it != end <==> it.AtEntry? && it.path == p
    ensures var b := NodeAt(root, p).bucket;
      Matching(b, f, i) == if it == end then [] else Matching(b, f, it.index)
    ensures it != end ==> var b := NodeAt(root, p).bucket;
      Matching(b, f, it.index) == [b[it.index].key] + Matching(b, f, it.index + 1)
  {
    hide After, Wf;
    var b := NodeAt(root, p).bucket;
    RemainingHead(root, it);
    RemainingHead(root, end);
    if it.AtEntry? && it.path == p {
      MatchingSkip(b, f, i, it.index);
      if After(root, p) != [] {
        AfterOutside(root, p, 0);
      }
    } else {
      MatchingSkip(b, f, i, |b|);
    }
  }

  /** The same loop over the matching entries of one bucket. */
  method CollectBucket<V>(root: Node<V>, r: Range, p: Key) returns (keys: seq<Key>)
    requires Wf(root) && r.filter != [] && IsBucket(root, r, p)
    ensures keys == Prefixed(p, Matching(NodeAt(root, p).bucket, r.filter, 0))
  {
    hide Wf, ValidPath, After, Remaining, Stands, NextMatch, Prefixed, Matching;
    ghost var b := NodeAt(root, p).bucket;
    ghost var found: seq<Key> := [];
    ghost var i := 0;
    var it := r.begin;
    keys := [];
    while it != r.end
      invariant i <= |b| && NextMatch(root, p, i, r.filter, it)
      invariant found + Matching(b, r.filter, i) == Matching(b, r.filter, 0)
      invariant keys == Prefixed(p, found)
      decreases |b| - i
    {
      MatchStep(root, p, i, r.filter, it, r.end);
      NextStands(root, p, i, r.filter, it);
      keys := keys + [KeyAt(root, it)];
      MatchFound(b, r.filter, i, it.index, found);
      found := found + [b[it.index].key];
      i := it.index + 1;
      it := IncrementPrefix(root, it, r.filter);
    }
    MatchStep(root, p, i, r.filter, it, r.end);
  }

  lemma MatchFound<V>(b: seq<Entry<V>>, f: Key, i: nat, j: nat, found: seq<Key>)
    requires i <= j < |b| && found + Matching(b, f, i) == Matching(b, f, 0)
    requires Matching(b, f, i) == [b[j].key] + Matching(b, f, j + 1)
    ensures found + [b[j].key] + Matching(b, f, j + 1) == Matching(b, f, 0)
  {
    hide Matching;
  }

  lemma NextStands<V>(root: Node<V>, p: Key, i: nat, f: Key, it: Position)
    requires NextMatch(root, p, i, f, it)
    ensures ValidPath(root, p) && NodeAt(root, p).Hash?
    ensures Stands(root, it)
    ensures it.AtEntry? && it.path == p ==>
      i <= it.index < |NodeAt(root, p).bucket| && KeyAt(root, it) == p + NodeAt(root, p).bucket[it.index].key
  {
  }

  /** Walking an equal-prefix range visits exactly the keys with the prefix, each once. */
  method KeysWithPrefix<V>(root: Node<V>, prefix: Key) returns (keys: seq<Key>)
    requires Wf(root)
    ensures NoDuplicates(keys)
    ensures forall k :: k in keys <==> prefix <= k && Lookup(root, k).Some?
  {
    hide Wf, Lookup, IsSubtree, IsBucket, Matching, KeyList;
    var r := EqualPrefixRange(root, prefix);
    if r.begin == r.end == End {
      EmptyRange(root, r, prefix);
      return [];
    }
    if r.filter == [] {
      keys := CollectSubtree(root, r, prefix);
      SubtreeKeys(root, r, prefix);
    } else {
      BucketPath(root, r, prefix);
      var p := prefix[..|prefix| - |r.filter|];
      keys := CollectBucket(root, r, p);
      BucketKeysWith(root, r, p);
    }
  }

  lemma BucketPath<V>(root: Node<V>, r: Range, prefix: Key)
    requires r.filter != [] && Covers(root, r, prefix) && !(r.begin == r.end == End)
    ensures |r.filter| <= |prefix| && IsBucket(root, r, prefix[..|prefix| - |r.filter|])
    ensures prefix == prefix[..|prefix| - |r.filter|] + r.filter
  {
    hide IsBucket;
    var p :| IsBucket(root, r, p) && prefix == p + r.filter;
    assert prefix[..|prefix| - |r.filter|] == p;
  }

  lemma EmptyRange<V>(root: Node<V>, r: Range, prefix: Key)
    requires Wf(root) && Covers(root, r, prefix) && r.begin == r.end == End
    ensures forall k :: prefix <= k ==> Lookup(root, k).None?
  {
    if r.filter == [] && IsSubtree(root, r, prefix) {
      SubtreeNotEmpty(root, r, prefix);
    } else if r.filter != [] && exists p :: IsBucket(root, r, p) && prefix == p + r.filter {
      BucketEmpty(root, r, prefix);
    }
  }

  lemma SubtreeNotEmpty<V>(root: Node<V>, r: Range, p: Key)
    requires Wf(root) && IsSubtree(root, r, p) && r.begin == r.end
    ensures forall k :: p <= k ==> Lookup(root, k).None?
  {
    hide Wf, Lookup, KeyList, Positions, Within;
    WfAt(root, p);
    WithinEnd(root, p, r.begin, 0, r.end);
    forall k | p <= k ensures Lookup(root, k).None? {
      LookupAt(root, p, k);
      KeyListIs(NodeAt(root, p), k[|p|..]);
    }
  }

  lemma BucketEmpty<V>(root: Node<V>, r: Range, prefix: Key)
    requires Wf(root) && r.begin == r.end && exists p :: IsBucket(root, r, p) && prefix == p + r.filter
    ensures forall k :: prefix <= k ==> Lookup(root, k).None?
  {
    var p :| IsBucket(root, r, p) && prefix == p + r.filter;
    hide Lookup, Matching;
    MatchStep(root, p, 0, r.filter, r.begin, r.end);
    BucketKeysWith(root, r, p);
    forall k | prefix <= k ensures Lookup(root, k).None? {
      assert k !in Prefixed(p, Matching(NodeAt(root, p).bucket, r.filter, 0));
    }
  }

  lemma SubtreeKeys<V>(root: Node<V>, r: Range, p: Key)
    requires Wf(root) && IsSubtree(root, r, p)
    ensures var ks := Prefixed(p, KeyList(NodeAt(root, p)));
      NoDuplicates(ks) && forall k :: k in ks <==> p <= k && Lookup(root, k).Some?
  {
    hide Lookup, KeyList, Wf, Within, After, Remaining;
    var n := NodeAt(root, p);
    WfAt(root, p);
    KeyListDistinct(n);
    PrefixedDistinct(p, KeyList(n));
    forall k ensures k in Prefixed(p, KeyList(n)) <==> p <= k && Lookup(root, k).Some? {
      PrefixedHas(p, KeyList(n), k);
      if p <= k {
        LookupAt(root, p, k);
        KeyListIs(n, k[|p|..]);
      }
    }
  }

  lemma PrefixedDistinct(p: Key, ks: seq<Key>)
    requires NoDuplicates(ks)
    ensures NoDuplicates(Prefixed(p, ks))
  {
    forall i, j | 0 <= i < j < |ks| ensures p + ks[i] != p + ks[j] {
      if p + ks[i] == p + ks[j] { ConcatInjective(p, ks[i], ks[j]); }
    }
  }

  lemma BucketKeysWith<V>(root: Node<V>, r: Range, p: Key)
    requires Wf(root) && IsBucket(root, r, p)
    ensures ValidPath(root, p) && NodeAt(root, p).Hash?
      && var ks := Prefixed(p, Matching(NodeAt(root, p).bucket, r.filter, 0));
      NoDuplicates(ks) && forall k :: k in ks <==> p + r.filter <= k && Lookup(root, k).Some?
  {
    hide Lookup, Matching, Wf, NextMatch, After, Remaining;
    var b := NodeAt(root, p).bucket;
    BucketNotEmpty(root, p);
    MatchingAre(b, r.filter, 0);
    PrefixedDistinct(p, Matching(b, r.filter, 0));
    forall k ensures k in Prefixed(p, Matching(b, r.filter, 0)) <==> p + r.filter <= k && Lookup(root, k).Some? {
      PrefixedHas(p, Matching(b, r.filter, 0), k);
      if p <= k {
        PrefixBelow(p, r.filter, k);
        LookupAt(root, p, k);
        BucketLookup(b, k[|p|..]);
      }
    }
  }

  lemma BucketLookup<V>(b: seq<Entry<V>>, k: Key)
    ensures Lookup(Hash(b), k).Some? <==> IndexOf(b, k) < |b|
  {
  }
}
