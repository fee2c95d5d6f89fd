/** Search in a node and in the whole B-tree. The searches look for the first value for which a
    test fails; the test is "less than the key" for a lower bound and "not greater than the key"
    for an upper bound. */
module BtreeSearch {
  import opened Options
  import opened BtreeTree
  import opened BtreeShape
  import opened BtreeMoves
  import opened BtreeWalk

  /** The test holds for a front part of the sequence only. */
  ghost predicate Monotone<T>(s: seq<T>, p: T -> bool) {
    forall i, j :: 0 <= i < j < |s| && p(s[j]) ==> p(s[i])
  }

  /** Linear scan: the index of the first value for which the test fails. */
  function FirstNot<T>(s: seq<T>, p: T -> bool): (m: nat)
    ensures m <= |s| && (forall i :: 0 <= i < m ==> p(s[i])) && (m < |s| ==> !p(s[m]))
  {
    if s == [] || !p(s[0]) then 0 else 1 + FirstNot(s[1..], p)
  }

  ghost predicate Cut<T>(s: seq<T>, p: T -> bool, m: nat) {
    m <= |s| && (forall i :: 0 <= i < m ==> p(s[i])) && (forall i :: m <= i < |s| ==> !p(s[i]))
  }

  lemma CutIsFirstNot<T>(s: seq<T>, p: T -> bool, m: nat)
    requires Monotone(s, p)
    ensures Cut(s, p, m) <==> m == FirstNot(s, p)
  {
    var f := FirstNot(s, p);
    if f < |s| {
      var atF := p(s[f]);
    }
    if m < |s| {
      var atM := p(s[m]);
    }
  }

  // ---------- in a node ----------

  method LinearSearch<T>(vals: seq<T>, p: T -> bool) returns (s: nat)
    requires Monotone(vals, p)
    ensures Cut(vals, p, s)
  {
    s := 0;
    while s < |vals|
      invariant s <= |vals| && forall i :: 0 <= i < s ==> p(vals[i])
    {
      if !p(vals[s]) {
        break;
      }
      s := s + 1;
    }
  }

  method BinarySearch<T>(vals: seq<T>, p: T -> bool) returns (s: nat)
    requires Monotone(vals, p)
    ensures Cut(vals, p, s)
  {
    s := 0;
    var e := |vals|;
    while s != e
      invariant s <= e <= |vals|
      invariant forall i :: 0 <= i < s ==> p(vals[i])
      invariant forall i :: e <= i < |vals| ==> !p(vals[i])
      decreases e - s
    {
      var mid := (s + e) / 2;
      if p(vals[mid]) {
        s := mid + 1;
      } else {
        e := mid;
      }
    }
  }

  /** Three-way comparisons with a key, negative for smaller values, in order. */
  ghost predicate Ordered<T>(s: seq<T>, c: T -> int) {
    forall i, j :: 0 <= i < j < |s| ==> (c(s[j]) < 0 ==> c(s[i]) < 0) && (c(s[i]) > 0 ==> c(s[j]) > 0)
  }

  /** The search with a three-way comparison: the first value not less than the key, or, where keys
      are unique, any equal value. */
  method BinarySearchCompare<T>(vals: seq<T>, c: T -> int, multi: bool) returns (s: nat, eq: bool)
    requires Ordered(vals, c)
    ensures s <= |vals| && (eq <==> exists i :: 0 <= i < |vals| && c(vals[i]) == 0)
    ensures eq ==> s < |vals| && c(vals[s]) == 0
    ensures multi || !eq ==>
      (forall i :: 0 <= i < s ==> c(vals[i]) < 0) && (forall i :: s <= i < |vals| ==> c(vals[i]) >= 0)
  {
    s, eq := 0, false;
    var e := |vals|;
    while s != e
      invariant s <= e <= |vals|
      invariant forall i :: 0 <= i < s ==> c(vals[i]) < 0
      invariant forall i :: e <= i < |vals| ==> c(vals[i]) >= 0
      invariant multi ==> (eq <==> e < |vals| && c(vals[e]) == 0)
      invariant !multi ==> !eq && forall i :: e <= i < |vals| ==> c(vals[i]) > 0
      decreases e - s
    {
      var mid := (s + e) / 2;
      var d := c(vals[mid]);
      if d < 0 {
        s := mid + 1;
      } else if multi {
        e := mid;
        eq := d == 0;
      } else if d > 0 {
        e := mid;
      } else {
        return mid, true;
      }
    }
  }

  // ---------- in the tree ----------

  /** All values before the subtree pass the test, and none after it does. */
  ghost predicate Narrowed<T>(t: Tree<T>, p: T -> bool, path: Path)
    requires ValidPath(t, path)
  {
    && (forall i :: 0 <= i < |Before(t, path)| && i < |InOrder(t)| ==> p(InOrder(t)[i]))
    && (forall i :: |Before(t, path)| + |InOrder(At(t, path))| <= i < |InOrder(t)| ==> !p(InOrder(t)[i]))
  }

  lemma {:induction false} GapGrows<T>(n: Tree<T>, i: nat, j: nat)
    requires i < j < |n.kids| && |n.kids| == |n.vals| + 1
    ensures |GapBefore(n, i)| + |InOrder(n.kids[i])| < |GapBefore(n, j)|
    decreases j
  {
    GapStep(n, j - 1);
    if i < j - 1 {
      GapGrows(n, i, j - 1);
    }
    hide InOrder, GapBefore;
  }

  /** Values of one node stand in the order of their ranks. */
  lemma RankGrows<T>(t: Tree<T>, path: Path, i: nat, j: nat)
    requires IsElem(t, Iter(path, i)) && IsElem(t, Iter(path, j)) && i < j
    ensures |Prefix(t, Iter(path, i))| < |Prefix(t, Iter(path, j))|
  {
    var n := At(t, path);
    if !IsLeaf(n) {
      GapGrows(n, i, j);
    }
    hide InOrder, GapBefore;
  }

  lemma NodeMonotone<T>(t: Tree<T>, p: T -> bool, path: Path)
    requires Monotone(InOrder(t), p) && ValidPath(t, path) && Shaped(At(t, path))
    ensures Monotone(At(t, path).vals, p)
  {
    var n := At(t, path);
    forall i, j | 0 <= i < j < |n.vals| && p(n.vals[j]) ensures p(n.vals[i]) {
      hide InOrder, Prefix, Ahead, Gap;
      RankIs(t, Iter(path, i));
      RankIs(t, Iter(path, j));
      RankGrows(t, path, i, j);
    }
  }

  lemma YesBefore<T>(t: Tree<T>, p: T -> bool, path: Path, s: nat)
    requires ValidPath(t, path) && Shaped(At(t, path)) && !IsLeaf(At(t, path)) && s <= |At(t, path).vals|
    requires Monotone(InOrder(t), p) && Narrowed(t, p, path) && Cut(At(t, path).vals, p, s)
    ensures ValidPath(t, path + [s])
    ensures forall i :: 0 <= i < |Before(t, path + [s])| && i < |InOrder(t)| ==> p(InOrder(t)[i])
  {
    hide InOrder, GapBefore, Ahead, Gap;
    Snoc(t, path, s);
    if s == 0 {
      FirstChildBefore(t, path);
    } else {
      NextChildIs(t, Iter(path, s - 1));
      RankIs(t, Iter(path, s - 1));
    }
  }

  lemma NoAfter<T>(t: Tree<T>, p: T -> bool, path: Path, s: nat)
    requires ValidPath(t, path) && Shaped(At(t, path)) && !IsLeaf(At(t, path)) && s <= |At(t, path).vals|
    requires Monotone(InOrder(t), p) && Narrowed(t, p, path) && Cut(At(t, path).vals, p, s)
    requires ValidPath(t, path + [s])
    ensures forall i :: |Before(t, path + [s])| + |InOrder(At(t, path + [s]))| <= i < |InOrder(t)| ==> !p(InOrder(t)[i])
  {
    hide InOrder, GapBefore, Ahead, Gap;
    var n, all := At(t, path), InOrder(t);
    Snoc(t, path, s);
    if s == |n.vals| {
      InOrderLast(n);
    } else {
      RankIs(t, Iter(path, s));
      GapAtChild(t, path, s);
      var r := |Prefix(t, Iter(path, s))|;
      assert r == |Before(t, path + [s])| + |InOrder(At(t, path + [s]))| && all[r] == n.vals[s] && !p(n.vals[s]);
      hide Cut, Narrowed, Shaped;
    }
  }

  /** A search in an inner node narrows it down to one child. */
  lemma NarrowToChild<T>(t: Tree<T>, p: T -> bool, path: Path, s: nat)
    requires ValidPath(t, path) && Shaped(At(t, path)) && !IsLeaf(At(t, path)) && s <= |At(t, path).vals|
    requires Monotone(InOrder(t), p) && Narrowed(t, p, path) && Cut(At(t, path).vals, p, s)
    ensures ValidPath(t, path + [s]) && Narrowed(t, p, path + [s])
  {
    YesBefore(t, p, path, s);
    NoAfter(t, p, path, s);
    hide InOrder, Monotone, Cut, ValidPath, At, Before;
  }

  lemma NarrowAtLeaf<T>(t: Tree<T>, p: T -> bool, path: Path, s: nat)
    requires ValidPath(t, path) && IsLeaf(At(t, path)) && Narrowed(t, p, path) && Cut(At(t, path).vals, p, s)
    ensures Stands(t, Iter(path, s)) && Cut(InOrder(t), p, |Prefix(t, Iter(path, s))|)
  {
    LeafGap(t, path, s);
    PathSplit(t, path);
    hide InOrder, GapBefore;
    var b, x, a := Before(t, path), At(t, path).vals, After(t, path);
    forall i | |b| <= i < |b| + |x| ensures InOrder(t)[i] == x[i - |b|] {
    }
  }

  /** `internal_locate` and the descents of the bounds: the place in a leaf where the test starts
      to fail. */
  method Locate<T>(t: Tree<T>, p: T -> bool, linear: bool, ghost h: nat, ghost cap: nat) returns (r: Iter)
    requires Ok(t, h, cap) && Monotone(InOrder(t), p)
    ensures Stands(t, r) && IsLeaf(At(t, r.path)) && |Prefix(t, r)| == FirstNot(InOrder(t), p)
  {
    hide Ok, InOrder, GapBefore, Ahead, Shaped, Monotone, Cut, FirstNot;
    var path: Path := [];
    OkOpen(t, h, cap, path);
    OpenShaped(t, h, cap, path);
    while true
      invariant ValidPath(t, path) && Shaped(At(t, path)) && Open(t, h, cap, path) && Narrowed(t, p, path)
      decreases h - |path|
    {
      NodeMonotone(t, p, path);
      var s;
      if linear {
        s := LinearSearch(At(t, path).vals, p);
      } else {
        s := BinarySearch(At(t, path).vals, p);
      }
      assert s <= |At(t, path).vals| by { CutBound(At(t, path).vals, p, s); }
      if IsLeaf(At(t, path)) {
        NarrowAtLeaf(t, p, path, s);
        r := Iter(path, s);
        CutIsFirstNot(InOrder(t), p, |Prefix(t, r)|);
        return;
      }
      NarrowToChild(t, p, path, s);
      OkOpen(t, h, cap, path + [s]);
      OpenShaped(t, h, cap, path);
      OpenShaped(t, h, cap, path + [s]);
      path := path + [s];
    }
  }

  lemma CutBound<T>(s: seq<T>, p: T -> bool, m: nat)
    requires Cut(s, p, m)
    ensures m <= |s|
  {
  }

  /** `internal_last`: from the end of a leaf up to the next value, if there is one. */
  method InternalLast<T>(t: Tree<T>, it: Iter, ghost h: nat, ghost cap: nat) returns (r: Option<Iter>)
    requires Ok(t, h, cap) && Stands(t, it) && IsLeaf(At(t, it.path))
    ensures r.None? <==> Prefix(t, it) == InOrder(t)
    ensures r.Some? ==> IsElem(t, r.value) && Prefix(t, r.value) == Prefix(t, it)
  {
    hide Ok, InOrder, GapBefore, Ahead, Gap;
    var path: Path, pos: nat := it.path, it.pos;
    if pos == |At(t, path).vals| {
      LeafEnd(t, it);
    }
    while pos == |At(t, path).vals|
      invariant ValidPath(t, path) && Shaped(At(t, path)) && pos <= |At(t, path).vals|
      invariant if pos == |At(t, path).vals| then Before(t, path) + InOrder(At(t, path)) == Prefix(t, it)
                else IsElem(t, Iter(path, pos)) && Prefix(t, Iter(path, pos)) == Prefix(t, it)
      decreases |path|
    {
      if path == [] {
        assert [] + InOrder(t) == InOrder(t);
        return None;
      }
      var q, i := path[..|path| - 1], path[|path| - 1];
      assert path == q + [i];
      UpFrom(t, h, cap, q, i);
      path, pos := q, i;
    }
    RankIs(t, Iter(path, pos));
    return Some(Iter(path, pos));
  }
}
