/** How many leaves there are, and when an insertion or a removal changes that; and how evenly two
    siblings share their values. */
module BtreeLeaves {
  import opened BtreeTree
  import opened BtreeShape
  import opened BtreeMoves
  import opened BtreeRebalance

  function LeafCount<T>(t: Tree<T>): nat {
    if t.kids == [] then 1 else LeafSum(t.kids)
  }

  function LeafSum<T>(ks: seq<Tree<T>>): nat {
    if ks == [] then 0 else LeafCount(ks[0]) + LeafSum(ks[1..])
  }

  lemma {:induction false} LeafSumAppend<T>(a: seq<Tree<T>>, b: seq<Tree<T>>)
    ensures LeafSum(a + b) == LeafSum(a) + LeafSum(b)
    decreases |a|
  {
    if a == [] {
      assert a + b == b;
    } else {
      assert (a + b)[1..] == a[1..] + b;
      LeafSumAppend(a[1..], b);
    }
  }

  lemma LeafSumParts<T>(a: seq<Tree<T>>, b: seq<Tree<T>>, c: seq<Tree<T>>)
    ensures LeafSum(a + b + c) == LeafSum(a) + LeafSum(b) + LeafSum(c)
  {
    LeafSumAppend(a, b);
    LeafSumAppend(a + b, c);
  }

  lemma LeafSumOne<T>(t: Tree<T>, u: Tree<T>)
    ensures LeafSum([t]) == LeafCount(t) && LeafSum([t, u]) == LeafCount(t) + LeafCount(u)
  {
    assert [t][1..] == [] && [t, u][1..] == [u] && [u][1..] == [];
  }

  lemma LeafSumSet<T>(ks: seq<Tree<T>>, i: nat, s: Tree<T>)
    requires i < |ks|
    ensures LeafSum(ks[i := s]) + LeafCount(ks[i]) == LeafSum(ks) + LeafCount(s)
  {
    hide LeafSum, LeafCount;
    LeafSumParts(ks[..i], [ks[i]], ks[i + 1..]);
    LeafSumParts(ks[..i], [s], ks[i + 1..]);
    LeafSumOne(ks[i], s);
    LeafSumOne(s, s);
    assert ks == ks[..i] + [ks[i]] + ks[i + 1..] && ks[i := s] == ks[..i] + [s] + ks[i + 1..];
  }

  lemma {:induction false} LeafUpdate<T>(t: Tree<T>, p: Path, s: Tree<T>)
    requires ValidPath(t, p)
    ensures LeafCount(Update(t, p, s)) + LeafCount(At(t, p)) == LeafCount(t) + LeafCount(s)
    decreases |p|
  {
    if p != [] {
      LeafUpdate(t.kids[p[0]], p[1..], s);
      LeafSumSet(t.kids, p[0], Update(t.kids[p[0]], p[1..], s));
    }
  }

  /** Two leaves joined are one leaf less; inner nodes joined keep the leaves below them. */
  lemma MergeLeaves<T>(n: Tree<T>, i: nat)
    requires |n.kids| == |n.vals| + 1 && i < |n.vals| && Alike(n.kids[i], n.kids[i + 1])
    ensures LeafCount(MergeAt(n, i)) + (if IsLeaf(n.kids[i]) then 1 else 0) == LeafCount(n)
  {
    var l, r := n.kids[i], n.kids[i + 1];
    var j := Join(l, n.vals[i], r);
    LeafSumAppend(l.kids, r.kids);
    hide LeafSum;
    LeafSumParts(n.kids[..i], [l, r], n.kids[i + 2..]);
    LeafSumParts(n.kids[..i], [j], n.kids[i + 2..]);
    LeafSumOne(l, r);
    LeafSumOne(j, j);
    assert n.kids == n.kids[..i] + [l, r] + n.kids[i + 2..];
    assert MergeAt(n, i).kids == n.kids[..i] + [j] + n.kids[i + 2..];
  }

  lemma ShiftLeaves<T>(n: Tree<T>, i: nat, n': Tree<T>)
    requires Shifted(n, i, n')
    ensures LeafCount(n') == LeafCount(n)
  {
    MergeLeaves(n, i);
    MergeLeaves(n', i);
  }

  lemma SplitLeaves<T>(n: Tree<T>, i: nat, k: nat)
    requires |n.kids| == |n.vals| + 1 && i < |n.kids| && Shaped(n.kids[i]) && k < |n.kids[i].vals|
    ensures LeafCount(SplitChild(n, i, k)) == LeafCount(n) + if IsLeaf(n.kids[i]) then 1 else 0
  {
    SplitMerges(n, i, k);
    hide SplitChild, MergeAt;
    MergeLeaves(SplitChild(n, i, k), i);
  }

  // ---------- insertions ----------

  /** A full node can give values to a sibling: to one with room for two, or to one with room for one
      unless the insertion is at that side. */
  predicate CanShare<T>(t: Tree<T>, path: Path, p: nat, cap: nat) {
    path != [] &&
    var q, c := path[..|path| - 1], path[|path| - 1];
    ValidPath(t, q) && (CanShareLeft(At(t, q), c, p, cap) || CanShareRight(At(t, q), c, p, cap))
  }

  predicate CanShareLeft<T>(n: Tree<T>, c: nat, p: nat, cap: nat) {
    0 < c <= |n.kids| && |n.kids[c - 1].vals| < if p == 0 then cap - 1 else cap
  }

  predicate CanShareRight<T>(n: Tree<T>, c: nat, p: nat, cap: nat) {
    c < |n.vals| && c + 1 < |n.kids| && |n.kids[c + 1].vals| < if p == cap then cap - 1 else cap
  }

  /** Children i and i + 1 have the same number of values, up to one. */
  predicate Even<T>(n: Tree<T>, i: nat) {
    i + 1 < |n.kids| && -1 <= |n.kids[i].vals| - |n.kids[i + 1].vals| <= 1
  }

  /** How sharing ends: with even siblings, or, for an insertion at the far end, with a full one. */
  predicate Evened<T>(t: Tree<T>, path: Path, p: nat, cap: nat) {
    path != [] &&
    var q, c := path[..|path| - 1], path[|path| - 1];
    ValidPath(t, q) &&
    var n := At(t, q);
    || (0 < c < |n.kids| && if p == cap then |n.kids[c - 1].vals| == cap else Even(n, c - 1))
    || (c + 1 < |n.kids| && if p == 0 then |n.kids[c + 1].vals| == cap else Even(n, c))
  }

  lemma UpdatedAt<T>(t: Tree<T>, q: Path, s: Tree<T>)
    requires ValidPath(t, q)
    ensures ValidPath(Update(t, q, s), q) && At(Update(t, q, s), q) == s
  {
    UpdateAt(t, q, s);
  }

  lemma SharedLeft<T>(t: Tree<T>, q: Path, i: nat, p: nat, m: nat, cap: nat)
    requires ValidPath(t, q) && |At(t, q).kids| == |At(t, q).vals| + 1 && i < |At(t, q).vals|
    requires Alike(At(t, q).kids[i], At(t, q).kids[i + 1]) && 1 <= m <= cap
    requires |At(t, q).kids[i + 1].vals| == cap && |At(t, q).kids[i].vals| < cap
    requires m == ToMove(cap - |At(t, q).kids[i].vals|, p == cap)
    ensures var u := Update(t, q, RightToLeft(At(t, q), i, m));
      LeafCount(u) == LeafCount(t) && Evened(u, q + [i + 1], p, cap)
  {
    var n := At(t, q);
    RightToLeftShifts(n, i, m);
    hide RightToLeft, LeafCount, Update, Shaped;
    ShiftLeaves(n, i, RightToLeft(n, i, m));
    LeafUpdate(t, q, RightToLeft(n, i, m));
    UpdatedAt(t, q, RightToLeft(n, i, m));
    assert (q + [i + 1])[..|q|] == q;
  }

  lemma SharedRight<T>(t: Tree<T>, q: Path, i: nat, p: nat, m: nat, cap: nat)
    requires ValidPath(t, q) && |At(t, q).kids| == |At(t, q).vals| + 1 && i < |At(t, q).vals|
    requires Alike(At(t, q).kids[i], At(t, q).kids[i + 1]) && 1 <= m <= cap
    requires |At(t, q).kids[i].vals| == cap && |At(t, q).kids[i + 1].vals| < cap
    requires m == ToMove(cap - |At(t, q).kids[i + 1].vals|, p == 0)
    ensures var u := Update(t, q, LeftToRight(At(t, q), i, m));
      LeafCount(u) == LeafCount(t) && Evened(u, q + [i], p, cap)
  {
    var n := At(t, q);
    LeftToRightShifts(n, i, m);
    hide LeftToRight, LeafCount, Update, Shaped;
    ShiftLeaves(n, i, LeftToRight(n, i, m));
    LeafUpdate(t, q, LeftToRight(n, i, m));
    UpdatedAt(t, q, LeftToRight(n, i, m));
    assert (q + [i])[..|q|] == q;
  }

  /** The conditions of the code for sharing come to CanShare. */
  lemma ShareIff<T>(t: Tree<T>, q: Path, c: nat, p: nat, cap: nat)
    requires cap >= 3 && ValidPath(t, q) && c <= |At(t, q).vals| && |At(t, q).kids| == |At(t, q).vals| + 1 && p <= cap
    ensures CanShare(t, q + [c], p, cap) <==>
      || (c > 0 && GoesLeft(|At(t, q).kids[c - 1].vals|, p, cap))
      || (c < |At(t, q).vals| && GoesRight(|At(t, q).kids[c + 1].vals|, p, cap))
  {
    assert (q + [c])[..|q|] == q;
  }

  predicate GoesLeft(left: nat, p: nat, cap: nat) {
    left < cap && (p >= ToMove(cap - left, p == cap) || left + ToMove(cap - left, p == cap) < cap)
  }

  predicate GoesRight(right: nat, p: nat, cap: nat) {
    right < cap && (p + ToMove(cap - right, p == 0) <= cap || right + ToMove(cap - right, p == 0) < cap)
  }

  /** The code looks at the room first. */
  lemma LeftIf(left: nat, p: nat, cap: nat)
    ensures left < cap ==> (GoesLeft(left, p, cap) <==>
                            var m := ToMove(cap - left, p == cap); p >= m || left + m < cap)
    ensures GoesLeft(left, p, cap) ==> left < cap
  {
  }

  lemma RightIf(right: nat, p: nat, cap: nat)
    ensures right < cap ==> (GoesRight(right, p, cap) <==>
                             var m := ToMove(cap - right, p == 0); p <= cap - m || right + m < cap)
    ensures GoesRight(right, p, cap) ==> right < cap
  {
  }

  lemma SplitAddsLeaf<T>(u: Tree<T>, path: Path, p: nat, t: Tree<T>, h: nat, q: Path, i: nat, k: nat, cap: nat)
    requires ParentHasRoom(u, path, p, t, h, cap, q, i) && Shaped(At(t, q).kids[i]) && k < |At(u, path).vals|
    ensures LeafCount(Update(t, q, SplitChild(At(t, q), i, k))) == LeafCount(t) + if IsLeaf(At(u, path)) then 1 else 0
  {
    hide Open, Keeps, SplitChild, Update;
    OpenValid(t, h, cap, q);
    SplitLeaves(At(t, q), i, k);
    LeafUpdate(t, q, SplitChild(At(t, q), i, k));
  }

  lemma NewRootLeaves<T>(t: Tree<T>)
    ensures LeafCount(Node([], [t])) == LeafCount(t)
  {
    LeafSumOne(t, t);
  }

  /** Another leaf in place of a leaf. */
  lemma LeafForLeaf<T>(t: Tree<T>, p: Path, s: Tree<T>)
    requires ValidPath(t, p) && IsLeaf(At(t, p)) && IsLeaf(s)
    ensures LeafCount(Update(t, p, s)) == LeafCount(t)
  {
    LeafUpdate(t, p, s);
  }

  // ---------- removals ----------

  /** The node and a sibling and the value between them fit into one node. */
  predicate CanMerge<T>(t: Tree<T>, path: Path, cap: nat) {
    path != [] &&
    var q, c := path[..|path| - 1], path[|path| - 1];
    ValidPath(t, q) &&
    var n := At(t, q);
    || (0 < c < |n.kids| && 1 + |n.kids[c - 1].vals| + |n.kids[c].vals| <= cap)
    || (c + 1 < |n.kids| && 1 + |n.kids[c].vals| + |n.kids[c + 1].vals| <= cap)
  }

  /** A sibling has more than half of the capacity, and the gap is not at the side away from it. */
  predicate CanTake<T>(t: Tree<T>, path: Path, p: nat, cap: nat) {
    path != [] &&
    var q, c := path[..|path| - 1], path[|path| - 1];
    ValidPath(t, q) &&
    var n := At(t, q);
    || (c + 1 < |n.kids| && |n.kids[c + 1].vals| > cap / 2 && (|n.kids[c].vals| == 0 || p > 0))
    || (0 < c < |n.kids| && |n.kids[c - 1].vals| > cap / 2 && (|n.kids[c].vals| == 0 || p < |n.kids[c].vals|))
  }

  /** The node has as many values as one of its siblings, up to one. */
  predicate EvenBeside<T>(t: Tree<T>, path: Path) {
    path != [] &&
    var q, c := path[..|path| - 1], path[|path| - 1];
    ValidPath(t, q) && ((c > 0 && Even(At(t, q), c - 1)) || Even(At(t, q), c))
  }

  lemma MergedLeaves<T>(t: Tree<T>, q: Path, i: nat)
    requires ValidPath(t, q) && |At(t, q).kids| == |At(t, q).vals| + 1 && i < |At(t, q).vals|
    requires Alike(At(t, q).kids[i], At(t, q).kids[i + 1])
    ensures LeafCount(Update(t, q, MergeAt(At(t, q), i))) + (if IsLeaf(At(t, q).kids[i]) then 1 else 0) == LeafCount(t)
    ensures IsLeaf(At(t, q).kids[i]) <==> IsLeaf(At(t, q).kids[i + 1])
  {
    MergeLeaves(At(t, q), i);
    LeafUpdate(t, q, MergeAt(At(t, q), i));
  }

  lemma TakenFromRight<T>(t: Tree<T>, q: Path, c: nat, m: nat)
    requires ValidPath(t, q) && |At(t, q).kids| == |At(t, q).vals| + 1 && c < |At(t, q).vals|
    requires Alike(At(t, q).kids[c], At(t, q).kids[c + 1]) && 1 <= m <= |At(t, q).kids[c + 1].vals|
    requires m == (|At(t, q).kids[c + 1].vals| - |At(t, q).kids[c].vals|) / 2
    ensures var u := Update(t, q, RightToLeft(At(t, q), c, m));
      LeafCount(u) == LeafCount(t) && EvenBeside(u, q + [c])
  {
    var n := At(t, q);
    RightToLeftShifts(n, c, m);
    hide RightToLeft, LeafCount, Update, Shaped;
    ShiftLeaves(n, c, RightToLeft(n, c, m));
    LeafUpdate(t, q, RightToLeft(n, c, m));
    UpdatedAt(t, q, RightToLeft(n, c, m));
    assert (q + [c])[..|q|] == q;
  }

  lemma TakenFromLeft<T>(t: Tree<T>, q: Path, i: nat, m: nat)
    requires ValidPath(t, q) && |At(t, q).kids| == |At(t, q).vals| + 1 && i < |At(t, q).vals|
    requires Alike(At(t, q).kids[i], At(t, q).kids[i + 1]) && 1 <= m <= |At(t, q).kids[i].vals|
    requires m == (|At(t, q).kids[i].vals| - |At(t, q).kids[i + 1].vals|) / 2
    ensures var u := Update(t, q, LeftToRight(At(t, q), i, m));
      LeafCount(u) == LeafCount(t) && EvenBeside(u, q + [i + 1])
  {
    var n := At(t, q);
    LeftToRightShifts(n, i, m);
    hide LeftToRight, LeafCount, Update, Shaped;
    ShiftLeaves(n, i, LeftToRight(n, i, m));
    LeafUpdate(t, q, LeftToRight(n, i, m));
    UpdatedAt(t, q, LeftToRight(n, i, m));
    assert (q + [i + 1])[..|q|] == q;
  }

  lemma MergeIff<T>(t: Tree<T>, q: Path, c: nat, p: nat, cap: nat)
    requires ValidPath(t, q) && |At(t, q).kids| == |At(t, q).vals| + 1 && c < |At(t, q).kids|
    ensures var n := At(t, q);
      && (CanMerge(t, q + [c], cap) <==>
          || (c > 0 && 1 + |n.kids[c - 1].vals| + |n.kids[c].vals| <= cap)
          || (c < |n.vals| && 1 + |n.kids[c].vals| + |n.kids[c + 1].vals| <= cap))
      && (CanTake(t, q + [c], p, cap) <==>
          || (c < |n.vals| && |n.kids[c + 1].vals| > cap / 2 && (|n.kids[c].vals| == 0 || p > 0))
          || (c > 0 && |n.kids[c - 1].vals| > cap / 2 && (|n.kids[c].vals| == 0 || p < |n.kids[c].vals|)))
  {
    assert (q + [c])[..|q|] == q;
  }

  /** Taking the only child of an empty root for the root. */
  lemma OneChildLeaves<T>(t: Tree<T>, h: nat, cap: nat)
    requires Open(t, h, cap, []) && t.vals == [] && t.kids != []
    ensures |t.kids| == 1 && LeafCount(t.kids[0]) == LeafCount(t)
  {
    LeafSumOne(t.kids[0], t.kids[0]);
    assert t.kids == [t.kids[0]];
  }
}
