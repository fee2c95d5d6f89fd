/** What the bias of splitting and sharing is for: values that come in ascending or in descending
    order leave full nodes behind. */
module BtreeDense {
  import opened BtreeTree
  import opened BtreeShape
  import opened BtreeMoves
  import opened BtreeRebalance

  /** The first or the last child. */
  function EdgeKid<T>(n: Tree<T>, front: bool): nat
    requires n.kids != []
  {
    if front then 0 else |n.kids| - 1
  }

  /** All nodes of the subtree have room for at most one value. */
  predicate Packed<T>(t: Tree<T>, cap: nat) {
    |t.vals| + 1 >= cap && forall i :: 0 <= i < |t.kids| ==> Packed(t.kids[i], cap)
  }

  /** All nodes off the first, or the last, path down are packed. */
  predicate Dense<T>(t: Tree<T>, cap: nat, front: bool) {
    t.kids == [] || (PackedBut(t, cap, EdgeKid(t, front)) && Dense(t.kids[EdgeKid(t, front)], cap, front))
  }

  predicate PackedBut<T>(t: Tree<T>, cap: nat, i: nat) {
    forall j :: 0 <= j < |t.kids| && j != i ==> Packed(t.kids[j], cap)
  }

  predicate OnEdge<T>(t: Tree<T>, p: Path, front: bool) {
    p == [] || (t.kids != [] && p[0] == EdgeKid(t, front) && OnEdge(t.kids[p[0]], p[1..], front))
  }

  /** The very first, or the very last, gap of a level. */
  ghost predicate AtEdge<T>(t: Tree<T>, p: Path, g: nat, front: bool) {
    OnEdge(t, p, front) && ValidPath(t, p) && g == if front then 0 else |At(t, p).vals|
  }

  /** Making room at such a gap keeps the nodes off the edge packed. */
  ghost predicate EdgeKept<T>(t: Tree<T>, p: Path, g: nat, t': Tree<T>, p': Path, g': nat, cap: nat) {
    forall front :: AtEdge(t, p, g, front) && Dense(t, cap, front) ==>
      AtEdge(t', p', g', front) && Dense(t', cap, front)
  }

  lemma EdgeSelf<T>(t: Tree<T>, p: Path, g: nat, cap: nat)
    ensures EdgeKept(t, p, g, t, p, g, cap)
  {
  }

  lemma EdgeTrans<T>(t: Tree<T>, p: Path, g: nat, u: Tree<T>, q: Path, f: nat, v: Tree<T>, r: Path, e: nat, cap: nat)
    requires EdgeKept(t, p, g, u, q, f, cap) && EdgeKept(u, q, f, v, r, e, cap)
    ensures EdgeKept(t, p, g, v, r, e, cap)
  {
  }

  // ---------- along a path ----------

  lemma {:induction false} EdgeSnoc<T>(t: Tree<T>, q: Path, i: nat, front: bool)
    requires ValidPath(t, q + [i])
    ensures ValidPath(t, q) && i < |At(t, q).kids| && At(t, q + [i]) == At(t, q).kids[i]
    ensures OnEdge(t, q + [i], front) <==> OnEdge(t, q, front) && i == EdgeKid(At(t, q), front)
    decreases |q|
  {
    if q == [] {
      assert (q + [i])[1..] == [];
    } else {
      assert (q + [i])[1..] == q[1..] + [i];
      EdgeSnoc(t.kids[q[0]], q[1..], i, front);
    }
  }

  lemma {:induction false} DenseAt<T>(t: Tree<T>, q: Path, cap: nat, front: bool)
    requires OnEdge(t, q, front) && ValidPath(t, q) && Dense(t, cap, front)
    ensures Dense(At(t, q), cap, front)
    decreases |q|
  {
    if q != [] {
      DenseAt(t.kids[q[0]], q[1..], cap, front);
    }
  }

  lemma {:induction false} DenseUpdate<T>(t: Tree<T>, q: Path, s: Tree<T>, cap: nat, front: bool)
    requires OnEdge(t, q, front) && ValidPath(t, q) && Dense(t, cap, front) && Dense(s, cap, front)
    ensures var u := Update(t, q, s);
      OnEdge(u, q, front) && ValidPath(u, q) && At(u, q) == s && Dense(u, cap, front)
    decreases |q|
  {
    if q != [] {
      hide Packed;
      DenseUpdate(t.kids[q[0]], q[1..], s, cap, front);
    }
  }

  /** The edge of a child that replaces the edge. */
  lemma DenseBelow<T>(t: Tree<T>, q: Path, s: Tree<T>, c: nat, g: nat, cap: nat, front: bool)
    requires OnEdge(t, q, front) && ValidPath(t, q) && Dense(t, cap, front) && Dense(s, cap, front)
    requires s.kids != [] && c == EdgeKid(s, front) && g == if front then 0 else |s.kids[c].vals|
    ensures AtEdge(Update(t, q, s), q + [c], g, front) && Dense(Update(t, q, s), cap, front)
  {
    hide Dense;
    DenseUpdate(t, q, s, cap, front);
    var u := Update(t, q, s);
    Snoc(u, q, c);
    EdgeSnoc(u, q, c, front);
  }

  // ---------- the moves ----------

  /** The sibling of a full node at the edge has all the room there is, for one value. */
  lemma ShareDense<T>(n: Tree<T>, cap: nat, front: bool)
    requires cap >= 3 && |n.vals| >= 1 && |n.kids| == |n.vals| + 1 && Dense(n, cap, front)
    requires var i := if front then 0 else |n.vals| - 1;
      && Alike(n.kids[i], n.kids[i + 1]) && |n.kids[EdgeKid(n, front)].vals| == cap
    ensures var i := if front then 0 else |n.vals| - 1;
      var n' := if front then LeftToRight(n, i, 1) else RightToLeft(n, i, 1);
      && Dense(n', cap, front) && |n'.kids| == |n.kids| && |n'.kids[EdgeKid(n', front)].vals| == cap - 1
  {
    var i := if front then 0 else |n.vals| - 1;
    var n' := if front then LeftToRight(n, i, 1) else RightToLeft(n, i, 1);
    var e := EdgeKid(n, front);
    assert PackedBut(n', cap, e) by {
      forall j | 0 <= j < |n'.kids| && j != e ensures Packed(n'.kids[j], cap) {
        assert Packed(n.kids[j], cap);
      }
    }
  }

  /** A full node at the edge is split so that all but the edge of it is packed. */
  lemma SplitDense<T>(n: Tree<T>, cap: nat, front: bool)
    requires cap >= 3 && |n.kids| == |n.vals| + 1 && Dense(n, cap, front)
    requires Shaped(n.kids[EdgeKid(n, front)]) && |n.kids[EdgeKid(n, front)].vals| == cap
    ensures var k := if front then 0 else cap - 1;
      var n' := SplitChild(n, EdgeKid(n, front), k);
      && Dense(n', cap, front) && |n'.kids| == |n.kids| + 1 && |n'.kids[EdgeKid(n', front)].vals| == 0
  {
    var e := EdgeKid(n, front);
    var m := n.kids[e];
    var n' := SplitChild(n, e, if front then 0 else cap - 1);
    var e' := EdgeKid(n', front);
    forall j | 0 <= j < |n'.kids| && j != e' ensures Packed(n'.kids[j], cap) {
      if j < e {
        assert n'.kids[j] == n.kids[j];
      } else if j > e + 1 {
        assert n'.kids[j] == n.kids[j - 1];
      }
    }
  }

  // ---------- as the code makes them ----------

  /** The node at the edge is the last child of one at the edge. */
  lemma EdgeUp<T>(t: Tree<T>, q: Path, i: nat, p: nat, cap: nat)
    requires ValidPath(t, q + [i]) && ValidPath(t, q) && |At(t, q).kids| == |At(t, q).vals| + 1
    ensures EdgeKept(t, q + [i], p, t, q, i, cap)
  {
    EdgeSnoc(t, q, i, true);
    EdgeSnoc(t, q, i, false);
    hide Dense;
  }

  lemma ShareLeftEdge<T>(t: Tree<T>, q: Path, i: nat, p: nat, m: nat, c: nat, g: nat, cap: nat)
    requires cap >= 3 && ValidPath(t, q + [i + 1]) && ValidPath(t, q) && |At(t, q).kids| == |At(t, q).vals| + 1
    requires i < |At(t, q).vals| && Alike(At(t, q).kids[i], At(t, q).kids[i + 1])
    requires |At(t, q).kids[i + 1].vals| == cap && |At(t, q).kids[i].vals| < cap
    requires m == ToMove(cap - |At(t, q).kids[i].vals|, p == cap) && m <= cap
    requires p >= m ==> c == i + 1 && g == p - m
    ensures EdgeKept(t, q + [i + 1], p, Update(t, q, RightToLeft(At(t, q), i, m)), q + [c], g, cap)
  {
    var n := At(t, q);
    EdgeSnoc(t, q, i + 1, true);
    EdgeSnoc(t, q, i + 1, false);
    if AtEdge(t, q + [i + 1], p, false) && Dense(t, cap, false) {
      DenseAt(t, q, cap, false);
      assert Packed(n.kids[i], cap);
      hide Dense, Packed;
      ShareDense(n, cap, false);
      DenseBelow(t, q, RightToLeft(n, i, m), c, g, cap, false);
    }
  }

  lemma ShareRightEdge<T>(t: Tree<T>, q: Path, i: nat, p: nat, m: nat, c: nat, g: nat, cap: nat)
    requires cap >= 3 && ValidPath(t, q + [i]) && ValidPath(t, q) && |At(t, q).kids| == |At(t, q).vals| + 1
    requires i < |At(t, q).vals| && Alike(At(t, q).kids[i], At(t, q).kids[i + 1])
    requires |At(t, q).kids[i].vals| == cap && |At(t, q).kids[i + 1].vals| < cap
    requires m == ToMove(cap - |At(t, q).kids[i + 1].vals|, p == 0) && m <= cap
    requires p <= cap - m ==> c == i && g == p
    ensures EdgeKept(t, q + [i], p, Update(t, q, LeftToRight(At(t, q), i, m)), q + [c], g, cap)
  {
    var n := At(t, q);
    EdgeSnoc(t, q, i, true);
    EdgeSnoc(t, q, i, false);
    if AtEdge(t, q + [i], p, true) && Dense(t, cap, true) {
      DenseAt(t, q, cap, true);
      assert Packed(n.kids[i + 1], cap);
      hide Dense, Packed;
      ShareDense(n, cap, true);
      DenseBelow(t, q, LeftToRight(n, i, m), c, g, cap, true);
    }
  }

  lemma SplitEdge<T>(t: Tree<T>, q: Path, i: nat, p: nat, k: nat, c: nat, g: nat, cap: nat, path: Path, u: Tree<T>)
    requires cap >= 3 && ValidPath(t, q) && |At(t, q).kids| == |At(t, q).vals| + 1 && i < |At(t, q).kids|
    requires Shaped(At(t, q).kids[i]) && |At(t, q).kids[i].vals| == cap && ValidPath(u, path)
      && |At(u, path).vals| == cap
    requires k == LeftCount(cap, p) && k < cap && if p > k then c == i + 1 && g == p - k - 1 else c == i && g == p
    requires EdgeKept(u, path, p, t, q, i, cap)
    ensures EdgeKept(u, path, p, Update(t, q, SplitChild(At(t, q), i, k)), q + [c], g, cap)
  {
    forall front | AtEdge(u, path, p, front) && Dense(u, cap, front)
      ensures AtEdge(Update(t, q, SplitChild(At(t, q), i, k)), q + [c], g, front)
        && Dense(Update(t, q, SplitChild(At(t, q), i, k)), cap, front)
    {
      DenseAt(t, q, cap, front);
      hide Dense, Packed;
      SplitDense(At(t, q), cap, front);
      DenseBelow(t, q, SplitChild(At(t, q), i, k), c, g, cap, front);
    }
  }

  lemma SplitAtEdge<T>(u: Tree<T>, path: Path, p: nat, t: Tree<T>, h: nat, q: Path, i: nat, k: nat, c: nat, g: nat,
                       cap: nat)
    requires cap >= 3 && ParentHasRoom(u, path, p, t, h, cap, q, i) && |At(u, path).vals| == cap && p <= cap
    requires k == LeftCount(cap, p) && if p > k then c == i + 1 && g == p - k - 1 else c == i && g == p
    requires EdgeKept(u, path, p, t, q, i, cap)
    ensures k < cap && Shaped(At(t, q).kids[i])
    ensures EdgeKept(u, path, p, Update(t, q, SplitChild(At(t, q), i, k)), q + [c], g, cap)
  {
    hide Dense, Packed, EdgeKept, Open, Gap, InOrder;
    OpenValid(t, h, cap, q);
    Snoc(t, q, i);
    assert Keeps(u, path, p, t, q + [i], p);
    SplitEdge(t, q, i, p, k, c, g, cap, path, u);
  }

  lemma NewRootEdge<T>(t: Tree<T>, p: nat, cap: nat)
    ensures EdgeKept(t, [], p, Node([], [t]), [], 0, cap)
  {
  }

  // ---------- the first and the last gap of all ----------

  /** Nothing before, or nothing behind, means the edge. */
  lemma {:induction false} OuterIsEdge<T>(t: Tree<T>, h: nat, cap: nat, p: Path, front: bool)
    requires Ok(t, h, cap) && ValidPath(t, p) && (if front then Before(t, p) else After(t, p)) == []
    ensures OnEdge(t, p, front)
    decreases |p|
  {
    if p != [] {
      var i := p[0];
      OuterIsEdge(t.kids[i], h - 1, cap, p[1..], front);
      var before, behind := if i > 0 then ValueAt(t, i - 1) else [], ValueAt(t, i);
      hide InOrder;
    }
  }

  /** A value put into a leaf at the edge. */
  lemma LeafDense<T>(t: Tree<T>, p: Path, g: nat, s: Tree<T>, cap: nat, front: bool)
    requires AtEdge(t, p, g, front) && Dense(t, cap, front) && s.kids == []
    ensures Dense(Update(t, p, s), cap, front)
  {
    DenseUpdate(t, p, s, cap, front);
  }

  /** What an insertion in front of all values, or behind them, keeps. */
  ghost predicate EdgeGrown<T>(t: Tree<T>, before: seq<T>, t': Tree<T>, cap: nat) {
    && (before == [] && Dense(t, cap, true) ==> Dense(t', cap, true))
    && (before == InOrder(t) && Dense(t, cap, false) ==> Dense(t', cap, false))
  }

  lemma GapIsEdge<T>(t: Tree<T>, h: nat, cap: nat, p: Path, g: nat)
    requires (t == Node([], []) && p == []) || Ok(t, h, cap)
    requires ValidGap(t, p, g) && IsLeaf(At(t, p))
    ensures Gap(t, p, g) == [] ==> AtEdge(t, p, g, true)
    ensures Gap(t, p, g) == InOrder(t) ==> AtEdge(t, p, g, false)
  {
    PathSplit(t, p);
    var n := At(t, p);
    assert |Gap(t, p, g)| == |Before(t, p)| + g && InOrder(n) == n.vals;
    assert |InOrder(t)| == |Before(t, p)| + |n.vals| + |After(t, p)|;
    hide InOrder, Before, After, Gap, Dense;
    if Ok(t, h, cap) {
      if Gap(t, p, g) == [] {
        OuterIsEdge(t, h, cap, p, true);
      }
      if Gap(t, p, g) == InOrder(t) {
        OuterIsEdge(t, h, cap, p, false);
      }
    }
  }

  /** Room made at a leaf gap, and a value put there. */
  lemma GrownAtEdge<T>(t: Tree<T>, h: nat, cap: nat, p: Path, g: nat, u: Tree<T>, q: Path, f: nat, s: Tree<T>)
    requires (t == Node([], []) && p == []) || Ok(t, h, cap)
    requires ValidGap(t, p, g) && IsLeaf(At(t, p)) && EdgeKept(t, p, g, u, q, f, cap) && ValidPath(u, q) && s.kids == []
    ensures EdgeGrown(t, Gap(t, p, g), Update(u, q, s), cap)
  {
    hide Dense, InOrder, Gap;
    GapIsEdge(t, h, cap, p, g);
    forall front | AtEdge(t, p, g, front) && Dense(t, cap, front) ensures Dense(Update(u, q, s), cap, front) {
      LeafDense(u, q, f, s, cap, front);
    }
  }
}
