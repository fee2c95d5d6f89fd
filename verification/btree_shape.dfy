/** The shape of B-trees, and the moves between neighbouring nodes. */
module BtreeShape {
  import opened BtreeTree

  // ---------- what internal_verify checks ----------

  /** A node at height h whose descendants are in order; it may itself be empty. */
  ghost predicate Fits<T>(t: Tree<T>, h: nat, cap: nat)
    decreases h, 0
  {
    && |t.vals| <= cap
    && (if h == 0 then t.kids == []
        else |t.kids| == |t.vals| + 1 && forall i :: 0 <= i < |t.kids| ==> Ok(t.kids[i], h - 1, cap))
  }

  /** No node is empty or over capacity, and all leaves are h levels down. */
  ghost predicate Ok<T>(t: Tree<T>, h: nat, cap: nat)
    decreases h, 1
  {
    |t.vals| >= 1 && Fits(t, h, cap)
  }

  /** All children of n are in order but child i, of which nothing is known. */
  ghost predicate NodeBut<T>(n: Tree<T>, h: nat, cap: nat, i: nat) {
    && h > 0 && 1 <= |n.vals| <= cap && |n.kids| == |n.vals| + 1 && i < |n.kids|
    && forall j :: 0 <= j < |n.kids| && j != i ==> Ok(n.kids[j], h - 1, cap)
  }

  /** The same for everything off the path p. */
  ghost predicate CtxOk<T>(t: Tree<T>, h: nat, cap: nat, p: Path) {
    p == [] || (NodeBut(t, h, cap, p[0]) && CtxOk(t.kids[p[0]], h - 1, cap, p[1..]))
  }

  lemma {:induction false} CtxUpdate<T>(t: Tree<T>, h: nat, cap: nat, p: Path, s: Tree<T>)
    requires CtxOk(t, h, cap, p) && ValidPath(t, p)
    ensures CtxOk(Update(t, p, s), h, cap, p)
    decreases p
  {
    if p != [] {
      CtxUpdate(t.kids[p[0]], h - 1, cap, p[1..], s);
    }
  }

  lemma {:induction false} OkAt<T>(t: Tree<T>, h: nat, cap: nat, p: Path)
    requires Ok(t, h, cap) && ValidPath(t, p)
    ensures |p| <= h && CtxOk(t, h, cap, p) && Ok(At(t, p), h - |p|, cap)
    decreases p
  {
    if p != [] {
      OkAt(t.kids[p[0]], h - 1, cap, p[1..]);
    }
  }

  lemma {:induction false} OkFrom<T>(t: Tree<T>, h: nat, cap: nat, p: Path)
    requires CtxOk(t, h, cap, p) && ValidPath(t, p) && |p| <= h && Ok(At(t, p), h - |p|, cap)
    ensures Ok(t, h, cap)
    decreases p
  {
    if p != [] {
      OkFrom(t.kids[p[0]], h - 1, cap, p[1..]);
    }
  }

  lemma {:induction false} CtxSnoc<T>(t: Tree<T>, h: nat, cap: nat, p: Path, i: nat)
    requires ValidPath(t, p) && |p| <= h
    ensures CtxOk(t, h, cap, p + [i]) <==> CtxOk(t, h, cap, p) && NodeBut(At(t, p), h - |p|, cap, i)
    decreases p
  {
    if p == [] {
      assert (p + [i])[1..] == [];
    } else {
      assert (p + [i])[1..] == p[1..] + [i];
      if h > 0 {
        CtxSnoc(t.kids[p[0]], h - 1, cap, p[1..], i);
      }
    }
  }

  /** A tree of height h has at least 2^(h + 1) - 1 values. */
  function Least(h: nat): nat {
    if h == 0 then 1 else 2 * Least(h - 1) + 1
  }

  lemma {:induction false} LeastSize<T>(t: Tree<T>, h: nat, cap: nat)
    requires Ok(t, h, cap)
    ensures |InOrder(t)| >= Least(h)
    decreases h
  {
    if h > 0 {
      LeastSize(t.kids[0], h - 1, cap);
      LeastSize(t.kids[1], h - 1, cap);
      KidSplit(t, 1);
      GapStep(t, 0);
    }
  }

  function Power2(n: nat): nat {
    if n == 0 then 1 else 2 * Power2(n - 1)
  }

  lemma {:induction false} LeastIsPower(h: nat)
    ensures Least(h) == Power2(h + 1) - 1
  {
    if h > 0 {
      LeastIsPower(h - 1);
    }
  }

  // ---------- moving values between two siblings ----------

  /** n with new contents for child i, child i + 1 and the value between them. */
  function SetPair<T>(n: Tree<T>, i: nat, l: Tree<T>, v: T, r: Tree<T>): Tree<T>
    requires |n.kids| == |n.vals| + 1 && i < |n.vals|
  {
    Node(n.vals[i := v], n.kids[i := l][i + 1 := r])
  }

  /** `rebalance_right_to_left` for child i of n and its right sibling. */
  function RightToLeft<T>(n: Tree<T>, i: nat, m: nat): Tree<T>
    requires |n.kids| == |n.vals| + 1 && i < |n.vals| && Alike(n.kids[i], n.kids[i + 1])
    requires 1 <= m <= |n.kids[i + 1].vals|
  {
    var l, r := n.kids[i], n.kids[i + 1];
    SetPair(n, i,
            Node(l.vals + [n.vals[i]] + r.vals[..m - 1], if IsLeaf(l) then [] else l.kids + r.kids[..m]),
            r.vals[m - 1],
            Node(r.vals[m..], if IsLeaf(r) then [] else r.kids[m..]))
  }

  /** `rebalance_left_to_right` for child i of n and its right sibling. */
  function LeftToRight<T>(n: Tree<T>, i: nat, m: nat): Tree<T>
    requires |n.kids| == |n.vals| + 1 && i < |n.vals| && Alike(n.kids[i], n.kids[i + 1])
    requires 1 <= m <= |n.kids[i].vals|
  {
    var l, r := n.kids[i], n.kids[i + 1];
    var k := |l.vals| - m;
    SetPair(n, i,
            Node(l.vals[..k], if IsLeaf(l) then [] else l.kids[..k + 1]),
            l.vals[k],
            Node(l.vals[k + 1..] + [n.vals[i]] + r.vals, if IsLeaf(r) then [] else l.kids[k + 1..] + r.kids))
  }

  /** `split` of child i of n, of which k values stay. */
  function SplitChild<T>(n: Tree<T>, i: nat, k: nat): Tree<T>
    requires |n.kids| == |n.vals| + 1 && i < |n.kids| && Shaped(n.kids[i]) && k < |n.kids[i].vals|
  {
    var m := n.kids[i];
    Node(n.vals[..i] + [m.vals[k]] + n.vals[i..],
         n.kids[..i] + [Node(m.vals[..k], if IsLeaf(m) then [] else m.kids[..k + 1]),
                        Node(m.vals[k + 1..], if IsLeaf(m) then [] else m.kids[k + 1..])] + n.kids[i + 1..])
  }

  /** The pair i of n' is the pair i of n with the boundary elsewhere. */
  ghost predicate Shifted<T>(n: Tree<T>, i: nat, n': Tree<T>) {
    && |n.kids| == |n.vals| + 1 && i < |n.vals| && Alike(n.kids[i], n.kids[i + 1])
    && |n'.kids| == |n'.vals| + 1 && i < |n'.vals| && Alike(n'.kids[i], n'.kids[i + 1])
    && (IsLeaf(n.kids[i]) <==> IsLeaf(n'.kids[i]))
    && MergeAt(n', i) == MergeAt(n, i)
  }

  lemma SetPairMerge<T>(n: Tree<T>, i: nat, l: Tree<T>, v: T, r: Tree<T>)
    requires |n.kids| == |n.vals| + 1 && i < |n.vals|
    requires Join(l, v, r) == Join(n.kids[i], n.vals[i], n.kids[i + 1])
    ensures MergeAt(SetPair(n, i, l, v, r), i) == MergeAt(n, i)
  {
    var n' := SetPair(n, i, l, v, r);
    assert n'.vals[..i] == n.vals[..i] && n'.vals[i + 1..] == n.vals[i + 1..];
    assert n'.kids[..i] == n.kids[..i] && n'.kids[i + 2..] == n.kids[i + 2..];
  }

  lemma RightToLeftShifts<T>(n: Tree<T>, i: nat, m: nat)
    requires |n.kids| == |n.vals| + 1 && i < |n.vals| && Alike(n.kids[i], n.kids[i + 1])
    requires 1 <= m <= |n.kids[i + 1].vals|
    ensures Shifted(n, i, RightToLeft(n, i, m))
    ensures var n' := RightToLeft(n, i, m);
      |n'.kids[i].vals| == |n.kids[i].vals| + m && |n'.kids[i + 1].vals| == |n.kids[i + 1].vals| - m
  {
    var l, r, v := n.kids[i], n.kids[i + 1], n.vals[i];
    var l' := Node(l.vals + [v] + r.vals[..m - 1], if IsLeaf(l) then [] else l.kids + r.kids[..m]);
    var r' := Node(r.vals[m..], if IsLeaf(r) then [] else r.kids[m..]);
    assert r.vals == r.vals[..m - 1] + [r.vals[m - 1]] + r.vals[m..];
    assert Join(l', r.vals[m - 1], r').vals == Join(l, v, r).vals;
    assert Join(l', r.vals[m - 1], r').kids == Join(l, v, r).kids;
    SetPairMerge(n, i, l', r.vals[m - 1], r');
  }

  lemma CutVals<T>(a: seq<T>, k: nat, v: T, b: seq<T>)
    requires k < |a|
    ensures a[..k] + [a[k]] + (a[k + 1..] + [v] + b) == a + [v] + b
  {
  }

  lemma CutKids<T>(a: seq<T>, k: nat, b: seq<T>)
    requires k <= |a|
    ensures a[..k] + (a[k..] + b) == a + b
  {
  }

  lemma LeftToRightShifts<T>(n: Tree<T>, i: nat, m: nat)
    requires |n.kids| == |n.vals| + 1 && i < |n.vals| && Alike(n.kids[i], n.kids[i + 1])
    requires 1 <= m <= |n.kids[i].vals|
    ensures Shifted(n, i, LeftToRight(n, i, m))
    ensures var n' := LeftToRight(n, i, m);
      |n'.kids[i].vals| == |n.kids[i].vals| - m && |n'.kids[i + 1].vals| == |n.kids[i + 1].vals| + m
  {
    var l, r, v := n.kids[i], n.kids[i + 1], n.vals[i];
    var k := |l.vals| - m;
    var l' := Node(l.vals[..k], if IsLeaf(l) then [] else l.kids[..k + 1]);
    var r' := Node(l.vals[k + 1..] + [v] + r.vals, if IsLeaf(r) then [] else l.kids[k + 1..] + r.kids);
    CutVals(l.vals, k, v, r.vals);
    if !IsLeaf(l) {
      CutKids(l.kids, k + 1, r.kids);
    }
    SetPairMerge(n, i, l', l.vals[k], r');
    hide MergeAt;
  }

  lemma SplitMerges<T>(n: Tree<T>, i: nat, k: nat)
    requires |n.kids| == |n.vals| + 1 && i < |n.kids| && Shaped(n.kids[i]) && k < |n.kids[i].vals|
    ensures var n', m := SplitChild(n, i, k), n.kids[i];
      && |n'.kids| == |n'.vals| + 1 && |n'.vals| == |n.vals| + 1 && Alike(n'.kids[i], n'.kids[i + 1])
      && (IsLeaf(n'.kids[i]) <==> IsLeaf(m))
      && |n'.kids[i].vals| == k && |n'.kids[i + 1].vals| == |m.vals| - k - 1
      && MergeAt(n', i) == n
  {
    var n', m := SplitChild(n, i, k), n.kids[i];
    var j := Join(n'.kids[i], n'.vals[i], n'.kids[i + 1]);
    assert j.vals == m.vals && j.kids == m.kids;
    assert n'.vals[..i] + n'.vals[i + 1..] == n.vals;
    assert n'.kids[..i] + [m] + n'.kids[i + 2..] == n.kids;
  }

  // ---------- gaps stay where they are ----------

  /** The place of gap p of child c, one of the pair i, in the joined pair. */
  function Joined<T>(n: Tree<T>, i: nat, c: nat, p: nat): nat
    requires |n.kids| == |n.vals| + 1 && i < |n.vals|
  {
    if c == i then p else |n.kids[i].vals| + 1 + p
  }

  /** Gap p of child c of n and gap p' of child c' of n' are the same place in the same sequence. */
  ghost predicate SamePlace<T>(n: Tree<T>, c: nat, p: nat, n': Tree<T>, c': nat, p': nat) {
    && c < |n.kids| && Shaped(n.kids[c]) && p <= |n.kids[c].vals|
    && c' < |n'.kids| && Shaped(n'.kids[c']) && p' <= |n'.kids[c'].vals|
    && InOrder(n') == InOrder(n) && Pre(n', c', p') == Pre(n, c, p)
    && (IsLeaf(n.kids[c]) <==> IsLeaf(n'.kids[c']))
    && (!IsLeaf(n.kids[c]) ==> n'.kids[c'].kids[p'] == n.kids[c].kids[p])
  }

  lemma MergeSamePlace<T>(n: Tree<T>, i: nat, c: nat, p: nat)
    requires |n.kids| == |n.vals| + 1 && i < |n.vals| && Alike(n.kids[i], n.kids[i + 1])
    requires (c == i || c == i + 1) && p <= |n.kids[c].vals|
    ensures SamePlace(n, c, p, MergeAt(n, i), i, Joined(n, i, c, p))
  {
    hide InOrder, GapBefore, Pre, Ahead, MergeAt, Join;
    var l, r, v := n.kids[i], n.kids[i + 1], n.vals[i];
    MergedChild(n, i);
    MergeKeepsInOrder(n, i);
    if c == i {
      JoinLeft(l, v, r, p);
    } else {
      JoinRight(l, v, r, p);
    }
    MergeKeepsPre(n, i, p);
  }

  lemma MergedChild<T>(n: Tree<T>, i: nat)
    requires |n.kids| == |n.vals| + 1 && i < |n.vals| && Alike(n.kids[i], n.kids[i + 1])
    ensures var l, r, j := n.kids[i], n.kids[i + 1], Join(n.kids[i], n.vals[i], n.kids[i + 1]);
      && i < |MergeAt(n, i).kids| && MergeAt(n, i).kids[i] == j
      && |j.vals| == |l.vals| + 1 + |r.vals| && (IsLeaf(j) <==> IsLeaf(l)) && (IsLeaf(j) <==> IsLeaf(r))
  {
  }

  lemma ShiftSamePlace<T>(n: Tree<T>, i: nat, n': Tree<T>, c: nat, p: nat, c': nat, p': nat)
    requires Shifted(n, i, n')
    requires (c == i || c == i + 1) && p <= |n.kids[c].vals| && (c' == i || c' == i + 1) && p' <= |n'.kids[c'].vals|
    requires Joined(n, i, c, p) == Joined(n', i, c', p')
    ensures SamePlace(n, c, p, n', c', p')
  {
    hide InOrder, GapBefore, Pre, Ahead, MergeAt;
    MergeSamePlace(n, i, c, p);
    MergeSamePlace(n', i, c', p');
  }

  lemma SplitSamePlace<T>(n: Tree<T>, i: nat, k: nat, p: nat, c': nat, p': nat)
    requires |n.kids| == |n.vals| + 1 && i < |n.kids| && Shaped(n.kids[i]) && k < |n.kids[i].vals|
      && p <= |n.kids[i].vals|
    requires |SplitChild(n, i, k).kids| == |SplitChild(n, i, k).vals| + 1 && i + 1 < |SplitChild(n, i, k).kids|
    requires (c' == i || c' == i + 1) && p' <= |SplitChild(n, i, k).kids[c'].vals|
    requires Joined(SplitChild(n, i, k), i, c', p') == p
    ensures SamePlace(n, i, p, SplitChild(n, i, k), c', p')
  {
    SplitMerges(n, i, k);
    hide InOrder, GapBefore, Pre, Ahead, MergeAt, SplitChild;
    MergeSamePlace(SplitChild(n, i, k), i, c', p');
  }

  // ---------- shape after a move ----------

  /** The children of both nodes of a pair are as good as before. */
  lemma ShiftFits<T>(n: Tree<T>, i: nat, n': Tree<T>, h: nat, cap: nat)
    requires Shifted(n, i, n') && Fits(n.kids[i], h, cap) && Fits(n.kids[i + 1], h, cap)
    requires |n'.kids[i].vals| <= cap && |n'.kids[i + 1].vals| <= cap
    ensures Fits(n'.kids[i], h, cap) && Fits(n'.kids[i + 1], h, cap)
  {
    var l, r, l', r' := n.kids[i], n.kids[i + 1], n'.kids[i], n'.kids[i + 1];
    assert MergeAt(n, i).kids[i] == Join(l, n.vals[i], r) && MergeAt(n', i).kids[i] == Join(l', n'.vals[i], r');
    hide MergeAt;
    JoinedKidsOk(l, r, l', r', h, cap);
  }

  ghost predicate AllOk<T>(ks: seq<Tree<T>>, h: nat, cap: nat) {
    forall i :: 0 <= i < |ks| ==> Ok(ks[i], h, cap)
  }

  lemma AllOkRegroup<T>(a: seq<Tree<T>>, b: seq<Tree<T>>, c: seq<Tree<T>>, d: seq<Tree<T>>, h: nat, cap: nat)
    requires a + b == c + d && AllOk(a, h, cap) && AllOk(b, h, cap)
    ensures AllOk(c, h, cap) && AllOk(d, h, cap)
  {
    hide Ok;
    forall j | 0 <= j < |c| ensures Ok(c[j], h, cap) {
      assert c[j] == (a + b)[j];
    }
    forall j | 0 <= j < |d| ensures Ok(d[j], h, cap) {
      assert d[j] == (a + b)[|c| + j];
    }
  }

  lemma JoinedKidsOk<T>(l: Tree<T>, r: Tree<T>, l': Tree<T>, r': Tree<T>, h: nat, cap: nat)
    requires Fits(l, h, cap) && Fits(r, h, cap) && Alike(l', r') && (IsLeaf(l) <==> IsLeaf(l'))
    requires l.kids + r.kids == l'.kids + r'.kids && |l'.vals| <= cap && |r'.vals| <= cap
    ensures Fits(l', h, cap) && Fits(r', h, cap)
  {
    hide Fits, AllOk;
    FitsIs(l, h, cap);
    FitsIs(r, h, cap);
    FitsIs(l', h, cap);
    FitsIs(r', h, cap);
    if h > 0 {
      AllOkRegroup(l.kids, r.kids, l'.kids, r'.kids, h - 1, cap);
    }
  }

  lemma FitsIs<T>(t: Tree<T>, h: nat, cap: nat)
    ensures Fits(t, h, cap) <==>
      |t.vals| <= cap && if h == 0 then t.kids == [] else |t.kids| == |t.vals| + 1 && AllOk(t.kids, h - 1, cap)
  {
    hide Ok;
  }

  lemma JoinFits<T>(l: Tree<T>, v: T, r: Tree<T>, h: nat, cap: nat)
    requires Fits(l, h, cap) && Fits(r, h, cap) && |l.vals| + 1 + |r.vals| <= cap
    ensures Ok(Join(l, v, r), h, cap) && Alike(l, r)
  {
  }

  /** The halves of a node that is split. */
  lemma SplitFits<T>(n: Tree<T>, i: nat, k: nat, h: nat, cap: nat)
    requires |n.kids| == |n.vals| + 1 && i < |n.kids| && Fits(n.kids[i], h, cap) && k < |n.kids[i].vals|
    ensures Shaped(n.kids[i])
    ensures var n' := SplitChild(n, i, k);
      |n'.kids| == |n.kids| + 1 && Fits(n'.kids[i], h, cap) && Fits(n'.kids[i + 1], h, cap)
  {
  }
}
