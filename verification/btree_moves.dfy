/** The moves between siblings, seen from the whole tree: they keep the values in order and the
    place that an iterator denotes. */
module BtreeMoves {
  import opened BtreeTree
  import opened BtreeShape

  /** What comes before gap p of the node at the path. */
  function Gap<T>(t: Tree<T>, path: Path, p: nat): seq<T>
    requires ValidPath(t, path) && Shaped(At(t, path)) && p <= |At(t, path).vals|
  {
    Before(t, path) + Ahead(At(t, path), p)
  }

  ghost predicate ValidGap<T>(t: Tree<T>, path: Path, p: nat) {
    ValidPath(t, path) && Shaped(At(t, path)) && p <= |At(t, path).vals|
  }

  /** Both trees hold the same values in the same order, and both gaps are at the same place of it:
      between the same values of a leaf, or at the same child. */
  ghost predicate Keeps<T>(t: Tree<T>, path: Path, p: nat, t': Tree<T>, path': Path, p': nat) {
    && ValidGap(t, path, p) && ValidGap(t', path', p')
    && InOrder(t') == InOrder(t) && Gap(t', path', p') == Gap(t, path, p)
    && (IsLeaf(At(t, path)) <==> IsLeaf(At(t', path')))
    && (!IsLeaf(At(t, path)) ==> At(t', path').kids[p'] == At(t, path).kids[p])
  }

  /** The node at the path is the only one of which it is not known whether it is empty. */
  ghost predicate Open<T>(t: Tree<T>, h: nat, cap: nat, path: Path) {
    CtxOk(t, h, cap, path) && ValidPath(t, path) && |path| <= h && Fits(At(t, path), h - |path|, cap)
  }

  lemma OpenShaped<T>(t: Tree<T>, h: nat, cap: nat, path: Path)
    requires Open(t, h, cap, path)
    ensures Shaped(At(t, path)) && (IsLeaf(At(t, path)) <==> |path| == h)
  {
  }

  lemma OkOpen<T>(t: Tree<T>, h: nat, cap: nat, path: Path)
    requires Ok(t, h, cap) && ValidPath(t, path)
    ensures Open(t, h, cap, path) && |At(t, path).vals| >= 1
  {
    OkAt(t, h, cap, path);
  }

  lemma OpenOk<T>(t: Tree<T>, h: nat, cap: nat, path: Path)
    requires Open(t, h, cap, path) && |At(t, path).vals| >= 1
    ensures Ok(t, h, cap)
  {
    OkFrom(t, h, cap, path);
  }

  lemma OpenParent<T>(t: Tree<T>, h: nat, cap: nat, q: Path, c: nat)
    requires Open(t, h, cap, q + [c])
    ensures ValidPath(t, q) && |q| < h && CtxOk(t, h, cap, q) && NodeBut(At(t, q), h - |q|, cap, c)
    ensures At(t, q + [c]) == At(t, q).kids[c] && Fits(At(t, q).kids[c], h - |q| - 1, cap)
  {
    Unsnoc(t, q, c);
    Snoc(t, q, c);
    CtxSnoc(t, h, cap, q, c);
  }

  /** Replacing a node by one that is in order but for child c. */
  lemma OpenChild<T>(t: Tree<T>, h: nat, cap: nat, q: Path, n': Tree<T>, c: nat)
    requires CtxOk(t, h, cap, q) && ValidPath(t, q) && |q| < h
    requires NodeBut(n', h - |q|, cap, c) && Fits(n'.kids[c], h - |q| - 1, cap)
    ensures Open(Update(t, q, n'), h, cap, q + [c]) && At(Update(t, q, n'), q + [c]) == n'.kids[c]
  {
    hide CtxOk, Fits, Ok, NodeBut, At, Update, ValidPath, Before, After;
    var t' := Update(t, q, n');
    assert |n'.kids| > c by { HasChild(n', h - |q|, cap, c); }
    UpdateContext(t, q, n');
    CtxUpdate(t, h, cap, q, n');
    CtxSnoc(t', h, cap, q, c);
    Snoc(t', q, c);
  }

  lemma HasChild<T>(n: Tree<T>, h: nat, cap: nat, c: nat)
    requires NodeBut(n, h, cap, c)
    ensures c < |n.kids|
  {
  }

  /** A change inside one node, seen from the whole tree. */
  lemma Lift<T>(t: Tree<T>, q: Path, n': Tree<T>, c: nat, p: nat, c': nat, p': nat)
    requires ValidPath(t, q) && SamePlace(At(t, q), c, p, n', c', p')
    ensures Keeps(t, q + [c], p, Update(t, q, n'), q + [c'], p')
  {
    hide InOrder, GapBefore, Ahead, At, Update, ValidPath, Before, After, GapAfter;
    var n, t' := At(t, q), Update(t, q, n');
    UpdateAt(t, q, n');
    PathSplit(t, q);
    Snoc(t, q, c);
    Snoc(t', q, c');
    assert Gap(t, q + [c], p) == Before(t, q) + Pre(n, c, p);
    assert Gap(t', q + [c'], p') == Before(t, q) + Pre(n', c', p');
  }

  lemma ShiftNodeBut<T>(n: Tree<T>, i: nat, n': Tree<T>, h: nat, cap: nat, c: nat, c': nat)
    requires NodeBut(n, h, cap, c) && Shifted(n, i, n') && (c == i || c == i + 1) && (c' == i || c' == i + 1)
    requires Fits(n.kids[c], h - 1, cap) && |n'.kids[i].vals| <= cap && |n'.kids[i + 1].vals| <= cap
    requires |n'.kids[i + i + 1 - c'].vals| >= 1
    ensures NodeBut(n', h, cap, c') && Fits(n'.kids[c'], h - 1, cap)
  {
    var d, d' := i + i + 1 - c, i + i + 1 - c';
    assert Ok(n.kids[d], h - 1, cap);
    ShiftFits(n, i, n', h - 1, cap);
    assert Ok(n'.kids[d'], h - 1, cap);
    hide Fits, Ok;
    assert MergeAt(n', i).kids == MergeAt(n, i).kids && |n'.vals| == |n.vals|;
    forall j | 0 <= j < |n'.kids| && j != c' ensures Ok(n'.kids[j], h - 1, cap) {
      if j < i {
        assert n'.kids[j] == MergeAt(n', i).kids[j] && n.kids[j] == MergeAt(n, i).kids[j];
      } else if j > i + 1 {
        assert n'.kids[j] == MergeAt(n', i).kids[j - 1] && n.kids[j] == MergeAt(n, i).kids[j - 1];
      }
    }
  }

  /** Rebalancing the pair i below q. */
  lemma ShiftAt<T>(t: Tree<T>, h: nat, cap: nat, q: Path, i: nat, n': Tree<T>, c: nat, p: nat, c': nat, p': nat)
    requires Open(t, h, cap, q + [c]) && ValidPath(t, q) && Shifted(At(t, q), i, n')
    requires (c == i || c == i + 1) && p <= |At(t, q).kids[c].vals| && (c' == i || c' == i + 1)
      && p' <= |n'.kids[c'].vals|
    requires Joined(At(t, q), i, c, p) == Joined(n', i, c', p')
    requires |n'.kids[i].vals| <= cap && |n'.kids[i + 1].vals| <= cap && |n'.kids[i + i + 1 - c'].vals| >= 1
    ensures Open(Update(t, q, n'), h, cap, q + [c']) && At(Update(t, q, n'), q + [c']) == n'.kids[c']
    ensures Keeps(t, q + [c], p, Update(t, q, n'), q + [c'], p')
  {
    hide Fits, Ok, NodeBut, CtxOk, InOrder, Joined, Shifted, Keeps, SamePlace;
    OpenParent(t, h, cap, q, c);
    ShiftNodeBut(At(t, q), i, n', h - |q|, cap, c, c');
    OpenChild(t, h, cap, q, n', c');
    ShiftSamePlace(At(t, q), i, n', c, p, c', p');
    Lift(t, q, n', c, p, c', p');
  }

  lemma MergedFits<T>(n: Tree<T>, i: nat, h: nat, cap: nat, c: nat)
    requires NodeBut(n, h, cap, c) && i < |n.vals| && (c == i || c == i + 1) && Fits(n.kids[c], h - 1, cap)
    requires |n.kids[i].vals| + 1 + |n.kids[i + 1].vals| <= cap
    ensures Alike(n.kids[i], n.kids[i + 1]) && Fits(MergeAt(n, i), h, cap)
  {
    var m, d := MergeAt(n, i), i + i + 1 - c;
    assert Ok(n.kids[d], h - 1, cap);
    JoinFits(n.kids[i], n.vals[i], n.kids[i + 1], h - 1, cap);
    forall j | 0 <= j < |m.kids| ensures Ok(m.kids[j], h - 1, cap) {
      assert m.kids[j] == if j < i then n.kids[j] else if j == i then Join(n.kids[i], n.vals[i], n.kids[i + 1])
        else n.kids[j + 1];
    }
    hide Ok;
  }

  /** Merging the pair i below q: now the parent may be empty. */
  lemma MergeBelow<T>(t: Tree<T>, h: nat, cap: nat, q: Path, i: nat, c: nat, p: nat)
    requires Open(t, h, cap, q + [c]) && ValidPath(t, q) && |At(t, q).kids| == |At(t, q).vals| + 1
      && i < |At(t, q).vals|
    requires (c == i || c == i + 1) && p <= |At(t, q).kids[c].vals|
    requires |At(t, q).kids[i].vals| + 1 + |At(t, q).kids[i + 1].vals| <= cap
    ensures Open(Update(t, q, MergeAt(At(t, q), i)), h, cap, q)
    ensures At(Update(t, q, MergeAt(At(t, q), i)), q) == MergeAt(At(t, q), i)
    ensures Keeps(t, q + [c], p, Update(t, q, MergeAt(At(t, q), i)), q + [i], Joined(At(t, q), i, c, p))
  {
    hide Fits, Ok, NodeBut, CtxOk, InOrder, Joined, MergeAt, Keeps, SamePlace;
    var n := At(t, q);
    OpenParent(t, h, cap, q, c);
    MergedFits(n, i, h - |q|, cap, c);
    UpdateContext(t, q, MergeAt(n, i));
    CtxUpdate(t, h, cap, q, MergeAt(n, i));
    MergeSamePlace(n, i, c, p);
    Lift(t, q, MergeAt(n, i), c, p, i, Joined(n, i, c, p));
  }

  lemma SplitNodeBut<T>(n: Tree<T>, i: nat, k: nat, h: nat, cap: nat, c': nat)
    requires h > 0 && Fits(n, h, cap) && |n.vals| < cap && i < |n.kids| && k < |n.kids[i].vals|
      && (c' == i || c' == i + 1)
    requires Shaped(n.kids[i]) && if c' == i then |n.kids[i].vals| - k - 1 >= 1 else k >= 1
    ensures NodeBut(SplitChild(n, i, k), h, cap, c') && Fits(SplitChild(n, i, k).kids[c'], h - 1, cap)
  {
    FitsIs(n, h, cap);
    hide Ok, Fits, SplitChild, MergeAt;
    SplitMerges(n, i, k);
    SplitOthers(n, i, k);
    SplitHalves(n, i, k, h, cap, c');
  }

  lemma SplitHalves<T>(n: Tree<T>, i: nat, k: nat, h: nat, cap: nat, c': nat)
    requires h > 0 && Fits(n, h, cap) && |n.kids| == |n.vals| + 1 && i < |n.kids| && k < |n.kids[i].vals|
      && (c' == i || c' == i + 1)
    requires Shaped(n.kids[i]) && if c' == i then |n.kids[i].vals| - k - 1 >= 1 else k >= 1
    ensures AllOk(n.kids, h - 1, cap) && |SplitChild(n, i, k).kids| == |n.kids| + 1
    ensures Ok(SplitChild(n, i, k).kids[i + i + 1 - c'], h - 1, cap) && Fits(SplitChild(n, i, k).kids[c'], h - 1, cap)
  {
    assert Ok(n.kids[i], h - 1, cap);
    SplitFits(n, i, k, h - 1, cap);
    SplitMerges(n, i, k);
  }

  lemma SplitOthers<T>(n: Tree<T>, i: nat, k: nat)
    requires |n.kids| == |n.vals| + 1 && i < |n.kids| && Shaped(n.kids[i]) && k < |n.kids[i].vals|
    ensures var n' := SplitChild(n, i, k);
      && |n'.kids| == |n.kids| + 1
      && (forall j :: 0 <= j < i ==> n'.kids[j] == n.kids[j])
      && (forall j :: i + 1 < j < |n'.kids| ==> n'.kids[j] == n.kids[j - 1])
  {
  }

  /** Gap p of child i moves to gap p' of child c' when k values stay. */
  ghost predicate SplitGoesTo<T>(n: Tree<T>, i: nat, k: nat, p: nat, c': nat, p': nat) {
    && |n.kids| == |n.vals| + 1 && i < |n.kids| && Shaped(n.kids[i]) && k < |n.kids[i].vals| && p <= |n.kids[i].vals|
    && (c' == i || c' == i + 1)
    && (if c' == i then p <= k && p' == p && |n.kids[i].vals| - k - 1 >= 1 else p > k && p' == p - k - 1 && k >= 1)
  }

  lemma SplitPlace<T>(n: Tree<T>, i: nat, k: nat, p: nat, c': nat, p': nat)
    requires SplitGoesTo(n, i, k, p, c', p')
    ensures |SplitChild(n, i, k).kids| == |n.kids| + 1 && SamePlace(n, i, p, SplitChild(n, i, k), c', p')
    ensures |n.kids| == |n.vals| + 1 && i < |n.kids| && Shaped(n.kids[i]) && k < |n.kids[i].vals|
    ensures (c' == i || c' == i + 1) && if c' == i then |n.kids[i].vals| - k - 1 >= 1 else k >= 1
  {
    SplitMerges(n, i, k);
    hide SplitChild, MergeAt, SamePlace;
    SplitSamePlace(n, i, k, p, c', p');
  }

  /** Splitting child i below q, whose parent has room. */
  lemma SplitBelow<T>(t: Tree<T>, h: nat, cap: nat, q: Path, i: nat, k: nat, p: nat, c': nat, p': nat)
    requires Open(t, h, cap, q) && |q| < h && |At(t, q).vals| < cap && SplitGoesTo(At(t, q), i, k, p, c', p')
    ensures var n' := SplitChild(At(t, q), i, k);
      && Open(Update(t, q, n'), h, cap, q + [c']) && c' < |n'.kids| && At(Update(t, q, n'), q + [c']) == n'.kids[c']
    ensures Keeps(t, q + [i], p, Update(t, q, SplitChild(At(t, q), i, k)), q + [c'], p')
  {
    var n, n' := At(t, q), SplitChild(At(t, q), i, k);
    assert Fits(n, h - |q|, cap) && CtxOk(t, h, cap, q) && ValidPath(t, q);
    hide *;
    SplitPlace(n, i, k, p, c', p');
    assert NodeBut(n', h - |q|, cap, c') && Fits(n'.kids[c'], h - |q| - 1, cap) by {
      SplitNodeBut(n, i, k, h - |q|, cap, c');
    }
    OpenChild(t, h, cap, q, n', c');
    Lift(t, q, n', i, p, c', p');
  }

  lemma FirstChild<T>(u: Tree<T>, t: Tree<T>)
    requires u == Node([], [t])
    ensures GapBefore(u, 0) == [] && ValidPath(u, [0]) && At(u, [0]) == t && Before(u, [0]) == []
  {
    var q: Path := [0];
    assert q[1..] == [];
    hide InOrder;
  }

  /** A new root above the old one. */
  lemma NewRoot<T>(t: Tree<T>, h: nat, cap: nat, p: nat)
    requires Ok(t, h, cap) && p <= |t.vals|
    ensures var u := Node([], [t]);
      Open(u, h + 1, cap, []) && Shaped(u) && Shaped(t) && Keeps(t, [], p, u, [0], p)
  {
    var u := Node([], [t]);
    FirstChild(u, t);
    assert Open(u, h + 1, cap, []) by {
      hide InOrder, GapBefore;
    }
    InOrderLast(u);
    hide InOrder, GapBefore, Ok, Fits, Ahead, Open;
  }

  /** An only child takes the place of its parent. */
  lemma DropRoot<T>(t: Tree<T>, h: nat, cap: nat, path: Path, p: nat)
    requires Open(t, h, cap, []) && |t.vals| == 0 && h > 0 && path != [] && ValidGap(t, path, p)
    ensures |t.kids| == 1 && path[0] == 0 && Ok(t.kids[0], h - 1, cap) && Keeps(t, path, p, t.kids[0], path[1..], p)
  {
    assert GapBefore(t, 0) == [] && Ok(t.kids[0], h - 1, cap) && |t.kids| == 1 && path[0] == 0 by {
      hide InOrder;
    }
    InOrderLast(t);
    hide InOrder, GapBefore, Ok, Fits, Ahead, Open;
    assert [] + Before(t.kids[0], path[1..]) == Before(t.kids[0], path[1..]);
  }

  // ---------- leaves ----------

  function InsertValue<T>(n: Tree<T>, i: nat, v: T): Tree<T>
    requires i <= |n.vals|
  {
    Node(n.vals[..i] + [v] + n.vals[i..], n.kids)
  }

  function RemoveValue<T>(n: Tree<T>, i: nat): Tree<T>
    requires i < |n.vals|
  {
    Node(n.vals[..i] + n.vals[i + 1..], n.kids)
  }

  /** A value put into a gap of a leaf. */
  lemma InsertInLeaf<T>(t: Tree<T>, h: nat, cap: nat, path: Path, p: nat, v: T)
    requires Open(t, h, cap, path) && |path| == h && p <= |At(t, path).vals| < cap
    ensures var t' := Update(t, path, InsertValue(At(t, path), p, v));
      && Ok(t', h, cap) && ValidPath(t', path) && At(t', path) == InsertValue(At(t, path), p, v)
      && Shaped(At(t, path)) && Gap(t', path, p) == Gap(t, path, p)
      && Gap(t, path, p) <= InOrder(t)
      && InOrder(t') == Gap(t, path, p) + [v] + InOrder(t)[|Gap(t, path, p)|..]
  {
    var n, n' := At(t, path), InsertValue(At(t, path), p, v);
    UpdateAt(t, path, n');
    CtxUpdate(t, h, cap, path, n');
    PathSplit(t, path);
    OkFrom(Update(t, path, n'), h, cap, path);
    LeafGap(t, path, p);
    LeafGap(Update(t, path, n'), path, p);
    assert n'.vals[..p] == n.vals[..p];
    hide *;
    PutIn(Before(t, path), n.vals, p, v, After(t, path));
  }

  /** A value taken out of a leaf, which may then be empty. */
  lemma RemoveFromLeaf<T>(t: Tree<T>, h: nat, cap: nat, path: Path, p: nat)
    requires Open(t, h, cap, path) && |path| == h && p < |At(t, path).vals|
    ensures var t' := Update(t, path, RemoveValue(At(t, path), p));
      && Open(t', h, cap, path) && At(t', path) == RemoveValue(At(t, path), p)
      && Shaped(At(t, path)) && Gap(t', path, p) == Gap(t, path, p)
      && Gap(t, path, p) < InOrder(t)
      && InOrder(t') == Gap(t, path, p) + InOrder(t)[|Gap(t, path, p)| + 1..]
  {
    var n, n' := At(t, path), RemoveValue(At(t, path), p);
    UpdateAt(t, path, n');
    CtxUpdate(t, h, cap, path, n');
    PathSplit(t, path);
    LeafGap(t, path, p);
    LeafGap(Update(t, path, n'), path, p);
    assert n'.vals[..p] == n.vals[..p];
    hide *;
    TakeOut(Before(t, path), n.vals, p, After(t, path));
  }

  lemma LeafGap<T>(t: Tree<T>, path: Path, p: nat)
    requires ValidPath(t, path) && IsLeaf(At(t, path)) && p <= |At(t, path).vals|
    ensures Gap(t, path, p) == Before(t, path) + At(t, path).vals[..p] && InOrder(At(t, path)) == At(t, path).vals
  {
  }

  lemma TakeOut<T>(b: seq<T>, x: seq<T>, p: nat, a: seq<T>)
    requires p < |x|
    ensures var all, g := b + x + a, b + x[..p];
      g < all && b + (x[..p] + x[p + 1..]) + a == g + all[|g| + 1..]
  {
    assert x == x[..p] + [x[p]] + x[p + 1..];
    assert b + x + a == (b + x[..p]) + ([x[p]] + x[p + 1..] + a);
  }

  lemma PutIn<T>(b: seq<T>, x: seq<T>, p: nat, v: T, a: seq<T>)
    requires p <= |x|
    ensures var all, g := b + x + a, b + x[..p];
      g <= all && b + (x[..p] + [v] + x[p..]) + a == g + [v] + all[|g|..]
  {
    assert x == x[..p] + x[p..];
    assert b + x + a == (b + x[..p]) + (x[p..] + a);
  }
}
