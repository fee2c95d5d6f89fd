/** The B-tree. */
module Btree {
  import opened Options
  import opened BtreeTree
  import opened BtreeShape
  import opened BtreeMoves
  import opened BtreeWalk
  import opened BtreeSearch
  import opened BtreeRebalance
  import opened BtreeDense
  import opened BtreeLeaves

  function Height<T>(t: Tree<T>): nat {
    if t.kids == [] then 0 else Height(t.kids[0]) + 1
  }

  lemma {:induction false} HeightIs<T>(t: Tree<T>, h: nat, cap: nat)
    requires Ok(t, h, cap)
    ensures Height(t) == h
    decreases h
  {
    if h > 0 {
      HeightIs(t.kids[0], h - 1, cap);
    }
  }

  /** A strict weak order, as far as the tree relies on it. */
  ghost predicate StrictWeak<T(!new)>(lt: (T, T) -> bool) {
    && (forall x, y :: lt(x, y) ==> !lt(y, x))
    && (forall x, y, z :: lt(x, z) ==> lt(x, y) || lt(y, z))
  }

  /** No value is less than one before it. */
  ghost predicate Sorted<T>(s: seq<T>, lt: (T, T) -> bool) {
    forall i, j :: 0 <= i < j < |s| ==> !lt(s[j], s[i])
  }

  /** Each value is less than those after it. */
  ghost predicate Increasing<T>(s: seq<T>, lt: (T, T) -> bool) {
    forall i, j :: 0 <= i < j < |s| ==> lt(s[i], s[j])
  }

  lemma AtRoot<T>(t: Tree<T>)
    ensures ValidPath(t, []) && At(t, []) == t
  {
  }

  lemma InParent<T>(t: Tree<T>, h: nat, cap: nat, q: Path, i: nat)
    requires Ok(t, h, cap) && ValidPath(t, q + [i])
    ensures ValidPath(t, q) && |q| < h && i <= |At(t, q).vals| <= cap && |At(t, q).kids| == |At(t, q).vals| + 1
    ensures At(t, q + [i]) == At(t, q).kids[i]
  {
    Unsnoc(t, q, i);
    Snoc(t, q, i);
    OkAt(t, h, cap, q);
    OkAt(t, h, cap, q + [i]);
    hide Ok, CtxOk;
  }

  /** v stands before the rest of the values that were there, where r denotes it. */
  ghost predicate Inserted<T>(t: Tree<T>, before: seq<T>, v: T, t': Tree<T>, r: Iter) {
    && before <= InOrder(t) && InOrder(t') == before + [v] + InOrder(t)[|before|..]
    && IsElem(t', r) && Value(t', r) == v && Prefix(t', r) == before
  }

  lemma InsertedSame<T>(t: Tree<T>, u: Tree<T>, before: seq<T>, v: T, t': Tree<T>, r: Iter)
    requires InOrder(u) == InOrder(t) && Inserted(u, before, v, t', r)
    ensures Inserted(t, before, v, t', r)
  {
    hide InOrder;
  }

  lemma InnerFacts<T>(t: Tree<T>, h: nat, cap: nat, it: Iter)
    requires t == Node([], []) || Ok(t, h, cap)
    requires Stands(t, it) && !IsLeaf(At(t, it.path))
    ensures Ok(t, h, cap) && IsElem(t, it) && Prefix(t, it) != []
  {
    OkAt(t, h, cap, it.path);
    var n := At(t, it.path);
    LeastSize(n.kids[it.pos], h - |it.path| - 1, cap);
  }

  lemma LeafFacts<T>(t: Tree<T>, h: nat, cap: nat, it: Iter)
    requires Stands(t, it) && IsLeaf(At(t, it.path))
    requires if t == Node([], []) then h == 0 else Ok(t, h, cap)
    ensures ValidPath(t, it.path) && Open(t, h, cap, it.path) && |it.path| == h
      && it.pos <= |At(t, it.path).vals| <= cap
    ensures (it.path == [] <==> IsLeaf(t)) && (it.path == [] ==> At(t, it.path) == t)
  {
    hide InOrder;
    if t != Node([], []) {
      OkOpen(t, h, cap, it.path);
      OkOpen(t, h, cap, []);
      OpenShaped(t, h, cap, it.path);
      OpenShaped(t, h, cap, []);
    }
  }

  lemma RoomyLeaf<T>(t: Tree<T>, at: Iter, u: Tree<T>, h: nat, cap: nat, it: Iter)
    requires Stands(t, at) && IsLeaf(At(t, at.path)) && Roomy(t, at.path, at.pos, u, h, cap, it.path, it.pos)
    ensures Open(u, h, cap, it.path) && Stands(u, it) && IsLeaf(At(u, it.path)) && |it.path| == h
    ensures it.pos <= |At(u, it.path).vals| < cap && Prefix(u, it) == Prefix(t, at) && InOrder(u) == InOrder(t)
  {
    OpenShaped(u, h, cap, it.path);
    hide InOrder, Open;
  }

  lemma EmplacedDense<T>(t: Tree<T>, h: nat, cap: nat, at: Iter, u: Tree<T>, it: Iter, v: T)
    requires if t == Node([], []) then h == 0 else Ok(t, h, cap)
    requires Stands(t, at) && IsLeaf(At(t, at.path)) && EdgeKept(t, at.path, at.pos, u, it.path, it.pos, cap)
    requires ValidPath(u, it.path) && it.pos <= |At(u, it.path).vals| && IsLeaf(At(u, it.path))
    ensures EdgeGrown(t, Prefix(t, at), Update(u, it.path, InsertValue(At(u, it.path), it.pos, v)), cap)
    ensures LeafCount(Update(u, it.path, InsertValue(At(u, it.path), it.pos, v))) == LeafCount(u)
  {
    LeafForLeaf(u, it.path, InsertValue(At(u, it.path), it.pos, v));
    hide InOrder, EdgeKept, EdgeGrown, Gap;
    assert Gap(t, at.path, at.pos) + [] == Gap(t, at.path, at.pos);
    GrownAtEdge(t, h, cap, at.path, at.pos, u, it.path, it.pos, InsertValue(At(u, it.path), it.pos, v));
  }

  /** A leaf with less than half of the capacity that fits into one node with a sibling. */
  predicate MergesLeaf<T>(t: Tree<T>, path: Path, cap: nat) {
    ValidPath(t, path) && |At(t, path).vals| < cap / 2 && CanMerge(t, path, cap)
  }

  /** A leaf that does, when a value less is in it. */
  predicate ErasesLeaf<T>(t: Tree<T>, path: Path, cap: nat) {
    path != [] &&
    var q, c := path[..|path| - 1], path[|path| - 1];
    ValidPath(t, q) && c < |At(t, q).kids| &&
    var n := At(t, q);
    && |n.kids[c].vals| <= cap / 2
    && ((c > 0 && |n.kids[c - 1].vals| + |n.kids[c].vals| <= cap)
        || (c + 1 < |n.kids| && |n.kids[c].vals| + |n.kids[c + 1].vals| <= cap))
  }

  lemma ErasesLeafIs<T>(t: Tree<T>, h: nat, cap: nat, it: Iter)
    requires Ok(t, h, cap) && IsElem(t, it) && IsLeaf(At(t, it.path))
    ensures var u := Update(t, it.path, RemoveValue(At(t, it.path), it.pos));
      && (MergesLeaf(u, it.path, cap) <==> ErasesLeaf(t, it.path, cap)) && LeafCount(u) == LeafCount(t)
  {
    var path, s := it.path, RemoveValue(At(t, it.path), it.pos);
    var u := Update(t, path, s);
    LeafForLeaf(t, path, s);
    UpdatedAt(t, path, s);
    if path != [] {
      var q, c := path[..|path| - 1], path[|path| - 1];
      assert path == q + [c];
      InParent(t, h, cap, q, c);
      UpdateChild(t, q, c, s);
    }
  }

  lemma {:induction false} UpdateChild<T>(t: Tree<T>, q: Path, c: nat, s: Tree<T>)
    requires ValidPath(t, q + [c]) && ValidPath(t, q) && c < |At(t, q).kids|
    ensures var u := Update(t, q + [c], s);
      ValidPath(u, q) && At(u, q).kids == At(t, q).kids[c := s]
    decreases |q|
  {
    if q == [] {
      assert (q + [c])[1..] == [];
    } else {
      assert (q + [c])[1..] == q[1..] + [c];
      UpdateChild(t.kids[q[0]], q[1..], c, s);
    }
  }

  lemma MergesLeafIs<T>(t: Tree<T>, h: nat, cap: nat, path: Path)
    requires Open(t, h, cap, path)
    ensures ValidPath(t, path) && |path| <= h && (IsLeaf(At(t, path)) <==> |path| == h)
    ensures MergesLeaf(t, path, cap) <==> |At(t, path).vals| < MinValues(cap) && CanMerge(t, path, cap)
    ensures path == [] ==> !CanMerge(t, path, cap)
  {
    OpenShaped(t, h, cap, path);
  }

  /** A full leaf that cannot share with a sibling. */
  predicate SplitsLeaf<T>(t: Tree<T>, it: Iter, cap: nat) {
    ValidPath(t, it.path) && IsLeaf(At(t, it.path)) && |At(t, it.path).vals| == cap
      && !CanShare(t, it.path, it.pos, cap)
  }

  lemma SplitsLeafIs<T>(t: Tree<T>, it: Iter, cap: nat)
    requires ValidPath(t, it.path) && |At(t, it.path).vals| == cap
    ensures SplitsLeaf(t, it, cap) <==> IsLeaf(At(t, it.path)) && !CanShare(t, it.path, it.pos, cap)
    ensures it.path == [] ==> !CanShare(t, it.path, it.pos, cap)
  {
  }

  lemma InnerAt<T>(t: Tree<T>, q: Path, cap: nat, i: nat)
    requires ValidPath(t, q) && |At(t, q).kids| == |At(t, q).vals| + 1
    ensures !SplitsLeaf(t, Iter(q, i), cap)
  {
  }

  /** The value put into its leaf. */
  lemma Emplaced<T>(t: Tree<T>, h: nat, cap: nat, it: Iter, v: T)
    requires Open(t, h, cap, it.path) && |it.path| == h && Stands(t, it) && IsLeaf(At(t, it.path))
      && |At(t, it.path).vals| < cap
    ensures ValidPath(t, it.path) && it.pos <= |At(t, it.path).vals|
    ensures var u := Update(t, it.path, InsertValue(At(t, it.path), it.pos, v));
      && Ok(u, h, cap) && Inserted(t, Prefix(t, it), v, u, it) && |InOrder(u)| == |InOrder(t)| + 1
      && (IsLeaf(u) <==> it.path == []) && (it.path == [] ==> |u.vals| == |t.vals| + 1 && At(t, it.path) == t)
  {
    hide InOrder, Ok, Open;
    InsertInLeaf(t, h, cap, it.path, it.pos, v);
  }

  /** The gap res, which has g before it, is the gap `it` or lies below it. */
  ghost predicate Tracks<T>(t: Tree<T>, it: Iter, res: Iter, g: seq<T>) {
    && ValidGap(t, res.path, res.pos) && IsLeaf(At(t, res.path)) && Gap(t, res.path, res.pos) == g
    && ValidGap(t, it.path, it.pos) && it.path <= res.path
    && (if it.path == res.path then it.pos == res.pos
        else !IsLeaf(At(t, it.path)) && it.path + [it.pos] <= res.path)
  }

  lemma TracksSelf<T>(t: Tree<T>, h: nat, cap: nat, it: Iter)
    requires Open(t, h, cap, it.path) && |it.path| == h && ValidGap(t, it.path, it.pos)
    ensures Tracks(t, it, it, Gap(t, it.path, it.pos))
  {
    OpenShaped(t, h, cap, it.path);
    hide Open, InOrder, Gap;
  }

  lemma TracksGap<T>(t: Tree<T>, it: Iter, res: Iter, g: seq<T>)
    requires Tracks(t, it, res, g)
    ensures ValidPath(t, it.path) && it.pos <= |At(t, it.path).vals| && ValidGap(t, it.path, it.pos)
    ensures it.path <= res.path && (it.path != res.path ==> |res.path| > |it.path|)
    ensures LeafGapIs(t, res, g)
  {
    hide Gap;
  }

  ghost predicate LeafGapIs<T>(t: Tree<T>, res: Iter, g: seq<T>) {
    ValidGap(t, res.path, res.pos) && IsLeaf(At(t, res.path)) && Gap(t, res.path, res.pos) == g
  }

  lemma EmptyEnd<T>(t: Tree<T>, res: Iter, g: seq<T>)
    requires |t.vals| == 0 && IsLeaf(t) && LeafGapIs(t, res, g)
    ensures t == Node([], []) && InOrder(t) == [] && ComesTo(t, Iter([], 0), g)
  {
    assert res.path == [];
  }

  lemma ShrinkGap<T>(t: Tree<T>, h: nat, cap: nat, res: Iter, g: seq<T>)
    requires Open(t, h, cap, []) && |t.vals| == 0 && !IsLeaf(t) && LeafGapIs(t, res, g)
    ensures h > 0 && Ok(t.kids[0], h - 1, cap) && InOrder(t.kids[0]) == InOrder(t) && 1 <= |t.kids[0].vals| <= cap
    ensures res.path != [] && LeafGapIs(t.kids[0], Iter(res.path[1..], res.pos), g)
  {
    DropRoot(t, h, cap, res.path, res.pos);
    OkNode(t.kids[0], h - 1, cap);
    hide InOrder, Gap, Ok;
  }

  lemma LeafGapFacts<T>(t: Tree<T>, h: nat, cap: nat, res: Iter, g: seq<T>)
    requires Ok(t, h, cap) && LeafGapIs(t, res, g)
    ensures ValidPath(t, res.path) && res.pos <= |At(t, res.path).vals|
    ensures if res.pos == |At(t, res.path).vals| then
        res.pos > 0 && IsElem(t, Iter(res.path, res.pos - 1))
        && Prefix(t, Iter(res.path, res.pos - 1)) + [Value(t, Iter(res.path, res.pos - 1))] == g
      else ComesTo(t, res, g)
  {
    OkOpen(t, h, cap, res.path);
    hide Ok, InOrder, Gap, Open;
    if res.pos == |At(t, res.path).vals| {
      NextInLeaf(t, Iter(res.path, res.pos - 1));
    } else {
      StopsHere(t, res);
    }
  }

  lemma StillFits<T>(t: Tree<T>, u: Tree<T>, h: nat, cap: nat, path: Path, path': Path, merged: bool)
    requires Open(t, h, cap, path) && path != [] && if merged then Open(u, h, cap, path') else Ok(u, h, cap)
    ensures !IsLeaf(t) && !IsLeaf(u)
  {
  }

  lemma TracksMove<T>(t: Tree<T>, it: Iter, res: Iter, g: seq<T>, u: Tree<T>, up: Iter, res': Iter)
    requires Tracks(t, it, res, g) && Keeps(t, it.path, it.pos, u, up.path, up.pos)
    requires it.path <= res.path && (it.path != res.path ==> |res.path| > |it.path|)
    requires res' == if res.path == it.path then up else Iter(up.path + [up.pos] + res.path[|it.path| + 1..], res.pos)
    ensures Tracks(u, up, res', g) && InOrder(u) == InOrder(t)
  {
    hide Gap, InOrder, Before;
    if it.path != res.path {
      var s := res.path[|it.path| + 1..];
      assert res.path == it.path + [it.pos] + s;
      Follows(t, it.path, it.pos, u, up.path, up.pos, s, res.pos);
    }
  }

  lemma TracksUp<T>(t: Tree<T>, it: Iter, res: Iter, g: seq<T>)
    requires Tracks(t, it, res, g) && it.path != []
    requires ValidPath(t, it.path[..|it.path| - 1]) && Shaped(At(t, it.path[..|it.path| - 1]))
    ensures Tracks(t, Iter(it.path[..|it.path| - 1], it.path[|it.path| - 1]), res, g)
  {
    hide Gap;
    var q, i := it.path[..|it.path| - 1], it.path[|it.path| - 1];
    assert it.path == q + [i];
    Unsnoc(t, q, i);
  }

  /** Nothing can be done for a node that is not empty and has no rich sibling. */
  lemma LeftAsItIs<T>(t: Tree<T>, h: nat, cap: nat, it: Iter)
    requires Open(t, h, cap, it.path) && ValidPath(t, it.path) && it.pos <= |At(t, it.path).vals|
      && |At(t, it.path).vals| >= 1
    ensures Ok(t, h, cap) && Keeps(t, it.path, it.pos, t, it.path, it.pos)
  {
    OpenShaped(t, h, cap, it.path);
    OpenOk(t, h, cap, it.path);
    KeepsSelf(t, it.path, it.pos);
    hide Ok, Open, Keeps;
  }

  /** The value after `before` is gone, and res denotes the one that followed. */
  ghost predicate Removed<T>(t: Tree<T>, before: seq<T>, t': Tree<T>, res: Iter) {
    && before < InOrder(t) && InOrder(t') == before + InOrder(t)[|before| + 1..] && ComesTo(t', res, before)
  }

  lemma RemovedIs<T>(t: Tree<T>, before: seq<T>, t': Tree<T>, res: Iter)
    requires before < InOrder(t) && InOrder(t') == before + InOrder(t)[|before| + 1..] && ComesTo(t', res, before)
    ensures Removed(t, before, t', res)
  {
  }

  lemma ElemFacts<T>(t: Tree<T>, h: nat, cap: nat, it: Iter)
    requires t == Node([], []) || Ok(t, h, cap)
    requires IsElem(t, it)
    ensures Ok(t, h, cap) && Stands(t, it) && |InOrder(t)| > 0
    ensures IsLeaf(At(t, it.path)) ==> |it.path| == h
    ensures !IsLeaf(At(t, it.path)) ==> Prefix(t, it) != []
  {
    RankIs(t, it);
    OkOpen(t, h, cap, it.path);
    OpenShaped(t, h, cap, it.path);
    if !IsLeaf(At(t, it.path)) {
      InnerFacts(t, h, cap, it);
    }
    hide InOrder, Ok, Open, Prefix;
  }

  /** The tree in which the value before an inner one has been moved up over it. */
  lemma PredecessorMoves<T>(t: Tree<T>, h: nat, cap: nat, it: Iter, pred: Iter)
    requires Ok(t, h, cap) && IsElem(t, it) && !IsLeaf(At(t, it.path))
    requires IsElem(t, pred) && IsLeaf(At(t, pred.path)) && it.path + [it.pos] <= pred.path
    requires Prefix(t, pred) + [Value(t, pred)] == Prefix(t, it)
    ensures ValidPath(t, it.path) && it.pos < |At(t, it.path).vals| && ValidPath(t, pred.path)
    ensures var u := Update(t, it.path, WithValue(At(t, it.path), it.pos, Value(t, pred)));
      && Ok(u, h, cap) && IsElem(u, pred) && IsLeaf(At(u, pred.path)) && Prefix(u, pred) == Prefix(t, pred)
      && |Prefix(t, it)| < |InOrder(t)| && InOrder(u) == InOrder(t)[|Prefix(t, it)| := Value(t, pred)]
      && !IsLeaf(t) && !IsLeaf(u)
  {
    hide InOrder, Ok, Fits;
    var v := Value(t, pred);
    var u := Update(t, it.path, WithValue(At(t, it.path), it.pos, v));
    var s := pred.path[|it.path| + 1..];
    assert pred.path == it.path + [it.pos] + s;
    SetValueOk(t, h, cap, it.path, WithValue(At(t, it.path), it.pos, v));
    SetValueBelow(t, it.path, it.pos, v, s);
    hide Update, At, Before, ValidPath;
    GapAtChild(t, it.path, it.pos);
    SetValueInOrder(t, it.path, it.pos, v, |Prefix(t, it)|);
  }

  lemma TakenOut<T>(t: Tree<T>, h: nat, cap: nat, it: Iter)
    requires Ok(t, h, cap) && IsElem(t, it) && IsLeaf(At(t, it.path))
    ensures ValidPath(t, it.path) && it.pos < |At(t, it.path).vals| && |it.path| == h
    ensures var u := Update(t, it.path, RemoveValue(At(t, it.path), it.pos));
      && Open(u, h, cap, it.path) && ValidGap(u, it.path, it.pos) && Gap(u, it.path, it.pos) == Prefix(t, it)
      && Prefix(t, it) < InOrder(t) && InOrder(u) == Prefix(t, it) + InOrder(t)[|Prefix(t, it)| + 1..]
      && (IsLeaf(u) <==> IsLeaf(t)) && (IsLeaf(t) ==> |u.vals| <= |t.vals|)
  {
    OkOpen(t, h, cap, it.path);
    OpenShaped(t, h, cap, it.path);
    hide InOrder, Ok;
    RemoveFromLeaf(t, h, cap, it.path, it.pos);
  }

  /** With the copy in the leaf gone, it is the value of the inner node that is missing. */
  lemma RemovedInner<T>(t: Tree<T>, it: Iter, u: Tree<T>, pred: Iter, t': Tree<T>, res: Iter)
    requires IsElem(t, it) && IsElem(t, pred) && Prefix(t, pred) + [Value(t, pred)] == Prefix(t, it)
    requires |Prefix(t, it)| < |InOrder(t)| && InOrder(u) == InOrder(t)[|Prefix(t, it)| := Value(t, pred)]
    requires InOrder(t') == Prefix(t, pred) + InOrder(u)[|Prefix(t, pred)| + 1..] && ComesTo(t', res, Prefix(t, pred))
    ensures IsElem(t', res) && Prefix(t', res) + [Value(t', res)] == Prefix(t, it)
    ensures Prefix(t, it) < InOrder(t) && InOrder(t') == Prefix(t, it) + InOrder(t)[|Prefix(t, it)| + 1..]
  {
    RankIs(t, it);
    BringUp(InOrder(t), Prefix(t, pred), Value(t, pred));
    if InOrder(t') != Prefix(t, pred) {
      RankIs(t', res);
    }
    hide InOrder, Prefix;
  }

  lemma BringUp<T>(s: seq<T>, p: seq<T>, v: T)
    requires p + [v] < s
    ensures var u := s[|p| + 1 := v];
      var s' := p + u[|p| + 1..];
      s' == (p + [v]) + s[|p| + 2..] && |s'| > |p| && s'[|p|] == v
  {
  }

  lemma HasParent<T>(t: Tree<T>, path: Path, p: nat, t': Tree<T>, h: nat, cap: nat, q: Path, i: nat)
    requires ParentHasRoom(t, path, p, t', h, cap, q, i)
    ensures ValidPath(t', q) && |At(t', q).kids| == |At(t', q).vals| + 1 && i < |At(t', q).kids|
    ensures ValidPath(t, path) && At(t', q).kids[i] == At(t, path)
  {
    OpenValid(t', h, cap, q);
    hide Open, Keeps;
  }

  // ---------- order ----------

  /** The first m values, and no others, are less than k. */
  ghost predicate IsLower<T>(s: seq<T>, k: T, lt: (T, T) -> bool, m: nat) {
    m <= |s| && (forall i :: 0 <= i < m ==> lt(s[i], k)) && (forall i :: m <= i < |s| ==> !lt(s[i], k))
  }

  /** The first m values, and no others, are not greater than k. */
  ghost predicate IsUpper<T>(s: seq<T>, k: T, lt: (T, T) -> bool, m: nat) {
    m <= |s| && (forall i :: 0 <= i < m ==> !lt(k, s[i])) && (forall i :: m <= i < |s| ==> lt(k, s[i]))
  }

  predicate Equal<T>(x: T, y: T, lt: (T, T) -> bool) {
    !lt(x, y) && !lt(y, x)
  }

  ghost predicate Has<T>(s: seq<T>, k: T, lt: (T, T) -> bool) {
    exists i :: 0 <= i < |s| && Equal(s[i], k, lt)
  }

  /** s' is s without the first value equal to k. */
  ghost predicate WithoutFirst<T>(s: seq<T>, k: T, lt: (T, T) -> bool, s': seq<T>) {
    exists r :: 0 <= r < |s| && IsLower(s, k, lt, r) && Equal(s[r], k, lt) && s' == s[..r] + s[r + 1..]
  }

  lemma LowerSearch<T(!new)>(s: seq<T>, k: T, lt: (T, T) -> bool, p: T -> bool)
    requires StrictWeak(lt) && Sorted(s, lt) && forall x :: p(x) == lt(x, k)
    ensures Monotone(s, p) && IsLower(s, k, lt, FirstNot(s, p))
  {
    forall i, j | 0 <= i < j < |s| && p(s[j]) ensures p(s[i]) {
      assert !lt(s[j], s[i]);
    }
    CutIsFirstNot(s, p, FirstNot(s, p));
  }

  lemma UpperSearch<T(!new)>(s: seq<T>, k: T, lt: (T, T) -> bool, p: T -> bool)
    requires StrictWeak(lt) && Sorted(s, lt) && forall x :: p(x) == !lt(k, x)
    ensures Monotone(s, p) && IsUpper(s, k, lt, FirstNot(s, p))
  {
    forall i, j | 0 <= i < j < |s| && p(s[j]) ensures p(s[i]) {
      assert !lt(s[j], s[i]);
    }
    CutIsFirstNot(s, p, FirstNot(s, p));
  }

  /** Whether there is an equal value shows at the lower bound. */
  lemma FoundAtLower<T(!new)>(s: seq<T>, k: T, lt: (T, T) -> bool, m: nat)
    requires StrictWeak(lt) && Sorted(s, lt) && IsLower(s, k, lt, m)
    ensures Has(s, k, lt) <==> m < |s| && !lt(k, s[m])
  {
    if m < |s| && !lt(k, s[m]) {
      assert Equal(s[m], k, lt);
    }
    if Has(s, k, lt) {
      var i :| 0 <= i < |s| && Equal(s[i], k, lt);
      assert i >= m && (i > m ==> !lt(s[i], s[m]));
    }
  }

  lemma SortedInsert<T(!new)>(s: seq<T>, v: T, lt: (T, T) -> bool, m: nat)
    requires StrictWeak(lt) && Sorted(s, lt) && (IsLower(s, v, lt, m) || IsUpper(s, v, lt, m))
    ensures Sorted(s[..m] + [v] + s[m..], lt)
  {
  }

  lemma IncreasingInsert<T(!new)>(s: seq<T>, v: T, lt: (T, T) -> bool, m: nat)
    requires StrictWeak(lt) && Increasing(s, lt) && IsLower(s, v, lt, m) && !Has(s, v, lt)
    ensures Increasing(s[..m] + [v] + s[m..], lt)
  {
    forall j | m <= j < |s| ensures lt(v, s[j]) {
      assert !Equal(s[j], v, lt);
    }
  }

  lemma OrderAfterRemoval<T>(s: seq<T>, r: nat, lt: (T, T) -> bool)
    requires r < |s|
    ensures Sorted(s, lt) ==> Sorted(s[..r] + s[r + 1..], lt)
    ensures Increasing(s, lt) ==> Increasing(s[..r] + s[r + 1..], lt)
  {
    var u := s[..r] + s[r + 1..];
    assert forall i :: 0 <= i < |u| ==> u[i] == s[if i < r then i else i + 1];
  }

  lemma NotThere<T(!new)>(s: seq<T>, k: T, lt: (T, T) -> bool, m: nat)
    requires StrictWeak(lt) && Sorted(s, lt) && m <= |s| && (s == [] || IsLower(s, k, lt, m))
      && (m < |s| ==> lt(k, s[m]))
    ensures !Has(s, k, lt) && IsLower(s, k, lt, m)
  {
    FoundAtLower(s, k, lt, m);
  }

  lemma EqualAtLower<T>(s: seq<T>, k: T, lt: (T, T) -> bool, m: nat)
    requires IsLower(s, k, lt, m) && m < |s|
    ensures !lt(k, s[m]) ==> Equal(s[m], k, lt)
  {
  }

  lemma EqualSelf<T(!new)>(v: T, lt: (T, T) -> bool)
    requires StrictWeak(lt)
    ensures Equal(v, v, lt)
  {
  }

  lemma UpperOfNone<T>(s: seq<T>, k: T, lt: (T, T) -> bool)
    requires s == []
    ensures IsUpper(s, k, lt, 0)
  {
  }

  lemma InsertedAt<T>(t: Tree<T>, before: seq<T>, v: T, t': Tree<T>, r: Iter)
    requires Inserted(t, before, v, t', r)
    ensures before == InOrder(t)[..|before|] && InOrder(t') == InOrder(t)[..|before|] + [v] + InOrder(t)[|before|..]
    ensures IsElem(t', r) && Value(t', r) == v && Prefix(t', r) == before
  {
    hide InOrder, Prefix;
  }

  lemma RemovedAt<T>(t: Tree<T>, before: seq<T>, t': Tree<T>, res: Iter)
    requires Removed(t, before, t', res)
    ensures |before| < |InOrder(t)| && InOrder(t') == InOrder(t)[..|before|] + InOrder(t)[|before| + 1..]
  {
    hide InOrder, ComesTo;
  }

  class Btree<T(!new)> {
    const lt: (T, T) -> bool
    const cap: nat
    var root: Tree<T>
    var size: nat
    var rootCap: nat

    /** `height()` is Height + 1; so many values there are at least. */
    lemma SizeBound()
      requires Shape() && size > 0
      ensures size >= Power2(Height(root) + 1) - 1
    {
      LeastSize(root, Height(root), cap);
      LeastIsPower(Height(root));
      hide InOrder, Ok;
    }

    /** A root leaf may have less room than other leaves. */
    ghost predicate RootFits()
      reads this
    {
      if IsLeaf(root) then 1 <= rootCap <= cap && |root.vals| <= rootCap else rootCap == cap
    }

    ghost predicate Shape()
      reads this
    {
      && cap >= 3 && size == |InOrder(root)|
      && (if size == 0 then root == Node([], []) else Ok(root, Height(root), cap) && RootFits())
    }

    ghost predicate Valid()
      reads this
    {
      Shape() && StrictWeak(lt) && Sorted(InOrder(root), lt)
    }

    constructor (cap: nat, lt: (T, T) -> bool)
      requires cap >= 3 && StrictWeak(lt)
      ensures Valid() && this.lt == lt && this.cap == cap && InOrder(root) == []
    {
      this.cap, this.lt := cap, lt;
      root, size, rootCap := Node([], []), 0, 0;
    }

    // ---------- making room ----------

    /** `rebalance_or_split`: makes room in a full node for an insertion at the iterator, moving the
        iterator along. */
    method RebalanceOrSplit(it: Iter, ghost h: nat) returns (r: Iter, ghost h': nat)
      requires cap >= 3 && Ok(root, h, cap) && ValidPath(root, it.path) && |At(root, it.path).vals| == cap
        && it.pos <= cap
      modifies this`root
      ensures Roomy(old(root), it.path, it.pos, root, h', cap, r.path, r.pos)
      ensures EdgeKept(old(root), it.path, it.pos, root, r.path, r.pos, cap)
      ensures CanShare(old(root), it.path, it.pos, cap) ==> Evened(root, it.path, it.pos, cap)
      ensures LeafCount(root) == LeafCount(old(root)) + if SplitsLeaf(old(root), it, cap) then 1 else 0
      ensures h' + |it.path| == h + |r.path|
      decreases |it.path|, 1
    {
      hide *;
      ghost var t := root;
      h' := h;
      if it.path != [] {
        var shared;
        shared, r := ShareWithSibling(it, h);
        SplitsLeafIs(t, it, cap);
        if shared {
          return;
        }
      }
      var q, i;
      q, i, h' := MakeRoomAbove(it, h);
      var k := LeftCount(cap, it.pos);
      r := if it.pos > k then Iter(q + [i + 1], it.pos - k - 1) else Iter(q + [i], it.pos);
      SplitRoomy(t, it.path, it.pos, root, h', cap, q, i, k, if it.pos > k then i + 1 else i, r.pos);
      HasParent(t, it.path, it.pos, root, h', cap, q, i);
      SplitAtEdge(t, it.path, it.pos, root, h', q, i, k, if it.pos > k then i + 1 else i, r.pos, cap);
      SplitAddsLeaf(t, it.path, it.pos, root, h', q, i, k, cap);
      SplitsLeafIs(t, it, cap);
      root := Update(root, q, SplitChild(At(root, q), i, k));
    }

    /** The first part of it: giving values to a sibling with room. */
    method ShareWithSibling(it: Iter, ghost h: nat) returns (done: bool, r: Iter)
      requires cap >= 3 && Ok(root, h, cap) && ValidPath(root, it.path) && |At(root, it.path).vals| == cap
        && it.pos <= cap
      requires it.path != []
      modifies this`root
      ensures if done then Roomy(old(root), it.path, it.pos, root, h, cap, r.path, r.pos) && |r.path| == |it.path|
        else root == old(root)
      ensures done ==> EdgeKept(old(root), it.path, it.pos, root, r.path, r.pos, cap)
      ensures done <==> CanShare(old(root), it.path, it.pos, cap)
      ensures done ==> Evened(root, it.path, it.pos, cap) && LeafCount(root) == LeafCount(old(root))
    {
      hide *;
      ghost var t := root;
      var p, q, i := it.pos, it.path[..|it.path| - 1], it.path[|it.path| - 1];
      assert it.path == q + [i];
      InParent(t, h, cap, q, i);
      ShareIff(t, q, i, p, cap);
      var parent := At(root, q);
      if i > 0 {
        LeftIf(|parent.kids[i - 1].vals|, p, cap);
        PairAlike(t, h, cap, q, i - 1);
        OkKid(t, h, cap, q, i - 1);
        var left := |parent.kids[i - 1].vals|;
        if left < cap {
          var toMove := ToMove(cap - left, p == cap);
          if p >= toMove || left + toMove < cap {
            r := if p >= toMove then Iter(q + [i], p - toMove) else Iter(q + [i - 1], p + left + 1);
            GiveLeft(t, h, cap, q, i - 1, p, toMove, if p >= toMove then i else i - 1, r.pos);
            ShareLeftEdge(t, q, i - 1, p, toMove, if p >= toMove then i else i - 1, r.pos, cap);
            SharedLeft(t, q, i - 1, p, toMove, cap);
            root := Update(root, q, RightToLeft(parent, i - 1, toMove));
            return true, r;
          }
        }
      }
      if i < |parent.vals| {
        RightIf(|parent.kids[i + 1].vals|, p, cap);
        PairAlike(t, h, cap, q, i);
        OkKid(t, h, cap, q, i + 1);
        var right := |parent.kids[i + 1].vals|;
        if right < cap {
          var toMove := ToMove(cap - right, p == 0);
          if p <= cap - toMove || right + toMove < cap {
            r := if p > cap - toMove then Iter(q + [i + 1], p - (cap - toMove) - 1) else Iter(q + [i], p);
            GiveRight(t, h, cap, q, i, p, toMove, if p > cap - toMove then i + 1 else i, r.pos);
            ShareRightEdge(t, q, i, p, toMove, if p > cap - toMove then i + 1 else i, r.pos, cap);
            SharedRight(t, q, i, p, toMove, cap);
            root := Update(root, q, LeftToRight(parent, i, toMove));
            return true, r;
          }
        }
      }
      return false, it;
    }

    /** The second part: room in the parent, or a new root above the old one. */
    method MakeRoomAbove(it: Iter, ghost h: nat) returns (q: Path, i: nat, ghost h': nat)
      requires cap >= 3 && Ok(root, h, cap) && ValidPath(root, it.path) && |At(root, it.path).vals| == cap
        && it.pos <= cap
      modifies this`root
      ensures ParentHasRoom(old(root), it.path, it.pos, root, h', cap, q, i)
      ensures EdgeKept(old(root), it.path, it.pos, root, q, i, cap)
      ensures LeafCount(root) == LeafCount(old(root))
      ensures h' + |it.path| == h + |q| + 1
      decreases |it.path|, 0
    {
      hide *;
      ghost var t := root;
      if it.path == [] {
        AtRoot(t);
        NewRootHasRoom(t, h, cap, it.pos);
        NewRootEdge(t, it.pos, cap);
        NewRootLeaves(t);
        root := Node([], [root]);
        return [], 0, h + 1;
      }
      q, i := it.path[..|it.path| - 1], it.path[|it.path| - 1];
      h' := h;
      assert it.path == q + [i];
      InParent(t, h, cap, q, i);
      if |At(root, q).vals| == cap {
        var up;
        InnerAt(t, q, cap, i);
        up, h' := RebalanceOrSplit(Iter(q, i), h);
        ParentGotRoom(t, h, cap, q, i, it.pos, root, h', up.path, up.pos);
        EdgeUp(t, q, i, it.pos, cap);
        EdgeTrans(t, it.path, it.pos, t, q, i, root, up.path, up.pos, cap);
        q, i := up.path, up.pos;
      } else {
        ParentHadRoom(t, h, cap, q, i, it.pos);
        EdgeUp(t, q, i, it.pos, cap);
      }
    }

    // ---------- insertion ----------

    /** Also a fresh empty root leaf. */
    ghost predicate Growing()
      reads this
    {
      Shape() && RootFits()
    }

    lemma GrowingFacts()
      requires Growing()
      ensures if root == Node([], []) then Height(root) == 0 && size == 0 else Ok(root, Height(root), cap)
    {
    }

    /** An iterator at an inner node is moved to the end of the leaf before it. */
    method ToLeaf(it: Iter) returns (r: Iter)
      requires Growing() && Stands(root, it)
      ensures Stands(root, r) && IsLeaf(At(root, r.path)) && Prefix(root, r) == Prefix(root, it)
      ensures IsLeaf(At(root, it.path)) ==> r == it
    {
      hide InOrder, Ok, Prefix, Height;
      r := it;
      if !IsLeaf(At(root, it.path)) {
        InnerFacts(root, Height(root), cap, it);
        var path, pos := Decrement(root, it, Height(root), cap);
        NextInLeaf(root, Iter(path, pos));
        r := Iter(path, pos + 1);
      }
    }

    /** `internal_emplace`: puts a value before the one the iterator denotes. */
    method InternalEmplace(it: Iter, v: T) returns (r: Iter)
      requires Growing() && Stands(root, it)
      modifies this
      ensures Shape() && size == old(size) + 1
      ensures Inserted(old(root), old(Prefix(root, it)), v, root, r)
      ensures EdgeGrown(old(root), old(Prefix(root, it)), root, cap)
      ensures old(IsLeaf(At(root, it.path))) ==>
        LeafCount(root) == LeafCount(old(root)) + if SplitsLeaf(old(root), it, cap) then 1 else 0
      ensures rootCap == if old(IsLeaf(root)) && old(|root.vals|) == old(rootCap) < cap
        then (if 2 * old(rootCap) < cap then 2 * old(rootCap) else cap) else old(rootCap)
    {
      hide InOrder, Ok, Height, Open, Roomy, Keeps, Gap, Prefix, Stands, Inserted, At, ValidPath, Update, InsertValue,
           EdgeKept, EdgeGrown, LeafCount, CanShare, Evened;
      ghost var t0, h := root, Height(root);
      var cur := ToLeaf(it);
      GrowingFacts();
      LeafFacts(root, h, cap, cur);
      ghost var h0, from := h, cur;
      EdgeSelf(root, cur.path, cur.pos, cap);
      var count := |At(root, cur.path).vals|;
      var maxCount := if cur.path == [] then rootCap else cap;
      if count == maxCount {
        if maxCount < cap {
          rootCap := if 2 * maxCount < cap then 2 * maxCount else cap;
        } else {
          ghost var t, at := root, cur;
          cur, h := RebalanceOrSplit(cur, h);
          RoomyLeaf(t, at, root, h, cap, cur);
        }
      }
      Emplaced(root, h, cap, cur, v);
      ghost var u := root;
      EmplacedDense(t0, h0, cap, from, u, cur, v);
      root := Update(root, cur.path, InsertValue(At(root, cur.path), cur.pos, v));
      size := size + 1;
      HeightIs(root, h, cap);
      InsertedSame(t0, u, Prefix(u, cur), v, root, cur);
      r := cur;
    }

    // ---------- removal ----------

    /** `try_merge_or_rebalance`, for a node with too few values. */
    method TryMergeOrRebalance(it: Iter, ghost h: nat) returns (merged: bool, r: Iter)
      requires cap >= 3 && it.path != [] && Open(root, h, cap, it.path)
      requires it.pos <= |At(root, it.path).vals| < MinValues(cap)
      modifies this`root
      ensures |r.path| == |it.path| && Keeps(old(root), it.path, it.pos, root, r.path, r.pos)
      ensures if merged then Open(root, h, cap, r.path[..|r.path| - 1]) else Ok(root, h, cap)
      ensures merged <==> CanMerge(old(root), it.path, cap)
      ensures !merged && CanTake(old(root), it.path, it.pos, cap) ==> EvenBeside(root, it.path)
      ensures LeafCount(old(root))
        == LeafCount(root) + if IsLeaf(At(old(root), it.path)) && CanMerge(old(root), it.path, cap) then 1 else 0
    {
      hide Open, Ok, Keeps, At, ValidPath, Update, MergeAt, RightToLeft, LeftToRight, LeafCount, CanMerge, CanTake,
           EvenBeside, IsLeaf;
      ghost var t := root;
      var p, q, c := it.pos, it.path[..|it.path| - 1], it.path[|it.path| - 1];
      assert it.path == q + [c];
      OpenKid(t, h, cap, q, c);
      MergeIff(t, q, c, p, cap);
      var parent := At(root, q);
      var count := |parent.kids[c].vals|;
      if c > 0 {
        var left := |parent.kids[c - 1].vals|;
        if 1 + left + count <= cap {
          r := Iter(q + [c - 1], p + 1 + left);
          MergeBelow(t, h, cap, q, c - 1, c, p);
          MergedLeaves(t, q, c - 1);
          root := Update(root, q, MergeAt(parent, c - 1));
          assert r.path[..|r.path| - 1] == q;
          return true, r;
        }
      }
      if c < |parent.vals| {
        var right := |parent.kids[c + 1].vals|;
        if 1 + count + right <= cap {
          MergeBelow(t, h, cap, q, c, c, p);
          MergedLeaves(t, q, c);
          root := Update(root, q, MergeAt(parent, c));
          return true, it;
        }
        if right > MinValues(cap) && (count == 0 || p > 0) {
          var toMove := if (right - count) / 2 < right - 1 then (right - count) / 2 else right - 1;
          TakeFromRight(t, h, cap, q, c, p, toMove);
          TakenFromRight(t, q, c, toMove);
          root := Update(root, q, RightToLeft(parent, c, toMove));
          return false, it;
        }
      }
      if c > 0 {
        var left := |parent.kids[c - 1].vals|;
        if left > MinValues(cap) && (count == 0 || p < count) {
          var toMove := if (left - count) / 2 < left - 1 then (left - count) / 2 else left - 1;
          TakeFromLeft(t, h, cap, q, c - 1, c, p, toMove);
          TakenFromLeft(t, q, c - 1, toMove);
          root := Update(root, q, LeftToRight(parent, c - 1, toMove));
          return false, Iter(it.path, p + toMove);
        }
      }
      OpenValid(t, h, cap, it.path);
      LeftAsItIs(t, h, cap, it);
      return false, it;
    }

    /** `try_shrink`: an empty root goes; the values may all be gone then. */
    method TryShrink(res: Iter, ghost h: nat, ghost g: seq<T>) returns (gone: bool, r: Iter)
      requires cap >= 3 && Open(root, h, cap, []) && LeafGapIs(root, res, g)
      requires size == |InOrder(root)| && RootFits()
      modifies this`root
      ensures InOrder(root) == old(InOrder(root))
      ensures if gone then Shape() && ComesTo(root, r, g)
        else Ok(root, Height(root), cap) && RootFits() && LeafGapIs(root, r, g)
      ensures LeafCount(root) == LeafCount(old(root))
    {
      hide Open, Ok, InOrder, Keeps, Gap, ComesTo, Height, ValidGap, LeafGapIs;
      AtRoot(root);
      if |root.vals| > 0 {
        OpenOk(root, h, cap, []);
        HeightIs(root, h, cap);
        return false, res;
      }
      if IsLeaf(root) {
        EmptyEnd(root, res, g);
        root := Node([], []);
        return true, Iter([], 0);
      }
      ghost var t := root;
      ShrinkGap(t, h, cap, res, g);
      OneChildLeaves(t, h, cap);
      root := root.kids[0];
      HeightIs(root, h - 1, cap);
      return false, Iter(res.path[1..], res.pos);
    }

    /** An iterator at the end of a leaf is moved on to the next value, if there is one. */
    method Adjust(res: Iter, ghost g: seq<T>) returns (r: Iter)
      requires Ok(root, Height(root), cap) && LeafGapIs(root, res, g)
      ensures ComesTo(root, r, g)
    {
      hide Ok, InOrder, ComesTo, Height, At, ValidPath, Prefix, IsElem, Value;
      LeafGapFacts(root, Height(root), cap, res, g);
      if res.pos == |At(root, res.path).vals| {
        r := Increment(root, Iter(res.path, res.pos - 1), Height(root), cap);
      } else {
        r := res;
      }
    }

    /** One round of the loop: a merge goes on at the parent. */
    method MergeUp(cur: Iter, res: Iter, ghost h: nat, ghost g: seq<T>) returns (merged: bool, up: Iter, res': Iter)
      requires cap >= 3 && cur.path != [] && Open(root, h, cap, cur.path) && Tracks(root, cur, res, g) && RootFits()
      requires |At(root, cur.path).vals| < MinValues(cap)
      modifies this`root
      ensures InOrder(root) == old(InOrder(root)) && RootFits() && LeafGapIs(root, res', g)
      ensures
        if merged then |up.path| < |cur.path| && Open(root, h, cap, up.path) && Tracks(root, up, res', g)
        else Ok(root, h, cap)
      ensures merged <==> CanMerge(old(root), cur.path, cap)
      ensures merged ==> |up.path| == |cur.path| - 1
      ensures LeafCount(old(root))
        == LeafCount(root) + if IsLeaf(At(old(root), cur.path)) && CanMerge(old(root), cur.path, cap) then 1 else 0
    {
      hide Open, Ok, InOrder, Keeps, At, ValidPath, Gap, ValidGap, Tracks, LeafCount, CanMerge, CanTake, EvenBeside;
      ghost var t := root;
      TracksGap(root, cur, res, g);
      merged, up := TryMergeOrRebalance(cur, h);
      res' := if res.path == cur.path then up else Iter(up.path + [up.pos] + res.path[|cur.path| + 1..], res.pos);
      TracksMove(t, cur, res, g, root, up, res');
      TracksGap(root, up, res', g);
      StillFits(t, root, h, cap, cur.path, up.path[..|up.path| - 1], merged);
      if merged {
        OpenValid(root, h, cap, up.path[..|up.path| - 1]);
        OpenShaped(root, h, cap, up.path[..|up.path| - 1]);
        TracksUp(root, up, res', g);
        up := Iter(up.path[..|up.path| - 1], up.path[|up.path| - 1]);
      }
    }

    /** `rebalance_after_delete`: from the leaf that lost a value up the tree; gives back an iterator
        to the value after the removed one. */
    method RebalanceAfterDelete(it: Iter, ghost h: nat) returns (res: Iter)
      requires cap >= 3 && Open(root, h, cap, it.path) && |it.path| == h && ValidGap(root, it.path, it.pos)
      requires size == |InOrder(root)| && RootFits()
      modifies this`root
      ensures Shape() && InOrder(root) == old(InOrder(root)) && ComesTo(root, res, old(Gap(root, it.path, it.pos)))
      ensures LeafCount(old(root)) == LeafCount(root) + if MergesLeaf(old(root), it.path, cap) then 1 else 0
    {
      ghost var g, s := Gap(root, it.path, it.pos), InOrder(root);
      hide Open, Ok, InOrder, Keeps, At, ValidPath, Update, Gap, ComesTo, Height, ValidGap, Tracks, LeafCount, CanMerge,
           MergesLeaf, IsLeaf, RootFits;
      ghost var n, m := LeafCount(root), MergesLeaf(root, it.path, cap);
      var cur := it;
      res := it;
      TracksSelf(root, h, cap, it);
      while true
        invariant Open(root, h, cap, cur.path) && Tracks(root, cur, res, g) && InOrder(root) == s && RootFits()
        invariant |cur.path| <= h && (|cur.path| == h ==> cur.path == it.path && root == old(root))
        invariant n == LeafCount(root) + if m && |cur.path| < h then 1 else 0
        decreases |cur.path|
      {
        MergesLeafIs(root, h, cap, cur.path);
        TracksGap(root, cur, res, g);
        if cur.path == [] {
          var gone;
          gone, res := TryShrink(res, h, g);
          if gone {
            return;
          }
          break;
        }
        OpenValid(root, h, cap, cur.path);
        if |At(root, cur.path).vals| >= MinValues(cap) {
          OpenOk(root, h, cap, cur.path);
          HeightIs(root, h, cap);
          break;
        }
        var merged;
        merged, cur, res := MergeUp(cur, res, h, g);
        if !merged {
          HeightIs(root, h, cap);
          break;
        }
      }
      LeastSize(root, Height(root), cap);
      res := Adjust(res, g);
    }

    lemma ShapeHeight()
      requires Shape() && size > 0
      ensures Ok(root, Height(root), cap)
    {
    }

    /** `erase(iter)`: removes the value the iterator denotes; gives back an iterator to the next
        one. */
    method Erase(it: Iter) returns (res: Iter)
      requires Shape() && IsElem(root, it)
      modifies this
      ensures Shape() && size == old(size) - 1
      ensures Removed(old(root), old(Prefix(root, it)), root, res)
      ensures old(IsLeaf(At(root, it.path))) ==>
        LeafCount(old(root)) == LeafCount(root) + if ErasesLeaf(old(root), it.path, cap) then 1 else 0
    {
      hide Open, Ok, InOrder, At, ValidPath, Update, Gap, ComesTo, Height, Prefix, RemoveValue, WithValue, Removed,
           Stands, MergesLeaf, ErasesLeaf, LeafCount;
      ghost var t, h := root, Height(root);
      ElemFacts(t, h, cap, it);
      var cur := it;
      var inner := !IsLeaf(At(root, it.path));
      if inner {
        var path, pos := Decrement(root, it, h, cap);
        cur := Iter(path, pos);
        PredecessorMoves(t, h, cap, it, cur);
        root := Update(root, it.path, WithValue(At(root, it.path), it.pos, Value(root, cur)));
      }
      ghost var u := root;
      TakenOut(u, h, cap, cur);
      ErasesLeafIs(u, h, cap, cur);
      root := Update(root, cur.path, RemoveValue(At(root, cur.path), cur.pos));
      size := size - 1;
      res := RebalanceAfterDelete(cur, h);
      if inner {
        RemovedInner(t, it, u, cur, root, res);
        ShapeHeight();
        res := Increment(root, res, Height(root), cap);
      }
      RemovedIs(t, Prefix(t, it), root, res);
    }

    // ---------- search ----------

    /** Where a test that holds for a front part of the values starts to fail. */
    method Descend(p: T -> bool, linear: bool) returns (r: Iter)
      requires Shape() && Monotone(InOrder(root), p)
      ensures Stands(root, r) && IsLeaf(At(root, r.path)) && |Prefix(root, r)| == FirstNot(InOrder(root), p)
    {
      if size == 0 {
        return Iter([], 0);
      }
      r := Locate(root, p, linear, Height(root), cap);
    }

    /** `internal_last` on the result. */
    method LastOf(it: Iter) returns (r: Option<Iter>)
      requires Shape() && Stands(root, it) && IsLeaf(At(root, it.path))
      ensures r.None? <==> Prefix(root, it) == InOrder(root)
      ensures r.Some? ==> IsElem(root, r.value) && Prefix(root, r.value) == Prefix(root, it)
    {
      if size == 0 {
        return None;
      }
      r := InternalLast(root, it, Height(root), cap);
    }

    /** `internal_lower_bound`: the first value that is not less than k. */
    method LowerBound(k: T, linear: bool) returns (r: Option<Iter>)
      requires Valid()
      ensures r.None? ==> IsLower(InOrder(root), k, lt, |InOrder(root)|)
      ensures r.Some? ==> IsElem(root, r.value) && IsLower(InOrder(root), k, lt, |Prefix(root, r.value)|)
    {
      hide Shape, InOrder, Prefix, Sorted, IsLower, StrictWeak, Stands, IsElem;
      var less := lt;
      var p := (x: T) => less(x, k);
      LowerSearch(InOrder(root), k, lt, p);
      var it := Descend(p, linear);
      r := LastOf(it);
    }

    /** `internal_upper_bound`: the first value that is greater than k. */
    method UpperBound(k: T, linear: bool) returns (r: Option<Iter>)
      requires Valid()
      ensures r.None? ==> IsUpper(InOrder(root), k, lt, |InOrder(root)|)
      ensures r.Some? ==> IsElem(root, r.value) && IsUpper(InOrder(root), k, lt, |Prefix(root, r.value)|)
    {
      hide Shape, InOrder, Prefix, Sorted, IsUpper, StrictWeak, Stands, IsElem;
      var less := lt;
      var p := (x: T) => !less(k, x);
      UpperSearch(InOrder(root), k, lt, p);
      var it := Descend(p, linear);
      r := LastOf(it);
    }

    /** `internal_find`: the first value equal to k. */
    method Find(k: T, linear: bool) returns (r: Option<Iter>)
      requires Valid()
      ensures r.None? <==> !Has(InOrder(root), k, lt)
      ensures r.Some? ==> IsElem(root, r.value) && Equal(Value(root, r.value), k, lt)
      ensures r.Some? ==> IsLower(InOrder(root), k, lt, |Prefix(root, r.value)|)
    {
      hide Shape, InOrder, Prefix, Sorted, StrictWeak, Has;
      r := LowerBound(k, linear);
      if r.None? {
        FoundAtLower(InOrder(root), k, lt, |InOrder(root)|);
        return;
      }
      FoundAtLower(InOrder(root), k, lt, |Prefix(root, r.value)|);
      RankIs(root, r.value);
      if lt(k, Value(root, r.value)) {
        r := None;
      }
    }

    // ---------- by key ----------

    /** An empty tree starts with a root leaf for one value. */
    lemma FirstLeaf()
      requires cap >= 3 && size == 0 && root == Node([], []) && rootCap == 1
      ensures Growing() && InOrder(root) == []
      ensures Stands(root, Iter([], 0)) && Prefix(root, Iter([], 0)) == []
    {
    }

    lemma NotEmpty()
      requires Shape() && size > 0
      ensures Growing() && |InOrder(root)| > 0
    {
    }

    lemma IsEmpty()
      requires Shape() && size == 0
      ensures cap >= 3 && root == Node([], []) && InOrder(root) == []
    {
    }

    /** `insert_unique`. */
    method InsertUnique(v: T, linear: bool) returns (r: Iter, inserted: bool)
      requires Valid()
      modifies this
      ensures Valid() && IsElem(root, r) && Equal(Value(root, r), v, lt)
      ensures inserted == !Has(old(InOrder(root)), v, lt)
      ensures if inserted then
          IsLower(old(InOrder(root)), v, lt, |Prefix(root, r)|) && Inserted(old(root), Prefix(root, r), v, root, r)
        else root == old(root)
      ensures inserted ==> EdgeGrown(old(root), Prefix(root, r), root, cap)
      ensures old(Increasing(InOrder(root), lt)) ==> Increasing(InOrder(root), lt)
    {
      hide Shape, InOrder, Prefix, Sorted, StrictWeak, Has, IsLower, Increasing, At, ValidPath, Growing, EdgeGrown;
      ghost var s := InOrder(root);
      var less := lt;
      var p := (x: T) => less(x, v);
      LowerSearch(s, v, lt, p);
      var it := Iter([], 0);
      if size == 0 {
        IsEmpty();
        rootCap := 1;
        FirstLeaf();
      } else {
        it := Descend(p, linear);
        var last := LastOf(it);
        FoundAtLower(s, v, lt, |Prefix(root, it)|);
        if last.Some? {
          RankIs(root, last.value);
          EqualAtLower(s, v, lt, |Prefix(root, it)|);
          if !lt(v, Value(root, last.value)) {
            return last.value, false;
          }
        }
        NotEmpty();
      }
      ghost var before := Prefix(root, it);
      ghost var t := root;
      NotThere(s, v, lt, |before|);
      r := InternalEmplace(it, v);
      InsertedAt(t, before, v, root, r);
      SortedInsert(s, v, lt, |before|);
      if Increasing(s, lt) {
        IncreasingInsert(s, v, lt, |before|);
      }
      EqualSelf(v, lt);
      inserted := true;
    }

    /** `insert_multi`. */
    method InsertMulti(v: T, linear: bool) returns (r: Iter)
      requires Valid()
      modifies this
      ensures Valid() && IsElem(root, r)
      ensures IsUpper(old(InOrder(root)), v, lt, |Prefix(root, r)|) && Inserted(old(root), Prefix(root, r), v, root, r)
      ensures EdgeGrown(old(root), Prefix(root, r), root, cap)
    {
      hide Shape, InOrder, Prefix, Sorted, StrictWeak, IsUpper, At, ValidPath, Growing, EdgeGrown;
      ghost var s := InOrder(root);
      var it := Iter([], 0);
      if size == 0 {
        IsEmpty();
        rootCap := 1;
        FirstLeaf();
        assert IsUpper(s, v, lt, |Prefix(root, it)|) by { UpperOfNone(s, v, lt); }
      } else {
        var last := UpperBound(v, linear);
        NotEmpty();
        if last.Some? {
          it := last.value;
        } else {
          ShapeHeight();
          it := End(root, Height(root), cap);
        }
      }
      ghost var before := Prefix(root, it);
      ghost var t := root;
      r := InternalEmplace(it, v);
      InsertedAt(t, before, v, root, r);
      SortedInsert(s, v, lt, |before|);
    }

    /** `erase_unique`. */
    method EraseUnique(k: T, linear: bool) returns (n: nat)
      requires Valid()
      modifies this
      ensures Valid() && n == if Has(old(InOrder(root)), k, lt) then 1 else 0
      ensures n == 0 ==> root == old(root)
      ensures n == 1 ==> WithoutFirst(old(InOrder(root)), k, lt, InOrder(root))
      ensures old(Increasing(InOrder(root), lt)) ==> Increasing(InOrder(root), lt)
    {
      hide Shape, InOrder, Prefix, Sorted, StrictWeak, Has, IsLower, Increasing, At, ValidPath;
      ghost var s, t := InOrder(root), root;
      var it := Find(k, linear);
      if it.None? {
        return 0;
      }
      RankIs(root, it.value);
      ghost var before := Prefix(root, it.value);
      var res := Erase(it.value);
      RemovedAt(t, before, root, res);
      OrderAfterRemoval(s, |before|, lt);
      assert WithoutFirst(s, k, lt, InOrder(root));
      return 1;
    }
  }
}
