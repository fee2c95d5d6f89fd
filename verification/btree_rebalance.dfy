/** One move of a full or an empty node, with the conditions under which the code makes it. */
module BtreeRebalance {
  import opened BtreeTree
  import opened BtreeShape
  import opened BtreeMoves

  /** Room has been made at the gap, without changing what is stored or where the gap is. */
  ghost predicate Roomy<T>(t: Tree<T>, p: Path, g: nat, t': Tree<T>, h: nat, cap: nat, p': Path, g': nat) {
    && Open(t', h, cap, p') && |At(t', p').vals| < cap && Keeps(t, p, g, t', p', g')
  }

  lemma OkKid<T>(t: Tree<T>, h: nat, cap: nat, q: Path, i: nat)
    requires Ok(t, h, cap) && ValidPath(t, q) && |q| < h
    ensures |At(t, q).kids| == |At(t, q).vals| + 1 && 1 <= |At(t, q).vals| <= cap
    ensures i < |At(t, q).kids| ==> (1 <= |At(t, q).kids[i].vals| <= cap && Shaped(At(t, q).kids[i])
                                     && (IsLeaf(At(t, q).kids[i]) <==> h - |q| == 1))
  {
    OkAt(t, h, cap, q);
    if i < |At(t, q).kids| {
      OkNode(At(t, q).kids[i], h - |q| - 1, cap);
    }
  }

  lemma OkNode<T>(n: Tree<T>, h: nat, cap: nat)
    requires Ok(n, h, cap)
    ensures 1 <= |n.vals| <= cap && Shaped(n) && (IsLeaf(n) <==> h == 0)
  {
  }

  lemma PairAlike<T>(t: Tree<T>, h: nat, cap: nat, q: Path, i: nat)
    requires Ok(t, h, cap) && ValidPath(t, q) && |q| < h && i < |At(t, q).vals|
    ensures |At(t, q).kids| == |At(t, q).vals| + 1 && Alike(At(t, q).kids[i], At(t, q).kids[i + 1])
  {
    OkKid(t, h, cap, q, i);
    OkKid(t, h, cap, q, i + 1);
  }

  /** How far a full node gives values to its sibling. */
  function ToMove(room: nat, atFarEnd: bool): (m: nat)
    ensures m >= 1 && (room >= 1 ==> m <= room)
  {
    var m := if atFarEnd then room else room / 2;
    if m < 1 then 1 else m
  }

  /** A full node, child i + 1 of q, gives m values to its left sibling. */
  lemma GiveLeft<T>(t: Tree<T>, h: nat, cap: nat, q: Path, i: nat, p: nat, m: nat, c': nat, p': nat)
    requires Ok(t, h, cap) && ValidPath(t, q) && |q| < h && i < |At(t, q).vals|
      && |At(t, q).kids| == |At(t, q).vals| + 1
    requires Alike(At(t, q).kids[i], At(t, q).kids[i + 1])
    requires |At(t, q).kids[i + 1].vals| == cap && p <= cap && 1 <= m < cap && |At(t, q).kids[i].vals| + m <= cap
    requires if p >= m then c' == i + 1 && p' == p - m else c' == i && p' == p + |At(t, q).kids[i].vals| + 1
    requires p >= m || |At(t, q).kids[i].vals| + m < cap
    ensures Roomy(t, q + [i + 1], p, Update(t, q, RightToLeft(At(t, q), i, m)), h, cap, q + [c'], p')
  {
    var n := At(t, q);
    var n' := RightToLeft(n, i, m);
    RightToLeftShifts(n, i, m);
    Snoc(t, q, i + 1);
    MovesInto(t, h, cap, q, i, n', i + 1, p, c', p');
  }

  /** A pair of which one node was full: the gap is now in a node with room. */
  lemma MovesInto<T>(t: Tree<T>, h: nat, cap: nat, q: Path, i: nat, n': Tree<T>, c: nat, p: nat, c': nat, p': nat)
    requires Ok(t, h, cap) && ValidPath(t, q) && ValidPath(t, q + [c]) && Shifted(At(t, q), i, n')
    requires (c == i || c == i + 1) && p <= |At(t, q).kids[c].vals| && (c' == i || c' == i + 1)
      && p' <= |n'.kids[c'].vals| < cap
    requires (if c == i then p else |At(t, q).kids[i].vals| + 1 + p)
      == if c' == i then p' else |n'.kids[i].vals| + 1 + p'
    requires 1 <= |n'.kids[i].vals| <= cap && 1 <= |n'.kids[i + 1].vals| <= cap
    ensures Roomy(t, q + [c], p, Update(t, q, n'), h, cap, q + [c'], p')
  {
    hide Ok, Fits, CtxOk, NodeBut, Open, Shifted, Keeps, Update, MergeAt, At, Before, After, Gap;
    OkOpen(t, h, cap, q + [c]);
    ShiftAt(t, h, cap, q, i, n', c, p, c', p');
    OpenValid(Update(t, q, n'), h, cap, q + [c']);
  }

  /** A full node, child i of q, gives m values to its right sibling. */
  lemma GiveRight<T>(t: Tree<T>, h: nat, cap: nat, q: Path, i: nat, p: nat, m: nat, c': nat, p': nat)
    requires Ok(t, h, cap) && ValidPath(t, q) && |q| < h && i < |At(t, q).vals|
      && |At(t, q).kids| == |At(t, q).vals| + 1
    requires Alike(At(t, q).kids[i], At(t, q).kids[i + 1])
    requires |At(t, q).kids[i].vals| == cap && p <= cap && 1 <= m < cap && |At(t, q).kids[i + 1].vals| + m <= cap
    requires if p > cap - m then c' == i + 1 && p' == p - (cap - m) - 1 else c' == i && p' == p
    requires p <= cap - m || |At(t, q).kids[i + 1].vals| + m < cap
    ensures Roomy(t, q + [i], p, Update(t, q, LeftToRight(At(t, q), i, m)), h, cap, q + [c'], p')
  {
    var n := At(t, q);
    var n' := LeftToRight(n, i, m);
    LeftToRightShifts(n, i, m);
    Snoc(t, q, i);
    MovesInto(t, h, cap, q, i, n', i, p, c', p');
  }

  /** How many values `split` leaves in the left node. */
  function LeftCount(cap: nat, pos: nat): (k: nat)
    requires cap >= 3
    ensures k < cap && (0 < pos < cap ==> 0 <= cap - 1 - k - k <= 1)
  {
    if pos == 0 then cap - (cap - 1) - 1
    else if pos == cap then cap - 0 - 1
    else cap - cap / 2 - 1
  }

  /** A full node, child i of q, is split; its parent has room. */
  lemma SplitFull<T>(t: Tree<T>, h: nat, cap: nat, q: Path, i: nat, p: nat, k: nat, c': nat, p': nat)
    requires cap >= 3 && Open(t, h, cap, q) && |q| < h && |At(t, q).vals| < cap
      && |At(t, q).kids| == |At(t, q).vals| + 1
    requires i < |At(t, q).kids| && Shaped(At(t, q).kids[i]) && |At(t, q).kids[i].vals| == cap && p <= cap
    requires k == LeftCount(cap, p) && if p > k then c' == i + 1 && p' == p - k - 1 else c' == i && p' == p
    ensures k < cap && Roomy(t, q + [i], p, Update(t, q, SplitChild(At(t, q), i, k)), h, cap, q + [c'], p')
  {
    var n := At(t, q);
    var n' := SplitChild(n, i, k);
    SplitMerges(n, i, k);
    assert SplitGoesTo(n, i, k, p, c', p');
    assert |n'.kids[c'].vals| < cap;
    hide Ok, Fits, CtxOk, NodeBut, Open, Keeps, Update, MergeAt, At, Before, After, Gap, SplitGoesTo, SplitChild,
         LeftCount;
    SplitBelow(t, h, cap, q, i, k, p, c', p');
    OpenValid(Update(t, q, n'), h, cap, q + [c']);
  }

  lemma OpenValid<T>(t: Tree<T>, h: nat, cap: nat, path: Path)
    requires Open(t, h, cap, path)
    ensures ValidPath(t, path) && |path| <= h
  {
  }

  /** The full node at `path` of t has become child i of q in t', and that parent has room. */
  ghost predicate ParentHasRoom<T>(t: Tree<T>, path: Path, p: nat, t': Tree<T>, h: nat, cap: nat, q: Path, i: nat) {
    && Open(t', h, cap, q) && |q| < h && |At(t', q).vals| < cap
    && |At(t', q).kids| == |At(t', q).vals| + 1 && i < |At(t', q).kids|
    && ValidPath(t, path) && At(t', q).kids[i] == At(t, path) && Keeps(t, path, p, t', q + [i], p)
  }

  lemma KeepsSelf<T>(t: Tree<T>, path: Path, p: nat)
    requires ValidGap(t, path, p) && (!IsLeaf(At(t, path)) ==> p < |At(t, path).kids|)
    ensures Keeps(t, path, p, t, path, p)
  {
  }

  lemma ParentHadRoom<T>(t: Tree<T>, h: nat, cap: nat, q: Path, i: nat, p: nat)
    requires Ok(t, h, cap) && ValidPath(t, q + [i]) && p <= |At(t, q + [i]).vals|
    requires ValidPath(t, q) && |At(t, q).vals| < cap
    ensures ParentHasRoom(t, q + [i], p, t, h, cap, q, i)
  {
    Unsnoc(t, q, i);
    Snoc(t, q, i);
    OkOpen(t, h, cap, q);
    OkOpen(t, h, cap, q + [i]);
    OpenShaped(t, h, cap, q);
    OpenShaped(t, h, cap, q + [i]);
    KeepsSelf(t, q + [i], p);
    hide Ok, Fits, CtxOk, Keeps, Gap;
  }

  /** Making room in the parent takes the node along. */
  lemma ParentGotRoom<T>(t: Tree<T>, h: nat, cap: nat, q: Path, i: nat, p: nat, t': Tree<T>, h': nat, q': Path, i': nat)
    requires Ok(t, h, cap) && ValidPath(t, q + [i]) && p <= |At(t, q + [i]).vals| && ValidPath(t, q)
    requires Roomy(t, q, i, t', h', cap, q', i')
    ensures ParentHasRoom(t, q + [i], p, t', h', cap, q', i')
  {
    hide InOrder, GapBefore;
    Unsnoc(t, q, i);
    Snoc(t, q, i);
    OkOpen(t, h, cap, q);
    OpenShaped(t, h, cap, q);
    OkOpen(t, h, cap, q + [i]);
    OpenShaped(t, h, cap, q + [i]);
    OpenShaped(t', h', cap, q');
    Snoc(t', q', i');
    hide Ok, Fits, CtxOk;
  }

  lemma NewRootHasRoom<T>(t: Tree<T>, h: nat, cap: nat, p: nat)
    requires cap >= 3 && Ok(t, h, cap) && p <= |t.vals|
    ensures ParentHasRoom(t, [], p, Node([], [t]), h + 1, cap, [], 0)
  {
    NewRoot(t, h, cap, p);
    var u := Node([], [t]);
    assert [] + [0] == [0];
    hide InOrder, Ok, Fits, CtxOk, Keeps, Gap;
  }

  /** The split that follows. */
  lemma SplitRoomy<T>(t: Tree<T>, path: Path, p: nat, u: Tree<T>, h: nat, cap: nat, q: Path, i: nat, k: nat, c': nat,
                      p': nat)
    requires cap >= 3 && ParentHasRoom(t, path, p, u, h, cap, q, i) && |At(t, path).vals| == cap && p <= cap
    requires k == LeftCount(cap, p) && if p > k then c' == i + 1 && p' == p - k - 1 else c' == i && p' == p
    ensures k < cap && Shaped(At(u, q).kids[i])
      && Roomy(t, path, p, Update(u, q, SplitChild(At(u, q), i, k)), h, cap, q + [c'], p')
  {
    assert Shaped(At(t, path)) && Keeps(t, path, p, u, q + [i], p) && Open(u, h, cap, q);
    hide Ok, Fits, CtxOk, Keeps, Gap, Open, InOrder, SplitChild, LeftCount, Roomy, Update;
    SplitFull(u, h, cap, q, i, p, k, c', p');
    RoomyTrans(t, path, p, u, q + [i], p, Update(u, q, SplitChild(At(u, q), i, k)), h, cap, q + [c'], p');
  }

  lemma RoomyTrans<T>(t: Tree<T>, a: Path, p: nat, u: Tree<T>, b: Path, q: nat, v: Tree<T>, h: nat, cap: nat, c: Path,
                      r: nat)
    requires Keeps(t, a, p, u, b, q) && Roomy(u, b, q, v, h, cap, c, r)
    ensures Roomy(t, a, p, v, h, cap, c, r)
  {
    hide Open, Gap, InOrder, At, ValidPath, Shaped, IsLeaf;
  }

  // ---------- after a deletion ----------

  /** The least number of values that a node keeps without looking at its siblings. */
  function MinValues(cap: nat): nat { cap / 2 }

  lemma OpenKid<T>(t: Tree<T>, h: nat, cap: nat, q: Path, c: nat)
    requires cap >= 3 && Open(t, h, cap, q + [c])
    ensures ValidPath(t, q) && |At(t, q).kids| == |At(t, q).vals| + 1 && 1 <= |At(t, q).vals| <= cap
      && c < |At(t, q).kids|
    ensures At(t, q + [c]) == At(t, q).kids[c] && |At(t, q).kids[c].vals| <= cap && Shaped(At(t, q).kids[c])
    ensures c > 0 ==> 1 <= |At(t, q).kids[c - 1].vals| <= cap && Alike(At(t, q).kids[c - 1], At(t, q).kids[c])
    ensures c < |At(t, q).vals| ==>
      1 <= |At(t, q).kids[c + 1].vals| <= cap && Alike(At(t, q).kids[c], At(t, q).kids[c + 1])
  {
    OpenParent(t, h, cap, q, c);
    var n := At(t, q);
    FitsNode(n.kids[c], h - |q| - 1, cap);
    if c > 0 {
      OkNode(n.kids[c - 1], h - |q| - 1, cap);
    }
    if c < |n.vals| {
      OkNode(n.kids[c + 1], h - |q| - 1, cap);
    }
    hide Ok, Fits;
  }

  lemma FitsNode<T>(n: Tree<T>, h: nat, cap: nat)
    requires Fits(n, h, cap)
    ensures |n.vals| <= cap && Shaped(n) && (IsLeaf(n) <==> h == 0)
  {
  }

  /** A pair whose nodes both have values afterwards. */
  lemma MovesOk<T>(t: Tree<T>, h: nat, cap: nat, q: Path, i: nat, n': Tree<T>, c: nat, p: nat, p': nat)
    requires Open(t, h, cap, q + [c]) && ValidPath(t, q) && ValidPath(t, q + [c]) && Shifted(At(t, q), i, n')
    requires (c == i || c == i + 1) && p <= |At(t, q).kids[c].vals| && p' <= |n'.kids[c].vals|
    requires (if c == i then p else |At(t, q).kids[i].vals| + 1 + p) == if c == i then p'
      else |n'.kids[i].vals| + 1 + p'
    requires 1 <= |n'.kids[i].vals| <= cap && 1 <= |n'.kids[i + 1].vals| <= cap
    ensures Ok(Update(t, q, n'), h, cap) && Keeps(t, q + [c], p, Update(t, q, n'), q + [c], p')
  {
    hide Ok, Fits, CtxOk, NodeBut, Open, Shifted, Keeps, Update, MergeAt, At, Before, After, Gap;
    ShiftAt(t, h, cap, q, i, n', c, p, c, p');
    OpenValid(Update(t, q, n'), h, cap, q + [c]);
    OpenOk(Update(t, q, n'), h, cap, q + [c]);
  }

  /** A node, child c of q, gets m values from its right sibling. */
  lemma TakeFromRight<T>(t: Tree<T>, h: nat, cap: nat, q: Path, c: nat, p: nat, m: nat)
    requires cap >= 3 && Open(t, h, cap, q + [c]) && ValidPath(t, q) && c < |At(t, q).vals|
      && |At(t, q).kids| == |At(t, q).vals| + 1
    requires Alike(At(t, q).kids[c], At(t, q).kids[c + 1]) && p <= |At(t, q).kids[c].vals|
    requires 1 <= m < |At(t, q).kids[c + 1].vals| <= cap && |At(t, q).kids[c].vals| + m <= cap
    ensures var t' := Update(t, q, RightToLeft(At(t, q), c, m));
      Ok(t', h, cap) && Keeps(t, q + [c], p, t', q + [c], p)
  {
    RightToLeftShifts(At(t, q), c, m);
    OpenValid(t, h, cap, q + [c]);
    hide RightToLeft, Shifted, Open, Ok, Keeps, At, Update;
    MovesOk(t, h, cap, q, c, RightToLeft(At(t, q), c, m), c, p, p);
  }

  /** A node, child c of q, gets m values from its left sibling. */
  lemma TakeFromLeft<T>(t: Tree<T>, h: nat, cap: nat, q: Path, i: nat, c: nat, p: nat, m: nat)
    requires cap >= 3 && c == i + 1 && Open(t, h, cap, q + [c]) && ValidPath(t, q) && i < |At(t, q).vals|
    requires |At(t, q).kids| == |At(t, q).vals| + 1 && Alike(At(t, q).kids[i], At(t, q).kids[c])
    requires p <= |At(t, q).kids[c].vals| && 1 <= m < |At(t, q).kids[i].vals| <= cap
      && |At(t, q).kids[c].vals| + m <= cap
    ensures var t' := Update(t, q, LeftToRight(At(t, q), i, m));
      Ok(t', h, cap) && Keeps(t, q + [c], p, t', q + [c], p + m)
  {
    LeftToRightShifts(At(t, q), i, m);
    OpenValid(t, h, cap, q + [c]);
    hide LeftToRight, Shifted, Open, Ok, Keeps, At, Update, ValidPath, Alike, Shaped, IsLeaf;
    MovesOk(t, h, cap, q, i, LeftToRight(At(t, q), i, m), c, p, p + m);
  }

  /** When the subtree below a gap of an inner node moves, the gaps in it move along. */
  lemma Follows<T>(t: Tree<T>, a: Path, p: nat, t': Tree<T>, b: Path, q: nat, s: Path, g: nat)
    requires Keeps(t, a, p, t', b, q) && !IsLeaf(At(t, a)) && ValidPath(t, a + [p] + s) && ValidGap(t, a + [p] + s, g)
    ensures ValidGap(t', b + [q] + s, g) && At(t', b + [q] + s) == At(t, a + [p] + s)
    ensures Gap(t', b + [q] + s, g) == Gap(t, a + [p] + s, g)
  {
    hide InOrder, GapBefore, ValidPath, At, Before;
    Unconcat(t, a + [p], s);
    Snoc(t, a, p);
    Snoc(t', b, q);
    Concat(t, a + [p], s);
    Concat(t', b + [q], s);
  }

  /** n with another value at i. */
  function WithValue<T>(n: Tree<T>, i: nat, v: T): Tree<T>
    requires i < |n.vals|
  {
    Node(n.vals[i := v], n.kids)
  }

  /** Another value in an inner node: what is below the child before it stays in place. */
  lemma SetValueBelow<T>(t: Tree<T>, path: Path, i: nat, v: T, s: Path)
    requires ValidPath(t, path + [i] + s) && ValidPath(t, path) && i < |At(t, path).vals|
    requires |At(t, path).kids| == |At(t, path).vals| + 1
    ensures var u := Update(t, path, WithValue(At(t, path), i, v));
      && ValidPath(u, path + [i] + s) && At(u, path + [i] + s) == At(t, path + [i] + s)
      && Before(u, path + [i] + s) == Before(t, path + [i] + s)
  {
    var n := At(t, path);
    var n' := WithValue(n, i, v);
    var u := Update(t, path, n');
    hide InOrder, GapBefore, GapAfter, ValidPath, At, Update, Before, After;
    Unconcat(t, path + [i], s);
    UpdateAt(t, path, n');
    Snoc(t, path, i);
    Snoc(u, path, i);
    GapPrefix(n, n', i);
    hide WithValue;
    Concat(t, path + [i], s);
    Concat(u, path + [i], s);
  }

  lemma SetValueInOrder<T>(t: Tree<T>, path: Path, i: nat, v: T, r: nat)
    requires ValidPath(t, path) && i < |At(t, path).vals| && |At(t, path).kids| == |At(t, path).vals| + 1
    requires r == |Before(t, path) + GapBefore(At(t, path), i)| + |InOrder(At(t, path).kids[i])|
    ensures r < |InOrder(t)| && InOrder(Update(t, path, WithValue(At(t, path), i, v))) == InOrder(t)[r := v]
  {
    hide *;
    var n := At(t, path);
    UpdateAt(t, path, WithValue(n, i, v));
    PathSplit(t, path);
    WithValueInOrder(n, i, v);
    KidSplit(n, i);
    AfterUnfold(n, i);
    Replace(Before(t, path), GapBefore(n, i), InOrder(n.kids[i]), n.vals[i], v, InOrder(n.kids[i + 1]),
      GapAfter(n, i + 1), After(t, path));
  }

  lemma WithValueInOrder<T>(n: Tree<T>, i: nat, v: T)
    requires i < |n.vals| && |n.kids| == |n.vals| + 1
    ensures InOrder(WithValue(n, i, v))
      == GapBefore(n, i) + InOrder(n.kids[i]) + ([v] + InOrder(n.kids[i + 1]) + GapAfter(n, i + 1))
  {
    hide InOrder, GapBefore, GapAfter;
    var n' := WithValue(n, i, v);
    GapPrefix(n, n', i);
    AfterSuffix(n, i + 1, n', i + 1);
    KidSplit(n', i);
    AfterUnfold(n', i);
  }

  lemma Replace<T>(b: seq<T>, g: seq<T>, k: seq<T>, old': T, v: T, r: seq<T>, r': seq<T>, a: seq<T>)
    ensures var i := |b + g| + |k|;
      i < |b + (g + k + ([old'] + r + r')) + a| &&
      (b + (g + k + ([old'] + r + r')) + a)[i := v] == b + (g + k + ([v] + r + r')) + a
  {
  }

  lemma SetValueOk<T>(t: Tree<T>, h: nat, cap: nat, path: Path, n': Tree<T>)
    requires Ok(t, h, cap) && ValidPath(t, path) && n'.kids == At(t, path).kids && |n'.vals| == |At(t, path).vals|
    ensures Ok(Update(t, path, n'), h, cap)
  {
    OkAt(t, h, cap, path);
    UpdateContext(t, path, n');
    CtxUpdate(t, h, cap, path, n');
    OkFrom(Update(t, path, n'), h, cap, path);
  }
}
