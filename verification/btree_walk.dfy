/** Iterators of the B-tree, and the search. */
module BtreeWalk {
  import opened BtreeTree
  import opened BtreeShape
  import opened BtreeMoves

  /** The node at the path, and a position in it. */
  datatype Iter = Iter(path: Path, pos: nat)

  /** A value, or the end of a leaf. */
  ghost predicate Stands<T>(t: Tree<T>, it: Iter) {
    && ValidGap(t, it.path, it.pos)
    && (it.pos < |At(t, it.path).vals| || IsLeaf(At(t, it.path)))
  }

  ghost predicate IsElem<T>(t: Tree<T>, it: Iter) {
    ValidGap(t, it.path, it.pos) && it.pos < |At(t, it.path).vals|
  }

  function Value<T>(t: Tree<T>, it: Iter): T
    requires ValidPath(t, it.path) && it.pos < |At(t, it.path).vals|
  {
    At(t, it.path).vals[it.pos]
  }

  /** The values before the iterator; its rank is their number. */
  ghost function Prefix<T>(t: Tree<T>, it: Iter): seq<T>
    requires Stands(t, it)
  {
    Gap(t, it.path, it.pos) + if IsLeaf(At(t, it.path)) then [] else InOrder(At(t, it.path).kids[it.pos])
  }

  /** An iterator at the end denotes the end of the last leaf. */
  ghost predicate IsEnd<T>(t: Tree<T>, it: Iter) {
    Stands(t, it) && !IsElem(t, it) && Prefix(t, it) == InOrder(t)
  }

  /** Where the walk goes: to the value with these values before it, or to the end. */
  ghost predicate ComesTo<T>(t: Tree<T>, it: Iter, before: seq<T>) {
    Stands(t, it) && Prefix(t, it) == before && (before != InOrder(t) ==> IsElem(t, it))
      && (before == InOrder(t) ==> IsEnd(t, it))
  }

  /** The value that an iterator denotes is the one at its rank. */
  lemma RankIs<T>(t: Tree<T>, it: Iter)
    requires IsElem(t, it)
    ensures Prefix(t, it) + [Value(t, it)] <= InOrder(t)
    ensures |Prefix(t, it)| < |InOrder(t)| && InOrder(t)[|Prefix(t, it)|] == Value(t, it)
    ensures InOrder(t)[..|Prefix(t, it)|] == Prefix(t, it)
  {
    hide InOrder, GapBefore, GapAfter, Before, After, At, Ahead, ValidPath;
    var n, b, a := At(t, it.path), Before(t, it.path), After(t, it.path);
    PathSplit(t, it.path);
    if IsLeaf(n) {
      LeafGap(t, it.path, it.pos);
      LeafRegroup(b, n.vals, it.pos, a);
    } else {
      GapAtChild(t, it.path, it.pos);
      KidSplit(n, it.pos);
      AfterUnfold(n, it.pos);
      Regroup(b, GapBefore(n, it.pos), InOrder(n.kids[it.pos]), n.vals[it.pos], InOrder(n.kids[it.pos + 1]),
        GapAfter(n, it.pos + 1), a);
    }
  }

  lemma Regroup<T>(b: seq<T>, g: seq<T>, k: seq<T>, v: T, r: seq<T>, r': seq<T>, a: seq<T>)
    ensures b + (g + k + ([v] + r + r')) + a == ((b + g) + k) + [v] + (r + r' + a)
  {
  }

  lemma LeafRegroup<T>(b: seq<T>, x: seq<T>, p: nat, a: seq<T>)
    requires p < |x|
    ensures b + x + a == (b + x[..p]) + [] + [x[p]] + (x[p + 1..] + a)
  {
    assert x == x[..p] + [x[p]] + x[p + 1..];
  }

  // ---------- ++ ----------

  /** `++it`. */
  method Increment<T>(t: Tree<T>, it: Iter, ghost h: nat, ghost cap: nat) returns (r: Iter)
    requires Ok(t, h, cap) && IsElem(t, it)
    ensures ComesTo(t, r, Prefix(t, it) + [Value(t, it)])
  {
    hide Ok, InOrder, GapBefore, Ahead, ComesTo, Shaped;
    RankIs(t, it);
    OkOpen(t, h, cap, it.path);
    OpenShaped(t, h, cap, it.path);
    if IsLeaf(At(t, it.path)) {
      r := Iter(it.path, it.pos + 1);
      NextInLeaf(t, it);
      if r.pos < |At(t, it.path).vals| {
        StopsHere(t, r);
        return;
      }
      r := Climb(t, r, h, cap);
    } else {
      r := Descend(t, it, h, cap);
    }
  }

  lemma NextInLeaf<T>(t: Tree<T>, it: Iter)
    requires IsElem(t, it) && IsLeaf(At(t, it.path))
    ensures Stands(t, Iter(it.path, it.pos + 1))
      && Prefix(t, Iter(it.path, it.pos + 1)) == Prefix(t, it) + [Value(t, it)]
  {
    var n := At(t, it.path);
    assert n.vals[..it.pos + 1] == n.vals[..it.pos] + [n.vals[it.pos]];
  }

  lemma StopsHere<T>(t: Tree<T>, it: Iter)
    requires IsElem(t, it)
    ensures ComesTo(t, it, Prefix(t, it))
  {
    RankIs(t, it);
  }

  /** `increment_slow` from the end of a leaf: up, while at the end of a node. */
  method Climb<T>(t: Tree<T>, it: Iter, ghost h: nat, ghost cap: nat) returns (r: Iter)
    requires Ok(t, h, cap) && Stands(t, it) && IsLeaf(At(t, it.path)) && it.pos == |At(t, it.path).vals|
    ensures ComesTo(t, r, Prefix(t, it))
  {
    hide Ok, InOrder, GapBefore, Ahead, ComesTo;
    var path: Path, pos: nat := it.path, it.pos;
    LeafEnd(t, it);
    while pos == |At(t, path).vals| && path != []
      invariant ValidPath(t, path) && Shaped(At(t, path)) && pos <= |At(t, path).vals|
      invariant if pos == |At(t, path).vals| then Before(t, path) + InOrder(At(t, path)) == Prefix(t, it)
                else IsElem(t, Iter(path, pos)) && Prefix(t, Iter(path, pos)) == Prefix(t, it)
      decreases |path|
    {
      var q, i := path[..|path| - 1], path[|path| - 1];
      assert path == q + [i];
      UpFrom(t, h, cap, q, i);
      path, pos := q, i;
    }
    if pos == |At(t, path).vals| {
      r := it;
      AtTheEnd(t, it);
    } else {
      r := Iter(path, pos);
      StopsHere(t, r);
    }
  }

  lemma LeafEnd<T>(t: Tree<T>, it: Iter)
    requires Stands(t, it) && IsLeaf(At(t, it.path)) && it.pos == |At(t, it.path).vals|
    ensures Before(t, it.path) + InOrder(At(t, it.path)) == Prefix(t, it)
  {
    LeafGap(t, it.path, it.pos);
    assert At(t, it.path).vals[..it.pos] == At(t, it.path).vals;
    hide *;
  }

  lemma AtTheEnd<T>(t: Tree<T>, it: Iter)
    requires Stands(t, it) && IsLeaf(At(t, it.path)) && it.pos == |At(t, it.path).vals|
    requires Before(t, []) + InOrder(At(t, [])) == Prefix(t, it)
    ensures ComesTo(t, it, Prefix(t, it))
  {
    assert [] + InOrder(t) == InOrder(t);
    hide InOrder;
  }

  /** The end of a node is the value after it in its parent, or the end of its parent. */
  lemma UpFrom<T>(t: Tree<T>, h: nat, cap: nat, q: Path, i: nat)
    requires Ok(t, h, cap) && ValidPath(t, q + [i])
    ensures ValidPath(t, q) && Shaped(At(t, q)) && i <= |At(t, q).vals| && !IsLeaf(At(t, q))
    ensures if i == |At(t, q).vals| then Before(t, q) + InOrder(At(t, q))
      == Before(t, q + [i]) + InOrder(At(t, q + [i]))
      else IsElem(t, Iter(q, i)) && Prefix(t, Iter(q, i)) == Before(t, q + [i]) + InOrder(At(t, q + [i]))
    ensures (q + [i])[..|q + [i]| - 1] == q
  {
    hide Ok, InOrder, GapBefore, Ahead;
    Unsnoc(t, q, i);
    Snoc(t, q, i);
    OkOpen(t, h, cap, q);
    OpenShaped(t, h, cap, q);
    var n := At(t, q);
    if i == |n.vals| {
      InOrderLast(n);
      Assoc3(Before(t, q), GapBefore(n, i), InOrder(n.kids[i]));
    } else {
      GapAtChild(t, q, i);
    }
  }

  lemma Assoc3<T>(a: seq<T>, b: seq<T>, c: seq<T>)
    ensures (a + b) + c == a + (b + c)
  {
  }

  lemma GapAtChild<T>(t: Tree<T>, q: Path, i: nat)
    requires ValidGap(t, q, i) && !IsLeaf(At(t, q))
    ensures Gap(t, q, i) == Before(t, q) + GapBefore(At(t, q), i)
  {
  }

  /** `increment_slow` from an inner node: to the first value below the next child. */
  method Descend<T>(t: Tree<T>, it: Iter, ghost h: nat, ghost cap: nat) returns (r: Iter)
    requires Ok(t, h, cap) && IsElem(t, it) && !IsLeaf(At(t, it.path))
    ensures ComesTo(t, r, Prefix(t, it) + [Value(t, it)])
  {
    hide Ok, InOrder, GapBefore, Ahead, ComesTo, Gap;
    var path: Path := it.path + [it.pos + 1];
    NextChildIs(t, it);
    OkOpen(t, h, cap, path);
    OpenShaped(t, h, cap, path);
    while !IsLeaf(At(t, path))
      invariant Open(t, h, cap, path) && |At(t, path).vals| >= 1 && Shaped(At(t, path))
      invariant Before(t, path) == Prefix(t, it) + [Value(t, it)]
      decreases h - |path|
    {
      FirstChildBefore(t, path);
      OkOpen(t, h, cap, path + [0]);
      OpenShaped(t, h, cap, path + [0]);
      path := path + [0];
    }
    r := Iter(path, 0);
    LeafStart(t, path);
    StopsHere(t, r);
  }

  lemma NextChildIs<T>(t: Tree<T>, it: Iter)
    requires IsElem(t, it) && !IsLeaf(At(t, it.path))
    ensures ValidPath(t, it.path + [it.pos + 1]) && Before(t, it.path + [it.pos + 1]) == Prefix(t, it) + [Value(t, it)]
  {
    var n := At(t, it.path);
    Snoc(t, it.path, it.pos + 1);
    GapStep(n, it.pos);
    hide InOrder, GapBefore;
    var b, g, k := Before(t, it.path), GapBefore(n, it.pos), InOrder(n.kids[it.pos]);
    assert b + (g + k + [n.vals[it.pos]]) == ((b + g) + k) + [n.vals[it.pos]];
  }

  lemma FirstChildBefore<T>(t: Tree<T>, path: Path)
    requires ValidPath(t, path) && !IsLeaf(At(t, path))
    ensures ValidPath(t, path + [0]) && Before(t, path + [0]) == Before(t, path)
  {
    Snoc(t, path, 0);
    assert GapBefore(At(t, path), 0) == [];
    hide InOrder, GapBefore;
  }

  lemma LeafStart<T>(t: Tree<T>, path: Path)
    requires ValidPath(t, path) && IsLeaf(At(t, path)) && |At(t, path).vals| >= 1
    ensures IsElem(t, Iter(path, 0)) && Prefix(t, Iter(path, 0)) == Before(t, path)
  {
    assert At(t, path).vals[..0] == [];
    hide InOrder, GapBefore;
  }

  /** `begin()`. */
  method Begin<T>(t: Tree<T>, ghost h: nat, ghost cap: nat) returns (r: Iter)
    requires Ok(t, h, cap)
    ensures IsElem(t, r) && Prefix(t, r) == [] && IsLeaf(At(t, r.path))
  {
    hide Ok, InOrder, GapBefore, Ahead;
    var path: Path := [];
    OkOpen(t, h, cap, path);
    OpenShaped(t, h, cap, path);
    while !IsLeaf(At(t, path))
      invariant Open(t, h, cap, path) && |At(t, path).vals| >= 1 && Shaped(At(t, path)) && Before(t, path) == []
      decreases h - |path|
    {
      FirstChildBefore(t, path);
      OkOpen(t, h, cap, path + [0]);
      OpenShaped(t, h, cap, path + [0]);
      path := path + [0];
    }
    r := Iter(path, 0);
    LeafStart(t, path);
  }

  /** `end()`: the end of the rightmost leaf. */
  method End<T>(t: Tree<T>, ghost h: nat, ghost cap: nat) returns (r: Iter)
    requires Ok(t, h, cap)
    ensures IsEnd(t, r) && IsLeaf(At(t, r.path)) && r.pos == |At(t, r.path).vals|
  {
    hide Ok, InOrder, GapBefore, Ahead, IsEnd;
    assert Before(t, []) + InOrder(t) == InOrder(t);
    var path := LastLeaf(t, [], h, cap);
    r := Iter(path, |At(t, path).vals|);
    EndOfLeaf(t, path);
  }

  lemma EndOfLeaf<T>(t: Tree<T>, path: Path)
    requires ValidPath(t, path) && IsLeaf(At(t, path)) && Before(t, path) + InOrder(At(t, path)) == InOrder(t)
    ensures IsEnd(t, Iter(path, |At(t, path).vals|))
  {
    LeafEnd(t, Iter(path, |At(t, path).vals|));
  }

  /** From a node to its last leaf. */
  method LastLeaf<T>(t: Tree<T>, p: Path, ghost h: nat, ghost cap: nat) returns (path: Path)
    requires Ok(t, h, cap) && ValidPath(t, p)
    ensures ValidPath(t, path) && IsLeaf(At(t, path)) && |At(t, path).vals| >= 1 && p <= path
    ensures Before(t, path) + InOrder(At(t, path)) == Before(t, p) + InOrder(At(t, p))
  {
    hide Ok, InOrder, GapBefore, Ahead;
    path := p;
    OkOpen(t, h, cap, path);
    OpenShaped(t, h, cap, path);
    while !IsLeaf(At(t, path))
      invariant Open(t, h, cap, path) && |At(t, path).vals| >= 1 && Shaped(At(t, path))
      invariant Before(t, path) + InOrder(At(t, path)) == Before(t, p) + InOrder(At(t, p)) && p <= path
      decreases h - |path|
    {
      var c := |At(t, path).vals|;
      Snoc(t, path, c);
      UpFrom(t, h, cap, path, c);
      OkOpen(t, h, cap, path + [c]);
      OpenShaped(t, h, cap, path + [c]);
      path := path + [c];
    }
  }

  // ---------- -- ----------

  /** r denotes the value before it. */
  ghost predicate ComesBefore<T>(t: Tree<T>, r: Iter, it: Iter)
    requires Stands(t, it)
  {
    IsElem(t, r) && Prefix(t, r) + [Value(t, r)] == Prefix(t, it)
  }

  /** The iterator at position pos of the node at a path denotes the value before another one; only
      in front of all values that is no value, but position -1 of the same node. */
  ghost predicate StepsBack<T>(t: Tree<T>, it: Iter, path: Path, pos: int)
    requires Stands(t, it)
  {
    if Prefix(t, it) == [] then path == it.path && pos == -1
    else pos >= 0 && ComesBefore(t, Iter(path, pos), it)
  }

  /** `--it`. */
  method Decrement<T>(t: Tree<T>, it: Iter, ghost h: nat, ghost cap: nat) returns (path: Path, pos: int)
    requires Ok(t, h, cap) && Stands(t, it)
    ensures StepsBack(t, it, path, pos)
    ensures !IsLeaf(At(t, it.path)) ==> (pos >= 0 && ValidPath(t, path) && IsLeaf(At(t, path))
                                         && pos == |At(t, path).vals| - 1 && it.path + [it.pos] <= path)
  {
    hide Ok, InOrder, GapBefore, Ahead, Shaped;
    OkOpen(t, h, cap, it.path);
    OpenShaped(t, h, cap, it.path);
    if IsLeaf(At(t, it.path)) {
      if it.pos > 0 {
        PrevInLeaf(t, it);
        return it.path, it.pos - 1;
      }
      LeafFirst(t, it);
      path, pos := ClimbBack(t, it, h, cap);
    } else {
      Snoc(t, it.path, it.pos);
      path := LastLeaf(t, it.path + [it.pos], h, cap);
      pos := |At(t, path).vals| - 1;
      LastOfChild(t, it, path);
    }
  }

  lemma PrevInLeaf<T>(t: Tree<T>, it: Iter)
    requires Stands(t, it) && IsLeaf(At(t, it.path)) && it.pos > 0
    ensures var r := Iter(it.path, it.pos - 1);
      IsElem(t, r) && Prefix(t, r) + [Value(t, r)] == Prefix(t, it)
  {
    NextInLeaf(t, Iter(it.path, it.pos - 1));
  }

  lemma LeafFirst<T>(t: Tree<T>, it: Iter)
    requires Stands(t, it) && IsLeaf(At(t, it.path)) && it.pos == 0
    ensures Prefix(t, it) == Before(t, it.path)
  {
    assert At(t, it.path).vals[..0] == [];
  }

  lemma LastOfChild<T>(t: Tree<T>, it: Iter, path: Path)
    requires Stands(t, it) && !IsLeaf(At(t, it.path)) && ValidPath(t, it.path + [it.pos])
    requires ValidPath(t, path) && IsLeaf(At(t, path)) && |At(t, path).vals| >= 1
    requires Before(t, path) + InOrder(At(t, path))
      == Before(t, it.path + [it.pos]) + InOrder(At(t, it.path + [it.pos]))
    ensures var r := Iter(path, |At(t, path).vals| - 1);
      IsElem(t, r) && Prefix(t, r) + [Value(t, r)] == Prefix(t, it)
  {
    var r := Iter(path, |At(t, path).vals| - 1);
    NextInLeaf(t, r);
    LeafEnd(t, Iter(path, |At(t, path).vals|));
    Snoc(t, it.path, it.pos);
    hide InOrder, GapBefore;
  }

  /** `decrement_slow` from the start of a leaf: up, while at the start of a node. */
  method ClimbBack<T>(t: Tree<T>, it: Iter, ghost h: nat, ghost cap: nat) returns (path: Path, pos: int)
    requires Ok(t, h, cap) && Stands(t, it) && Before(t, it.path) == Prefix(t, it)
    ensures StepsBack(t, it, path, pos)
  {
    hide Ok, InOrder, GapBefore, Ahead, Shaped, Gap;
    path, pos := it.path, -1;
    while pos < 0 && path != []
      invariant ValidPath(t, path) && -1 <= pos
      invariant if pos < 0 then Before(t, path) == Prefix(t, it)
                else ComesBefore(t, Iter(path, pos), it)
      decreases |path|
    {
      var q, i := path[..|path| - 1], path[|path| - 1];
      assert path == q + [i];
      BackFrom(t, h, cap, q, i);
      path, pos := q, i as int - 1;
    }
    if pos < 0 {
      path := it.path;
    }
  }

  lemma BackFrom<T>(t: Tree<T>, h: nat, cap: nat, q: Path, i: nat)
    requires Ok(t, h, cap) && ValidPath(t, q + [i])
    ensures ValidPath(t, q)
    ensures if i == 0 then Before(t, q) == Before(t, q + [i])
      else IsElem(t, Iter(q, i - 1)) && Prefix(t, Iter(q, i - 1)) + [Value(t, Iter(q, i - 1))] == Before(t, q + [i])
    ensures (q + [i])[..|q + [i]| - 1] == q
  {
    Unsnoc(t, q, i);
    OkOpen(t, h, cap, q);
    OpenShaped(t, h, cap, q);
    if i == 0 {
      FirstChildBefore(t, q);
    } else {
      NextChildIs(t, Iter(q, i - 1));
    }
    hide *;
  }
}
