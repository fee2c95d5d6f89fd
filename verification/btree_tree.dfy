/** The B-tree as a value. A node owns its children, so a node is named by the path of child
    positions that leads to it; the parent and the position of a node are the two parts of that
    path. */
module BtreeTree {

  /** A node with its values and children; a leaf has no children. */
  datatype Tree<T> = Node(vals: seq<T>, kids: seq<Tree<T>>)

  predicate IsLeaf<T>(n: Tree<T>) { n.kids == [] }

  /** A leaf, or a node with one child more than values. */
  predicate Shaped<T>(n: Tree<T>) {
    n.kids == [] || |n.kids| == |n.vals| + 1
  }

  // ---------- the values in order ----------

  function InOrder<T>(n: Tree<T>): seq<T>
    decreases n, |n.kids| + 1
  {
    if n.kids == [] then n.vals
    else GapBefore(n, |n.kids| - 1) + InOrder(n.kids[|n.kids| - 1])
  }

  /** What comes before child g. */
  function GapBefore<T>(n: Tree<T>, g: nat): seq<T>
    requires g <= |n.kids|
    decreases n, g
  {
    if g == 0 then []
    else GapBefore(n, g - 1) + InOrder(n.kids[g - 1]) + ValueAt(n, g - 1)
  }

  /** What comes after child g. */
  function GapAfter<T>(n: Tree<T>, g: nat): seq<T>
    requires g < |n.kids|
    decreases |n.kids| - g
  {
    if g == |n.kids| - 1 then []
    else ValueAt(n, g) + InOrder(n.kids[g + 1]) + GapAfter(n, g + 1)
  }

  function ValueAt<T>(n: Tree<T>, i: nat): seq<T> {
    if i < |n.vals| then [n.vals[i]] else []
  }

  /** What comes before gap g of a node: the place before value g of a leaf, or child g. */
  function Ahead<T>(n: Tree<T>, g: nat): seq<T>
    requires if n.kids == [] then g <= |n.vals| else g < |n.kids|
  {
    if n.kids == [] then n.vals[..g] else GapBefore(n, g)
  }

  lemma {:induction false} KidSplit<T>(n: Tree<T>, g: nat)
    requires g < |n.kids|
    ensures InOrder(n) == GapBefore(n, g) + InOrder(n.kids[g]) + GapAfter(n, g)
    decreases |n.kids| - g
  {
    hide ValueAt;
    if g < |n.kids| - 1 {
      KidSplit(n, g + 1);
      var a, b, v := GapBefore(n, g), InOrder(n.kids[g]), ValueAt(n, g);
      var c, d := InOrder(n.kids[g + 1]), GapAfter(n, g + 1);
      assert ((a + b) + v) + c + d == (a + b) + (v + c + d);
    } else {
      assert InOrder(n) == GapBefore(n, g) + InOrder(n.kids[g]);
    }
  }

  /** What comes before child g depends only on what stands before it. */
  lemma {:induction false} GapPrefix<T>(n: Tree<T>, m: Tree<T>, g: nat)
    requires g <= |n.kids| && g <= |m.kids| && g <= |n.vals| && g <= |m.vals|
    requires n.kids[..g] == m.kids[..g] && n.vals[..g] == m.vals[..g]
    ensures GapBefore(n, g) == GapBefore(m, g)
    decreases g
  {
    if g > 0 {
      assert n.kids[..g - 1] == n.kids[..g][..g - 1] && m.kids[..g - 1] == m.kids[..g][..g - 1];
      assert n.vals[..g - 1] == n.vals[..g][..g - 1] && m.vals[..g - 1] == m.vals[..g][..g - 1];
      GapPrefix(n, m, g - 1);
      assert n.kids[g - 1] == n.kids[..g][g - 1] && m.kids[g - 1] == m.kids[..g][g - 1];
      assert n.vals[g - 1] == n.vals[..g][g - 1] && m.vals[g - 1] == m.vals[..g][g - 1];
    }
  }

  lemma GapStep<T>(n: Tree<T>, g: nat)
    requires g < |n.kids| && g < |n.vals|
    ensures GapBefore(n, g + 1) == GapBefore(n, g) + InOrder(n.kids[g]) + [n.vals[g]]
  {
  }

  lemma InOrderLast<T>(n: Tree<T>)
    requires n.kids != []
    ensures InOrder(n) == GapBefore(n, |n.kids| - 1) + InOrder(n.kids[|n.kids| - 1])
  {
  }

  // ---------- two siblings and the value between them ----------

  ghost predicate Alike<T>(l: Tree<T>, r: Tree<T>) {
    Shaped(l) && Shaped(r) && (l.kids == [] <==> r.kids == [])
  }

  function Join<T>(l: Tree<T>, v: T, r: Tree<T>): Tree<T> {
    Node(l.vals + [v] + r.vals, l.kids + r.kids)
  }

  lemma JoinLeft<T>(l: Tree<T>, v: T, r: Tree<T>, g: nat)
    requires Alike(l, r) && g <= |l.vals|
    ensures Shaped(Join(l, v, r)) && Ahead(Join(l, v, r), g) == Ahead(l, g)
    ensures !IsLeaf(l) ==> Join(l, v, r).kids[g] == l.kids[g]
  {
    var m := Join(l, v, r);
    if l.kids == [] {
      assert m.vals[..g] == l.vals[..g];
    } else {
      assert m.kids[..g] == l.kids[..g] && m.vals[..g] == l.vals[..g];
      GapPrefix(m, l, g);
    }
  }

  lemma JoinRight<T>(l: Tree<T>, v: T, r: Tree<T>, g: nat)
    requires Alike(l, r) && g <= |r.vals|
    ensures Shaped(Join(l, v, r)) && Ahead(Join(l, v, r), |l.vals| + 1 + g) == InOrder(l) + [v] + Ahead(r, g)
    ensures !IsLeaf(r) ==> Join(l, v, r).kids[|l.vals| + 1 + g] == r.kids[g]
  {
    hide GapBefore;
    var m, n := Join(l, v, r), |l.vals|;
    if l.kids == [] {
      assert m.vals[..n + 1 + g] == l.vals + [v] + r.vals[..g];
    } else {
      JoinRightGap(l, v, r, g);
    }
  }

  ghost predicate Inner<T>(l: Tree<T>, r: Tree<T>) {
    |l.kids| == |l.vals| + 1 && |r.kids| == |r.vals| + 1
  }

  lemma {:induction false} JoinRightGap<T>(l: Tree<T>, v: T, r: Tree<T>, g: nat)
    requires Inner(l, r) && g <= |r.vals|
    ensures GapBefore(Join(l, v, r), |l.vals| + 1 + g) == InOrder(l) + [v] + GapBefore(r, g)
    decreases g
  {
    hide InOrder, GapBefore, Join;
    if g == 0 {
      JoinRightFirst(l, v, r);
    } else {
      JoinRightGap(l, v, r, g - 1);
      JoinItems(l, v, r, g - 1);
      var m, k := Join(l, v, r), |l.vals| + g;
      GapStep(m, k);
      GapStep(r, g - 1);
      hide *;
      Assoc(InOrder(l) + [v], GapBefore(r, g - 1), InOrder(r.kids[g - 1]), [r.vals[g - 1]]);
      calc {
        GapBefore(m, k + 1);
        GapBefore(m, k) + InOrder(m.kids[k]) + [m.vals[k]];
        ((InOrder(l) + [v]) + GapBefore(r, g - 1)) + InOrder(r.kids[g - 1]) + [r.vals[g - 1]];
        (InOrder(l) + [v]) + (GapBefore(r, g - 1) + InOrder(r.kids[g - 1]) + [r.vals[g - 1]]);
        (InOrder(l) + [v]) + GapBefore(r, g);
      }
    }
  }

  lemma Assoc<T>(a: seq<T>, b: seq<T>, c: seq<T>, d: seq<T>)
    ensures (a + b) + c + d == a + (b + c + d)
  {
  }

  lemma JoinItems<T>(l: Tree<T>, v: T, r: Tree<T>, g: nat)
    requires Inner(l, r) && g < |r.vals|
    ensures var m, k := Join(l, v, r), |l.vals| + 1 + g;
      k < |m.vals| && k < |m.kids| && m.kids[k] == r.kids[g] && m.vals[k] == r.vals[g]
  {
  }

  lemma JoinRightFirst<T>(l: Tree<T>, v: T, r: Tree<T>)
    requires Inner(l, r)
    ensures GapBefore(Join(l, v, r), |l.vals| + 1) == InOrder(l) + [v] + GapBefore(r, 0)
  {
    var m, n := Join(l, v, r), |l.vals|;
    assert m.kids[..n] == l.kids[..n] && m.vals[..n] == l.vals[..n] && m.kids[n] == l.kids[n] && m.vals[n] == v;
    GapPrefix(m, l, n);
    GapStep(m, n);
    InOrderLast(l);
    assert GapBefore(r, 0) == [];
    hide InOrder, GapBefore, Join;
  }

  lemma JoinInOrder<T>(l: Tree<T>, v: T, r: Tree<T>)
    requires Alike(l, r)
    ensures InOrder(Join(l, v, r)) == InOrder(l) + [v] + InOrder(r)
  {
    var m := Join(l, v, r);
    if l.kids == [] {
      assert InOrder(m) == l.vals + [v] + r.vals;
    } else {
      JoinRight(l, v, r, |r.vals|);
      var last := |m.kids| - 1;
      assert m.kids[last] == r.kids[|r.vals|];
      var a, b, c := InOrder(l) + [v], GapBefore(r, |r.vals|), InOrder(r.kids[|r.vals|]);
      assert (a + b) + c == a + (b + c);
    }
  }

  /** Child i of n, joined with child i + 1 and the value between them. */
  function MergeAt<T>(n: Tree<T>, i: nat): (r: Tree<T>)
    requires |n.kids| == |n.vals| + 1 && i < |n.vals|
    ensures |r.kids| == |r.vals| + 1 && |r.vals| == |n.vals| - 1
  {
    Node(n.vals[..i] + n.vals[i + 1..],
         n.kids[..i] + [Join(n.kids[i], n.vals[i], n.kids[i + 1])] + n.kids[i + 2..])
  }

  /** What comes before gap p of child i. */
  function Pre<T>(n: Tree<T>, i: nat, p: nat): seq<T>
    requires i < |n.kids| && Shaped(n.kids[i]) && p <= |n.kids[i].vals|
  {
    GapBefore(n, i) + Ahead(n.kids[i], p)
  }

  lemma MergeKeepsPre<T>(n: Tree<T>, i: nat, p: nat)
    requires |n.kids| == |n.vals| + 1 && i < |n.vals| && Alike(n.kids[i], n.kids[i + 1])
    ensures Shaped(MergeAt(n, i).kids[i]) && |MergeAt(n, i).kids[i].vals| == |n.kids[i].vals| + 1 + |n.kids[i + 1].vals|
    ensures p <= |n.kids[i].vals| ==> Pre(MergeAt(n, i), i, p) == Pre(n, i, p)
    ensures p <= |n.kids[i + 1].vals| ==> Pre(MergeAt(n, i), i, |n.kids[i].vals| + 1 + p) == Pre(n, i + 1, p)
  {
    hide InOrder, GapBefore, Ahead;
    var m, l, r, v := MergeAt(n, i), n.kids[i], n.kids[i + 1], n.vals[i];
    assert m.kids[..i] == n.kids[..i] && m.vals[..i] == n.vals[..i];
    GapPrefix(m, n, i);
    assert m.kids[i] == Join(l, v, r);
    if p <= |l.vals| {
      JoinLeft(l, v, r, p);
    }
    if p <= |r.vals| {
      JoinRight(l, v, r, p);
      GapStep(n, i);
      assert (GapBefore(n, i) + InOrder(l) + [v]) + Ahead(r, p) == GapBefore(n, i) + (InOrder(l) + [v] + Ahead(r, p));
    }
  }

  /** What comes after child g depends only on what stands after it. */
  lemma {:induction false} AfterSuffix<T>(n: Tree<T>, i: nat, m: Tree<T>, j: nat)
    requires |n.kids| == |n.vals| + 1 && |m.kids| == |m.vals| + 1 && i < |n.kids| && j < |m.kids|
    requires n.kids[i + 1..] == m.kids[j + 1..] && n.vals[i..] == m.vals[j..]
    ensures GapAfter(n, i) == GapAfter(m, j)
    decreases |n.kids| - i
  {
    assert |n.kids[i + 1..]| == |n.kids| - i - 1 && |m.kids[j + 1..]| == |m.kids| - j - 1;
    if i < |n.kids| - 1 {
      assert n.kids[i + 1..][1..] == n.kids[i + 2..] && m.kids[j + 1..][1..] == m.kids[j + 2..];
      assert n.vals[i..][1..] == n.vals[i + 1..] && m.vals[j..][1..] == m.vals[j + 1..];
      assert n.kids[i + 1] == n.kids[i + 1..][0] && m.kids[j + 1] == m.kids[j + 1..][0];
      assert n.vals[i] == n.vals[i..][0] && m.vals[j] == m.vals[j..][0];
      AfterSuffix(n, i + 1, m, j + 1);
    }
  }

  lemma MergeKeepsInOrder<T>(n: Tree<T>, i: nat)
    requires |n.kids| == |n.vals| + 1 && i < |n.vals| && Alike(n.kids[i], n.kids[i + 1])
    ensures InOrder(MergeAt(n, i)) == InOrder(n)
  {
    hide InOrder, GapBefore, GapAfter;
    var m, l, r, v := MergeAt(n, i), n.kids[i], n.kids[i + 1], n.vals[i];
    assert m.kids[i] == Join(l, v, r);
    assert m.kids[..i] == n.kids[..i] && m.vals[..i] == n.vals[..i];
    GapPrefix(m, n, i);
    assert m.kids[i + 1..] == n.kids[i + 2..] && m.vals[i..] == n.vals[i + 1..];
    AfterSuffix(m, i, n, i + 1);
    KidSplit(m, i);
    KidSplit(n, i);
    JoinInOrder(l, v, r);
    AfterUnfold(n, i);
    var a, b, c, d := GapBefore(n, i), InOrder(l), InOrder(r), GapAfter(n, i + 1);
    assert a + (b + [v] + c) + d == a + b + ([v] + c + d);
  }

  lemma AfterUnfold<T>(n: Tree<T>, i: nat)
    requires |n.kids| == |n.vals| + 1 && i < |n.vals|
    ensures GapAfter(n, i) == [n.vals[i]] + InOrder(n.kids[i + 1]) + GapAfter(n, i + 1)
  {
  }

  // ---------- paths ----------

  type Path = seq<nat>

  predicate ValidPath<T>(t: Tree<T>, p: Path) {
    p == [] || (p[0] < |t.kids| && ValidPath(t.kids[p[0]], p[1..]))
  }

  function At<T>(t: Tree<T>, p: Path): Tree<T>
    requires ValidPath(t, p)
  {
    if p == [] then t else At(t.kids[p[0]], p[1..])
  }

  function Update<T>(t: Tree<T>, p: Path, s: Tree<T>): Tree<T>
    requires ValidPath(t, p)
  {
    if p == [] then s else Node(t.vals, t.kids[p[0] := Update(t.kids[p[0]], p[1..], s)])
  }

  /** What comes before the subtree at p, and what comes after it. */
  function Before<T>(t: Tree<T>, p: Path): seq<T>
    requires ValidPath(t, p)
  {
    if p == [] then [] else GapBefore(t, p[0]) + Before(t.kids[p[0]], p[1..])
  }

  function After<T>(t: Tree<T>, p: Path): seq<T>
    requires ValidPath(t, p)
  {
    if p == [] then [] else After(t.kids[p[0]], p[1..]) + GapAfter(t, p[0])
  }

  lemma {:induction false} PathSplit<T>(t: Tree<T>, p: Path)
    requires ValidPath(t, p)
    ensures InOrder(t) == Before(t, p) + InOrder(At(t, p)) + After(t, p)
    decreases p
  {
    hide InOrder, GapBefore, GapAfter;
    if p != [] {
      var k, q := t.kids[p[0]], p[1..];
      PathSplit(k, q);
      KidSplit(t, p[0]);
      var a, b, c, d, e := GapBefore(t, p[0]), Before(k, q), InOrder(At(k, q)), After(k, q), GapAfter(t, p[0]);
      assert a + (b + c + d) + e == (a + b) + c + (d + e);
    }
  }

  lemma {:induction false} UpdateAt<T>(t: Tree<T>, p: Path, s: Tree<T>)
    requires ValidPath(t, p)
    ensures ValidPath(Update(t, p, s), p) && At(Update(t, p, s), p) == s
    ensures Before(Update(t, p, s), p) == Before(t, p) && After(Update(t, p, s), p) == After(t, p)
    ensures InOrder(Update(t, p, s)) == Before(t, p) + InOrder(s) + After(t, p)
    decreases p
  {
    UpdateContext(t, p, s);
    PathSplit(Update(t, p, s), p);
  }

  lemma {:induction false} UpdateContext<T>(t: Tree<T>, p: Path, s: Tree<T>)
    requires ValidPath(t, p)
    ensures ValidPath(Update(t, p, s), p) && At(Update(t, p, s), p) == s
    ensures Before(Update(t, p, s), p) == Before(t, p) && After(Update(t, p, s), p) == After(t, p)
    decreases p
  {
    hide InOrder, GapBefore, GapAfter;
    if p != [] {
      var u := Update(t, p, s);
      UpdateContext(t.kids[p[0]], p[1..], s);
      ReplaceKid(t, p[0], u.kids[p[0]]);
    }
  }

  lemma ReplaceKid<T>(t: Tree<T>, i: nat, k: Tree<T>)
    requires i < |t.kids|
    ensures var u := Node(t.vals, t.kids[i := k]);
      GapBefore(u, i) == GapBefore(t, i) && GapAfter(u, i) == GapAfter(t, i)
  {
    SameBefore(t, i, k, i);
    SameAfter(t, i, k, i);
  }

  lemma {:induction false} SameBefore<T>(t: Tree<T>, i: nat, k: Tree<T>, g: nat)
    requires g <= i < |t.kids|
    ensures GapBefore(Node(t.vals, t.kids[i := k]), g) == GapBefore(t, g)
    decreases g
  {
    if g > 0 {
      SameBefore(t, i, k, g - 1);
    }
  }

  lemma {:induction false} SameAfter<T>(t: Tree<T>, i: nat, k: Tree<T>, g: nat)
    requires i <= g < |t.kids|
    ensures GapAfter(Node(t.vals, t.kids[i := k]), g) == GapAfter(t, g)
    decreases |t.kids| - g
  {
    if g < |t.kids| - 1 {
      SameAfter(t, i, k, g + 1);
    }
  }

  lemma {:induction false} Snoc<T>(t: Tree<T>, p: Path, i: nat)
    requires ValidPath(t, p) && i < |At(t, p).kids|
    ensures ValidPath(t, p + [i]) && At(t, p + [i]) == At(t, p).kids[i]
    ensures Before(t, p + [i]) == Before(t, p) + GapBefore(At(t, p), i)
    ensures After(t, p + [i]) == GapAfter(At(t, p), i) + After(t, p)
    decreases p
  {
    hide InOrder, GapBefore, GapAfter;
    if p == [] {
      assert (p + [i])[1..] == [];
    } else {
      assert (p + [i])[1..] == p[1..] + [i];
      Snoc(t.kids[p[0]], p[1..], i);
    }
  }

  lemma {:induction false} Unsnoc<T>(t: Tree<T>, p: Path, i: nat)
    requires ValidPath(t, p + [i])
    ensures ValidPath(t, p) && i < |At(t, p).kids|
    decreases p
  {
    if p == [] {
      assert (p + [i])[1..] == [];
    } else {
      assert (p + [i])[1..] == p[1..] + [i];
      Unsnoc(t.kids[p[0]], p[1..], i);
    }
  }

  /** Below a subtree that stands elsewhere the paths stay the same. */
  lemma {:induction false} Concat<T>(t: Tree<T>, p: Path, q: Path)
    requires ValidPath(t, p) && ValidPath(At(t, p), q)
    ensures ValidPath(t, p + q) && At(t, p + q) == At(At(t, p), q)
    ensures Before(t, p + q) == Before(t, p) + Before(At(t, p), q)
    decreases p
  {
    hide InOrder, GapBefore, GapAfter;
    if p == [] {
      assert p + q == q;
    } else {
      assert (p + q)[1..] == p[1..] + q;
      Concat(t.kids[p[0]], p[1..], q);
    }
  }

  lemma {:induction false} Unconcat<T>(t: Tree<T>, p: Path, q: Path)
    requires ValidPath(t, p + q)
    ensures ValidPath(t, p) && ValidPath(At(t, p), q)
    decreases p
  {
    if p == [] {
      assert p + q == q;
    } else {
      assert (p + q)[1..] == p[1..] + q;
      Unconcat(t.kids[p[0]], p[1..], q);
    }
  }
}
