/** Nodes of the B-tree on the heap: arrays of values and child pointers that are shifted in place,
    and a pointer to the parent with the position there. The moves between siblings make of the
    subtree of the parent what the functions of BtreeShape make of it, and leave all links in order. */
module BtreeNode {
  import opened ArrayMoves
  import opened BtreeTree
  import opened BtreeShape
  import opened BtreeMoves
  import opened BtreeRebalance

  ghost predicate AllDifferent<A>(s: seq<A>) {
    forall i, j :: 0 <= i < j < |s| ==> s[i] != s[j]
  }

  ghost function Nodes<T(0)>(cs: seq<BtreeNode?<T>>): set<BtreeNode<T>> {
    set c: BtreeNode<T> | c in cs
  }

  /** cs are children lo, lo + 1, ... of p, and lead to the subtrees ts. */
  ghost predicate Links<T(0)>(p: BtreeNode<T>, cs: seq<BtreeNode?<T>>, lo: nat, ts: seq<Tree<T>>)
    reads Nodes(cs)`parent, Nodes(cs)`position, Nodes(cs)`tree
  {
    && |cs| == |ts|
    && forall i :: 0 <= i < |cs| ==>
       cs[i] != null && cs[i].parent == p && cs[i].position == lo + i && cs[i].tree == ts[i]
  }

  /** The same without the way back. */
  ghost predicate Leads<T(0)>(cs: seq<BtreeNode?<T>>, ts: seq<Tree<T>>)
    reads Nodes(cs)`tree
  {
    |cs| == |ts| && forall i :: 0 <= i < |cs| ==> cs[i] != null && cs[i].tree == ts[i]
  }

  /** n' is n with m values moved from child i + 1 to child i. */
  ghost predicate MovedLeft<T>(n: Tree<T>, i: nat, m: nat, n': Tree<T>) {
    && |n.kids| == |n.vals| + 1 && i < |n.vals| && Alike(n.kids[i], n.kids[i + 1]) && 1 <= m <= |n.kids[i + 1].vals|
    && n' == RightToLeft(n, i, m)
  }

  /** n' is n with m values moved from child i to child i + 1. */
  ghost predicate MovedRight<T>(n: Tree<T>, i: nat, m: nat, n': Tree<T>) {
    && |n.kids| == |n.vals| + 1 && i < |n.vals| && Alike(n.kids[i], n.kids[i + 1]) && 1 <= m <= |n.kids[i].vals|
    && n' == LeftToRight(n, i, m)
  }

  ghost predicate Parents<T(0)>(p: BtreeNode<T>, cs: seq<BtreeNode?<T>>)
    reads Nodes(cs)`parent
  {
    forall i :: 0 <= i < |cs| ==> cs[i] != null && cs[i].parent == p
  }

  /** n' is n with children i and i + 1 made one. */
  ghost predicate Merged<T>(n: Tree<T>, i: nat, n': Tree<T>) {
    |n.kids| == |n.vals| + 1 && i < |n.vals| && n' == MergeAt(n, i)
  }

  /** n' is n with child i made two, of which the left keeps k values. */
  ghost predicate IsSplit<T>(n: Tree<T>, i: nat, k: nat, n': Tree<T>) {
    && |n.kids| == |n.vals| + 1 && i < |n.kids| && Shaped(n.kids[i]) && k < |n.kids[i].vals|
    && n' == SplitChild(n, i, k)
  }

  class BtreeNode<T(0)> {
    const values: array<T>
    const children: array<BtreeNode?<T>>
    const leaf: bool
    var count: nat
    var parent: BtreeNode?<T>
    var position: nat
    ghost var tree: Tree<T>    // the subtree below this node

    ghost predicate Shape()
      reads this
    {
      && count <= values.Length && (leaf || children.Length == values.Length + 1)
      && values as object != children
    }

    /** The children around the first k values. */
    ghost function KidsOf(k: nat): seq<BtreeNode?<T>>
      requires Shape() && k <= values.Length
      reads this, children
    {
      if leaf then [] else children[..k + 1]
    }

    /** The children in use. */
    ghost function Kids(): seq<BtreeNode?<T>>
      requires Shape()
      reads this, children
    {
      KidsOf(count)
    }

    /** The values, the children and their links back agree with the subtree. */
    ghost predicate Linked()
      reads this, values, children, Nodes(children[..])
    {
      Shape() && tree.vals == values[..count] && Links(this, Kids(), 0, tree.kids)
    }

    /** Nothing of this node is part of the other. */
    ghost predicate Apart(other: BtreeNode<T>) {
      && this != other && values != other.values && children != other.children
      && values as object != other.children && children as object != other.values
    }

    /** The other node is the next child of the same parent. */
    ghost predicate Siblings(right: BtreeNode<T>, p: BtreeNode<T>)
      reads this, right, p, p.children
    {
      && Apart(right) && Apart(p) && right.Apart(p) && leaf == right.leaf
      && !p.leaf && p.Shape() && parent == p && right.parent == p && right.position == position + 1
      && position < p.count && p.children[position] == this && p.children[position + 1] == right
    }

    /** `init_leaf`. */
    constructor Leaf(p: BtreeNode?<T>, maxCount: nat)
      ensures Linked() && leaf && count == 0 && parent == p && position == 0
      ensures fresh(values) && fresh(children) && values.Length == maxCount && tree == Node([], [])
    {
      values := new T[maxCount];
      children := new BtreeNode?<T>[0](_ => null);
      leaf, count, parent, position := true, 0, p, 0;
      tree := Node([], []);
    }

    /** `init_internal`: the children are still to be set. */
    constructor Internal(p: BtreeNode?<T>, maxCount: nat)
      ensures Shape() && !leaf && count == 0 && parent == p && position == 0
      ensures fresh(values) && fresh(children) && values.Length == maxCount
    {
      values := new T[maxCount];
      children := new BtreeNode?<T>[maxCount + 1](_ => null);
      leaf, count, parent, position := false, 0, p, 0;
    }

    /** The links back from children lo .. hi: the part of `init_child` that is not the array. The
        nodes in `keep` are others. */
    method Relink(lo: nat, hi: nat, ghost ts: seq<Tree<T>>, ghost keep: set<BtreeNode<T>>)
      requires lo <= hi <= children.Length && AllDifferent(children[lo..hi]) && Leads(children[lo..hi], ts)
      requires keep !! Nodes(children[lo..hi])
      modifies Nodes(children[lo..hi])`parent, Nodes(children[lo..hi])`position
      ensures Links(this, children[lo..hi], lo, ts) && unchanged(keep)
    {
      ghost var ks := children[lo..hi];
      for j := lo to hi
        invariant children[lo..hi] == ks && Leads(ks, ts) && unchanged(keep)
        invariant forall i :: 0 <= i < j - lo ==> ks[i].parent == this && ks[i].position == lo + i
      {
        assert children[j] == ks[j - lo];
        children[j].parent, children[j].position := this, j;
      }
    }

    // ---------- two siblings ----------

    /** Two siblings and their parent, all in order. */
    ghost predicate LinkedPair(right: BtreeNode<T>, p: BtreeNode<T>)
      reads this, values, children, Nodes(children[..])
      reads right, right.values, right.children, Nodes(right.children[..])
      reads p, p.values, p.children, Nodes(p.children[..])
    {
      Siblings(right, p) && Linked() && right.Linked() && p.Linked()
    }

    /** The subtrees of two siblings are neighbours in n. */
    ghost predicate PairIn(right: BtreeNode<T>, n: Tree<T>)
      reads this, right
    {
      && |n.kids| == |n.vals| + 1 && position < |n.vals| && Alike(n.kids[position], n.kids[position + 1])
      && n.kids[position] == tree && n.kids[position + 1] == right.tree
      && (leaf <==> IsLeaf(tree)) && (leaf <==> IsLeaf(right.tree)) && |tree.vals| == count
      && |right.tree.vals| == right.count
    }

    /** What the links say of two siblings. */
    lemma PairBelow(right: BtreeNode<T>, p: BtreeNode<T>)
      requires LinkedPair(right, p)
      ensures PairIn(right, p.tree)
      ensures p.tree.vals == p.values[..p.count] && p.tree.vals[position] == p.values[position] && |tree.vals| == count
        && |right.tree.vals| == right.count
    {
      assert p.Kids()[position] == this && p.Kids()[position + 1] == right;
    }

    lemma NotOwnChild()
      requires Linked()
      ensures this !in Nodes(Kids())
    {
      forall j | 0 <= j < |Kids()| ensures Kids()[j] != this {
        var t := tree.kids[j];
      }
    }

    /** None of the three is a child of one of the siblings. */
    lemma NotBelow(right: BtreeNode<T>, p: BtreeNode<T>)
      requires LinkedPair(right, p)
      ensures {this, right, p} !! Nodes(Kids()) && {this, right, p} !! Nodes(right.Kids())
      ensures Nodes(Kids()) !! Nodes(right.Kids()) && Nodes(p.Kids()) !! Nodes(Kids())
        && Nodes(p.Kids()) !! Nodes(right.Kids())
      ensures p !in Nodes(p.Kids())
    {
      p.NotOwnChild();
      PairBelow(right, p);
      forall j | 0 <= j < |Kids()| ensures Kids()[j] != p {
        var t := tree.kids[j];
      }
      forall j | 0 <= j < |right.Kids()| ensures right.Kids()[j] != p {
        var t := right.tree.kids[j];
      }
      LinksApart(this, Kids(), tree.kids, right, right.Kids(), right.tree.kids, 0);
      LinksApart(this, Kids(), tree.kids, p, p.Kids(), p.tree.kids, 0);
      LinksApart(right, right.Kids(), right.tree.kids, p, p.Kids(), p.tree.kids, 0);
    }

    /** The subtrees of two neighbours and their parent, where the rest is in place. */
    ghost method SetTrees(dest: BtreeNode<T>, p: BtreeNode<T>, cs: seq<BtreeNode?<T>>, n: Tree<T>, i: nat)
      requires p != this && dest != this && p != dest && p !in cs
      requires i + 1 < |cs| == |n.kids| && cs[i] == this && cs[i + 1] == dest
      requires parent == p && position == i && dest.parent == p && dest.position == i + 1
      requires forall j :: 0 <= j < |cs| && j != i && j != i + 1 ==> cs[j] != null && cs[j] != this && cs[j] != dest
      requires forall j :: 0 <= j < |cs| && j != i && j != i + 1 ==>
                 cs[j].tree == n.kids[j] && cs[j].parent == p && cs[j].position == j
      modifies this`tree, dest`tree, p`tree
      ensures tree == n.kids[i] && dest.tree == n.kids[i + 1] && p.tree == n && Links(p, cs, 0, n.kids)
    {
      tree, dest.tree, p.tree := n.kids[i], n.kids[i + 1], n;
      forall j | 0 <= j < |cs|
        ensures cs[j] != null && cs[j].tree == n.kids[j] && cs[j].parent == p && cs[j].position == j
      {
      }
    }

    /** The subtrees after a move between two siblings whose arrays and links are in place. */
    ghost method Retree(right: BtreeNode<T>, p: BtreeNode<T>, n: Tree<T>)
      requires Siblings(right, p) && Shape() && right.Shape()
      requires {this, right, p} !! Nodes(Kids()) && {this, right, p} !! Nodes(right.Kids()) && p !in Nodes(p.Kids())
      requires |p.tree.kids| == |n.kids| == |n.vals| + 1 && position < |n.vals|
      requires Links(p, p.Kids(), 0, p.tree.kids)
      requires n.kids == p.tree.kids[position := n.kids[position]][position + 1 := n.kids[position + 1]]
      requires n.kids[position].vals == values[..count] && n.kids[position + 1].vals == right.values[..right.count]
      requires Links(this, Kids(), 0, n.kids[position].kids) && Links(right, right.Kids(), 0, n.kids[position + 1].kids)
      requires n.vals == p.values[..p.count]
      modifies this`tree, right`tree, p`tree
      ensures LinkedPair(right, p) && p.tree == n
    {
      ghost var i, cs := position, p.Kids();
      forall j | 0 <= j < |cs| && j != i && j != i + 1
        ensures cs[j] != null && cs[j].tree == n.kids[j] && cs[j].parent == p && cs[j].position == j
        ensures cs[j] != this && cs[j] != right
      {
        assert n.kids[j] == p.tree.kids[j];
      }
      SetTrees(right, p, cs, n, i);
    }

    /** Arrays and links are in place for counts c and d and for the subtree n of the parent. */
    ghost predicate Ready(right: BtreeNode<T>, p: BtreeNode<T>, c: nat, d: nat, n: Tree<T>)
      reads this, values, children, Nodes(children[..])
      reads right, right.values, right.children, Nodes(right.children[..])
      reads p, p.values, p.children, Nodes(p.children[..])
    {
      && Siblings(right, p) && Shape() && right.Shape() && c <= values.Length && d <= right.values.Length
      && {this, right, p} !! Nodes(KidsOf(c)) && {this, right, p} !! Nodes(right.KidsOf(d))
      && |p.tree.kids| == |n.kids| == |n.vals| + 1 && position < |n.vals| && n.vals == p.values[..p.count]
      && Links(p, p.Kids(), 0, p.tree.kids) && p !in Nodes(p.Kids())
      && n.kids == p.tree.kids[position := n.kids[position]][position + 1 := n.kids[position + 1]]
      && n.kids[position].vals == values[..c] && Links(this, KidsOf(c), 0, n.kids[position].kids)
      && n.kids[position + 1].vals == right.values[..d] && Links(right, right.KidsOf(d), 0, n.kids[position + 1].kids)
    }

    /** The counts of both nodes, and the subtrees with them. */
    method Settle(right: BtreeNode<T>, p: BtreeNode<T>, c: nat, d: nat, ghost n: Tree<T>)
      requires Ready(right, p, c, d, n)
      modifies this`count, this`tree, right`count, right`tree, p`tree
      ensures LinkedPair(right, p) && p.tree == n && count == c && right.count == d
    {
      hide Nodes, Links;
      count := c;
      right.count := d;
      Retree(right, p, n);
    }

    // ---------- from the right sibling ----------

    /** `rebalance_right_to_left`: m values come from the right sibling; p is `parent()`. */
    method RebalanceRightToLeft(m: nat, right: BtreeNode<T>, p: BtreeNode<T>)
      requires LinkedPair(right, p) && 1 <= m <= right.count && count + m <= values.Length
      modifies this`count, this`tree, values, children, right`count, right`tree, right.values, right.children
      modifies p`tree, p.values, Nodes(right.Kids())`parent, Nodes(right.Kids())`position
      ensures LinkedPair(right, p) && MovedLeft(old(p.tree), position, m, p.tree)
    {
      hide RightToLeft, Nodes, Links, LinkedPair, Ready;
      ghost var n := p.tree;
      PairBelow(right, p);
      MoveToLeft(m, right, p, n);
      Settle(right, p, count + m, right.count - m, RightToLeft(n, position, m));
    }

    method MoveToLeft(m: nat, right: BtreeNode<T>, p: BtreeNode<T>, ghost n: Tree<T>)
      requires LinkedPair(right, p) && n == p.tree && 1 <= m <= right.count && count + m <= values.Length
        && PairIn(right, n)
      modifies values, children, right.values, right.children
      modifies p.values, Nodes(right.Kids())`parent, Nodes(right.Kids())`position
      ensures unchanged({this, right, p}) && Ready(right, p, count + m, right.count - m, RightToLeft(n, position, m))
    {
      hide RightToLeft, Nodes, Alike, Shaped, Links, LinkedPair, Siblings, IsLeaf, Apart;
      RightToLeftParts(n, position, m);
      ArraysToLeft(m, right, p, tree, right.tree, n);
    }

    /** Its arrays and links, before the counts change. */
    method ArraysToLeft(m: nat, right: BtreeNode<T>, p: BtreeNode<T>, ghost l: Tree<T>, ghost r: Tree<T>,
                        ghost n: Tree<T>)
      requires LinkedPair(right, p) && l == tree && r == right.tree && n == p.tree
      requires 1 <= m <= right.count && count + m <= values.Length
      modifies values, children, right.values, right.children
      modifies p.values, Nodes(right.Kids())`parent, Nodes(right.Kids())`position
      ensures unchanged({this, right, p}) && Links(p, p.Kids(), 0, p.tree.kids) && p !in Nodes(p.Kids())
      ensures Siblings(right, p) && Shape() && right.Shape()
      ensures position < |n.vals| && values[..count + m] == l.vals + [n.vals[position]] + r.vals[..m - 1]
      ensures right.values[..right.count - m] == r.vals[m..]
      ensures p.values[..p.count] == n.vals[position := r.vals[m - 1]]
      ensures if leaf then l.kids == [] && r.kids == [] else m <= |r.kids|
      ensures Links(this, KidsOf(count + m), 0, if leaf then [] else l.kids + r.kids[..m])
      ensures Links(right, right.KidsOf(right.count - m), 0, if leaf then [] else r.kids[m..])
      ensures {this, right, p} !! Nodes(KidsOf(count + m)) && {this, right, p} !! Nodes(right.KidsOf(right.count - m))
    {
      hide Nodes, Links;
      NotBelow(right, p);
      PairBelow(right, p);
      ghost var v := p.values[..];
      ghost var lc, rc := Kids(), right.Kids();
      LinksSize(right, rc, r.kids);
      ValuesToLeft(m, right, p, l.vals, r.vals, {this, right, p} + Nodes(lc) + Nodes(rc) + Nodes(p.Kids()));
      WrittenSlice(v, p.count, position, r.vals[m - 1]);
      if leaf {
        NoLinks(this, l.kids);
        NoLinks(right, r.kids);
      } else {
        KidsToLeft(m, right, l.kids, r.kids, {this, right, p} + Nodes(p.Kids()));
        NodesOf(lc, rc, m);
      }
    }

    method ValuesToLeft(m: nat, right: BtreeNode<T>, p: BtreeNode<T>, ghost l: seq<T>, ghost r: seq<T>,
                        ghost keep: set<BtreeNode<T>>)
      requires Siblings(right, p) && Shape() && right.Shape() && 1 <= m <= right.count && count + m <= values.Length
      requires l == values[..count] && r == right.values[..right.count]
      modifies values, right.values, p.values
      ensures values[..count + m] == l + [old(p.values[position])] + r[..m - 1]
      ensures right.values[..right.count - m] == r[m..]
      ensures p.values[..] == old(p.values[..])[position := r[m - 1]]
      ensures unchanged(keep)
    {
      // 1) The value between the nodes goes to the left node.
      values[count] := p.values[position];
      // 2) So do m - 1 values of the right node.
      Append(values, count + 1, right.values, m - 1);
      assert right.values[..m - 1] == r[..m - 1];
      // 3) The next one goes to the parent.
      p.values[position] := right.values[m - 1];
      // 4) The others move to the front.
      DropFront(right.values, right.count, m);
    }

    method KidsToLeft(m: nat, right: BtreeNode<T>, ghost ls: seq<Tree<T>>, ghost rs: seq<Tree<T>>,
                      ghost keep: set<BtreeNode<T>>)
      requires Shape() && right.Shape() && Apart(right) && !leaf && !right.leaf
      requires 1 <= m <= right.count && count + m <= values.Length
      requires Links(this, Kids(), 0, ls) && Links(right, right.Kids(), 0, rs) && keep !! Nodes(right.Kids())
      modifies children, right.children, Nodes(right.Kids())`parent, Nodes(right.Kids())`position
      ensures Links(this, children[..count + m + 1], 0, ls + rs[..m])
      ensures Links(right, right.children[..right.count - m + 1], 0, rs[m..])
      ensures children[..count + m + 1] == old(Kids()) + old(right.Kids())[..m]
      ensures right.children[..right.count - m + 1] == old(right.Kids())[m..]
      ensures unchanged(keep)
    {
      hide Links, Leads, AllDifferent, Nodes;
      ghost var lc, rc := Kids(), right.Kids();
      PointersToLeft(m, right, ls, rs, keep);
      LinksSlice(right, rc, rs, m);
      LinksApart(this, lc, ls, right, rc, rs, m);
      Relink(count + 1, count + 1 + m, rs[..m], keep + Nodes(lc));
      LinksJoin(this, lc, ls, rc[..m], rs[..m]);
      right.Relink(0, right.count - m + 1, rs[m..], keep + Nodes(lc + rc[..m]));
    }

    method PointersToLeft(m: nat, right: BtreeNode<T>, ghost ls: seq<Tree<T>>, ghost rs: seq<Tree<T>>,
                          ghost keep: set<BtreeNode<T>>)
      requires Shape() && right.Shape() && Apart(right) && !leaf && !right.leaf
      requires 1 <= m <= right.count && count + m <= values.Length
      requires Links(this, Kids(), 0, ls) && Links(right, right.Kids(), 0, rs)
      modifies children, right.children
      ensures var lc, rc := old(Kids()), old(right.Kids());
        && children[..count + m + 1] == lc + rc[..m] && children[count + 1..count + 1 + m] == rc[..m]
        && right.children[0..right.count - m + 1] == rc[m..]
        && Links(this, lc, 0, ls) && Links(right, rc, 0, rs)
      ensures unchanged(keep)
    {
      ghost var lc, rc := Kids(), right.Kids();
      Append(children, count + 1, right.children, m);
      Upper(children[..], count + 1, count + 1 + m, lc, rc[..m]);
      Slice(right.children[..], right.count + 1, 0, m);
      DropFront(right.children, right.count + 1, m);
    }

    // ---------- from the left sibling ----------

    /** `rebalance_left_to_right`: m values go to the right sibling; p is `parent()`. */
    method RebalanceLeftToRight(m: nat, right: BtreeNode<T>, p: BtreeNode<T>)
      requires LinkedPair(right, p) && 1 <= m <= count && right.count + m <= right.values.Length
      modifies this`count, this`tree, right`count, right`tree, right.values, right.children
      modifies p`tree, p.values, Nodes(Kids())`parent, Nodes(Kids())`position
      modifies Nodes(right.Kids())`parent, Nodes(right.Kids())`position
      ensures LinkedPair(right, p) && MovedRight(old(p.tree), position, m, p.tree)
    {
      hide LeftToRight, Nodes, Links, LinkedPair, Ready;
      ghost var n := p.tree;
      PairBelow(right, p);
      MoveToRight(m, right, p, n);
      Settle(right, p, count - m, right.count + m, LeftToRight(n, position, m));
    }

    method MoveToRight(m: nat, right: BtreeNode<T>, p: BtreeNode<T>, ghost n: Tree<T>)
      requires LinkedPair(right, p) && n == p.tree && 1 <= m <= count && right.count + m <= right.values.Length
        && PairIn(right, n)
      modifies right.values, right.children, p.values, Nodes(Kids())`parent, Nodes(Kids())`position
      modifies Nodes(right.Kids())`parent, Nodes(right.Kids())`position
      ensures unchanged({this, right, p}) && Ready(right, p, count - m, right.count + m, LeftToRight(n, position, m))
    {
      hide LeftToRight, Nodes, Alike, Shaped, Links, LinkedPair, Siblings, IsLeaf, Apart;
      LeftToRightParts(n, position, m, count - m);
      ArraysToRight(m, right, p, tree, right.tree, n);
    }

    /** Its arrays and links, before the counts change. */
    method ArraysToRight(m: nat, right: BtreeNode<T>, p: BtreeNode<T>, ghost l: Tree<T>, ghost r: Tree<T>,
                         ghost n: Tree<T>)
      requires LinkedPair(right, p) && l == tree && r == right.tree && n == p.tree
      requires 1 <= m <= count && right.count + m <= right.values.Length
      modifies right.values, right.children, p.values, Nodes(Kids())`parent, Nodes(Kids())`position
      modifies Nodes(right.Kids())`parent, Nodes(right.Kids())`position
      ensures unchanged({this, right, p}) && Links(p, p.Kids(), 0, p.tree.kids) && p !in Nodes(p.Kids())
      ensures Siblings(right, p) && Shape() && right.Shape()
      ensures values[..count - m] == l.vals[..count - m]
      ensures position < |n.vals|
        && right.values[..right.count + m] == l.vals[count - m + 1..] + ([n.vals[position]] + r.vals)
      ensures p.values[..p.count] == n.vals[position := l.vals[count - m]]
      ensures if leaf then l.kids == [] && r.kids == [] else count - m + 1 <= |l.kids|
      ensures Links(this, KidsOf(count - m), 0, if leaf then [] else l.kids[..count - m + 1])
      ensures Links(right, right.KidsOf(right.count + m), 0, if leaf then [] else l.kids[count - m + 1..] + r.kids)
      ensures {this, right, p} !! Nodes(KidsOf(count - m)) && {this, right, p} !! Nodes(right.KidsOf(right.count + m))
    {
      hide Nodes, Links;
      NotBelow(right, p);
      PairBelow(right, p);
      ghost var v := p.values[..];
      ghost var lc, rc := Kids(), right.Kids();
      LinksSize(this, lc, l.kids);
      ValuesToRight(m, right, p, l.vals, r.vals, {this, right, p} + Nodes(lc) + Nodes(rc) + Nodes(p.Kids()));
      WrittenSlice(v, p.count, position, l.vals[count - m]);
      if leaf {
        NoLinks(this, l.kids);
        NoLinks(right, r.kids);
      } else {
        KidsToRight(m, right, l.kids, r.kids, {this, right, p} + Nodes(p.Kids()));
        NodesOfFront(lc, rc, count - m + 1);
      }
    }

    method ValuesToRight(m: nat, right: BtreeNode<T>, p: BtreeNode<T>, ghost l: seq<T>, ghost r: seq<T>,
                         ghost keep: set<BtreeNode<T>>)
      requires Siblings(right, p) && Shape() && right.Shape() && 1 <= m <= count
        && right.count + m <= right.values.Length
      requires l == values[..count] && r == right.values[..right.count]
      modifies right.values, p.values
      ensures values[..count - m] == l[..count - m]
      ensures right.values[..right.count + m] == l[count - m + 1..] + ([old(p.values[position])] + r)
      ensures p.values[..] == old(p.values[..])[position := l[count - m]]
      ensures unchanged(keep)
    {
      // 1) to 3): room is made in the right node; the value between the nodes and the last m - 1
      // values of the left node go there.
      PutInFrontWith(right.values, right.count, p.values[position], values, count - (m - 1), m - 1);
      Slice(values[..], count, count - m + 1, count);
      Slice(values[..], count, 0, count - m);
      // 4) The one before them goes to the parent.
      p.values[position] := values[count - m];
    }

    method KidsToRight(m: nat, right: BtreeNode<T>, ghost ls: seq<Tree<T>>, ghost rs: seq<Tree<T>>,
                       ghost keep: set<BtreeNode<T>>)
      requires Shape() && right.Shape() && Apart(right) && !leaf && !right.leaf
      requires 1 <= m <= count && right.count + m <= right.values.Length
      requires Links(this, Kids(), 0, ls) && Links(right, right.Kids(), 0, rs)
      requires keep !! Nodes(Kids()) && keep !! Nodes(right.Kids())
      modifies right.children, Nodes(Kids())`parent, Nodes(Kids())`position
      modifies Nodes(right.Kids())`parent, Nodes(right.Kids())`position
      ensures |ls| == count + 1 && Links(this, KidsOf(count - m), 0, ls[..count - m + 1])
      ensures Links(right, right.KidsOf(right.count + m), 0, ls[count - m + 1..] + rs)
      ensures KidsOf(count - m) == old(Kids())[..count - m + 1]
      ensures right.KidsOf(right.count + m) == old(Kids())[count - m + 1..] + old(right.Kids())
      ensures unchanged(keep)
    {
      hide Links, Leads, AllDifferent, Nodes;
      ghost var lc, rc, k := Kids(), right.Kids(), count - m + 1;
      PointersToRight(m, right, ls, rs, keep);
      LinksSlice(this, lc, ls, k);
      LinksDiffer(right, rc, rs);
      LinksApart(right, rc, rs, this, lc, ls, k);
      right.Relink(m, right.count + m + 1, rs, keep + Nodes(lc));
      right.Relink(0, m, ls[k..], keep + Nodes(lc[..k]) + Nodes(rc));
      LinksJoin(right, lc[k..], ls[k..], rc, rs);
    }

    method PointersToRight(m: nat, right: BtreeNode<T>, ghost ls: seq<Tree<T>>, ghost rs: seq<Tree<T>>,
                           ghost keep: set<BtreeNode<T>>)
      requires Shape() && right.Shape() && Apart(right) && !leaf && !right.leaf
      requires 1 <= m <= count && right.count + m <= right.values.Length
      requires Links(this, Kids(), 0, ls) && Links(right, right.Kids(), 0, rs)
      modifies right.children
      ensures var lc, rc, k := Kids(), old(right.Kids()), count - m + 1;
        && right.children[..right.count + m + 1] == lc[k..] + rc && right.children[0..m] == lc[k..]
        && right.children[m..right.count + m + 1] == rc && children[..k] == lc[..k]
        && Links(this, lc, 0, ls) && Links(this, lc[..k], 0, ls[..k]) && Links(right, rc, 0, rs)
      ensures unchanged(keep)
    {
      ghost var lc, rc := Kids(), right.Kids();
      PutInFront(right.children, right.count + 1, children, count - m + 1, m);
      Slice(children[..], count + 1, count - m + 1, count + 1);
      Slice(children[..], count + 1, 0, count - m + 1);
      Upper(right.children[..], m, right.count + m + 1, lc[count - m + 1..], rc);
    }

    // ---------- one value ----------

    /** The positions of children lo .. hi: the part of `set_child` that is not the array. */
    method Reposition(lo: nat, hi: nat, ghost ts: seq<Tree<T>>, ghost keep: set<BtreeNode<T>>)
      requires lo <= hi <= children.Length && AllDifferent(children[lo..hi]) && Leads(children[lo..hi], ts)
      requires Parents(this, children[lo..hi])
      requires keep !! Nodes(children[lo..hi])
      modifies Nodes(children[lo..hi])`position
      ensures Links(this, children[lo..hi], lo, ts) && unchanged(keep)
    {
      ghost var ks := children[lo..hi];
      for j := lo to hi
        invariant children[lo..hi] == ks && Leads(ks, ts) && Parents(this, ks) && unchanged(keep)
        invariant forall i :: 0 <= i < j - lo ==> ks[i].position == lo + i
      {
        assert children[j] == ks[j - lo];
        children[j].position := j;
      }
    }

    /** `emplace_value` in a leaf. */
    method EmplaceValue(i: nat, v: T)
      requires Linked() && leaf && i <= count < values.Length
      modifies this`count, this`tree, values
      ensures Linked() && count == old(count) + 1 && old(i <= |tree.vals|) && tree == InsertValue(old(tree), i, v)
    {
      InsertInArray(i, v, {});
      tree := InsertValue(tree, i, v);
      assert Kids() == [];
    }

    /** The values part of it. */
    method InsertInArray(i: nat, v: T, ghost keep: set<BtreeNode<T>>)
      requires Shape() && i <= count < values.Length && this !in keep
      modifies this`count, values
      ensures count == old(count) + 1 && Shape() && values[..count] == InsertAt(old(values[..count]), i, v)
      ensures unchanged(keep)
    {
      ghost var s, n := values[..], count;
      ShiftUp(values, i, i + 1, count - i);
      values[i] := v;
      count := count + 1;
      InsertPlaced(s, n, i, v);
    }

    /** `emplace_value` in an inner node: child i + 1 is left to be set. */
    method EmplaceInner(i: nat, v: T, ghost keep: set<BtreeNode<T>>)
      requires Linked() && !leaf && i <= count < values.Length && this !in keep && keep !! Nodes(Kids()[i + 1..])
      modifies this`count, values, children, Nodes(Kids())`position
      ensures count == old(count) + 1 && Shape() && values[..count] == InsertAt(old(tree.vals), i, v)
      ensures children[..i + 1] == old(Kids())[..i + 1] && children[i + 2..count + 1] == old(Kids())[i + 1..]
      ensures |old(tree.kids)| == old(count) + 1 && Links(this, children[..i + 1], 0, old(tree.kids)[..i + 1])
      ensures Links(this, children[i + 2..count + 1], i + 2, old(tree.kids)[i + 1..])
      ensures unchanged(keep)
    {
      hide Links, Leads, AllDifferent, Nodes, Parents;
      ghost var cs, ts := Kids(), tree.kids;
      NotOwnChild();
      LinksSlice(this, cs, ts, i + 1);
      LinksParents(this, cs, ts, i + 1);
      LinksPrefix(this, cs, ts, i + 1);
      InsertInArray(i, v, keep + Nodes(cs));
      OpenGap(i, cs, keep + Nodes(cs) + {this});
      Reposition(i + 2, count + 1, ts[i + 1..], keep + Nodes(cs[..i + 1]));
    }

    /** The children part of it: those behind child i move up. */
    method OpenGap(i: nat, ghost cs: seq<BtreeNode?<T>>, ghost keep: set<BtreeNode<T>>)
      requires Shape() && !leaf && 0 < count && i < count && cs == children[..count]
      modifies children
      ensures children[..i + 1] == cs[..i + 1] && children[i + 2..count + 1] == cs[i + 1..]
      ensures unchanged(keep)
    {
      ghost var s := children[..];
      if count > i + 1 {
        ShiftUp(children, i + 1, i + 2, count - i - 1);
        GapPlaced(s, count, i);
      }
    }

    /** `remove_value`: goes together with child i + 1. */
    method RemoveValue(i: nat, ghost keep: set<BtreeNode<T>>)
      requires Linked() && i < count && this !in keep && keep !! Nodes(if leaf then [] else Kids()[i + 2..])
      modifies this`count, this`tree, values, children, Nodes(Kids())`position
      ensures Linked() && count == old(count) - 1 && unchanged(keep)
      ensures var t := old(tree);
        && i < |t.vals| && (!leaf ==> i + 1 < |t.kids|)
        && tree == Node(RemoveAt(t.vals, i), if leaf then [] else RemoveAt(t.kids, i + 1))
      ensures Kids() == if leaf then [] else RemoveAt(old(Kids()), i + 1)
    {
      hide Links, Nodes;
      ghost var cs, t := Kids(), tree;
      LinksSize(this, cs, t.kids);
      NotOwnChild();
      if !leaf {
        LinksSlice(this, cs, t.kids, i + 2);
        CloseGap(i, cs, t.kids, keep + {this});
      }
      RemoveInArray(i, keep + Nodes(KidsOf(count - 1)));
      tree := Node(RemoveAt(t.vals, i), if leaf then [] else RemoveAt(t.kids, i + 1));
    }

    method RemoveInArray(i: nat, ghost keep: set<BtreeNode<T>>)
      requires Shape() && i < count && this !in keep
      modifies this`count, values
      ensures count == old(count) - 1 && Shape() && values[..count] == RemoveAt(old(values[..count]), i)
      ensures unchanged(keep)
    {
      ghost var s, n := values[..], count;
      ShiftDown(values, i + 1, i, count - i - 1);
      count := count - 1;
      RemovePlaced(s, n, i);
    }

    /** The children behind child i + 1 move down. */
    method CloseGap(i: nat, ghost cs: seq<BtreeNode?<T>>, ghost ts: seq<Tree<T>>, ghost keep: set<BtreeNode<T>>)
      requires Shape() && !leaf && i < count && cs == Kids() && Links(this, cs, 0, ts) && this !in Nodes(cs)
      requires keep !! Nodes(cs[i + 2..])
      modifies children, Nodes(cs)`position
      ensures unchanged(keep) && |ts| == |cs| == count + 1
      ensures children[..count] == RemoveAt(cs, i + 1) && Links(this, children[..count], 0, RemoveAt(ts, i + 1))
      ensures Nodes(children[..count]) <= Nodes(cs)
    {
      hide Links, Leads, AllDifferent, Nodes, Parents;
      LinksSlice(this, cs, ts, i + 2);
      LinksParents(this, cs, ts, i + 2);
      LinksPrefix(this, cs, ts, i + 1);
      NodesShorter(cs, i + 1);
      ShiftPointersDown(i, cs, keep + Nodes(cs));
      Reposition(i + 1, count, ts[i + 2..], keep + Nodes(cs[..i + 1]));
      LinksJoin(this, cs[..i + 1], ts[..i + 1], cs[i + 2..], ts[i + 2..]);
    }

    method ShiftPointersDown(i: nat, ghost cs: seq<BtreeNode?<T>>, ghost keep: set<BtreeNode<T>>)
      requires Shape() && !leaf && i < count && cs == children[..count + 1]
      modifies children
      ensures children[..count] == RemoveAt(cs, i + 1) && children[i + 1..count] == cs[i + 2..] && unchanged(keep)
    {
      ghost var s := children[..];
      if count > i + 1 {
        ShiftDown(children, i + 2, i + 1, count - i - 1);
        RemovePlaced(s, count + 1, i + 1);
        assert children[i + 1..count] == children[..count][i + 1..];
      }
    }

    // ---------- two nodes made one ----------

    /** `merge`: all of the right sibling and the value between the two come to this node. */
    method Merge(src: BtreeNode<T>, p: BtreeNode<T>)
      requires LinkedPair(src, p) && 1 + count + src.count <= values.Length
      modifies this`count, this`tree, values, children, src`count, p`count, p`tree, p.values, p.children
      modifies Nodes(src.Kids())`parent, Nodes(src.Kids())`position, Nodes(p.Kids())`position
      ensures Linked() && p.Linked() && src.count == 0 && parent == p && position == old(position)
      ensures position <= p.count && p.children[position] == this && Merged(old(p.tree), position, p.tree)
    {
      hide Nodes, Links, LinkedPair, MergeAt;
      ghost var n := p.tree;
      PairBelow(src, p);
      TakeAll(src, p, n);
      SelfInFront(src, p);
      p.RemoveValue(position, {this} + Nodes(Kids()));
      MergeParts(n, position);
    }

    /** A node and its children are not among its later siblings. */
    lemma SelfInFront(src: BtreeNode<T>, p: BtreeNode<T>)
      requires Siblings(src, p) && Linked() && p.Linked()
      ensures ({this} + Nodes(Kids())) !! Nodes(p.Kids()[position + 2..]) && p !in {this} + Nodes(Kids())
    {
      assert p.Kids()[position] == this;
      assert forall j :: position + 2 <= j < |p.Kids()| ==> p.Kids()[j].position == j;
      forall j | 0 <= j < |Kids()| ensures Kids()[j] != p {
        var t := tree.kids[j];
      }
    }

    /** Its first part: everything is in this node, and the parent still has the other. */
    method TakeAll(src: BtreeNode<T>, p: BtreeNode<T>, ghost n: Tree<T>)
      requires LinkedPair(src, p) && 1 + count + src.count <= values.Length && n == p.tree && PairIn(src, n)
      modifies this`count, this`tree, values, children, src`count, p`tree
      modifies Nodes(src.Kids())`parent, Nodes(src.Kids())`position
      ensures Linked() && p.Linked() && src.count == 0 && parent == p && position == old(position)
      ensures p.Kids() == old(p.Kids()) && p.count == old(p.count) && Siblings(src, p)
      ensures var i := position;
        |n.kids| == |n.vals| + 1 && i < |n.vals|
        && p.tree == Node(n.vals, n.kids[i := Join(n.kids[i], n.vals[i], n.kids[i + 1])])
    {
      hide Nodes, Links;
      ghost var l, r := tree, src.tree;
      NotBelow(src, p);
      LinkedParts(src, p);
      ArraysFromRight(src, p, l, r, n.vals[position], {this, src, p} + Nodes(p.Kids()));
      var c := 1 + count + src.count;
      src.count := 0;
      SettleOne(p, c, Join(l, n.vals[position], r));
    }

    lemma LinkedParts(src: BtreeNode<T>, p: BtreeNode<T>)
      requires LinkedPair(src, p)
      ensures Links(this, Kids(), 0, tree.kids) && Links(src, src.Kids(), 0, src.tree.kids)
        && Links(p, p.Kids(), 0, p.tree.kids)
      ensures tree.vals == values[..count] && src.tree.vals == src.values[..src.count]
        && p.tree.vals == p.values[..p.count]
    {
    }

    method ArraysFromRight(src: BtreeNode<T>, p: BtreeNode<T>, ghost l: Tree<T>, ghost r: Tree<T>, ghost v: T,
                           ghost keep: set<BtreeNode<T>>)
      requires Siblings(src, p) && Shape() && src.Shape() && 1 + count + src.count <= values.Length
        && v == p.values[position]
      requires l.vals == values[..count] && r.vals == src.values[..src.count]
      requires Links(this, Kids(), 0, l.kids) && Links(src, src.Kids(), 0, r.kids)
      requires keep !! Nodes(Kids()) && keep !! Nodes(src.Kids()) && Nodes(Kids()) !! Nodes(src.Kids())
      modifies values, children, Nodes(src.Kids())`parent, Nodes(src.Kids())`position
      ensures values[..1 + count + src.count] == l.vals + [v] + r.vals
      ensures Links(this, KidsOf(1 + count + src.count), 0, l.kids + r.kids)
        && keep !! Nodes(KidsOf(1 + count + src.count))
      ensures unchanged(keep)
    {
      hide Nodes, Links;
      ghost var lc, rc := Kids(), src.Kids();
      AppendValues(src, p, keep + Nodes(lc) + Nodes(rc));
      NodesJoin(lc, rc);
      if leaf {
        NoLinks(this, l.kids);
        NoLinks(src, r.kids);
      } else {
        AppendKids(src, lc, rc, keep + Nodes(lc) + Nodes(rc));
        LinksDiffer(src, rc, r.kids);
        Relink(count + 1, 2 + count + src.count, r.kids, keep + Nodes(lc));
        LinksSize(this, lc, l.kids);
        LinksJoin(this, lc, l.kids, rc, r.kids);
      }
    }

    method AppendValues(src: BtreeNode<T>, p: BtreeNode<T>, ghost keep: set<BtreeNode<T>>)
      requires Siblings(src, p) && Shape() && src.Shape() && 1 + count + src.count <= values.Length
      modifies values
      ensures values[..1 + count + src.count] == old(values[..count]) + [p.values[position]] + src.values[..src.count]
      ensures unchanged(keep)
    {
      ghost var l := values[..count];
      values[count] := p.values[position];
      assert values[..count + 1] == l + [p.values[position]];
      Append(values, count + 1, src.values, src.count);
    }

    method AppendKids(src: BtreeNode<T>, ghost lc: seq<BtreeNode?<T>>, ghost rc: seq<BtreeNode?<T>>,
                      ghost keep: set<BtreeNode<T>>)
      requires Shape() && src.Shape() && Apart(src) && !leaf && !src.leaf && 1 + count + src.count <= values.Length
      requires lc == Kids() && rc == src.Kids()
      modifies children
      ensures KidsOf(1 + count + src.count) == lc + rc && children[count + 1..2 + count + src.count] == rc
      ensures unchanged(keep)
    {
      Append(children, count + 1, src.children, src.count + 1);
      Upper(children[..], count + 1, 2 + count + src.count, lc, rc);
    }

    /** The count of this node, and the subtrees with it. */
    method SettleOne(p: BtreeNode<T>, c: nat, ghost t: Tree<T>)
      requires this != p && Shape() && c <= values.Length && p.Shape() && !p.leaf && parent == p
      requires position <= p.count && p.children[position] == this && {this, p} !! Nodes(KidsOf(c))
      requires t.vals == values[..c] && Links(this, KidsOf(c), 0, t.kids)
      requires p.tree.vals == p.values[..p.count] && Links(p, p.Kids(), 0, p.tree.kids)
      modifies this`count, this`tree, p`tree
      ensures Linked() && p.Linked() && count == c
      ensures position < |old(p.tree.kids)| && p.tree == Node(old(p.tree.vals), old(p.tree.kids)[position := t])
    {
      ghost var i, cs, ts := position, p.Kids(), p.tree.kids;
      assert cs[i] == this;
      LinksDiffer(p, cs, ts);
      count := c;
      tree, p.tree := t, Node(p.tree.vals, ts[i := t]);
      forall j | 0 <= j < |cs| ensures cs[j].tree == p.tree.kids[j] && cs[j].parent == p && cs[j].position == j {
        if j != i {
          assert cs[j] != this;
        }
      }
    }

    // ---------- one node made two ----------

    /** A full child of p, and a node that is not yet part of the tree. */
    ghost predicate Splits(dest: BtreeNode<T>, p: BtreeNode<T>)
      reads this, values, children, Nodes(children[..]), dest
      reads p, p.values, p.children, Nodes(p.children[..])
    {
      && Linked() && p.Linked() && Apart(p) && Apart(dest) && dest.Apart(p) && !p.leaf && dest.leaf == leaf
      && parent == p && position <= p.count < p.values.Length && p.children[position] == this
      && dest.Shape() && dest.count == 0 && 3 <= count == values.Length == dest.values.Length
      && dest !in Nodes(Kids()) && dest !in Nodes(p.Kids())
    }

    /** `split`: the values behind the split value go to the empty node dest, the next child of the
        parent then. */
    method Split(insertPosition: nat, dest: BtreeNode<T>, p: BtreeNode<T>)
      requires Splits(dest, p) && insertPosition <= count
      modifies this`count, this`tree, dest, dest.values, dest.children, p`count, p`tree, p.values, p.children
      modifies Nodes(Kids())`parent, Nodes(Kids())`position, Nodes(p.Kids())`position
      ensures LinkedPair(dest, p) && position == old(position)
      ensures IsSplit(old(p.tree), position, LeftCount(values.Length, insertPosition), p.tree)
    {
      hide Nodes, Links, LinkedPair, SplitChild, LeftCount, Shaped, IsLeaf;
      ghost var n, m, i := p.tree, tree, position;
      ghost var pc, lc := p.Kids(), Kids();
      SplitFacts(dest, p);
      LinksFrom(p, pc, n.kids, i);
      SplitValues(insertPosition, dest, m.vals, {p} + Nodes(lc) + Nodes(pc) - {this});
      p.InsertChild(position, values[count], dest, {this} + Nodes(lc));
      SplitBelow(dest, m.kids, lc, {this, dest, p} + Nodes(pc));
      SplitParts(n, i, count);
      RetreeSplit(dest, p, n, SplitChild(n, i, count), pc);
    }

    lemma SplitFacts(dest: BtreeNode<T>, p: BtreeNode<T>)
      requires Splits(dest, p)
      ensures |p.tree.kids| == |p.tree.vals| + 1 == p.count + 1 && position < |p.tree.kids|
        && p.tree.kids[position] == tree
      ensures Shaped(tree) && |tree.vals| == count && (leaf <==> IsLeaf(tree))
      ensures {this, dest, p} !! Nodes(Kids()) && Nodes(p.Kids()) !! Nodes(Kids()) && p !in Nodes(p.Kids())
    {
      assert p.Kids()[position] == this;
      forall j | 0 <= j < |Kids()| ensures Kids()[j] != p && Kids()[j] != this {
        var t := tree.kids[j];
      }
      p.NotOwnChild();
      LinksApart(this, Kids(), tree.kids, p, p.Kids(), p.tree.kids, 0);
    }

    /** The values part. */
    method SplitValues(insertPosition: nat, dest: BtreeNode<T>, ghost m: seq<T>, ghost keep: set<BtreeNode<T>>)
      requires Shape() && dest.Shape() && Apart(dest) && m == values[..] && this !in keep && dest !in keep
      requires dest.count == 0 && 3 <= count == values.Length == dest.values.Length && insertPosition <= count
      modifies this`count, dest`count, dest.values
      ensures Shape() && dest.Shape() && count == LeftCount(values.Length, insertPosition) < |m|
      ensures dest.count == |m| - count - 1
      ensures values[..count] == m[..count] && values[count] == m[count] && dest.values[..dest.count] == m[count + 1..]
      ensures unchanged(keep)
    {
      var n := if insertPosition == 0 then count - 1 else if insertPosition == values.Length then 0 else count / 2;
      dest.count := n;
      count := count - dest.count;
      CopyToFront(dest.values, values, count, dest.count, dest.count);
      assert dest.values[..dest.count] == m[count..];
      // The split value is the largest of the left node.
      count := count - 1;
    }

    /** `emplace_value` and `init_child` for a new child i + 1. */
    method InsertChild(i: nat, v: T, c: BtreeNode<T>, ghost keep: set<BtreeNode<T>>)
      requires Linked() && !leaf && i <= count < values.Length && c !in Nodes(Kids()) && c != this
      requires this !in keep && c !in keep && keep !! Nodes(Kids()[i + 1..])
      modifies this`count, values, children, Nodes(Kids())`position, c`parent, c`position
      ensures Shape() && count == old(count) + 1 && values[..count] == InsertAt(old(tree.vals), i, v)
      ensures c.parent == this && c.position == i + 1 && c.count == old(c.count) && c.tree == old(c.tree)
      ensures var cs, ts := old(Kids()), old(tree.kids);
        && Kids() == cs[..i + 1] + [c] + cs[i + 1..] && |cs| == |ts| == count
        && Links(this, cs[..i + 1], 0, ts[..i + 1]) && Links(this, cs[i + 1..], i + 2, ts[i + 1..])
      ensures unchanged(keep)
    {
      hide Links, Nodes;
      ghost var cs, ts := Kids(), tree.kids;
      LinksSlice(this, cs, ts, i + 1);
      EmplaceInner(i, v, keep + {c});
      SetInGap(i, c, cs, keep + Nodes(cs) + {this});
      c.parent, c.position := this, i + 1;
    }

    method SetInGap(i: nat, c: BtreeNode<T>, ghost cs: seq<BtreeNode?<T>>, ghost keep: set<BtreeNode<T>>)
      requires Shape() && !leaf && i < count == |cs|
      requires children[..i + 1] == cs[..i + 1] && children[i + 2..count + 1] == cs[i + 1..]
      modifies children
      ensures Kids() == cs[..i + 1] + [c] + cs[i + 1..] && unchanged(keep)
    {
      ghost var s := children[..];
      children[i + 1] := c;
      assert children[..] == s[i + 1 := c];
      GapFilled(s, count + 1, i, c, cs);
    }

    /** The children part of `split`, which leaves have none of. */
    method SplitBelow(dest: BtreeNode<T>, ghost ts: seq<Tree<T>>, ghost lc: seq<BtreeNode?<T>>,
                      ghost keep: set<BtreeNode<T>>)
      requires Shape() && dest.Shape() && Apart(dest) && leaf == dest.leaf
      requires count + 1 + dest.count == values.Length == dest.values.Length
      requires lc == KidsOf(values.Length) && Links(this, lc, 0, ts) && keep !! Nodes(lc)
      modifies dest.children, Nodes(lc)`parent, Nodes(lc)`position
      ensures if leaf then ts == [] else count < |ts|
      ensures Links(this, Kids(), 0, if leaf then [] else ts[..count + 1])
      ensures Links(dest, dest.Kids(), 0, if leaf then [] else ts[count + 1..])
      ensures Nodes(Kids()) <= Nodes(lc) && Nodes(dest.Kids()) <= Nodes(lc) && unchanged(keep)
    {
      hide Links, Nodes;
      if leaf {
        NoLinks(this, ts);
        LinksNone(dest);
      } else {
        SplitKids(dest, ts, lc, keep);
      }
    }

    method SplitKids(dest: BtreeNode<T>, ghost ts: seq<Tree<T>>, ghost lc: seq<BtreeNode?<T>>,
                     ghost keep: set<BtreeNode<T>>)
      requires Shape() && dest.Shape() && Apart(dest) && !leaf && !dest.leaf
      requires count + 1 + dest.count == values.Length == dest.values.Length
      requires lc == KidsOf(values.Length) && Links(this, lc, 0, ts) && keep !! Nodes(lc)
      modifies dest.children, Nodes(lc)`parent, Nodes(lc)`position
      ensures |ts| == values.Length + 1 && Links(this, Kids(), 0, ts[..count + 1])
        && Links(dest, dest.Kids(), 0, ts[count + 1..])
      ensures Nodes(Kids()) <= Nodes(lc) && Nodes(dest.Kids()) <= Nodes(lc) && unchanged(keep)
    {
      hide Links, Leads, AllDifferent, Nodes;
      LinksSlice(this, lc, ts, count + 1);
      LinksPrefix(this, lc, ts, count + 1);
      SplitPointers(dest, lc, keep + Nodes(lc));
      dest.Relink(0, dest.count + 1, ts[count + 1..], keep + Nodes(lc[..count + 1]));
    }

    method SplitPointers(dest: BtreeNode<T>, ghost lc: seq<BtreeNode?<T>>, ghost keep: set<BtreeNode<T>>)
      requires Shape() && dest.Shape() && Apart(dest) && !leaf && !dest.leaf
      requires count + 1 + dest.count == values.Length == dest.values.Length && lc == children[..values.Length + 1]
      modifies dest.children
      ensures Kids() == lc[..count + 1] && dest.Kids() == lc[count + 1..]
        && dest.children[0..dest.count + 1] == lc[count + 1..]
      ensures unchanged(keep)
    {
      CopyToFront(dest.children, children, count + 1, dest.count + 1, dest.count + 1);
      Slice(children[..], values.Length + 1, 0, count + 1);
      Slice(children[..], values.Length + 1, count + 1, values.Length + 1);
    }

    /** The subtrees after a split whose arrays and links are in place. */
    ghost method RetreeSplit(dest: BtreeNode<T>, p: BtreeNode<T>, n: Tree<T>, n': Tree<T>, pc: seq<BtreeNode?<T>>)
      requires Apart(p) && Apart(dest) && dest.Apart(p) && Shape() && dest.Shape() && p.Shape() && !p.leaf
        && dest.leaf == leaf
      requires {this, dest, p} !! Nodes(Kids()) && {this, dest, p} !! Nodes(dest.Kids())
      requires parent == p && dest.parent == p && dest.position == position + 1 && position < |pc|
        && pc[position] == this
      requires p !in Nodes(pc) && dest !in Nodes(pc) && |n.kids| == |pc| == p.count && |n'.kids| == p.count + 1
        && n'.vals == p.values[..p.count]
      requires p.Kids() == pc[..position + 1] + [dest] + pc[position + 1..]
      requires Links(p, pc[..position + 1], 0, n.kids[..position + 1])
      requires Links(p, pc[position + 1..], position + 2, n.kids[position + 1..])
      requires n'.kids == n.kids[..position] + [n'.kids[position], n'.kids[position + 1]] + n.kids[position + 1..]
      requires n'.kids[position].vals == values[..count] && Links(this, Kids(), 0, n'.kids[position].kids)
      requires n'.kids[position + 1].vals == dest.values[..dest.count]
      requires Links(dest, dest.Kids(), 0, n'.kids[position + 1].kids)
      modifies this`tree, dest`tree, p`tree
      ensures LinkedPair(dest, p) && p.tree == n'
    {
      ghost var i, cs := position, p.Kids();
      forall j | 0 <= j < |cs| && j != i && j != i + 1
        ensures cs[j] != null && cs[j].tree == n'.kids[j] && cs[j].parent == p && cs[j].position == j
        ensures cs[j] != this && cs[j] != dest
      {
        if j < i {
          assert cs[j] == pc[..i + 1][j] && n'.kids[j] == n.kids[..i + 1][j];
        } else {
          assert cs[j] == pc[i + 1..][j - i - 2] && n'.kids[j] == n.kids[i + 1..][j - i - 2];
        }
      }
      SetTrees(dest, p, cs, n', i);
    }
  }

  lemma LinksSlice<T(0)>(p: BtreeNode<T>, cs: seq<BtreeNode?<T>>, ts: seq<Tree<T>>, m: nat)
    requires Links(p, cs, 0, ts) && m <= |cs|
    ensures |ts| == |cs| && AllDifferent(cs[..m]) && Leads(cs[..m], ts[..m]) && AllDifferent(cs[m..])
      && Leads(cs[m..], ts[m..])
    ensures Nodes(cs[..m]) !! Nodes(cs[m..]) && Nodes(cs[..m]) <= Nodes(cs) && Nodes(cs[m..]) <= Nodes(cs)
  {
  }

  lemma LinksApart<T(0)>(p: BtreeNode<T>, a: seq<BtreeNode?<T>>, s: seq<Tree<T>>, q: BtreeNode<T>,
                         b: seq<BtreeNode?<T>>, t: seq<Tree<T>>, m: nat)
    requires Links(p, a, 0, s) && Links(q, b, 0, t) && p != q && m <= |b|
    ensures Nodes(a) !! Nodes(b) && Nodes(a) !! Nodes(b[..m]) && Nodes(a + b[..m]) !! Nodes(b[m..])
  {
  }

  lemma NoLinks<T(0)>(p: BtreeNode<T>, ts: seq<Tree<T>>)
    requires Links(p, [], 0, ts)
    ensures ts == [] && Nodes<T>([]) == {}
  {
  }

  lemma LinksNone<T(0)>(p: BtreeNode<T>)
    ensures Links(p, [], 0, []) && Nodes<T>([]) == {}
  {
  }

  lemma LinksSize<T(0)>(p: BtreeNode<T>, cs: seq<BtreeNode?<T>>, ts: seq<Tree<T>>)
    requires Links(p, cs, 0, ts)
    ensures |ts| == |cs|
  {
  }

  lemma WrittenSlice<A>(s: seq<A>, n: nat, i: nat, x: A)
    requires i < n <= |s|
    ensures s[i := x][..n] == s[..n][i := x]
  {
  }

  lemma LinksParents<T(0)>(p: BtreeNode<T>, cs: seq<BtreeNode?<T>>, ts: seq<Tree<T>>, m: nat)
    requires Links(p, cs, 0, ts) && m <= |cs|
    ensures Parents(p, cs[m..])
  {
  }

  lemma LinksPrefix<T(0)>(p: BtreeNode<T>, cs: seq<BtreeNode?<T>>, ts: seq<Tree<T>>, m: nat)
    requires Links(p, cs, 0, ts) && m <= |cs|
    ensures |ts| == |cs| && Links(p, cs[..m], 0, ts[..m])
  {
  }

  lemma InsertPlaced<A>(s: seq<A>, n: nat, i: nat, v: A)
    requires i <= n < |s|
    ensures Placed(s, i + 1, s[i..n])[i := v][..n + 1] == InsertAt(s[..n], i, v)
  {
  }

  lemma RemovePlaced<A>(s: seq<A>, n: nat, i: nat)
    requires i < n <= |s|
    ensures Placed(s, i, s[i + 1..n])[..n - 1] == RemoveAt(s[..n], i)
  {
  }

  lemma NodesShorter<T(0)>(cs: seq<BtreeNode?<T>>, m: nat)
    requires m < |cs|
    ensures Nodes(cs[..m]) <= Nodes(cs[..m + 1]) <= Nodes(cs) && Nodes(RemoveAt(cs, m)) <= Nodes(cs)
  {
  }

  lemma MergeParts<T>(n: Tree<T>, i: nat)
    requires |n.kids| == |n.vals| + 1 && i < |n.vals|
    ensures MergeAt(n, i) ==
      Node(RemoveAt(n.vals, i), RemoveAt(n.kids[i := Join(n.kids[i], n.vals[i], n.kids[i + 1])], i + 1))
  {
  }

  lemma NodesJoin<T(0)>(a: seq<BtreeNode?<T>>, b: seq<BtreeNode?<T>>)
    ensures Nodes(a + b) == Nodes(a) + Nodes(b)
  {
  }

  lemma LinksFrom<T(0)>(p: BtreeNode<T>, cs: seq<BtreeNode?<T>>, ts: seq<Tree<T>>, i: nat)
    requires Links(p, cs, 0, ts) && i < |cs|
    ensures Nodes(cs[..i + 1]) <= Nodes(cs) && Nodes(cs[i + 1..]) <= Nodes(cs) && cs[i] !in Nodes(cs[i + 1..])
  {
  }

  lemma GapFilled<A>(s: seq<A>, n: nat, i: nat, c: A, cs: seq<A>)
    requires i + 1 < n <= |s| && |cs| == n - 1 && s[..i + 1] == cs[..i + 1] && s[i + 2..n] == cs[i + 1..]
    ensures s[i + 1 := c][..n] == cs[..i + 1] + [c] + cs[i + 1..]
  {
    assert s[i + 1 := c][..n] == s[..i + 1] + [c] + s[i + 2..n];
  }

  lemma SplitParts<T>(n: Tree<T>, i: nat, k: nat)
    requires |n.kids| == |n.vals| + 1 && i < |n.kids| && Shaped(n.kids[i]) && k < |n.kids[i].vals|
    ensures var n', m := SplitChild(n, i, k), n.kids[i];
      && |n'.kids| == |n.kids| + 1 && n'.vals == InsertAt(n.vals, i, m.vals[k])
      && n'.kids == n.kids[..i] + [n'.kids[i], n'.kids[i + 1]] + n.kids[i + 1..]
      && n'.kids[i].vals == m.vals[..k] && n'.kids[i + 1].vals == m.vals[k + 1..]
      && n'.kids[i].kids == (if IsLeaf(m) then [] else m.kids[..k + 1])
      && n'.kids[i + 1].kids == (if IsLeaf(m) then [] else m.kids[k + 1..])
  {
  }

  lemma GapPlaced<A>(s: seq<A>, n: nat, i: nat)
    requires i + 1 < n < |s|
    ensures var t := Placed(s, i + 2, s[i + 1..n]);
      t[..i + 1] == s[..n][..i + 1] && t[i + 2..n + 1] == s[..n][i + 1..]
  {
  }

  lemma NodesOf<T(0)>(a: seq<BtreeNode?<T>>, b: seq<BtreeNode?<T>>, m: nat)
    requires m <= |b|
    ensures Nodes(a + b[..m]) <= Nodes(a) + Nodes(b) && Nodes(b[m..]) <= Nodes(b)
  {
  }

  lemma NodesOfFront<T(0)>(a: seq<BtreeNode?<T>>, b: seq<BtreeNode?<T>>, k: nat)
    requires k <= |a|
    ensures Nodes(a[..k]) <= Nodes(a) && Nodes(a[k..] + b) <= Nodes(a) + Nodes(b)
  {
  }

  lemma LeftToRightParts<T>(n: Tree<T>, i: nat, m: nat, k: nat)
    requires |n.kids| == |n.vals| + 1 && i < |n.vals| && Alike(n.kids[i], n.kids[i + 1])
    requires 1 <= m <= |n.kids[i].vals| && k + m == |n.kids[i].vals|
    ensures var n', l, r := LeftToRight(n, i, m), n.kids[i], n.kids[i + 1];
      && |n'.kids| == |n'.vals| + 1 == |n.kids|
      && n'.kids == n.kids[i := n'.kids[i]][i + 1 := n'.kids[i + 1]] && n'.vals == n.vals[i := l.vals[k]]
      && n'.kids[i].vals == l.vals[..k] && n'.kids[i + 1].vals == l.vals[k + 1..] + ([n.vals[i]] + r.vals)
      && n'.kids[i].kids == (if IsLeaf(l) then [] else l.kids[..k + 1])
      && n'.kids[i + 1].kids == (if IsLeaf(r) then [] else l.kids[k + 1..] + r.kids)
  {
  }

  lemma RightToLeftParts<T>(n: Tree<T>, i: nat, m: nat)
    requires |n.kids| == |n.vals| + 1 && i < |n.vals| && Alike(n.kids[i], n.kids[i + 1])
      && 1 <= m <= |n.kids[i + 1].vals|
    ensures var n', l, r := RightToLeft(n, i, m), n.kids[i], n.kids[i + 1];
      && |n'.kids| == |n'.vals| + 1 == |n.kids|
      && n'.kids == n.kids[i := n'.kids[i]][i + 1 := n'.kids[i + 1]] && n'.vals == n.vals[i := r.vals[m - 1]]
      && n'.kids[i].vals == l.vals + [n.vals[i]] + r.vals[..m - 1] && n'.kids[i + 1].vals == r.vals[m..]
      && n'.kids[i].kids == (if IsLeaf(l) then [] else l.kids + r.kids[..m])
      && n'.kids[i + 1].kids == (if IsLeaf(r) then [] else r.kids[m..])
  {
  }

  lemma LinksDiffer<T(0)>(p: BtreeNode<T>, cs: seq<BtreeNode?<T>>, ts: seq<Tree<T>>)
    requires Links(p, cs, 0, ts)
    ensures AllDifferent(cs) && Leads(cs, ts)
  {
  }

  lemma Upper<A>(s: seq<A>, n: nat, k: nat, a: seq<A>, b: seq<A>)
    requires n <= k <= |s| && s[..k] == a + b && |a| == n
    ensures s[n..k] == b && s[..n] == a
  {
    assert s[n..k] == s[..k][n..] && s[..n] == s[..k][..n];
  }

  lemma LinksJoin<T(0)>(p: BtreeNode<T>, a: seq<BtreeNode?<T>>, s: seq<Tree<T>>, b: seq<BtreeNode?<T>>, t: seq<Tree<T>>)
    requires Links(p, a, 0, s) && Links(p, b, |a|, t)
    ensures Links(p, a + b, 0, s + t)
  {
  }
}
