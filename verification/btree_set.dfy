/** Whole runs of the B-tree as a set, under an order in which only a value is equal to itself. */
module BtreeSet {
  import opened BtreeTree
  import opened BtreeWalk
  import opened BtreeDense
  import opened Btree

  datatype Op<T> = Insert(value: T) | Erase(key: T) | Contains(key: T)

  function After<T(==)>(s: set<T>, op: Op<T>): set<T> {
    match op
    case Insert(v) => s + {v}
    case Erase(k) => s - {k}
    case Contains(_) => s
  }

  /** Whether the value is new, whether the key was erased, whether the key is there. */
  function Reply<T(==)>(s: set<T>, op: Op<T>): bool {
    match op
    case Insert(v) => v !in s
    case Erase(k) => k in s
    case Contains(k) => k in s
  }

  function FinalSet<T(==)>(ops: seq<Op<T>>): set<T> {
    if ops == [] then {} else After(FinalSet(ops[..|ops| - 1]), ops[|ops| - 1])
  }

  function Replies<T(==)>(ops: seq<Op<T>>): seq<bool> {
    if ops == [] then []
    else Replies(ops[..|ops| - 1]) + [Reply(FinalSet(ops[..|ops| - 1]), ops[|ops| - 1])]
  }

  ghost predicate Total<T(!new)>(lt: (T, T) -> bool) {
    StrictWeak(lt) && forall x, y :: Equal(x, y, lt) ==> x == y
  }

  ghost function Elements<T>(s: seq<T>): set<T> {
    set x | x in s
  }

  lemma HasElement<T(!new)>(s: seq<T>, k: T, lt: (T, T) -> bool)
    requires Total(lt)
    ensures Has(s, k, lt) <==> k in Elements(s)
  {
    if k in Elements(s) {
      var i :| 0 <= i < |s| && s[i] == k;
      assert Equal(s[i], k, lt);
    }
  }

  lemma InsertedElements<T>(t: Tree<T>, before: seq<T>, v: T, t': Tree<T>, r: Iter)
    requires Inserted(t, before, v, t', r)
    ensures Elements(InOrder(t')) == Elements(InOrder(t)) + {v}
  {
    InsertedAt(t, before, v, t', r);
    hide InOrder, Inserted;
    var s, m := InOrder(t), |before|;
    assert s == s[..m] + s[m..];
  }

  lemma RemovedElements<T(!new)>(s: seq<T>, k: T, lt: (T, T) -> bool, s': seq<T>)
    requires Total(lt) && Increasing(s, lt) && WithoutFirst(s, k, lt, s')
    ensures Elements(s') == Elements(s) - {k}
  {
    var r :| 0 <= r < |s| && IsLower(s, k, lt, r) && Equal(s[r], k, lt) && s' == s[..r] + s[r + 1..];
    assert s[r] == k;
    forall j | 0 <= j < |s| && j != r ensures s[j] != k {
      var less := if j < r then lt(s[j], s[r]) else lt(s[r], s[j]);
    }
    hide *;
    DropElement(s, r);
  }

  lemma DropElement<T>(s: seq<T>, r: nat)
    requires r < |s| && forall j :: 0 <= j < |s| && j != r ==> s[j] != s[r]
    ensures Elements(s[..r] + s[r + 1..]) == Elements(s) - {s[r]}
  {
    var s' := s[..r] + s[r + 1..];
    forall x ensures x in s' <==> x in s && x != s[r] {
      if x in s' {
        var i :| 0 <= i < |s'| && s'[i] == x;
        assert s[if i < r then i else i + 1] == x;
      }
      if x in s && x != s[r] {
        var j :| 0 <= j < |s| && s[j] == x;
        assert s'[if j < r then j else j - 1] == x;
      }
    }
  }

  lemma {:induction false} IncreasingSize<T(!new)>(s: seq<T>, lt: (T, T) -> bool)
    requires StrictWeak(lt) && Increasing(s, lt)
    ensures |Elements(s)| == |s|
    decreases |s|
  {
    if s != [] {
      var u, x := s[..|s| - 1], s[|s| - 1];
      IncreasingSize(u, lt);
      assert Elements(s) == Elements(u) + {x};
      forall i | 0 <= i < |u| ensures u[i] != x {
        var less := lt(s[i], s[|s| - 1]);
      }
    }
  }

  /** For every sequence of operations from an empty tree the answers are those of a set, and in the
      end the values in order are the elements of that set in increasing order. */
  method Run<T(!new, ==)>(cap: nat, lt: (T, T) -> bool, linear: bool, ops: seq<Op<T>>)
      returns (answers: seq<bool>, t: Btree<T>)
    requires cap >= 3 && Total(lt)
    ensures answers == Replies(ops)
    ensures t.Valid() && t.lt == lt && Increasing(InOrder(t.root), lt)
    ensures Elements(InOrder(t.root)) == FinalSet(ops) && t.size == |FinalSet(ops)|
  {
    t := new Btree(cap, lt);
    answers := [];
    for k := 0 to |ops|
      invariant fresh(t) && t.Valid() && t.lt == lt && Increasing(InOrder(t.root), lt)
      invariant Elements(InOrder(t.root)) == FinalSet(ops[..k]) && answers == Replies(ops[..k])
    {
      assert ops[..k + 1][..k] == ops[..k];
      var a := Perform(t, ops[k], linear);
      answers := answers + [a];
    }
    assert ops[..|ops|] == ops;
    IncreasingSize(InOrder(t.root), lt);
  }

  method Perform<T(!new, ==)>(t: Btree<T>, op: Op<T>, linear: bool) returns (answer: bool)
    requires t.Valid() && Total(t.lt) && Increasing(InOrder(t.root), t.lt)
    modifies t
    ensures t.Valid() && Increasing(InOrder(t.root), t.lt)
    ensures Elements(InOrder(t.root)) == After(old(Elements(InOrder(t.root))), op)
    ensures answer == Reply(old(Elements(InOrder(t.root))), op)
  {
    hide InOrder, Inserted, WithoutFirst, Has, Increasing, Elements, Prefix;
    ghost var t0 := t.root;
    match op {
      case Insert(v) =>
        HasElement(InOrder(t0), v, t.lt);
        var r, b := t.InsertUnique(v, linear);
        if b {
          InsertedElements(t0, Prefix(t.root, r), v, t.root, r);
        }
        answer := b;
      case Erase(k) =>
        HasElement(InOrder(t0), k, t.lt);
        var n := t.EraseUnique(k, linear);
        if n == 1 {
          RemovedElements(InOrder(t0), k, t.lt, InOrder(t.root));
        }
        answer := n == 1;
      case Contains(k) =>
        HasElement(InOrder(t0), k, t.lt);
        var r := t.Find(k, linear);
        answer := r.Some?;
    }
  }

  // ---------- values in order ----------

  /** The values that have come after k steps, and the next one. */
  function Come<T>(vals: seq<T>, front: bool, k: nat): seq<T>
    requires k <= |vals|
  {
    if front then vals[|vals| - k..] else vals[..k]
  }

  function Coming<T>(vals: seq<T>, front: bool, k: nat): T
    requires k < |vals|
  {
    if front then vals[|vals| - k - 1] else vals[k]
  }

  /** Values that come in ascending order, or in descending order, fill the nodes: all off the last
      path down, or off the first one, have room for at most one more. */
  method InOneDirection<T(!new)>(cap: nat, lt: (T, T) -> bool, linear: bool, vals: seq<T>, front: bool)
      returns (t: Btree<T>)
    requires cap >= 3 && StrictWeak(lt) && Increasing(vals, lt)
    ensures t.Valid() && InOrder(t.root) == vals && t.size == |vals|
    ensures Dense(t.root, cap, front)
  {
    hide InOrder, Increasing, Inserted, EdgeGrown, Has, IsLower, Prefix, StrictWeak;
    t := new Btree(cap, lt);
    EmptyDense<T>(cap, front);
    for k := 0 to |vals|
      invariant fresh(t) && t.Valid() && t.lt == lt && t.cap == cap
      invariant InOrder(t.root) == Come(vals, front, k) && Dense(t.root, cap, front)
    {
      ghost var u := t.root;
      var r, inserted := t.InsertUnique(Coming(vals, front, k), linear);
      NextIsOuter(vals, lt, front, k, if inserted then |Prefix(t.root, r)| else 0);
      if inserted {
        Outermost(u, Prefix(t.root, r), Coming(vals, front, k), t.root, r, vals, front, k, cap);
      }
    }
  }

  lemma EmptyDense<T>(cap: nat, front: bool)
    ensures var t: Tree<T> := Node([], []); InOrder(t) == [] && Dense(t, cap, front)
  {
  }

  /** The next value is not there yet, and is less or greater than all. */
  lemma NextIsOuter<T(!new)>(vals: seq<T>, lt: (T, T) -> bool, front: bool, k: nat, m: nat)
    requires StrictWeak(lt) && Increasing(vals, lt) && k < |vals|
    ensures var s, v := Come(vals, front, k), Coming(vals, front, k);
      && !Has(s, v, lt) && (IsLower(s, v, lt, m) ==> m == if front then 0 else |s|)
  {
    var s, v := Come(vals, front, k), Coming(vals, front, k);
    forall i | 0 <= i < |s| ensures if front then lt(v, s[i]) else lt(s[i], v) {
      assert s[i] == vals[if front then |vals| - k + i else i];
    }
    if s != [] {
      var first := lt(s[0], v);
      var behind := if m < |s| then lt(s[m], v) else first;
    }
  }

  lemma Outermost<T>(u: Tree<T>, before: seq<T>, v: T, t: Tree<T>, r: Iter, vals: seq<T>, front: bool, k: nat, cap: nat)
    requires k < |vals| && v == Coming(vals, front, k) && InOrder(u) == Come(vals, front, k)
    requires Inserted(u, before, v, t, r) && |before| == (if front then 0 else |InOrder(u)|)
    requires Dense(u, cap, front) && EdgeGrown(u, before, t, cap)
    ensures InOrder(t) == Come(vals, front, k + 1) && Dense(t, cap, front)
  {
    hide InOrder, Dense;
    assert before == if front then [] else InOrder(u);
    if front {
      assert vals[|vals| - k - 1..] == [v] + vals[|vals| - k..];
    } else {
      assert InOrder(u)[|before|..] == [];
    }
  }
}
