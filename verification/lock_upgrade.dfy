/** Threads that work on the submaps of a parallel hash set, each submap under its own lock, as
    interleaved steps; in particular `erase_if`, which gives up its shared lock to get an exclusive
    one and searches again. */
module LockUpgrade {
  import opened Options

  // ---------- submaps ----------

  // The operators by name, so that what each does to single bits can be used by itself.

  function And(a: bv64, b: bv64): bv64 { a & b }

  function Xor(a: bv64, b: bv64): bv64 { a ^ b }

  function Shr(h: bv64, n: bv64): bv64
    requires n < 64
  {
    h >> n
  }

  /** `subidx`; with a number of submaps that is a power of two, the mask is one less. */
  function SubIdx(h: bv64, mask: bv64): bv64 {
    And(Xor(Xor(Shr(h, 8), Shr(h, 16)), Shr(h, 24)), mask)
  }

  lemma SubIdxBelow(h: bv64, mask: bv64)
    ensures SubIdx(h, mask) <= mask
  {
    hide Xor, Shr;
  }

  predicate HasBit(x: bv64, j: bv64) {
    j < 64 && (x >> j) & 1 == 1
  }

  lemma AndIs(a: bv64, b: bv64, j: bv64)
    ensures HasBit(a & b, j) <==> HasBit(a, j) && HasBit(b, j)
  {
  }

  lemma AndBit(a: bv64, b: bv64, j: bv64)
    ensures HasBit(And(a, b), j) <==> HasBit(a, j) && HasBit(b, j)
  {
    hide HasBit;
    AndIs(a, b, j);
  }

  lemma XorIs(a: bv64, b: bv64, j: bv64)
    ensures HasBit(a ^ b, j) <==> HasBit(a, j) != HasBit(b, j)
  {
  }

  lemma XorBit(a: bv64, b: bv64, j: bv64)
    ensures HasBit(Xor(a, b), j) <==> HasBit(a, j) != HasBit(b, j)
  {
    hide HasBit;
    XorIs(a, b, j);
  }

  lemma Shr8(h: bv64, j: bv64)
    requires j < 40
    ensures HasBit(Shr(h, 8), j) <==> HasBit(h, j + 8)
  {
  }

  lemma Shr16(h: bv64, j: bv64)
    requires j < 40
    ensures HasBit(Shr(h, 16), j) <==> HasBit(h, j + 16)
  {
  }

  lemma Shr24(h: bv64, j: bv64)
    requires j < 40
    ensures HasBit(Shr(h, 24), j) <==> HasBit(h, j + 24)
  {
  }

  /** Bit j of the index is there if the mask has it and an odd number of the bits j + 8, j + 16 and
      j + 24 of the hash are set. */
  lemma SubIdxBit(h: bv64, mask: bv64, j: bv64)
    requires j < 40
    ensures HasBit(SubIdx(h, mask), j) <==>
      HasBit(mask, j) && ((HasBit(h, j + 8) != HasBit(h, j + 16)) != HasBit(h, j + 24))
  {
    hide HasBit, And, Xor, Shr;
    Shr8(h, j);
    Shr16(h, j);
    Shr24(h, j);
    XorBit(Shr(h, 8), Shr(h, 16), j);
    XorBit(Xor(Shr(h, 8), Shr(h, 16)), Shr(h, 24), j);
    AndBit(Xor(Xor(Shr(h, 8), Shr(h, 16)), Shr(h, 24)), mask, j);
  }

  /** So the index is linear in the bits of the hash. */
  lemma SubIdxXor(g: bv64, h: bv64, mask: bv64, j: bv64)
    requires j < 40
    ensures HasBit(SubIdx(Xor(g, h), mask), j) <==> HasBit(SubIdx(g, mask), j) != HasBit(SubIdx(h, mask), j)
  {
    hide HasBit, And, Xor, Shr, SubIdx;
    SubIdxBit(Xor(g, h), mask, j);
    SubIdxBit(g, mask, j);
    SubIdxBit(h, mask, j);
    XorBit(g, h, j + 8);
    XorBit(g, h, j + 16);
    XorBit(g, h, j + 24);
  }

  /** The submaps, and the submap that each key belongs to: `subidx` of its hash. */
  datatype Config<!K(!new)> = Config(count: nat, home: K -> nat)
  {
    ghost predicate Valid() {
      count > 0 && forall k :: home(k) < count
    }
  }

  /** The slots in use of a submap, with their keys. */
  type Table<K> = map<nat, K>

  ghost function FindSlot<K>(t: Table<K>, k: K): (r: Option<nat>)
    ensures r.None? <==> k !in t.Values
    ensures r.Some? ==> r.value in t && t[r.value] == k
  {
    if p :| p in t && t[p] == k then Some(p) else None
  }

  /** Inserting may move all elements to other slots. */
  ghost predicate Rearranged<K>(t: Table<K>, t': Table<K>, k: K) {
    t'.Values == t.Values + {k} && OnePlaceEach(t')
  }

  ghost predicate OnePlaceEach<K>(t: Table<K>) {
    forall p, q :: p in t && q in t && t[p] == t[q] ==> p == q
  }

  // ---------- locks ----------

  /** A shared mutex: the thread that holds it exclusively, and those that share it. */
  datatype Mutex = Mutex(owner: Option<nat>, shared: set<nat>)

  /** `m->lock()` and `m->lock_shared()`, which wait until they can succeed. */
  ghost function Acquire(m: Mutex, t: nat, exclusive: bool): Option<Mutex> {
    if exclusive then (if m == Mutex(None, {}) then Some(Mutex(Some(t), {})) else None)
    else if m.owner == None then Some(Mutex(None, m.shared + {t})) else None
  }

  /** The flags `locked_` and `locked_shared_` of a lock object. */
  datatype Lock = Lock(locked: bool, lockedShared: bool)

  /** The destructor of `ReadWriteLock`; that of the other two looks at its only flag. */
  ghost function Release(m: Mutex, t: nat, l: Lock): Mutex {
    if l.lockedShared then m.(shared := m.shared - {t})
    else if l.locked then m.(owner := None)
    else m
  }

  // ---------- threads ----------

  datatype LockKind = ReadWrite | Write

  datatype Op<K> = EraseIf(kind: LockKind, key: K) | Emplace(key: K) | IfContains(key: K)

  datatype Pc = Enter | Find | Switch | Relock | FindAgain | Callback | Erase | Insert | Leave

  datatype Thread<K> = Idle | Busy(op: Op<K>, pc: Pc, it: Option<nat>, m: Lock, result: bool)

  /** What the surroundings decide: the next call, the answer of the callback, the new layout. */
  datatype Choice<K> = Begin(op: Op<K>) | Answer(b: bool) | Layout(t: Table<K>) | Nothing

  datatype Event<K> = Silent | Inserted(key: K) | Erased(key: K)

  datatype Effect<K> = Effect(m: Mutex, table: Table<K>, th: Thread<K>, event: Event<K>)

  ghost predicate StartsExclusive<K>(op: Op<K>) {
    op.Emplace? || (op.EraseIf? && op.kind.Write?)
  }

  /** One step of the busy thread t on the submap of its key; None if it has to wait. */
  ghost function Act<K>(m: Mutex, table: Table<K>, t: nat, th: Thread<K>, ch: Choice<K>): Option<Effect<K>>
    requires th.Busy?
  {
    var op := th.op;
    match th.pc
    case Enter =>
      var x := StartsExclusive(op);
      var m' := Acquire(m, t, x);
      if m'.None? then None
      else Some(Effect(m'.value, table, th.(pc := Find, m := Lock(x, !x)), Silent))
    case Find =>
      var it := FindSlot(table, op.key);
      var pc := match op
        case EraseIf(_, _) => if it.Some? then Switch else Leave
        case Emplace(_) => if it.Some? then Leave else Insert
        case IfContains(_) => if it.Some? then Callback else Leave;
      Some(Effect(m, table, th.(it := it, pc := pc), Silent))
    case Switch =>
      // switch_to_unique
      if th.m.lockedShared then
        Some(Effect(m.(shared := m.shared - {t}), table, th.(pc := Relock, m := Lock(th.m.locked, false)), Silent))
      else Some(Effect(m, table, th.(pc := Callback), Silent))
    case Relock =>
      var m' := Acquire(m, t, true);
      if m'.None? then None
      else Some(Effect(m'.value, table, th.(pc := FindAgain, m := Lock(true, th.m.lockedShared)), Silent))
    case FindAgain =>
      var it := FindSlot(table, op.key);
      Some(Effect(m, table, th.(it := it, pc := if it.Some? then Callback else Leave), Silent))
    case Callback =>
      if op.IfContains? then Some(Effect(m, table, th.(pc := Leave, result := true), Silent))
      else if !ch.Answer? then None
      else Some(Effect(m, table, th.(pc := if ch.b then Erase else Leave), Silent))
    case Erase =>
      if th.it.None? then None
      else Some(Effect(m, table - {th.it.value}, th.(pc := Leave, result := true), Erased(op.key)))
    case Insert =>
      if !(ch.Layout? && Rearranged(table, ch.t, op.key)) then None
      else Some(Effect(m, ch.t, th.(pc := Leave, result := true), Inserted(op.key)))
    case Leave =>
      Some(Effect(Release(m, t, th.m), table, Idle, Silent))
  }

  /** The whole system, with the bags of keys inserted and erased so far. */
  datatype State<K> = State(mutexes: seq<Mutex>, tables: seq<Table<K>>, threads: seq<Thread<K>>,
                            inserts: multiset<K>, erases: multiset<K>)

  ghost function Next<K(!new)>(c: Config<K>, s: State<K>, t: nat, ch: Choice<K>): Option<State<K>>
    requires c.Valid() && |s.mutexes| == |s.tables| == c.count
  {
    if t >= |s.threads| then None
    else if s.threads[t].Idle? then
      if ch.Begin?
      then Some(s.(threads := s.threads[t := Busy(ch.op, Enter, None, Lock(false, false), false)]))
      else None
    else
      var i := c.home(s.threads[t].op.key);
      var e := Act(s.mutexes[i], s.tables[i], t, s.threads[t], ch);
      if e.None? then None
      else
        var ev := e.value.event;
        Some(State(s.mutexes[i := e.value.m], s.tables[i := e.value.table], s.threads[t := e.value.th],
                   if ev.Inserted? then s.inserts + multiset{ev.key} else s.inserts,
                   if ev.Erased? then s.erases + multiset{ev.key} else s.erases))
  }

  ghost predicate Initial<K(!new)>(c: Config<K>, s: State<K>) {
    && c.Valid() && |s.mutexes| == |s.tables| == c.count
    && (forall i :: 0 <= i < |s.mutexes| ==> s.mutexes[i] == Mutex(None, {}) && s.tables[i] == map[])
    && (forall t :: 0 <= t < |s.threads| ==> s.threads[t].Idle?)
    && s.inserts == multiset{} && s.erases == multiset{}
  }

  // ---------- what every step keeps ----------

  /** The flags that a thread's lock object has at each point. */
  ghost predicate LockIs<K>(th: Thread<K>)
    requires th.Busy?
  {
    match th.pc
    case Enter => th.m == Lock(false, false)
    case Find => th.m == Lock(StartsExclusive(th.op), !StartsExclusive(th.op))
    case Switch => th.op.EraseIf? && th.m == Lock(th.op.kind.Write?, th.op.kind.ReadWrite?)
    case Relock => th.op.EraseIf? && th.m == Lock(false, false)
    case FindAgain => th.op.EraseIf? && th.m == Lock(true, false)
    case Callback => !th.op.Emplace? && th.m == Lock(th.op.EraseIf?, th.op.IfContains?)
    case Erase => th.op.EraseIf? && th.m == Lock(true, false)
    case Insert => th.op.Emplace? && th.m == Lock(true, false)
    case Leave => th.m == Lock(true, false) || th.m == Lock(false, true)
  }

  /** A thread's flags agree with the mutex of its submap, and where it is about to use the slot it
      found, or to insert the key it did not find, that is still so. */
  ghost predicate ThreadOk<K>(m: Mutex, table: Table<K>, t: nat, th: Thread<K>)
    requires th.Busy?
  {
    && LockIs(th)
    && (th.m.locked <==> m.owner == Some(t))
    && (th.m.lockedShared <==> t in m.shared)
    && (th.pc in {Switch, Callback, Erase} ==> th.it.Some? && th.it.value in table && table[th.it.value] == th.op.key)
    && (th.pc == Insert ==> th.op.key !in table.Values)
  }

  /** The mutex is held by one thread exclusively or by any number of threads. */
  ghost predicate MutexOk(m: Mutex) {
    m.owner.Some? ==> m.shared == {}
  }

  /** t has no part in the mutex. */
  ghost predicate Outside(m: Mutex, t: nat) {
    m.owner != Some(t) && t !in m.shared
  }

  ghost predicate TableOk<K(!new)>(c: Config<K>, table: Table<K>, i: nat)
    requires c.Valid()
  {
    OnePlaceEach(table) && forall k :: k in table.Values ==> c.home(k) == i
  }

  ghost predicate Balanced<K(!new)>(c: Config<K>, s: State<K>, k: K)
    requires c.Valid() && |s.tables| == c.count
  {
    s.inserts[k] == s.erases[k] + if k in s.tables[c.home(k)].Values then 1 else 0
  }

  ghost predicate ThreadIn<K(!new)>(c: Config<K>, s: State<K>, t: nat)
    requires c.Valid() && |s.mutexes| == |s.tables| == c.count && t < |s.threads|
  {
    var th := s.threads[t];
    if th.Idle? then forall i :: 0 <= i < |s.mutexes| ==> Outside(s.mutexes[i], t)
    else
      var h := c.home(th.op.key);
      && ThreadOk(s.mutexes[h], s.tables[h], t, th)
      && forall i :: 0 <= i < |s.mutexes| && i != h ==> Outside(s.mutexes[i], t)
  }

  /** Only existing threads take part in a mutex. */
  ghost predicate KnownHolders(m: Mutex, n: nat) {
    forall t: nat :: t >= n ==> Outside(m, t)
  }

  ghost predicate SubmapOk<K(!new)>(c: Config<K>, s: State<K>, i: nat)
    requires c.Valid() && |s.mutexes| == |s.tables| == c.count && i < c.count
  {
    MutexOk(s.mutexes[i]) && TableOk(c, s.tables[i], i) && KnownHolders(s.mutexes[i], |s.threads|)
  }

  ghost predicate Inv<K(!new)>(c: Config<K>, s: State<K>) {
    && c.Valid() && |s.mutexes| == |s.tables| == c.count
    && (forall i :: 0 <= i < c.count ==> SubmapOk(c, s, i))
    && (forall t :: 0 <= t < |s.threads| ==> ThreadIn(c, s, t))
    && (forall k :: Balanced(c, s, k))
  }

  lemma InitialInv<K(!new)>(c: Config<K>, s: State<K>)
    requires Initial(c, s)
    ensures Inv(c, s)
  {
    forall k ensures Balanced(c, s, k) {
      assert s.tables[c.home(k)] == map[];
    }
  }

  /** What a step does to the mutex and the table, seen from the other threads of the submap. */
  lemma ActKeeps<K>(m: Mutex, table: Table<K>, t: nat, th: Thread<K>, ch: Choice<K>)
    requires th.Busy? && MutexOk(m) && OnePlaceEach(table) && ThreadOk(m, table, t, th)
      && Act(m, table, t, th, ch).Some?
    ensures var e := Act(m, table, t, th, ch).value;
      && MutexOk(e.m) && OnePlaceEach(e.table)
      && (if e.th.Idle? then Outside(e.m, t) else ThreadOk(e.m, e.table, t, e.th) && e.th.op == th.op)
      && (forall u: nat :: u != t ==>
         (e.m.owner == Some(u) <==> m.owner == Some(u)) && (u in e.m.shared <==> u in m.shared))
      && (e.table != table ==> m == Mutex(Some(t), {}))
      && (match e.event
          case Silent => e.table == table
          case Inserted(k) => k == th.op.key && k !in table.Values && e.table.Values == table.Values + {k}
          case Erased(k) => k == th.op.key && k in table.Values && e.table.Values == table.Values - {k})
  {
    if th.pc == Erase {
      var e := Act(m, table, t, th, ch).value;
      forall k ensures k in e.table.Values <==> k in table.Values - {th.op.key} {
        if k in table.Values && k != th.op.key {
          var p :| p in table && table[p] == k;
          assert e.table[p] == k;
        }
      }
    }
  }

  /** Another thread of the same submap is none the worse for a step of t. */
  lemma OtherKept<K>(m: Mutex, table: Table<K>, m': Mutex, table': Table<K>, t: nat, u: nat, th: Thread<K>)
    requires th.Busy? && ThreadOk(m, table, u, th) && u != t
    requires (m'.owner == Some(u) <==> m.owner == Some(u)) && (u in m'.shared <==> u in m.shared)
    requires table' != table ==> m == Mutex(Some(t), {})
    ensures ThreadOk(m', table', u, th)
  {
  }

  lemma StepKeepsInv<K(!new)>(c: Config<K>, s: State<K>, t: nat, ch: Choice<K>)
    requires Inv(c, s) && Next(c, s, t, ch).Some?
    ensures Inv(c, Next(c, s, t, ch).value)
  {
    hide Act, ThreadOk, OnePlaceEach, MutexOk;
    var s' := Next(c, s, t, ch).value;
    assert ThreadIn(c, s, t);
    if s.threads[t].Idle? {
      BeginKeepsInv(c, s, t, ch.op);
    } else {
      var i := c.home(s.threads[t].op.key);
      assert SubmapOk(c, s, i);
      ActKeeps(s.mutexes[i], s.tables[i], t, s.threads[t], ch);
      var e := Act(s.mutexes[i], s.tables[i], t, s.threads[t], ch).value;
      forall j | 0 <= j < c.count ensures SubmapOk(c, s', j) {
        assert SubmapOk(c, s, j);
        if j == i {
          assert TableOk(c, e.table, i);
          forall u: nat | u >= |s.threads| ensures Outside(e.m, u) {
            assert Outside(s.mutexes[i], u);
          }
        }
      }
      forall u | 0 <= u < |s.threads| ensures ThreadIn(c, s', u) {
        assert ThreadIn(c, s, u);
        if u != t && s.threads[u].Busy? && c.home(s.threads[u].op.key) == i {
          OtherKept(s.mutexes[i], s.tables[i], e.m, e.table, t, u, s.threads[u]);
        }
      }
      forall k ensures Balanced(c, s', k) {
        assert Balanced(c, s, k);
      }
    }
  }

  lemma BeginKeepsInv<K(!new)>(c: Config<K>, s: State<K>, t: nat, op: Op<K>)
    requires Inv(c, s) && t < |s.threads| && s.threads[t].Idle?
    ensures Inv(c, s.(threads := s.threads[t := Busy(op, Enter, None, Lock(false, false), false)]))
  {
    var s' := s.(threads := s.threads[t := Busy(op, Enter, None, Lock(false, false), false)]);
    hide OnePlaceEach, MutexOk;
    forall j | 0 <= j < c.count ensures SubmapOk(c, s', j) {
      assert SubmapOk(c, s, j);
    }
    forall u | 0 <= u < |s.threads| ensures ThreadIn(c, s', u) {
      assert ThreadIn(c, s, u);
    }
    forall k ensures Balanced(c, s', k) {
      assert Balanced(c, s, k);
    }
  }

  // ---------- runs ----------

  /** The states of a run: each follows from the one before by a step of some thread. */
  ghost predicate IsRun<K(!new)>(c: Config<K>, run: seq<State<K>>) {
    && run != [] && Initial(c, run[0])
    && forall n :: 0 < n < |run| ==> StepOf(c, run[n - 1], run[n])
  }

  ghost predicate StepOf<K(!new)>(c: Config<K>, s: State<K>, s': State<K>) {
    && c.Valid() && |s.mutexes| == |s.tables| == c.count
    && exists t, ch :: Next(c, s, t, ch) == Some(s')
  }

  lemma {:induction false} RunKeepsInv<K(!new)>(c: Config<K>, run: seq<State<K>>, n: nat)
    requires IsRun(c, run) && n < |run|
    ensures Inv(c, run[n])
  {
    if n == 0 {
      InitialInv(c, run[0]);
    } else {
      RunKeepsInv(c, run, n - 1);
      assert StepOf(c, run[n - 1], run[n]);
      var t, ch :| Next(c, run[n - 1], t, ch) == Some(run[n]);
      StepKeepsInv(c, run[n - 1], t, ch);
    }
  }

  /** In every run: a thread that runs the callback of `erase_if`, or erases, is the only holder of
      the lock of its submap, and the slot it is about to use holds the key. */
  lemma EraseIsProtected<K(!new)>(c: Config<K>, run: seq<State<K>>, n: nat, t: nat)
    requires IsRun(c, run) && n < |run| && t < |run[n].threads|
    requires var th := run[n].threads[t]; th.Busy? && th.op.EraseIf? && (th.pc == Callback || th.pc == Erase)
    ensures Inv(c, run[n])
    ensures var th := run[n].threads[t];
      var i := c.home(th.op.key);
      && run[n].mutexes[i] == Mutex(Some(t), {})
      && th.it.Some? && th.it.value in run[n].tables[i] && run[n].tables[i][th.it.value] == th.op.key
  {
    RunKeepsInv(c, run, n);
    var th := run[n].threads[t];
    assert ThreadIn(c, run[n], t);
    assert SubmapOk(c, run[n], c.home(th.op.key));
  }

  /** In every run a key has been erased at most as often as it has been inserted, and exactly as
      often when it is absent. */
  lemma ErasesBounded<K(!new)>(c: Config<K>, run: seq<State<K>>, n: nat, k: K)
    requires IsRun(c, run) && n < |run|
    ensures run[n].erases[k] <= run[n].inserts[k] <= run[n].erases[k] + 1
    ensures run[n].inserts[k] == run[n].erases[k] <==> forall i :: 0 <= i < |run[n].tables| ==>
      k !in run[n].tables[i].Values
  {
    RunKeepsInv(c, run, n);
    var s := run[n];
    assert Balanced(c, s, k);
    forall i | 0 <= i < |s.tables| && k in s.tables[i].Values ensures i == c.home(k) {
      assert SubmapOk(c, s, i);
    }
  }

  /** While a thread holds the lock of a submap, in whatever way, no other thread changes it. */
  lemma HeldTableIsStable<K(!new)>(c: Config<K>, run: seq<State<K>>, n: nat, t: nat, u: nat, ch: Choice<K>)
    requires IsRun(c, run) && n < |run| && t < |run[n].threads| && u != t
    requires run[n].threads[t].Busy? && (run[n].threads[t].m.locked || run[n].threads[t].m.lockedShared)
    requires c.Valid() && |run[n].mutexes| == |run[n].tables| == c.count && Next(c, run[n], u, ch).Some?
    ensures var i := c.home(run[n].threads[t].op.key);
      i < c.count && Next(c, run[n], u, ch).value.tables[i] == run[n].tables[i]
  {
    RunKeepsInv(c, run, n);
    OthersLeave(c, run[n], t, u, ch);
  }

  lemma OthersLeave<K(!new)>(c: Config<K>, s: State<K>, t: nat, u: nat, ch: Choice<K>)
    requires Inv(c, s) && t < |s.threads| && u != t
    requires s.threads[t].Busy? && (s.threads[t].m.locked || s.threads[t].m.lockedShared)
    requires Next(c, s, u, ch).Some?
    ensures Next(c, s, u, ch).value.tables[c.home(s.threads[t].op.key)] == s.tables[c.home(s.threads[t].op.key)]
  {
    assert ThreadIn(c, s, t) && ThreadIn(c, s, u);
    if s.threads[u].Busy? {
      var i := c.home(s.threads[u].op.key);
      assert SubmapOk(c, s, i);
      hide Act, Inv, OnePlaceEach, LockIs;
      ActKeeps(s.mutexes[i], s.tables[i], u, s.threads[u], ch);
    }
  }

  // ---------- what a call does ----------

  datatype Move<K> = Move(t: nat, ch: Choice<K>)

  /** A run together with the moves that make it. */
  ghost predicate IsTrace<K(!new)>(c: Config<K>, run: seq<State<K>>, moves: seq<Move<K>>) {
    && |run| == |moves| + 1 && Initial(c, run[0])
    && forall n :: 0 <= n < |moves| ==> Moved(c, run[n], moves[n], run[n + 1])
  }

  ghost predicate Moved<K(!new)>(c: Config<K>, s: State<K>, mv: Move<K>, s': State<K>) {
    c.Valid() && |s.mutexes| == |s.tables| == c.count && Next(c, s, mv.t, mv.ch) == Some(s')
  }

  lemma TraceIsRun<K(!new)>(c: Config<K>, run: seq<State<K>>, moves: seq<Move<K>>)
    requires IsTrace(c, run, moves)
    ensures IsRun(c, run)
  {
    hide Next, Initial;
    forall n | 0 < n < |run| ensures StepOf(c, run[n - 1], run[n]) {
      assert Moved(c, run[n - 1], moves[n - 1], run[n]);
    }
  }

  /** Every run has such moves. */
  lemma {:induction false} RunHasMoves<K(!new)>(c: Config<K>, run: seq<State<K>>) returns (moves: seq<Move<K>>)
    requires IsRun(c, run)
    ensures IsTrace(c, run, moves)
    decreases |run|
  {
    hide Next, Initial;
    var m := |run| - 1;
    if m == 0 {
      return [];
    }
    forall n | 0 < n < m ensures StepOf(c, run[..m][n - 1], run[..m][n]) {
      assert StepOf(c, run[n - 1], run[n]);
    }
    moves := RunHasMoves(c, run[..m]);
    assert StepOf(c, run[m - 1], run[m]);
    var t, ch :| Next(c, run[m - 1], t, ch) == Some(run[m]);
    forall n | 0 <= n < m ensures Moved(c, run[n], (moves + [Move(t, ch)])[n], run[n + 1]) {
      if n < m - 1 {
        assert Moved(c, run[..m][n], moves[n], run[..m][n + 1]);
      }
    }
    moves := moves + [Move(t, ch)];
  }

  /** What the present or last call of a thread has done: how often it has called back, with how many
      answers of true to `erase_if`, and what it has erased and inserted. */
  datatype Tally = Tally(asked: nat, yes: nat, erased: nat, inserted: nat)

  const NOTHING := Tally(0, 0, 0, 0)

  ghost function EventOf<K(!new)>(c: Config<K>, s: State<K>, mv: Move<K>): Event<K>
    requires c.Valid() && |s.mutexes| == |s.tables| == c.count && mv.t < |s.threads|
  {
    if s.threads[mv.t].Idle? then Silent
    else
      var i := c.home(s.threads[mv.t].op.key);
      var e := Act(s.mutexes[i], s.tables[i], mv.t, s.threads[mv.t], mv.ch);
      if e.Some? then e.value.event else Silent
  }

  /** The tally after a step of the thread itself, which starts again with each call. */
  function Counted<K(==)>(y: Tally, th: Thread<K>, ch: Choice<K>, ev: Event<K>): Tally {
    if th.Idle? then NOTHING
    else
      Tally(y.asked + if th.pc == Callback then 1 else 0,
            y.yes + if th.pc == Callback && th.op.EraseIf? && ch == Answer(true) then 1 else 0,
            y.erased + if ev.Erased? then 1 else 0,
            y.inserted + if ev.Inserted? then 1 else 0)
  }

  ghost function Tallied<K(!new)>(c: Config<K>, run: seq<State<K>>, moves: seq<Move<K>>, t: nat, n: nat): Tally
    requires IsTrace(c, run, moves) && n < |run|
  {
    if n == 0 then NOTHING
    else
      var y := Tallied(c, run, moves, t, n - 1);
      assert Moved(c, run[n - 1], moves[n - 1], run[n]);
      if moves[n - 1].t == t
      then Counted(y, run[n - 1].threads[t], moves[n - 1].ch, EventOf(c, run[n - 1], moves[n - 1]))
      else y
  }

  /** At the end of a call: `erase_if` has not called back because the key is not there, or it was
      told to keep the key and has, or it was told to erase the key and has, once; the result says
      which. An insertion has inserted the key or has found it; `if_contains` has called back or has
      not found it. */
  ghost predicate Finished<K>(table: Table<K>, th: Thread<K>, y: Tally)
    requires th.Busy?
  {
    var there := th.op.key in table.Values;
    match th.op
    case EraseIf(_, _) =>
      || (y == NOTHING && !th.result && !there)
      || (y == Tally(1, 0, 0, 0) && !th.result && there)
      || (y == Tally(1, 1, 1, 0) && th.result && !there)
    case Emplace(_) => there && y == Tally(0, 0, 0, if th.result then 1 else 0)
    case IfContains(_) => th.result == there && y == Tally(if there then 1 else 0, 0, 0, 0)
  }

  /** The same at each point of a call. */
  ghost predicate CallOk<K>(table: Table<K>, th: Thread<K>, y: Tally)
    requires th.Busy?
  {
    if th.pc == Leave then Finished(table, th, y)
    else !th.result && y == if th.pc == Erase then Tally(1, 1, 0, 0) else NOTHING
  }

  lemma ActCounts<K>(m: Mutex, table: Table<K>, t: nat, th: Thread<K>, ch: Choice<K>, y: Tally)
    requires th.Busy? && MutexOk(m) && OnePlaceEach(table) && ThreadOk(m, table, t, th) && CallOk(table, th, y)
    requires Act(m, table, t, th, ch).Some?
    ensures var e := Act(m, table, t, th, ch).value;
      e.th.Busy? ==> CallOk(e.table, e.th, Counted(y, th, ch, e.event))
  {
    ActKeeps(m, table, t, th, ch);
  }

  /** A step of another thread does not touch a finished call: the lock is still held. */
  lemma OtherCallKept<K>(m: Mutex, table: Table<K>, table': Table<K>, t: nat, u: nat, th: Thread<K>, y: Tally)
    requires th.Busy? && ThreadOk(m, table, u, th) && u != t && CallOk(table, th, y)
    requires table' != table ==> m == Mutex(Some(t), {})
    ensures CallOk(table', th, y)
  {
  }

  lemma MoveKeepsCall<K(!new)>(c: Config<K>, s: State<K>, mv: Move<K>, t: nat, y: Tally)
    requires Inv(c, s) && t < |s.threads| && Next(c, s, mv.t, mv.ch).Some?
    requires s.threads[t].Busy? ==> CallOk(s.tables[c.home(s.threads[t].op.key)], s.threads[t], y)
    ensures var s' := Next(c, s, mv.t, mv.ch).value;
      var y' := if mv.t == t then Counted(y, s.threads[t], mv.ch, EventOf(c, s, mv)) else y;
      s'.threads[t].Busy? ==> CallOk(s'.tables[c.home(s'.threads[t].op.key)], s'.threads[t], y')
  {
    hide Act, ThreadOk, OnePlaceEach, MutexOk, Finished;
    assert ThreadIn(c, s, t) && ThreadIn(c, s, mv.t);
    if s.threads[mv.t].Busy? {
      var i := c.home(s.threads[mv.t].op.key);
      assert SubmapOk(c, s, i);
      hide CallOk;
      ActKeeps(s.mutexes[i], s.tables[i], mv.t, s.threads[mv.t], mv.ch);
      if mv.t == t {
        ActCounts(s.mutexes[i], s.tables[i], t, s.threads[t], mv.ch, y);
      } else if s.threads[t].Busy? && c.home(s.threads[t].op.key) == i {
        var e := Act(s.mutexes[i], s.tables[i], mv.t, s.threads[mv.t], mv.ch).value;
        OtherCallKept(s.mutexes[i], s.tables[i], e.table, mv.t, t, s.threads[t], y);
      }
    }
  }

  /** In every run each call is at each point as far as its callbacks and searches allow; at its end
      it has done what they say. */
  lemma {:induction false} CallsAreOk<K(!new)>(c: Config<K>, run: seq<State<K>>, moves: seq<Move<K>>, t: nat, n: nat)
    requires IsTrace(c, run, moves) && n < |run| && t < |run[n].threads| && run[n].threads[t].Busy?
    ensures Inv(c, run[n])
    ensures CallOk(run[n].tables[c.home(run[n].threads[t].op.key)], run[n].threads[t], Tallied(c, run, moves, t, n))
  {
    TraceIsRun(c, run, moves);
    RunKeepsInv(c, run, n);
    if n > 0 {
      hide Act, Inv, CallOk, EventOf, Initial, Counted;
      var s, mv := run[n - 1], moves[n - 1];
      assert Moved(c, s, mv, run[n]);
      RunKeepsInv(c, run, n - 1);
      if s.threads[t].Busy? {
        CallsAreOk(c, run, moves, t, n - 1);
      }
      MoveKeepsCall(c, s, mv, t, Tallied(c, run, moves, t, n - 1));
    }
  }

  /** In every run, whenever a call is about to leave: it has done what its answers and its last
      search say, and nothing else. */
  lemma CallsEndAsTold<K(!new)>(c: Config<K>, run: seq<State<K>>, moves: seq<Move<K>>, t: nat, n: nat)
    requires IsTrace(c, run, moves) && n < |run| && t < |run[n].threads|
    requires run[n].threads[t].Busy? && run[n].threads[t].pc == Leave
    ensures Inv(c, run[n])
    ensures Finished(run[n].tables[c.home(run[n].threads[t].op.key)], run[n].threads[t], Tallied(c, run, moves, t, n))
  {
    CallsAreOk(c, run, moves, t, n);
  }

  /** In every run a key is erased only by a call of `erase_if` for it whose callback has answered
      true, and which has not erased before; and only such a step takes a key out of a submap. */
  lemma ErasedAsTold<K(!new)>(c: Config<K>, run: seq<State<K>>, moves: seq<Move<K>>, n: nat)
    requires IsTrace(c, run, moves) && n < |moves|
    ensures Moved(c, run[n], moves[n], run[n + 1]) && moves[n].t < |run[n].threads|
    ensures EventOf(c, run[n], moves[n]).Erased? ==>
      var th, y := run[n].threads[moves[n].t], Tallied(c, run, moves, moves[n].t, n);
      th.Busy? && th.op.EraseIf? && th.op.key == EventOf(c, run[n], moves[n]).key && y == Tally(1, 1, 0, 0)
    ensures forall i :: 0 <= i < c.count ==>
      run[n + 1].tables[i].Values == AfterEvent(c, run[n].tables[i].Values, i, EventOf(c, run[n], moves[n]))
    ensures EventOf(c, run[n], moves[n]).Silent? ==> run[n + 1].tables == run[n].tables
  {
    hide Act, Inv, CallOk, Initial, Counted, Tallied, ThreadOk, OnePlaceEach, MutexOk, LockIs;
    TraceIsRun(c, run, moves);
    var s, mv := run[n], moves[n];
    assert Moved(c, s, mv, run[n + 1]);
    if s.threads[mv.t].Busy? {
      CallsAreOk(c, run, moves, mv.t, n);
      EventKeeps(c, s, mv, Tallied(c, run, moves, mv.t, n));
    }
  }

  ghost function AfterEvent<K(!new)>(c: Config<K>, keys: set<K>, i: nat, ev: Event<K>): set<K> {
    match ev
    case Silent => keys
    case Inserted(k) => if c.home(k) == i then keys + {k} else keys
    case Erased(k) => if c.home(k) == i then keys - {k} else keys
  }

  lemma EventKeeps<K(!new)>(c: Config<K>, s: State<K>, mv: Move<K>, y: Tally)
    requires Inv(c, s) && Next(c, s, mv.t, mv.ch).Some? && s.threads[mv.t].Busy?
    requires CallOk(s.tables[c.home(s.threads[mv.t].op.key)], s.threads[mv.t], y)
    ensures var s', th, ev := Next(c, s, mv.t, mv.ch).value, s.threads[mv.t], EventOf(c, s, mv);
      && (ev.Erased? ==> th.op.EraseIf? && ev.key == th.op.key && y == Tally(1, 1, 0, 0))
      && (ev.Silent? ==> s'.tables == s.tables)
      && |s'.tables| == c.count
      && forall i :: 0 <= i < c.count ==> s'.tables[i].Values == AfterEvent(c, s.tables[i].Values, i, ev)
  {
    hide ThreadOk, OnePlaceEach, MutexOk, Act, CallOk;
    var th := s.threads[mv.t];
    var i := c.home(th.op.key);
    assert ThreadIn(c, s, mv.t) && SubmapOk(c, s, i);
    ActKeeps(s.mutexes[i], s.tables[i], mv.t, th, mv.ch);
    ErasesAtErase(s.mutexes[i], s.tables[i], mv.t, th, mv.ch, y);
  }

  lemma ErasesAtErase<K>(m: Mutex, table: Table<K>, t: nat, th: Thread<K>, ch: Choice<K>, y: Tally)
    requires th.Busy? && ThreadOk(m, table, t, th) && CallOk(table, th, y) && Act(m, table, t, th, ch).Some?
    ensures Act(m, table, t, th, ch).value.event.Erased? ==> th.op.EraseIf? && y == Tally(1, 1, 0, 0)
  {
  }

  // ---------- why the second search, and why not all wait ----------

  ghost predicate Steps<K(!new)>(c: Config<K>, run: seq<State<K>>) {
    forall n :: 0 < n < |run| ==> StepOf(c, run[n - 1], run[n])
  }

  /** One step, put at the end of a run. */
  lemma Extend<K(!new)>(c: Config<K>, run: seq<State<K>>, t: nat, ch: Choice<K>) returns (more: seq<State<K>>)
    requires run != [] && Steps(c, run) && Inv(c, run[|run| - 1])
    requires Next(c, run[|run| - 1], t, ch).Some?
    ensures more == run + [Next(c, run[|run| - 1], t, ch).value]
    ensures Steps(c, more) && Inv(c, more[|more| - 1])
  {
    HasShape(c, run[|run| - 1]);
    hide Next, Inv, Initial;
    StepKeepsInv(c, run[|run| - 1], t, ch);
    more := run + [Next(c, run[|run| - 1], t, ch).value];
    assert StepOf(c, more[|run| - 1], more[|run|]);
    forall n | 0 < n < |more| ensures StepOf(c, more[n - 1], more[n]) {
      if n < |run| {
        assert StepOf(c, run[n - 1], run[n]);
      }
    }
  }

  lemma HasShape<K(!new)>(c: Config<K>, s: State<K>)
    requires Inv(c, s)
    ensures c.Valid() && |s.mutexes| == |s.tables| == c.count
  {
  }

  /** The thread t shares a lock alone and is about to upgrade it. */
  ghost predicate AboutToUpgrade<K(!new)>(c: Config<K>, s: State<K>, t: nat) {
    && c.Valid() && |s.mutexes| == c.count && t < |s.threads|
    && s.threads[t].Busy? && s.threads[t].pc == Switch && s.threads[t].m.lockedShared
    && s.mutexes[c.home(s.threads[t].op.key)] == Mutex(None, {t})
  }

  /** The slot that t has found does not hold anything any more when t gets the upgraded lock. */
  ghost predicate IsStale<K(!new)>(c: Config<K>, s: State<K>, t: nat, th: Thread<K>)
    requires th.Busy?
  {
    && c.Valid() && |s.tables| == c.count && t < |s.threads|
    && s.threads[t] == th.(pc := FindAgain, m := Lock(true, false))
    && th.it.Some? && th.it.value !in s.tables[c.home(th.op.key)]
  }

  /** Wherever a thread that shares a lock alone is about to upgrade it, a second thread can erase
      the key first: then the slot found under the shared lock does not hold the key any more. */
  lemma FirstSearchGoesStale<K(!new)>(c: Config<K>, s: State<K>, t: nat, u: nat) returns (run: seq<State<K>>)
    requires Inv(c, s) && AboutToUpgrade(c, s, t) && u < |s.threads| && u != t && s.threads[u].Idle?
    ensures |run| > 0 && run[0] == s && Steps(c, run) && IsStale(c, run[|run| - 1], t, s.threads[t])
  {
    run := Overtaken(c, [s], t, u);
  }

  /** That happens from the start: a key is inserted, one thread looks for it to erase it and
      another one erases it before. */
  lemma RaceIsReachable<K(!new)>(c: Config<K>, s: State<K>, t: nat, u: nat, k: K) returns (run: seq<State<K>>)
    requires Initial(c, s) && t < |s.threads| && u < |s.threads| && u != t
    ensures IsRun(c, run) && run[0] == s
    ensures exists n: nat, it ::
      var th := Busy(EraseIf(ReadWrite, k), Switch, Some(it), Lock(false, true), false);
      n < |run| && AboutToUpgrade(c, run[n], t) && run[n].threads[t] == th && IsStale(c, run[|run| - 1], t, th)
  {
    InitialInv(c, s);
    hide Inv, Next, Act;
    run := Inserts(c, [s], u, k);
    run := Searches(c, run, t, k, 0);
    var n: nat, th := |run| - 1, Busy(EraseIf(ReadWrite, k), Switch, Some(0), Lock(false, true), false);
    ghost var middle := run[n];
    run := Overtaken(c, run, t, u);
    assert run[n] == middle && AboutToUpgrade(c, run[n], t) && run[n].threads[t] == th;
  }

  lemma Overtaken<K(!new)>(c: Config<K>, run: seq<State<K>>, t: nat, u: nat) returns (more: seq<State<K>>)
    requires run != [] && Steps(c, run) && Inv(c, run[|run| - 1]) && AboutToUpgrade(c, run[|run| - 1], t)
    requires u < |run[|run| - 1].threads| && u != t && run[|run| - 1].threads[u].Idle?
    ensures |more| > |run| && more[..|run|] == run && Steps(c, more)
    ensures IsStale(c, more[|more| - 1], t, run[|run| - 1].threads[t])
  {
    hide Inv, Steps, OnePlaceEach, Next, Act;
    var s := run[|run| - 1];
    var th := s.threads[t];
    var k := th.op.key;
    var i := c.home(k);
    FoundSlot(c, s, t);
    var p, table, free := th.it.value, s.tables[i], Mutex(None, {});
    ActSwitch(table, t, th);
    more := Go(c, run, t, Nothing, th, Effect(free, table, th.(pc := Relock, m := Lock(false, false)), Silent));
    more := Erases(c, more, u, k, p);
    ActRelock(table - {p}, t, th.(pc := Relock, m := Lock(false, false)));
    more := Go(c, more, t, Nothing, th.(pc := Relock, m := Lock(false, false)),
               Effect(Mutex(Some(t), {}), table - {p}, th.(pc := FindAgain, m := Lock(true, false)), Silent));
  }

  /** An idle thread inserts the key into an empty submap. */
  lemma Inserts<K(!new)>(c: Config<K>, run: seq<State<K>>, u: nat, k: K) returns (more: seq<State<K>>)
    requires run != [] && Steps(c, run) && Inv(c, run[|run| - 1])
    requires var s := run[|run| - 1];
      && c.Valid() && |s.mutexes| == |s.tables| == c.count && u < |s.threads| && s.threads[u].Idle?
      && s.mutexes[c.home(k)] == Mutex(None, {}) && s.tables[c.home(k)] == map[]
    ensures |more| > |run| && more[..|run|] == run && Steps(c, more) && Inv(c, more[|more| - 1])
    ensures var s, s' := run[|run| - 1], more[|more| - 1];
      && |s'.mutexes| == |s'.tables| == c.count && s'.threads == s.threads
      && s'.mutexes[c.home(k)] == Mutex(None, {}) && s'.tables[c.home(k)] == map[0 := k]
  {
    hide Inv, Steps, Next, Act;
    var s := run[|run| - 1];
    var th := Busy(Op.Emplace(k), Enter, None, Lock(false, false), false);
    var free, mine := Mutex(None, {}), Mutex(Some(u), {});
    BeginIs(c, s, u, Op.Emplace(k));
    more := Extend(c, run, u, Begin(Op.Emplace(k)));
    InserterActs(u, th);
    var th2 := th.(m := Lock(true, false));
    more := Go(c, more, u, Nothing, th, Effect(mine, map[], th2.(pc := Find), Silent));
    more := Go(c, more, u, Nothing, th2.(pc := Find), Effect(mine, map[], th2.(pc := Insert), Silent));
    assert more[..|run|] == run;
    more := Go(c, more, u, Layout(map[0 := k]), th2.(pc := Insert),
               Effect(mine, map[0 := k], th2.(pc := Leave, result := true), Inserted(k)));
    more := Go(c, more, u, Nothing, th2.(pc := Leave, result := true), Effect(free, map[0 := k], Idle, Silent));
  }

  lemma InserterActs<K>(u: nat, th: Thread<K>)
    requires th.Busy? && th.pc == Enter && th.op.Emplace? && th.m == Lock(false, false) && th.it == None
    ensures var free, mine, th2 := Mutex(None, {}), Mutex(Some(u), {}), th.(m := Lock(true, false));
      var full: Table<K> := map[0 := th.op.key];
      && Act(free, map[], u, th, Nothing) == Some(Effect(mine, map[], th2.(pc := Find), Silent))
      && Act(mine, map[], u, th2.(pc := Find), Nothing) == Some(Effect(mine, map[], th2.(pc := Insert), Silent))
      && Act(mine, map[], u, th2.(pc := Insert), Layout(full))
         == Some(Effect(mine, full, th2.(pc := Leave, result := true), Inserted(th.op.key)))
      && Act(mine, full, u, th2.(pc := Leave, result := true), Nothing) == Some(Effect(free, full, Idle, Silent))
  {
    var full: Table<K> := map[0 := th.op.key];
    assert full[0] == th.op.key;
    assert Rearranged(map[], full, th.op.key);
  }

  /** An idle thread looks for a stored key under a shared lock, to erase it. */
  lemma Searches<K(!new)>(c: Config<K>, run: seq<State<K>>, t: nat, k: K, p: nat) returns (more: seq<State<K>>)
    requires run != [] && Steps(c, run) && Inv(c, run[|run| - 1])
    requires var s := run[|run| - 1];
      && c.Valid() && |s.mutexes| == |s.tables| == c.count && t < |s.threads| && s.threads[t].Idle?
      && s.mutexes[c.home(k)] == Mutex(None, {}) && s.tables[c.home(k)] == map[p := k]
    ensures |more| > |run| && more[..|run|] == run && Steps(c, more) && Inv(c, more[|more| - 1])
    ensures AboutToUpgrade(c, more[|more| - 1], t)
    ensures more[|more| - 1].threads
      == run[|run| - 1].threads[t := Busy(EraseIf(ReadWrite, k), Switch, Some(p), Lock(false, true), false)]
  {
    hide Inv, Steps, Next, Act;
    var s := run[|run| - 1];
    var th := Busy(EraseIf(ReadWrite, k), Enter, None, Lock(false, false), false);
    BeginIs(c, s, t, th.op);
    more := Extend(c, run, t, Begin(th.op));
    SearcherActs(t, th, p);
    var th2 := th.(m := Lock(false, true));
    more := Go(c, more, t, Nothing, th, Effect(Mutex(None, {t}), map[p := k], th2.(pc := Find), Silent));
    more := Go(c, more, t, Nothing, th2.(pc := Find),
               Effect(Mutex(None, {t}), map[p := k], th2.(pc := Switch, it := Some(p)), Silent));
  }

  lemma SearcherActs<K>(t: nat, th: Thread<K>, p: nat)
    requires th.Busy? && th.pc == Enter && th.op.EraseIf? && th.op.kind.ReadWrite? && th.m == Lock(false, false)
    ensures var free, mine, th2 := Mutex(None, {}), Mutex(None, {t}), th.(m := Lock(false, true));
      var full: Table<K> := map[p := th.op.key];
      && Act(free, full, t, th, Nothing) == Some(Effect(mine, full, th2.(pc := Find), Silent))
      && Act(mine, full, t, th2.(pc := Find), Nothing)
         == Some(Effect(mine, full, th2.(pc := Switch, it := Some(p)), Silent))
  {
    var full: Table<K> := map[p := th.op.key];
    assert full[p] == th.op.key;
    var q := FindSlot(full, th.op.key);
    assert {} + {t} == {t};
  }

  lemma ActSwitch<K>(table: Table<K>, t: nat, th: Thread<K>)
    requires th.Busy? && th.pc == Switch && th.m == Lock(false, true)
    ensures Act(Mutex(None, {t}), table, t, th, Nothing)
      == Some(Effect(Mutex(None, {}), table, th.(pc := Relock, m := Lock(false, false)), Silent))
  {
    assert {t} - {t} == {};
  }

  lemma ActRelock<K>(table: Table<K>, t: nat, th: Thread<K>)
    requires th.Busy? && th.pc == Relock && th.m == Lock(false, false)
    ensures Act(Mutex(None, {}), table, t, th, Nothing)
      == Some(Effect(Mutex(Some(t), {}), table, th.(pc := FindAgain, m := Lock(true, false)), Silent))
  {
  }

  /** An idle thread comes and erases the key, when the lock is free. */
  lemma Erases<K(!new)>(c: Config<K>, run: seq<State<K>>, u: nat, k: K, p: nat) returns (more: seq<State<K>>)
    requires run != [] && Steps(c, run) && Inv(c, run[|run| - 1])
    requires var s := run[|run| - 1];
      && c.Valid() && |s.mutexes| == |s.tables| == c.count && u < |s.threads| && s.threads[u].Idle?
      && s.mutexes[c.home(k)] == Mutex(None, {})
      && p in s.tables[c.home(k)] && s.tables[c.home(k)][p] == k && OnePlaceEach(s.tables[c.home(k)])
    ensures |more| > |run| && more[..|run|] == run && Steps(c, more) && Inv(c, more[|more| - 1])
    ensures var s, s' := run[|run| - 1], more[|more| - 1];
      && |s'.mutexes| == |s'.tables| == c.count
      && s'.mutexes[c.home(k)] == Mutex(None, {}) && s'.tables[c.home(k)] == s.tables[c.home(k)] - {p}
      && |s'.threads| == |s.threads| && forall v :: 0 <= v < |s.threads| && v != u ==> s'.threads[v] == s.threads[v]
  {
    hide Inv, Steps, OnePlaceEach, Next, Act;
    var s := run[|run| - 1];
    var table := s.tables[c.home(k)];
    var op := EraseIf(Write, k);
    var th := Busy(op, Enter, None, Lock(false, false), false);
    var free, mine := Mutex(None, {}), Mutex(Some(u), {});
    BeginIs(c, s, u, op);
    more := Extend(c, run, u, Begin(op));
    EraserActs(table, u, th, p);
    var th2 := th.(pc := Find, m := Lock(true, false));
    more := Go(c, more, u, Nothing, th, Effect(mine, table, th2, Silent));
    more := Go(c, more, u, Nothing, th2, Effect(mine, table, th2.(pc := Switch, it := Some(p)), Silent));
    assert more[..|run|] == run;
    more := Go(c, more, u, Nothing, th2.(pc := Switch, it := Some(p)),
      Effect(mine, table, th2.(pc := Callback, it := Some(p)), Silent));
    assert more[..|run|] == run;
    more := Go(c, more, u, Answer(true), th2.(pc := Callback, it := Some(p)),
      Effect(mine, table, th2.(pc := Erase, it := Some(p)), Silent));
    more := Go(c, more, u, Nothing, th2.(pc := Erase, it := Some(p)),
               Effect(mine, table - {p}, th2.(pc := Leave, it := Some(p), result := true), Erased(k)));
    assert more[..|run|] == run;
    more := Go(c, more, u, Nothing, th2.(pc := Leave, it := Some(p), result := true),
      Effect(free, table - {p}, Idle, Silent));
    assert more[..|run|] == run;
  }

  lemma BeginIs<K(!new)>(c: Config<K>, s: State<K>, u: nat, op: Op<K>)
    requires c.Valid() && |s.mutexes| == |s.tables| == c.count && u < |s.threads| && s.threads[u].Idle?
    ensures Next(c, s, u, Begin(op))
      == Some(s.(threads := s.threads[u := Busy(op, Enter, None, Lock(false, false), false)]))
  {
  }

  lemma EraserActs<K>(table: Table<K>, u: nat, th: Thread<K>, p: nat)
    requires th.Busy? && th.pc == Enter && th.op.EraseIf? && th.op.kind.Write? && th.m == Lock(false, false)
    requires OnePlaceEach(table) && p in table && table[p] == th.op.key
    ensures var free, mine := Mutex(None, {}), Mutex(Some(u), {});
      var th2 := th.(pc := Find, m := Lock(true, false));
      var th3 := th2.(it := Some(p));
      && Act(free, table, u, th, Nothing) == Some(Effect(mine, table, th2, Silent))
      && Act(mine, table, u, th2, Nothing) == Some(Effect(mine, table, th3.(pc := Switch), Silent))
      && Act(mine, table, u, th3.(pc := Switch), Nothing) == Some(Effect(mine, table, th3.(pc := Callback), Silent))
      && Act(mine, table, u, th3.(pc := Callback), Answer(true)) == Some(Effect(mine, table, th3.(pc := Erase), Silent))
      && Act(mine, table, u, th3.(pc := Erase), Nothing)
         == Some(Effect(mine, table - {p}, th3.(pc := Leave, result := true), Erased(th.op.key)))
      && Act(mine, table - {p}, u, th3.(pc := Leave, result := true), Nothing)
         == Some(Effect(free, table - {p}, Idle, Silent))
  {
    var q := FindSlot(table, th.op.key);
    assert q == Some(p);
  }

  /** One step of a busy thread, put at the end of a run. */
  lemma Go<K(!new)>(c: Config<K>, run: seq<State<K>>, t: nat, ch: Choice<K>, th: Thread<K>, e: Effect<K>)
      returns (more: seq<State<K>>)
    requires run != [] && Steps(c, run) && Inv(c, run[|run| - 1])
    requires var s := run[|run| - 1];
      && c.Valid() && |s.mutexes| == |s.tables| == c.count && t < |s.threads| && s.threads[t] == th && th.Busy?
      && Act(s.mutexes[c.home(th.op.key)], s.tables[c.home(th.op.key)], t, th, ch) == Some(e)
    ensures |more| == |run| + 1 && more[..|run|] == run && Steps(c, more) && Inv(c, more[|run|])
    ensures var s, s', i := run[|run| - 1], more[|run|], c.home(th.op.key);
      && |s'.mutexes| == |s'.tables| == c.count && s'.mutexes[i] == e.m && s'.tables[i] == e.table
      && s'.threads == s.threads[t := e.th]
  {
    hide Inv, Steps, Act;
    more := Extend(c, run, t, ch);
  }

  lemma FoundSlot<K(!new)>(c: Config<K>, s: State<K>, t: nat)
    requires Inv(c, s) && t < |s.threads| && s.threads[t].Busy? && s.threads[t].pc == Switch
    ensures var th := s.threads[t];
      var i := c.home(th.op.key);
      && c.Valid() && |s.mutexes| == |s.tables| == c.count
      && th.op.EraseIf? && th.it.Some? && th.it.value in s.tables[i] && s.tables[i][th.it.value] == th.op.key
      && OnePlaceEach(s.tables[i]) && (th.m.lockedShared ==> th.m == Lock(false, true))
  {
    assert ThreadIn(c, s, t);
    assert SubmapOk(c, s, c.home(s.threads[t].op.key));
  }

  lemma {:induction false} FreshSlot(s: set<nat>) returns (x: nat)
    ensures forall y :: y in s ==> y < x
    decreases |s|
  {
    x := 0;
    if s != {} {
      var y :| y in s;
      x := FreshSlot(s - {y});
      assert s == (s - {y}) + {y};
      x := if y < x then x else y + 1;
    }
  }

  /** Locks never make all threads wait: while any call is under way, some call can go on. */
  lemma NoDeadlock<K(!new)>(c: Config<K>, s: State<K>, u: nat)
    requires Inv(c, s) && u < |s.threads| && s.threads[u].Busy?
    ensures exists t: nat, ch :: t < |s.threads| && s.threads[t].Busy? && Next(c, s, t, ch).Some?
  {
    var th := s.threads[u];
    var i := c.home(th.op.key);
    assert ThreadIn(c, s, u);
    if th.m != Lock(false, false) {
      HolderGoesOn(c, s, u);
    } else {
      var m := s.mutexes[i];
      assert SubmapOk(c, s, i);
      if m.owner.Some? {
        HolderIsBusy(c, s, i, m.owner.value);
        HolderGoesOn(c, s, m.owner.value);
      } else if m.shared != {} {
        var v :| v in m.shared;
        HolderIsBusy(c, s, i, v);
        HolderGoesOn(c, s, v);
      } else {
        assert Next(c, s, u, Nothing).Some?;
      }
    }
  }

  /** A call waits for its lock exactly as long as it must: to share it, while another thread has it
      exclusively; to have it exclusively, while another thread has it at all. */
  lemma WaitsIff<K(!new)>(c: Config<K>, s: State<K>, t: nat)
    requires Inv(c, s) && t < |s.threads| && s.threads[t].Busy?
    requires s.threads[t].pc == Enter || s.threads[t].pc == Relock
    ensures var th := s.threads[t];
      var i := c.home(th.op.key);
      var shares := th.pc == Enter && (th.op.IfContains? || (th.op.EraseIf? && th.op.kind.ReadWrite?));
      Next(c, s, t, Nothing).None? <==>
        exists u: nat :: u < |s.threads| && u != t && if shares then HasLock(c, s, u, i) else HasPart(c, s, u, i)
  {
    hide Balanced, OnePlaceEach;
    var i := c.home(s.threads[t].op.key);
    assert ThreadIn(c, s, t) && SubmapOk(c, s, i);
    var m := s.mutexes[i];
    if m.owner.Some? {
      HolderIsBusy(c, s, i, m.owner.value);
      HoldsIs(c, s, i, m.owner.value);
    } else if m.shared != {} {
      var v :| v in m.shared;
      HolderIsBusy(c, s, i, v);
      HoldsIs(c, s, i, v);
    }
    forall u: nat | u < |s.threads|
      ensures HasLock(c, s, u, i) <==> m.owner == Some(u)
      ensures HasPart(c, s, u, i) <==> !Outside(m, u)
    {
      HoldsIs(c, s, i, u);
    }
  }

  /** Thread u holds the lock of submap i exclusively; or holds it in some way. */
  ghost predicate HasLock<K(!new)>(c: Config<K>, s: State<K>, u: nat, i: nat) {
    u < |s.threads| && s.threads[u].Busy? && s.threads[u].m.locked && c.home(s.threads[u].op.key) == i
  }

  ghost predicate HasPart<K(!new)>(c: Config<K>, s: State<K>, u: nat, i: nat) {
    && u < |s.threads| && s.threads[u].Busy? && (s.threads[u].m.locked || s.threads[u].m.lockedShared)
    && c.home(s.threads[u].op.key) == i
  }

  lemma HoldsIs<K(!new)>(c: Config<K>, s: State<K>, i: nat, u: nat)
    requires Inv(c, s) && i < c.count && u < |s.threads|
    ensures HasLock(c, s, u, i) <==> s.mutexes[i].owner == Some(u)
    ensures HasPart(c, s, u, i) <==> !Outside(s.mutexes[i], u)
  {
    hide Balanced, OnePlaceEach;
    assert ThreadIn(c, s, u);
  }

  lemma HolderIsBusy<K(!new)>(c: Config<K>, s: State<K>, i: nat, v: nat)
    requires Inv(c, s) && i < c.count && !Outside(s.mutexes[i], v)
    ensures v < |s.threads| && s.threads[v].Busy? && s.threads[v].m != Lock(false, false)
  {
    assert SubmapOk(c, s, i);
    assert ThreadIn(c, s, v);
  }

  lemma HolderGoesOn<K(!new)>(c: Config<K>, s: State<K>, v: nat)
    requires Inv(c, s) && v < |s.threads| && s.threads[v].Busy? && s.threads[v].m != Lock(false, false)
    ensures exists t: nat, ch :: t < |s.threads| && s.threads[t].Busy? && Next(c, s, t, ch).Some?
  {
    var th := s.threads[v];
    var table := s.tables[c.home(th.op.key)];
    assert ThreadIn(c, s, v);
    if th.pc == Callback {
      assert Next(c, s, v, Answer(false)).Some?;
    } else if th.pc == Insert {
      assert SubmapOk(c, s, c.home(th.op.key));
      var x := FreshSlot(table.Keys);
      var t' := table[x := th.op.key];
      assert t'.Values == table.Values + {th.op.key} by {
        forall k | k in table.Values ensures k in t'.Values {
          var p :| p in table && table[p] == k;
          assert t'[p] == k;
        }
        assert t'[x] == th.op.key;
      }
      assert Next(c, s, v, Layout(t')).Some?;
    } else {
      assert Next(c, s, v, Nothing).Some?;
    }
  }
}
