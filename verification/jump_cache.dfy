/** The jump-distance cache of the grid search: one sweep over each line of the grid against a
    naive scan from each cell. */
module JumpCache {

  datatype Pos = Pos(x: int, y: int)

  datatype Pcache = Pcache(up: int, down: int, left: int, right: int)

  const UP := Pos(0, 1)
  const DOWN := Pos(0, -1)
  const LEFT := Pos(-1, 0)
  const RIGHT := Pos(1, 0)

  predicate Cardinal(d: Pos) {
    d == UP || d == DOWN || d == LEFT || d == RIGHT
  }

  /** Cell `k` steps from p in direction d. */
  function At(p: Pos, d: Pos, k: int): Pos {
    Pos(p.x + d.x * k, p.y + d.y * k)
  }

  lemma AtStep(p: Pos, d: Pos, k: int)
    requires Cardinal(d)
    ensures At(p, d, 0) == p && At(p, d, k + 1) == Pos(At(p, d, k).x + d.x, At(p, d, k).y + d.y)
  {
  }

  lemma AtAt(p: Pos, d: Pos, j: int, k: int)
    requires Cardinal(d)
    ensures At(At(p, d, j), d, k) == At(p, d, j + k)
  {
  }

  /** Whether c lies on the ray from p in direction d, and how far along. */
  predicate Ahead(p: Pos, d: Pos, c: Pos) {
    Along(p, d, c) >= 0 && At(p, d, Along(p, d, c)) == c
  }

  function Along(p: Pos, d: Pos, c: Pos): int {
    (c.x - p.x) * d.x + (c.y - p.y) * d.y
  }

  lemma AlongAt(p: Pos, d: Pos, k: int)
    requires Cardinal(d)
    ensures Along(p, d, At(p, d, k)) == k
  {
  }

  /** A later cell of a ray sees the same cells ahead. */
  lemma AheadFrom(p: Pos, d: Pos, k: nat, c: Pos)
    requires Cardinal(d)
    ensures Ahead(At(p, d, k), d, c) <==> Ahead(p, d, c) && Along(p, d, c) >= k
    ensures Ahead(At(p, d, k), d, c) ==> Along(At(p, d, k), d, c) == Along(p, d, c) - k
  {
  }

  /** One of the eight neighbours. */
  predicate Adjacent(a: Pos, b: Pos) {
    a != b && -1 <= a.x - b.x <= 1 && -1 <= a.y - b.y <= 1
  }

  /** A diagonal step from p that goes forward. */
  predicate DiagonallyAhead(p: Pos, d: Pos, n: Pos) {
    Adjacent(p, n) && n.x != p.x && n.y != p.y && Along(p, d, n) == 1
  }

  lemma AheadIs(p: Pos, d: Pos, n: Pos)
    requires Cardinal(d) && DiagonallyAhead(p, d, n)
    ensures n == Pos(p.x + d.y + d.x, p.y + d.x + d.y) || n == Pos(p.x - d.y + d.x, p.y - d.x + d.y)
  {
  }

  /** The cells with their obstacle flags. */
  datatype Grid = Grid(len: nat, wid: nat, blocked: set<Pos>)
  {
    predicate InArea(p: Pos) {
      0 <= p.x <= len - 1 && 0 <= p.y <= wid - 1
    }

    predicate Obstacle(p: Pos) {
      !InArea(p) || p in blocked
    }

    /** A cell has a forced neighbour on one side when the cell beside it, inside the grid, is an
        obstacle and the cell after that one is free. */
    predicate ForcedBeside(p: Pos, d: Pos, side: Pos) {
      var beside := Pos(p.x + side.x, p.y + side.y);
      InArea(beside) && Obstacle(beside) && !Obstacle(Pos(beside.x + d.x, beside.y + d.y))
    }

    predicate Forced(p: Pos, d: Pos) {
      ForcedBeside(p, d, Pos(d.y, d.x)) || ForcedBeside(p, d, Pos(-d.y, -d.x))
    }

    /** What a forced neighbour is: a free cell n diagonally ahead of p that a walk coming from the
        cell behind p reaches in two steps through no other free cell than p. */
    ghost predicate ForcedNeighbour(p: Pos, d: Pos, n: Pos) {
      && DiagonallyAhead(p, d, n) && !Obstacle(n)
      && forall c :: !Obstacle(c) && Adjacent(c, Pos(p.x - d.x, p.y - d.y)) && Adjacent(c, n) ==> c == p
    }

    /** The test of the code on one side finds just the cell on that side. */
    lemma BesideIs(p: Pos, d: Pos, side: Pos)
      requires InArea(p) && Cardinal(d) && (side == Pos(d.y, d.x) || side == Pos(-d.y, -d.x))
      ensures ForcedBeside(p, d, side) <==> ForcedNeighbour(p, d, Pos(p.x + side.x + d.x, p.y + side.y + d.y))
    {
      var beside := Pos(p.x + side.x, p.y + side.y);
      var n := Pos(beside.x + d.x, beside.y + d.y);
      assert Adjacent(beside, Pos(p.x - d.x, p.y - d.y)) && Adjacent(beside, n);
    }

    lemma NeighbourAhead(p: Pos, d: Pos, n: Pos)
      requires ForcedNeighbour(p, d, n)
      ensures DiagonallyAhead(p, d, n)
    {
    }

    /** So there are two candidates. */
    lemma NeighbourIs(p: Pos, d: Pos, n: Pos)
      requires InArea(p) && Cardinal(d)
      ensures ForcedNeighbour(p, d, n) <==>
        || (n == Pos(p.x + d.y + d.x, p.y + d.x + d.y) && ForcedBeside(p, d, Pos(d.y, d.x)))
        || (n == Pos(p.x - d.y + d.x, p.y - d.x + d.y) && ForcedBeside(p, d, Pos(-d.y, -d.x)))
    {
      BesideIs(p, d, Pos(d.y, d.x));
      BesideIs(p, d, Pos(-d.y, -d.x));
      hide ForcedBeside;
      if ForcedNeighbour(p, d, n) {
        NeighbourAhead(p, d, n);
        AheadIs(p, d, n);
      }
      hide *;
    }

    lemma ForcedIs(p: Pos, d: Pos)
      requires InArea(p) && Cardinal(d)
      ensures Forced(p, d) <==> exists n :: ForcedNeighbour(p, d, n)
    {
      hide ForcedNeighbour, ForcedBeside, Cardinal;
      NeighbourIs(p, d, Pos(p.x + d.y + d.x, p.y + d.x + d.y));
      NeighbourIs(p, d, Pos(p.x - d.y + d.x, p.y - d.x + d.y));
      forall n | ForcedNeighbour(p, d, n) ensures Forced(p, d) {
        NeighbourIs(p, d, n);
      }
    }

    /** Steps from p until the ray leaves the grid. */
    function Room(p: Pos, d: Pos): int {
      if d == UP then wid - p.y else if d == DOWN then p.y + 1 else if d == LEFT then p.x + 1 else len - p.x
    }

    /** p is in the grid or just behind the end of a line of the grid. */
    ghost predicate OnLine(p: Pos, d: Pos) {
      Cardinal(d) && forall k :: 0 <= k ==> (InArea(At(p, d, k)) <==> k < Room(p, d))
    }

    lemma LineFrom(p: Pos, d: Pos, k: nat)
      requires OnLine(p, d) && k <= Room(p, d)
      ensures OnLine(At(p, d, k), d) && Room(At(p, d, k), d) == Room(p, d) - k
    {
      forall j | 0 <= j ensures InArea(At(At(p, d, k), d, j)) <==> j < Room(At(p, d, k), d) {
        AtAt(p, d, k, j);
        assert InArea(At(p, d, k + j)) <==> k + j < Room(p, d);
      }
    }

    lemma InLine(p: Pos, d: Pos)
      requires Cardinal(d) && InArea(p)
      ensures OnLine(p, d)
    {
    }

    // ---------- the naive scan ----------

    /** From the free cell k steps ahead of p: the first later free cell with a forced neighbour,
        or the last cell before an obstacle. */
    ghost function Scan(p: Pos, d: Pos, k: nat): nat
      requires OnLine(p, d) && k < Room(p, d)
      decreases Room(p, d) - k
    {
      if k + 1 >= Room(p, d) || Obstacle(At(p, d, k + 1)) then k
      else if Forced(At(p, d, k + 1), d) then k + 1
      else Scan(p, d, k + 1)
    }

    ghost function Jump(p: Pos, d: Pos): nat
      requires Cardinal(d) && InArea(p)
    {
      InLine(p, d);
      if Obstacle(p) then 0 else Scan(p, d, 0)
    }

    /** What the distance k means: only free cells on the way, none with a forced neighbour strictly
        between, and a forced neighbour at its end or an obstacle behind it. */
    ghost predicate IsJump(p: Pos, d: Pos, k: nat) {
      && (forall j :: 0 <= j <= k ==> !Obstacle(At(p, d, j)))
      && (forall j :: 0 < j < k ==> !Forced(At(p, d, j), d))
      && ((k > 0 && Forced(At(p, d, k), d)) || Obstacle(At(p, d, k + 1)))
    }

    lemma {:induction false} ScanIs(p: Pos, d: Pos, k: nat)
      requires OnLine(p, d) && k < Room(p, d)
      requires forall j :: 0 <= j <= k ==> !Obstacle(At(p, d, j))
      requires forall j :: 0 < j <= k ==> !Forced(At(p, d, j), d)
      ensures IsJump(p, d, Scan(p, d, k)) && Scan(p, d, k) >= k
      decreases Room(p, d) - k
    {
      hide Forced, Room, At;
      if !Obstacle(At(p, d, k + 1)) && !Forced(At(p, d, k + 1), d) {
        ScanIs(p, d, k + 1);
      }
    }

    /** From any cell up to the stopping point of a free run, the jump leads to that point. */
    lemma JumpTo(q: Pos, d: Pos, j: nat, i: nat)
      requires OnLine(q, d) && j <= i < Room(q, d)
      requires forall k :: 0 <= k <= i ==> !Obstacle(At(q, d, k))
      requires forall k :: 0 < k < i ==> !Forced(At(q, d, k), d)
      requires Obstacle(At(q, d, i + 1)) || (j < i && Forced(At(q, d, i), d))
      ensures InArea(At(q, d, j)) && Jump(At(q, d, j), d) == i - j
    {
      hide Forced, At;
      var c := At(q, d, j);
      forall k ensures At(c, d, k) == At(q, d, j + k) {
        AtAt(q, d, j, k);
      }
      AtAt(q, d, j, 0);
      assert IsJump(c, d, i - j);
      JumpIs(c, d, i - j);
    }

    /** There is one such distance for each free cell. */
    lemma JumpIs(p: Pos, d: Pos, k: nat)
      requires Cardinal(d) && InArea(p) && !Obstacle(p)
      ensures IsJump(p, d, k) <==> k == Jump(p, d)
    {
      InLine(p, d);
      AtStep(p, d, 0);
      ScanIs(p, d, 0);
    }

    // ---------- sweeping a line ----------

    /** The distances t0 after the cells of the ray from p have got their jump distance. */
    ghost function Swept(t0: imap<(Pos, Pos), int>, p: Pos, d: Pos): imap<(Pos, Pos), int> {
      imap k: (Pos, Pos) | k in t0 ::
        if k.1 == d && Cardinal(d) && InArea(k.0) && Ahead(p, d, k.0) then Jump(k.0, d) else t0[k]
    }

    /** Only the first a cells of the ray. */
    ghost function SweptTo(t0: imap<(Pos, Pos), int>, p: Pos, d: Pos, a: int): imap<(Pos, Pos), int> {
      imap k: (Pos, Pos) | k in t0 ::
        if k.1 == d && Cardinal(d) && InArea(k.0) && Ahead(p, d, k.0) && Along(p, d, k.0) < a
        then Jump(k.0, d) else t0[k]
    }

    lemma NothingSwept(t0: imap<(Pos, Pos), int>, p: Pos, d: Pos)
      requires Cardinal(d)
      ensures SweptTo(t0, p, d, 0) == t0 && At(p, d, 0) == p
    {
    }

    lemma SweepObstacle(t0: imap<(Pos, Pos), int>, p: Pos, d: Pos, a: nat)
      requires OnLine(p, d) && InArea(At(p, d, a)) && Obstacle(At(p, d, a)) && (At(p, d, a), d) in t0
      ensures SweptTo(t0, p, d, a + 1) == SweptTo(t0, p, d, a)[(At(p, d, a), d) := 0]
      ensures a + 1 <= Room(p, d)
    {
      assert Cardinal(d);
      hide OnLine, Room;
      AlongAt(p, d, a);
      assert a < Room(p, d) by { LineAt(p, d, a); }
    }

    lemma LineAt(p: Pos, d: Pos, a: nat)
      requires OnLine(p, d)
      ensures InArea(At(p, d, a)) <==> a < Room(p, d)
    {
    }

    lemma AllSwept(t0: imap<(Pos, Pos), int>, p: Pos, d: Pos, a: nat)
      requires OnLine(p, d) && !InArea(At(p, d, a))
      ensures SweptTo(t0, p, d, a) == Swept(t0, p, d)
    {
      forall c | InArea(c) && Ahead(p, d, c) ensures Along(p, d, c) < a {
        LineAt(p, d, a);
        LineAt(p, d, Along(p, d, c));
      }
    }

    lemma SweepRest(t0: imap<(Pos, Pos), int>, p: Pos, d: Pos, a: nat)
      requires Cardinal(d)
      ensures Swept(SweptTo(t0, p, d, a), At(p, d, a), d) == Swept(t0, p, d)
    {
      forall c ensures Ahead(At(p, d, a), d, c) <==> Ahead(p, d, c) && Along(p, d, c) >= a {
        AheadFrom(p, d, a, c);
      }
    }

    /** Each cell of a free run from q, filled with its distance to cell i, got its jump distance. */
    ghost predicate RunDone(q: Pos, d: Pos, i: int, stop: nat) {
      && (forall c :: Ahead(At(q, d, stop), d, c) <==> Ahead(q, d, c) && Along(q, d, c) >= stop)
      && (forall c :: Ahead(q, d, c) && Along(q, d, c) <= i ==> InArea(c))
      && (forall c :: Ahead(q, d, c) && Along(q, d, c) < stop ==>
           Cardinal(d) && InArea(c) && Jump(c, d) == i - Along(q, d, c) && Along(q, d, c) < i + 1)
    }

    lemma RunIsDone(q: Pos, d: Pos, i: nat, stop: nat)
      requires OnLine(q, d) && stop <= Room(q, d) && i < Room(q, d)
      requires forall k :: 0 <= k <= i ==> !Obstacle(At(q, d, k))
      requires forall k :: 0 < k < i ==> !Forced(At(q, d, k), d)
      requires if Obstacle(At(q, d, stop)) then stop == i + 1 else stop == i && i > 0 && Forced(At(q, d, i), d)
      ensures RunDone(q, d, i, stop)
    {
      assert Cardinal(d);
      hide Forced, At, Ahead, Along, Jump, Room, Obstacle, OnLine;
      forall c ensures Ahead(At(q, d, stop), d, c) <==> Ahead(q, d, c) && Along(q, d, c) >= stop {
        AheadFrom(q, d, stop, c);
      }
      forall c | Ahead(q, d, c) && Along(q, d, c) <= i ensures InArea(c) {
        AheadIsThere(q, d, c);
        assert !Obstacle(At(q, d, Along(q, d, c)));
        FreeInside(c);
      }
      forall c | Ahead(q, d, c) && Along(q, d, c) < stop
        ensures InArea(c) && Jump(c, d) == i - Along(q, d, c) && Along(q, d, c) < i + 1
      {
        AheadIsThere(q, d, c);
        JumpTo(q, d, Along(q, d, c), i);
      }
    }

    lemma FreeInside(c: Pos)
      requires !Obstacle(c)
      ensures InArea(c)
    {
    }

    lemma SweepRun(t0: imap<(Pos, Pos), int>, q: Pos, d: Pos, i: nat, stop: nat)
      requires Cardinal(d) && RunDone(q, d, i, stop) && stop <= i + 1
      ensures Swept(Filled(t0, q, d, i, i + 1), At(q, d, stop), d) == Swept(t0, q, d)
    {
      hide Jump, At, Ahead, Along, InArea, Cardinal;
    }

    // ---------- the whole grid ----------

    lemma EndsOnLine(i: nat, j: nat)
      ensures i < len ==> OnLine(Pos(i, 0), UP) && OnLine(Pos(i, wid - 1), DOWN)
      ensures j < wid ==> OnLine(Pos(0, j), RIGHT) && OnLine(Pos(len - 1, j), LEFT)
    {
    }

    lemma NothingSettled(t: imap<(Pos, Pos), int>)
      requires forall p, d :: (p, d) in t <==> InArea(p) && Cardinal(d)
      ensures Settled(this, t, 0, 0)
    {
    }

    lemma SettleColumn(t: imap<(Pos, Pos), int>, i: nat)
      requires Settled(this, t, i, 0) && i < len
      ensures Settled(this, Swept(Swept(t, Pos(i, 0), UP), Pos(i, wid - 1), DOWN), i + 1, 0)
    {
      hide Jump;
    }

    lemma SettleRow(t: imap<(Pos, Pos), int>, j: nat)
      requires Settled(this, t, len, j) && j < wid
      ensures Settled(this, Swept(Swept(t, Pos(0, j), RIGHT), Pos(len - 1, j), LEFT), len, j + 1)
    {
      hide Jump;
    }
  }

  /** The first j cells of the run from q get their distance to the i-th. */
  ghost function Filled(t0: imap<(Pos, Pos), int>, q: Pos, d: Pos, i: int, j: int): imap<(Pos, Pos), int> {
    imap k: (Pos, Pos) | k in t0 ::
      if k.1 == d && Ahead(q, d, k.0) && Along(q, d, k.0) < j then i - Along(q, d, k.0) else t0[k]
  }

  lemma FillNone(t0: imap<(Pos, Pos), int>, q: Pos, d: Pos, i: int)
    ensures Filled(t0, q, d, i, 0) == t0
  {
  }

  lemma FillStep(t0: imap<(Pos, Pos), int>, q: Pos, d: Pos, i: int, j: nat)
    requires Cardinal(d) && (At(q, d, j), d) in t0
    ensures Filled(t0, q, d, i, j + 1) == Filled(t0, q, d, i, j)[(At(q, d, j), d) := i - j]
  {
    AlongAt(q, d, j);
  }

  /** The vertical distances of the first i columns and the horizontal ones of the first j rows
      are what the naive scan finds. */
  ghost predicate Settled(g: Grid, t: imap<(Pos, Pos), int>, i: int, j: int) {
    && (forall p, d :: (p, d) in t <==> g.InArea(p) && Cardinal(d))
    && (forall p, d :: (p, d) in t && (if d.x == 0 then p.x < i else p.y < j) ==> t[(p, d)] == g.Jump(p, d))
  }

  class Jps {
    const len: nat
    const wid: nat
    const obstacle: array2<bool>
    var jpcache: array2<Pcache>

    ghost predicate Valid()
      reads this, jpcache
    {
      && obstacle.Length0 == len && obstacle.Length1 == wid
      && jpcache.Length0 == len && jpcache.Length1 == wid
    }

    constructor (len: nat, wid: nat)
      ensures Valid() && fresh(obstacle) && fresh(jpcache)
      ensures this.len == len && this.wid == wid && TheGrid().blocked == {}
    {
      this.len, this.wid := len, wid;
      obstacle := new bool[len, wid]((_, _) => false);
      jpcache := new Pcache[len, wid]((_, _) => Pcache(0, 0, 0, 0));
    }

    ghost function TheGrid(): (g: Grid)
      reads obstacle
      ensures g.len == len && g.wid == wid
    {
      Grid(len, wid, set i, j | 0 <= i < obstacle.Length0 && 0 <= j < obstacle.Length1 && obstacle[i, j] :: Pos(i, j))
    }

    predicate InArea(p: Pos) {
      p.x >= 0 && p.x <= len - 1 && p.y >= 0 && p.y <= wid - 1
    }

    predicate Obstacle(p: Pos)
      requires Valid()
      reads this, jpcache, obstacle
    {
      if !InArea(p) then true else obstacle[p.x, p.y]
    }

    method SetObstacle(x: int, y: int, v: bool)
      requires Valid()
      modifies obstacle
      ensures Valid()
      ensures var b := old(TheGrid()).blocked;
        TheGrid().blocked == if !InArea(Pos(x, y)) then b else if v then b + {Pos(x, y)} else b - {Pos(x, y)}
    {
      if !InArea(Pos(x, y)) {
        return;
      }
      obstacle[x, y] := v;
    }

    /** `fneig`: the cells and directions it calls back with. */
    function Fneig(p: Pos, d: Pos): (r: seq<(Pos, Pos)>)
      requires Valid()
      reads this, jpcache, obstacle
    {
      var p1 := Pos(p.x + d.y, p.y + d.x);
      var p11 := Pos(p1.x + d.x, p1.y + d.y);
      var p2 := Pos(p.x - d.y, p.y - d.x);
      var p21 := Pos(p2.x + d.x, p2.y + d.y);
      (if InArea(p1) && Obstacle(p1) && !Obstacle(p11) then [(p11, Pos(d.x + d.y, d.y + d.x))] else [])
      + (if InArea(p2) && Obstacle(p2) && !Obstacle(p21) then [(p21, Pos(d.x - d.y, d.y - d.x))] else [])
    }

    /** It calls back exactly when there is a forced neighbour, and only with free cells. */
    lemma FneigForced(p: Pos, d: Pos)
      requires Valid()
      ensures Fneig(p, d) == [] <==> !TheGrid().Forced(p, d)
      ensures forall i :: 0 <= i < |Fneig(p, d)| ==> !Obstacle(Fneig(p, d)[i].0)
    {
      hide Obstacle, TheGrid, Grid.Obstacle;
      ObstacleIs();
    }

    /** The calls are the forced neighbours, each once and with the step to it as its direction. */
    lemma FneigIs(p: Pos, d: Pos)
      requires Valid() && InArea(p) && Cardinal(d)
      ensures forall n, e :: (n, e) in Fneig(p, d) <==>
                TheGrid().ForcedNeighbour(p, d, n) && e == Pos(n.x - p.x, n.y - p.y)
      ensures forall i, j :: 0 <= i < j < |Fneig(p, d)| ==> Fneig(p, d)[i] != Fneig(p, d)[j]
    {
      hide TheGrid, Grid.Obstacle, Obstacle, Grid.ForcedNeighbour, Cardinal;
      ObstacleIs();
      var g := TheGrid();
      SidesDiffer(p, d);
      forall n, e
        ensures (n, e) in Fneig(p, d) <==> g.ForcedNeighbour(p, d, n) && e == Pos(n.x - p.x, n.y - p.y)
      {
        g.NeighbourIs(p, d, n);
      }
    }

    lemma SidesDiffer(p: Pos, d: Pos)
      requires Cardinal(d)
      ensures Pos(p.x + d.y + d.x, p.y + d.x + d.y) != Pos(p.x - d.y + d.x, p.y - d.x + d.y)
    {
    }

    lemma ObstacleIs()
      requires Valid()
      ensures forall p :: Obstacle(p) == TheGrid().Obstacle(p)
    {
    }

    function GetCache(p: Pos, d: Pos): int
      requires Valid() && InArea(p)
      reads this, jpcache
    {
      var c := jpcache[p.x, p.y];
      if d == UP then c.up
      else if d == DOWN then c.down
      else if d == LEFT then c.left
      else if d == RIGHT then c.right
      else 0
    }

    /** All distances of the cache, by cell and direction. */
    ghost function Distances(): imap<(Pos, Pos), int>
      requires Valid()
      reads this, jpcache
    {
      imap k: (Pos, Pos) | InArea(k.0) && Cardinal(k.1) :: GetCache(k.0, k.1)
    }

    method SetCache(p: Pos, d: Pos, v: int)
      requires Valid() && InArea(p) && Cardinal(d)
      modifies jpcache
      ensures Valid() && Distances() == old(Distances())[(p, d) := v]
    {
      var c := jpcache[p.x, p.y];
      jpcache[p.x, p.y] := if d == UP then c.(up := v)
      else if d == DOWN then c.(down := v)
      else if d == LEFT then c.(left := v)
      else c.(right := v);
    }

    /** `linecache`: sets the distances of all cells of the ray from p, and nothing else. */
    method LineCache(p: Pos, d: Pos)
      requires Valid() && TheGrid().OnLine(p, d)
      modifies jpcache
      ensures Valid() && TheGrid() == old(TheGrid())
      ensures Distances() == TheGrid().Swept(old(Distances()), p, d)
      decreases TheGrid().Room(p, d)
    {
      hide TheGrid, Distances, Grid.Swept, Grid.SweptTo, Grid.Jump, At;
      ghost var g, t0 := TheGrid(), Distances();
      KnowsItsCells();
      ObstacleIs();
      var q := p;
      ghost var a := 0;
      g.NothingSwept(t0, p, d);
      while InArea(q) && Obstacle(q)
        invariant Valid() && TheGrid() == g && 0 <= a && q == At(p, d, a)
        invariant a > 0 ==> a <= g.Room(p, d)
        invariant Distances() == g.SweptTo(t0, p, d, a)
        decreases g.Room(p, d) - a
      {
        g.SweepObstacle(t0, p, d, a);
        SetCache(q, d, 0);
        AtStep(p, d, a);
        q := Pos(q.x + d.x, q.y + d.y);
        a := a + 1;
      }
      if !InArea(q) {
        g.AllSwept(t0, p, d, a);
        return;
      }
      g.LineFrom(p, d, a);
      LineCacheFree(q, d);
      g.SweepRest(t0, p, d, a);
    }

    /** The part of `linecache` after the obstacles: q is free. */
    method LineCacheFree(q: Pos, d: Pos)
      requires Valid() && TheGrid().OnLine(q, d) && InArea(q) && !Obstacle(q)
      modifies jpcache
      ensures Valid() && TheGrid() == old(TheGrid())
      ensures Distances() == TheGrid().Swept(old(Distances()), q, d)
      decreases TheGrid().Room(q, d), 0
    {
      hide TheGrid, Distances, Grid.Swept, Grid.Jump, Grid.Forced, Grid.RunDone, At, Filled;
      ghost var g, t0 := TheGrid(), Distances();
      KnowsItsCells();
      ObstacleIs();
      AtStep(q, d, 0);
      var t, i := q, 0;
      while true
        invariant 0 <= i <= g.Room(q, d) && t == At(q, d, i) && Distances() == t0
        invariant forall j :: 0 <= j < i ==> !g.Obstacle(At(q, d, j))
        invariant forall j :: 0 < j < i ==> !g.Forced(At(q, d, j), d)
        decreases g.Room(q, d) - i
      {
        var m := Fneig(t, d) != [];
        FneigForced(t, d);
        if Obstacle(t) || (m && i != 0) {
          break;
        }
        AtStep(q, d, i);
        t := Pos(t.x + d.x, t.y + d.y);
        i := i + 1;
      }
      ghost var stop := i;
      assert i > 0;
      if Obstacle(t) {
        i := i - 1;
      }
      FillLine(q, d, i);
      g.LineFrom(q, d, stop);
      LineCache(t, d);
      g.RunIsDone(q, d, i, stop);
      g.SweepRun(t0, q, d, i, stop);
    }

    /** The inner loop of `linecache`: the cells up to the i-th get their distance to it. */
    method FillLine(q: Pos, d: Pos, i: nat)
      requires Valid() && TheGrid().OnLine(q, d) && i < TheGrid().Room(q, d)
      modifies jpcache
      ensures Valid() && TheGrid() == old(TheGrid())
      ensures Distances() == Filled(old(Distances()), q, d, i, i + 1)
    {
      hide TheGrid, Distances, At, Filled, Ahead, Along;
      ghost var g, t0 := TheGrid(), Distances();
      KnowsItsCells();
      ObstacleIs();
      FillNone(t0, q, d, i);
      for j := 0 to i + 1
        invariant Valid() && TheGrid() == g && Distances() == Filled(t0, q, d, i, j)
      {
        FillStep(t0, q, d, i, j);
        assert g.InArea(At(q, d, j));
        SetCache(At(q, d, j), d, i - j);
      }
    }

    lemma AllSettled(g: Grid)
      requires Valid() && Settled(g, Distances(), len, wid) && g == TheGrid()
      ensures forall c, e :: InArea(c) && Cardinal(e) ==> GetCache(c, e) == g.Jump(c, e)
    {
      forall c, e | InArea(c) && Cardinal(e) ensures GetCache(c, e) == g.Jump(c, e) {
        assert (c, e) in Distances() && Distances()[(c, e)] == GetCache(c, e);
      }
    }

    lemma KnowsItsCells()
      requires Valid()
      ensures forall p :: InArea(p) <==> TheGrid().InArea(p)
      ensures forall p, d :: (p, d) in Distances() <==> InArea(p) && Cardinal(d)
    {
    }

    /** `jpcache`: afterwards each cell and cardinal direction holds what the naive scan finds. */
    method JpCache()
      requires Valid()
      modifies this
      ensures Valid() && fresh(jpcache) && TheGrid() == old(TheGrid())
      ensures forall c, e :: InArea(c) && Cardinal(e) ==> GetCache(c, e) == TheGrid().Jump(c, e)
    {
      hide TheGrid, Distances, Grid.Swept, Grid.Jump, Grid.OnLine, Grid.Room, Settled, InArea, GetCache, Cardinal;
      ghost var g := TheGrid();
      jpcache := new Pcache[len, wid]((_, _) => Pcache(0, 0, 0, 0));
      assert Settled(g, Distances(), 0, 0) by {
        KnowsItsCells();
        g.NothingSettled(Distances());
      }
      for i := 0 to len
        invariant Valid() && fresh(jpcache) && TheGrid() == g
        invariant Settled(g, Distances(), i, 0)
      {
        g.EndsOnLine(i, 0);
        ghost var t0 := Distances();
        LineCache(Pos(i, 0), UP);
        LineCache(Pos(i, wid - 1), DOWN);
        g.SettleColumn(t0, i);
      }
      for j := 0 to wid
        invariant Valid() && fresh(jpcache) && TheGrid() == g
        invariant Settled(g, Distances(), len, j)
      {
        g.EndsOnLine(0, j);
        ghost var t0 := Distances();
        LineCache(Pos(0, j), RIGHT);
        LineCache(Pos(len - 1, j), LEFT);
        g.SettleRow(t0, j);
      }
      AllSettled(g);
    }
  }

  // ---------- using the cache ----------

  /** `checkend`: whether the goal lies on the jump from p1 to p2. */
  predicate CheckEnd(goal: Pos, p1: Pos, p2: Pos) {
    if p1 == goal || p2 == goal then true
    else
      var a := Pos(goal.x - p1.x, goal.y - p1.y);
      var b := Pos(p2.x - goal.x, p2.y - goal.y);
      if a.x * b.x + a.y * b.y < 0 then false else a.x * b.y == a.y * b.x
  }

  /** How far ahead and how far aside the goal lies. */
  function Lead(p: Pos, d: Pos, goal: Pos): (int, int) {
    if d == UP then (goal.y - p.y, goal.x - p.x)
    else if d == DOWN then (p.y - goal.y, goal.x - p.x)
    else if d == LEFT then (p.x - goal.x, goal.y - p.y)
    else (goal.x - p.x, goal.y - p.y)
  }

  lemma LeadIs(p: Pos, d: Pos, goal: Pos, k: nat)
    requires Cardinal(d)
    ensures Ahead(p, d, goal) && Along(p, d, goal) <= k <==> Lead(p, d, goal).1 == 0 && 0 <= Lead(p, d, goal).0 <= k
    ensures p == goal <==> Lead(p, d, goal) == (0, 0)
    ensures At(p, d, k) == goal <==> Lead(p, d, goal) == (k, 0)
  {
  }

  lemma CheckEndOnSegment(goal: Pos, p: Pos, d: Pos, k: nat)
    requires Cardinal(d)
    ensures CheckEnd(goal, p, At(p, d, k)) <==> Ahead(p, d, goal) && Along(p, d, goal) <= k
  {
    LeadIs(p, d, goal, k);
    var (x, y) := Lead(p, d, goal);
    CheckEndOffset(x, y, k);
    SegmentProducts(goal, p, d, k);
    hide At, Along, Ahead, Lead, Cardinal;
  }

  lemma SegmentProducts(goal: Pos, p: Pos, d: Pos, k: nat)
    requires Cardinal(d)
    ensures var (x, y) := Lead(p, d, goal);
      var (a, b) := (Pos(goal.x - p.x, goal.y - p.y), Pos(At(p, d, k).x - goal.x, At(p, d, k).y - goal.y));
      a.x * b.x + a.y * b.y == x * (k - x) - y * y && (a.x * b.y == a.y * b.x <==> x * -y == y * (k - x))
  {
    var q := At(p, d, k);
    var (x, y) := Lead(p, d, goal);
    var (a, b) := (Pos(goal.x - p.x, goal.y - p.y), Pos(q.x - goal.x, q.y - goal.y));
    var s := d.x + d.y;
    if d == UP || d == DOWN {
      Products(x, y, k, s, a.y, b.y, a.x, b.x);
    } else {
      Products(x, y, k, s, a.x, b.x, a.y, b.y);
    }
  }

  /** Dot and cross product of (s * x, y) and (s * (k - x), -y). */
  lemma Products(x: int, y: int, k: int, s: int, ax: int, bx: int, ay: int, bw: int)
    requires s == 1 || s == -1
    requires ax == s * x && bx == s * (k - x) && ay == y && bw == -y
    ensures ax * bx + ay * bw == x * (k - x) - y * y
    ensures ax * bw == ay * bx <==> x * -y == y * (k - x)
    ensures bw * ax == ay * bx <==> x * -y == y * (k - x)
  {
    if s == -1 {
      assert ax * bx == x * (k - x) by { Minus(x, k - x); }
      assert ax * bw == -(x * -y) && ay * bx == -(y * (k - x)) by { Minus(x, -y); Minus(y, k - x); }
    }
    assert y * -y == -(y * y);
  }

  lemma Minus(x: int, y: int)
    ensures -x * -y == x * y && -x * y == -(x * y) && x * -y == -(x * y)
  {
  }

  /** The same for a goal x ahead and y aside. */
  lemma CheckEndOffset(x: int, y: int, k: nat)
    ensures (x == 0 && y == 0) || (x == k && y == 0) || (x * (k - x) - y * y >= 0 && x * -y == y * (k - x))
      <==> y == 0 && 0 <= x <= k
  {
    assert y * (k - x) == y * k - y * x;
    if y == 0 && 0 <= x <= k {
      assert x * (k - x) >= 0;
    } else if k == 0 {
      assert x * (k - x) == -(x * x);
    }
  }

  /** The end test on a jump taken from the cache succeeds exactly when the goal is one of the cells
      jumped over, and then nothing blocks the way to it. */
  lemma CheckEndOnJump(g: Grid, p: Pos, d: Pos, goal: Pos)
    requires Cardinal(d) && g.InArea(p) && !g.Obstacle(p)
    ensures CheckEnd(goal, p, At(p, d, g.Jump(p, d))) <==> exists j :: 0 <= j <= g.Jump(p, d) && At(p, d, j) == goal
    ensures CheckEnd(goal, p, At(p, d, g.Jump(p, d))) ==>
      Ahead(p, d, goal) && forall j :: 0 <= j <= Along(p, d, goal) ==> !g.Obstacle(At(p, d, j))
  {
    hide At, Ahead, Along, CheckEnd, Grid.Obstacle, Grid.Forced, Grid.Jump, Cardinal;
    var k := g.Jump(p, d);
    CheckEndOnSegment(goal, p, d, k);
    g.JumpIs(p, d, k);
    if exists j :: 0 <= j <= k && At(p, d, j) == goal {
      var j :| 0 <= j <= k && At(p, d, j) == goal;
      AlongAt(p, d, j);
      assert Ahead(p, d, goal) by { ThereIsAhead(p, d, j); }
    }
    if Ahead(p, d, goal) {
      AheadIsThere(p, d, goal);
    }
  }

  lemma ThereIsAhead(p: Pos, d: Pos, j: nat)
    requires Cardinal(d)
    ensures Ahead(p, d, At(p, d, j))
  {
  }

  lemma AheadIsThere(p: Pos, d: Pos, c: Pos)
    requires Ahead(p, d, c)
    ensures Along(p, d, c) >= 0 && At(p, d, Along(p, d, c)) == c
  {
  }
}
