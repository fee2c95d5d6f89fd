/** Control bytes: the layout of the `ctrl_` array, its mirrored tail, reachability of a slot
    along its probe sequence, and the capacity arithmetic. */
module ControlBytes {
  import opened ProbeSequence

  const K_EMPTY := -128
  const K_DELETED := -2
  const K_SENTINEL := -1

  predicate IsFull(c: int) { c >= 0 }

  predicate IsEmptyOrDeleted(c: int) { c < K_SENTINEL }

  /** A byte that may stand in front of a slot. */
  predicate SlotByte(c: int) {
    c == K_EMPTY || c == K_DELETED || 0 <= c < 128
  }

  function H1(hash: nat): nat { hash / 128 }

  function H2(hash: nat): (c: int)
    ensures SlotByte(c) && IsFull(c)
  {
    hash % 128
  }

  ghost predicate Geometry(cap: nat, w: nat) {
    (w == 8 || w == 16) && IsPow2(cap + 1)
  }

  lemma WidthIsPow2(cap: nat, w: nat)
    requires Geometry(cap, w)
    ensures IsPow2(w)
  {
    assert IsPow2(2) && IsPow2(4) && IsPow2(8) && IsPow2(16);
  }

  predicate IsSmall(cap: nat, w: nat) { cap < w - 1 }

  lemma SmallIsHalf(cap: nat, w: nat)
    requires Geometry(cap, w) && IsSmall(cap, w)
    ensures cap == 0 || cap == 1 || cap == 3 || cap == 7
    ensures 2 * (cap + 1) <= w && w % (cap + 1) == 0
  {
    var m := cap + 1;
    assert IsPow2(m);
    if m > 1 {
      assert IsPow2(m / 2);
      if m / 2 > 1 {
        assert IsPow2(m / 4);
        if m / 4 > 1 { assert IsPow2(m / 8); }
      }
    }
  }

  lemma SmallMod(cap: nat, w: nat, i: nat)
    requires (w == 8 || w == 16) && (cap == 0 || cap == 1 || cap == 3 || cap == 7) && 2 * (cap + 1) <= w && i <= cap
    ensures (i - w) % (cap + 1) == i && (w - 1) % (cap + 1) == cap
  {
    var k := w / (cap + 1);
    assert w == (cap + 1) * k;
    ModShift(cap + 1, i, -k);
    ModOf(cap + 1, k - 1, cap);
    ModOf(cap + 1, 0, i);
  }

  /** The tail repeats the head; in a small table the rest of the tail is empty. */
  ghost predicate Mirrored(c: seq<int>, cap: nat, w: nat)
    requires |c| == cap + w + 1
  {
    && (forall i :: 0 <= i < cap && i < w - 1 ==> c[cap + 1 + i] == c[i])
    && (forall x :: 2 * cap + 1 <= x < cap + w ==> c[x] == K_EMPTY)
  }

  ghost predicate CtrlOk(c: seq<int>, cap: nat, w: nat) {
    && |c| == cap + w + 1
    && c[cap] == K_SENTINEL
    && (forall i :: 0 <= i < cap ==> SlotByte(c[i]))
    && Mirrored(c, cap, w)
  }

  /** A linear load of w bytes at offset o sees at distance Dist(o, p) the byte of position p,
      whether or not the window wraps around the end of the table. */
  lemma LoadSees(c: seq<int>, cap: nat, w: nat, o: nat, p: nat)
    requires Geometry(cap, w) && CtrlOk(c, cap, w) && o <= cap && p <= cap
    requires Dist(cap + 1, o, p) < w
    ensures c[o + Dist(cap + 1, o, p)] == c[p]
  {
  }

  /** Conversely, the j-th loaded byte belongs to the position that `offset(j)` decodes; only in
      a small table the load may run into the empty padding. */
  lemma LoadIs(c: seq<int>, cap: nat, w: nat, o: nat, j: nat)
    requires Geometry(cap, w) && CtrlOk(c, cap, w) && o <= cap && j < w
    ensures o + j < |c|
    ensures o + j <= 2 * cap ==> c[o + j] == c[(o + j) % (cap + 1)] && Dist(cap + 1, o, (o + j) % (cap + 1)) <= j
    ensures o + j > 2 * cap ==> IsSmall(cap, w) && c[o + j] == K_EMPTY
  {
    if o + j <= 2 * cap {
      ModWrap(cap + 1, o + j);
    }
  }

  /** What a load shows are bytes of slots and the sentinel. */
  lemma LoadedBytes(c: seq<int>, cap: nat, w: nat, o: nat)
    requires Geometry(cap, w) && CtrlOk(c, cap, w) && o <= cap
    ensures o + w <= |c| && forall x :: o <= x < o + w ==> SlotByte(c[x]) || c[x] == K_SENTINEL
  {
    hide IsPow2, Mirrored;
    forall x | o <= x < o + w ensures SlotByte(c[x]) || c[x] == K_SENTINEL {
      LoadIs(c, cap, w, o, x - o);
    }
  }

  /** Index of the second byte that `set_ctrl` writes. */
  function MirrorIndex(cap: nat, w: nat, i: nat): int
    requires w > 0
  {
    (i - w) % (cap + 1) + 1 + (w - 1) % (cap + 1)
  }

  lemma MirrorIndexIs(cap: nat, w: nat, i: nat)
    requires Geometry(cap, w) && i < cap
    ensures MirrorIndex(cap, w, i) == if i < w then cap + 1 + i else i
  {
    if IsSmall(cap, w) {
      SmallIsHalf(cap, w);
      SmallMod(cap, w, i);
    } else {
      ModOf(cap + 1, 0, w - 1);
      IndexBefore(cap, w, i);
    }
  }

  /** `set_ctrl` at slot i: the byte and its mirror. */
  ghost function WithCtrl(c: seq<int>, cap: nat, w: nat, i: nat, h: int): (r: seq<int>)
    requires Geometry(cap, w) && CtrlOk(c, cap, w) && i < cap && SlotByte(h)
    ensures CtrlOk(r, cap, w) && r[..cap + 1] == c[..cap + 1][i := h]
  {
    SetCtrlOk(c, cap, w, i, h);
    c[i := h][MirrorIndex(cap, w, i) := h]
  }

  lemma SetCtrlOk(c: seq<int>, cap: nat, w: nat, i: nat, h: int)
    requires Geometry(cap, w) && CtrlOk(c, cap, w) && i < cap && SlotByte(h)
    ensures 0 <= MirrorIndex(cap, w, i) < |c|
    ensures CtrlOk(c[i := h][MirrorIndex(cap, w, i) := h], cap, w)
    ensures c[i := h][MirrorIndex(cap, w, i) := h][..cap + 1] == c[..cap + 1][i := h]
  {
    hide IsPow2, MirrorIndex, CtrlOk;
    MirrorIndexIs(cap, w, i);
    if IsSmall(cap, w) { SmallIsHalf(cap, w); }
    MirrorWritten(c, cap, w, i, MirrorIndex(cap, w, i), h);
  }

  lemma MirrorWritten(c: seq<int>, cap: nat, w: nat, i: nat, x: int, h: int)
    requires CtrlOk(c, cap, w) && i < cap && SlotByte(h) && x == (if i < w then cap + 1 + i else i)
    requires IsSmall(cap, w) ==> 2 * (cap + 1) <= w
    ensures x < |c| && CtrlOk(c[i := h][x := h], cap, w) && c[i := h][x := h][..cap + 1] == c[..cap + 1][i := h]
  {
  }

  // ---------- reachability ----------

  /** Number of the window in which a search for `hash` meets position p. */
  ghost function WindowRank(cap: nat, w: nat, hash: nat, p: nat): (n: nat)
    requires Geometry(cap, w) && p <= cap
    ensures w > 0 && n < Windows(cap + 1, w)
  {
    WidthIsPow2(cap, w);
    WindowNo(cap + 1, w, H1(hash), p)
  }

  /** No window that a search for `hash` visits before the one with slot p holds an empty byte,
      so the search does not stop too early. `b` are the bytes of the positions 0..cap. */
  ghost predicate Reachable(b: seq<int>, w: nat, hash: nat, p: nat)
    requires 0 < |b| && Geometry(|b| - 1, w) && p < |b|
  {
    forall q :: 0 <= q < |b| && WindowRank(|b| - 1, w, hash, q) < WindowRank(|b| - 1, w, hash, p) ==> b[q] != K_EMPTY
  }

  /** The stronger property of a slot picked by `find_first_non_full`. */
  ghost predicate Packed(b: seq<int>, w: nat, hash: nat, p: nat)
    requires 0 < |b| && Geometry(|b| - 1, w) && p < |b|
  {
    forall q :: 0 <= q < |b| && WindowRank(|b| - 1, w, hash, q) < WindowRank(|b| - 1, w, hash, p) ==>
      !IsEmptyOrDeleted(b[q])
  }

  lemma PackedIsReachable(b: seq<int>, w: nat, hash: nat, p: nat)
    requires 0 < |b| && Geometry(|b| - 1, w) && p < |b| && Packed(b, w, hash, p)
    ensures Reachable(b, w, hash, p)
  {
  }

  /** Writing anything but an empty byte keeps every slot reachable. */
  lemma NonEmptyKeepsReachable(b: seq<int>, w: nat, hash: nat, p: nat, i: nat, h: int)
    requires 0 < |b| && Geometry(|b| - 1, w) && p < |b| && i < |b|
    requires Reachable(b, w, hash, p) && h != K_EMPTY
    ensures Reachable(b[i := h], w, hash, p)
  {
  }

  /** Filling a slot keeps every packed slot packed. */
  lemma FullKeepsPacked(b: seq<int>, w: nat, hash: nat, p: nat, i: nat, h: int)
    requires 0 < |b| && Geometry(|b| - 1, w) && p < |b| && i < |b|
    requires Packed(b, w, hash, p) && (IsFull(h) || IsEmptyOrDeleted(b[i]))
    ensures Packed(b[i := h], w, hash, p)
  {
  }

  // ---------- groups ----------

  function MatchEmpty(g: seq<int>): (m: seq<bool>)
    ensures |m| == |g| && forall j :: 0 <= j < |g| ==> m[j] == (g[j] == K_EMPTY)
  {
    seq(|g|, j requires 0 <= j < |g| => g[j] == K_EMPTY)
  }

  function MatchEmptyOrDeleted(g: seq<int>): (m: seq<bool>)
    ensures |m| == |g| && forall j :: 0 <= j < |g| ==> m[j] == IsEmptyOrDeleted(g[j])
  {
    seq(|g|, j requires 0 <= j < |g| => IsEmptyOrDeleted(g[j]))
  }

  /** Length of the run of clear bits at the low end of a bit mask; its size if no bit is set. */
  function TrailingZeros(m: seq<bool>): (z: nat)
    ensures z <= |m| && (forall j :: 0 <= j < z ==> !m[j]) && (z < |m| ==> m[z])
  {
    if m == [] || m[0] then 0 else 1 + TrailingZeros(m[1..])
  }

  /** Length of the run of clear bits at the high end of a bit mask. */
  function LeadingZeros(m: seq<bool>): (z: nat)
    ensures z <= |m| && (forall j :: |m| - z <= j < |m| ==> !m[j]) && (z < |m| ==> m[|m| - 1 - z])
  {
    if m == [] || m[|m| - 1] then 0 else 1 + LeadingZeros(m[..|m| - 1])
  }

  // ---------- erasing ----------

  /** The test of `erase_meta_only`: the run of non-empty bytes around slot i is shorter than w. */
  predicate WasNeverFull(c: seq<int>, cap: nat, w: nat, i: nat)
    requires w > 0 && i < cap && |c| == cap + w + 1
  {
    var before := (i - w) % (cap + 1);
    var emptyAfter := MatchEmpty(c[i..i + w]);
    var emptyBefore := MatchEmpty(c[before..before + w]);
    && true in emptyBefore && true in emptyAfter
    && TrailingZeros(emptyAfter) + LeadingZeros(emptyBefore) < w
  }

  /** Any window with slot i also holds an empty position at distance a after it or z + 1 before it. */
  lemma WindowMeetsRun(m: nat, w: nat, o: nat, i: nat, qa: nat, qz: nat)
    requires o < m && i < m && qa < m && qz < m && w <= m
    requires Dist(m, i, qa) + Dist(m, qz, i) <= w && Dist(m, o, i) < w && qz != i
    ensures Dist(m, o, qa) < w || Dist(m, o, qz) < w
  {
  }

  lemma EmptyBehind(c: seq<int>, cap: nat, w: nat, i: nat, a: nat) returns (q: nat)
    requires Geometry(cap, w) && CtrlOk(c, cap, w) && i < cap && !IsSmall(cap, w)
    requires a < w && c[i + a] == K_EMPTY
    ensures q <= cap && c[q] == K_EMPTY && Dist(cap + 1, i, q) <= a
  {
    LoadIs(c, cap, w, i, a);
    q := (i + a) % (cap + 1);
  }

  lemma EmptyAhead(c: seq<int>, cap: nat, w: nat, i: nat, before: nat, z: nat) returns (q: nat)
    requires Geometry(cap, w) && CtrlOk(c, cap, w) && i < cap && !IsSmall(cap, w)
    requires before == if i < w then i - w + cap + 1 else i - w
    requires z < w && c[before + (w - 1 - z)] == K_EMPTY
    ensures q <= cap && c[q] == K_EMPTY && Dist(cap + 1, q, i) <= z + 1
  {
    LoadIs(c, cap, w, before, w - 1 - z);
    ModWrap(cap + 1, before + (w - 1 - z));
    q := (before + (w - 1 - z)) % (cap + 1);
  }

  lemma IndexBefore(cap: nat, w: nat, i: nat)
    requires i < cap && !IsSmall(cap, w)
    ensures (i - w) % (cap + 1) == if i < w then i - w + cap + 1 else i - w
  {
    var m := cap + 1;
    if i < w { ModOf(m, -1, i - w + m); } else { ModOf(m, 0, i - w); }
  }

  lemma NeverFullNeighbours(c: seq<int>, cap: nat, w: nat, i: nat) returns (qa: nat, qz: nat)
    requires Geometry(cap, w) && CtrlOk(c, cap, w) && i < cap && !IsSmall(cap, w)
    requires WasNeverFull(c, cap, w, i) && IsFull(c[i])
    ensures qa <= cap && qz <= cap && c[qa] == K_EMPTY && c[qz] == K_EMPTY && qz != i
    ensures Dist(cap + 1, i, qa) + Dist(cap + 1, qz, i) <= w
  {
    IndexBefore(cap, w, i);
    var before: nat := if i < w then i - w + cap + 1 else i - w;
    var a, z := RunLengths(c, cap, w, i, before);
    qa := EmptyBehind(c, cap, w, i, a);
    qz := EmptyAhead(c, cap, w, i, before, z);
  }

  lemma RunLengths(c: seq<int>, cap: nat, w: nat, i: nat, before: nat) returns (a: nat, z: nat)
    requires w > 0 && i < cap && |c| == cap + w + 1 && before == (i - w) % (cap + 1)
    requires WasNeverFull(c, cap, w, i)
    ensures a + z < w && c[i + a] == K_EMPTY && c[before + (w - 1 - z)] == K_EMPTY
  {
    hide TrailingZeros, LeadingZeros, MatchEmpty;
    a := TrailingZeros(MatchEmpty(c[i..i + w]));
    z := LeadingZeros(MatchEmpty(c[before..before + w]));
    assert MatchEmpty(c[i..i + w])[a];
    assert MatchEmpty(c[before..before + w])[w - 1 - z];
  }

  /** A search window through a slot that was never full holds another empty byte. */
  lemma NeverFullWindow(c: seq<int>, cap: nat, w: nat, i: nat, hash: nat) returns (q: nat)
    requires Geometry(cap, w) && CtrlOk(c, cap, w) && i < cap && !IsSmall(cap, w)
    requires WasNeverFull(c, cap, w, i) && IsFull(c[i])
    ensures q <= cap && c[q] == K_EMPTY
    ensures WindowRank(cap, w, hash, q) == WindowRank(cap, w, hash, i)
  {
    WidthIsPow2(cap, w);
    var m, h, n := cap + 1, H1(hash), WindowRank(cap, w, hash, i);
    var qa, qz := NeverFullNeighbours(c, cap, w, i);
    WindowMeetsRun(m, w, Offset(m, w, h, n), i, qa, qz);
    q := if InWindow(m, w, h, n, qa) then qa else qz;
    WindowNoIs(m, w, h, q, n);
  }

  /** Some window through slot i is without an empty byte. */
  ghost predicate OnceFull(c: seq<int>, cap: nat, w: nat, i: nat)
    requires |c| > cap && i <= cap
  {
    exists o :: 0 <= o <= cap && Dist(cap + 1, o, i) < w && FullWindow(c, cap, w, o)
  }

  ghost predicate FullWindow(c: seq<int>, cap: nat, w: nat, o: nat)
    requires |c| > cap && o <= cap
  {
    forall q :: 0 <= q <= cap && Dist(cap + 1, o, q) < w ==> c[q] != K_EMPTY
  }

  /** The test is exact: it fails when some window through the slot has no empty byte, so that a
      search may have passed over it. */
  lemma NeverFullIff(c: seq<int>, cap: nat, w: nat, i: nat)
    requires Geometry(cap, w) && CtrlOk(c, cap, w) && i < cap && !IsSmall(cap, w) && IsFull(c[i])
    ensures WasNeverFull(c, cap, w, i) <==> !OnceFull(c, cap, w, i)
  {
    if WasNeverFull(c, cap, w, i) {
      var qa, qz := NeverFullNeighbours(c, cap, w, i);
      forall o | 0 <= o <= cap && Dist(cap + 1, o, i) < w ensures !FullWindow(c, cap, w, o) {
        WindowMeetsRun(cap + 1, w, o, i, qa, qz);
      }
    } else {
      var o := FullRun(c, cap, w, i);
      assert OnceFull(c, cap, w, i);
    }
  }

  /** Otherwise the run of bytes around the slot holds such a window. */
  lemma FullRun(c: seq<int>, cap: nat, w: nat, i: nat) returns (o: nat)
    requires Geometry(cap, w) && CtrlOk(c, cap, w) && i < cap && !IsSmall(cap, w) && IsFull(c[i])
    requires !WasNeverFull(c, cap, w, i)
    ensures o <= cap && Dist(cap + 1, o, i) < w && FullWindow(c, cap, w, o)
  {
    hide IsPow2, Mirrored;
    IndexBefore(cap, w, i);
    var before: nat := if i < w then i - w + cap + 1 else i - w;
    var a, z := Runs(c, cap, w, i, before);
    var k := if z < w - 1 then z else w - 1;
    o := if i < k then i - k + cap + 1 else i - k;
    forall q | 0 <= q <= cap && Dist(cap + 1, o, q) < w ensures c[q] != K_EMPTY {
      if Dist(cap + 1, o, q) < k {
        assert Dist(cap + 1, before, q) < w && Dist(cap + 1, before, q) >= w - z;
        LoadSees(c, cap, w, before, q);
      } else if q != i {
        assert Dist(cap + 1, i, q) == Dist(cap + 1, o, q) - k < a;
        LoadSees(c, cap, w, i, q);
      }
    }
  }

  lemma Runs(c: seq<int>, cap: nat, w: nat, i: nat, before: nat) returns (a: nat, z: nat)
    requires w > 0 && i < cap && |c| == cap + w + 1 && before == (i - w) % (cap + 1)
    requires !WasNeverFull(c, cap, w, i)
    ensures a <= w && z <= w && a + z >= w
    ensures forall x :: i <= x < i + a ==> c[x] != K_EMPTY
    ensures forall x :: before + w - z <= x < before + w ==> c[x] != K_EMPTY
  {
    hide TrailingZeros, LeadingZeros, MatchEmpty;
    var after, ahead := MatchEmpty(c[i..i + w]), MatchEmpty(c[before..before + w]);
    a := TrailingZeros(after);
    z := LeadingZeros(ahead);
    forall x | i <= x < i + a ensures c[x] != K_EMPTY {
      assert !after[x - i];
    }
    forall x | before + w - z <= x < before + w ensures c[x] != K_EMPTY {
      assert !ahead[x - before];
    }
  }

  lemma SmallRankIsZero(cap: nat, w: nat, hash: nat, p: nat)
    requires Geometry(cap, w) && IsSmall(cap, w) && p <= cap
    ensures WindowRank(cap, w, hash, p) == 0
  {
  }

  /** Tombstone soundness: the byte that `erase_meta_only` writes keeps every other slot reachable. */
  lemma EraseKeepsReachable(c: seq<int>, cap: nat, w: nat, i: nat, hash: nat, p: nat)
    requires Geometry(cap, w) && CtrlOk(c, cap, w) && i < cap && p <= cap && IsFull(c[i])
    requires Reachable(c[..cap + 1], w, hash, p)
    ensures Reachable(c[..cap + 1][i := if WasNeverFull(c, cap, w, i) then K_EMPTY else K_DELETED], w, hash, p)
  {
    hide WasNeverFull, WindowRank, IsPow2, Mirrored;
    var b := c[..cap + 1];
    if !WasNeverFull(c, cap, w, i) {
      NonEmptyKeepsReachable(b, w, hash, p, i, K_DELETED);
    } else if !IsSmall(cap, w) {
      var q := NeverFullWindow(c, cap, w, i, hash);
      assert b[q] == K_EMPTY;
    } else {
      SmallRankIsZero(cap, w, hash, p);
    }
  }

  /** In a small table every window ends in padding, so erasing never leaves a tombstone. */
  lemma SmallNeverTombstone(c: seq<int>, cap: nat, w: nat, i: nat)
    requires Geometry(cap, w) && CtrlOk(c, cap, w) && i < cap && IsSmall(cap, w)
    ensures WasNeverFull(c, cap, w, i)
  {
    SmallIsHalf(cap, w);
    SmallMod(cap, w, i);
    var g := c[i..i + w];
    assert g[w - 1] == c[i + w - 1] == K_EMPTY;
    assert MatchEmpty(g)[w - 1];
  }

  // ---------- scanning a window ----------

  function WindowOffset(cap: nat, w: nat, hash: nat, n: nat): (o: nat)
    ensures o <= cap
  {
    Offset(cap + 1, w, H1(hash), n)
  }

  /** A position of window n shows up in the bytes loaded for that window. */
  lemma PositionLoaded(c: seq<int>, cap: nat, w: nat, hash: nat, n: nat, q: nat) returns (j: nat)
    requires Geometry(cap, w) && CtrlOk(c, cap, w) && q <= cap && WindowRank(cap, w, hash, q) == n
    ensures j < w && c[WindowOffset(cap, w, hash, n) + j] == c[q]
    ensures (WindowOffset(cap, w, hash, n) + j) % (cap + 1) == q
    ensures WindowOffset(cap, w, hash, n) + j <= 2 * cap
  {
    var o := WindowOffset(cap, w, hash, n);
    j := Dist(cap + 1, o, q);
    LoadSees(c, cap, w, o, q);
    ModWrap(cap + 1, o + j);
  }

  /** A byte loaded for window n, other than padding, is the byte of a position of window n. */
  lemma LoadedPosition(c: seq<int>, cap: nat, w: nat, hash: nat, n: nat, j: nat)
    requires Geometry(cap, w) && CtrlOk(c, cap, w) && n < Windows(cap + 1, w) && j < w
    ensures var x := WindowOffset(cap, w, hash, n) + j;
      if x <= 2 * cap then c[x] == c[x % (cap + 1)] && WindowRank(cap, w, hash, x % (cap + 1)) == n
      else IsSmall(cap, w) && c[x] == K_EMPTY
  {
    var o := WindowOffset(cap, w, hash, n);
    LoadIs(c, cap, w, o, j);
    WidthIsPow2(cap, w);
    if o + j <= 2 * cap {
      WindowNoIs(cap + 1, w, H1(hash), (o + j) % (cap + 1), n);
    }
  }

  /** The whole load of a small table ends in padding. */
  lemma SmallLoadHasEmpty(c: seq<int>, cap: nat, w: nat, o: nat)
    requires Geometry(cap, w) && CtrlOk(c, cap, w) && IsSmall(cap, w) && o <= cap
    ensures 2 * cap + 1 - o < w && c[o + (2 * cap + 1 - o)] == K_EMPTY
    ensures (2 * cap + 1) % (cap + 1) == cap
  {
    SmallIsHalf(cap, w);
    ModWrap(cap + 1, 2 * cap + 1);
  }

  // ---------- capacity arithmetic ----------

  /** Rounds up to the next power of two minus one, and to 1 for 0. */
  function NormalizeCapacity(n: nat): (r: nat)
    ensures r >= n && r >= 1 && IsPow2(r + 1)
  {
    if n <= 1 then 1 else 2 * NormalizeCapacity(n / 2) + 1
  }

  lemma {:induction false} NormalizeLeast(n: nat, cap: nat)
    requires IsPow2(cap + 1) && cap >= 1 && cap >= n
    ensures NormalizeCapacity(n) <= cap
    decreases n
  {
    if n > 1 {
      NormalizeLeast(n / 2, (cap + 1) / 2 - 1);
    }
  }

  /** 7/8 of the capacity; x - x/8 is corrected at 7 for groups of eight. */
  function CapacityToGrowth(w: nat, cap: nat): (g: nat)
    ensures g <= cap
  {
    if w == 8 && cap == 7 then 6 else cap - cap / 8
  }

  function GrowthToLowerboundCapacity(w: nat, growth: nat): nat {
    if w == 8 && growth == 7 then 8
    else if growth == 0 then 0
    else growth + (growth - 1) / 7
  }

  /** `reserve(n)`: the capacity it asks for takes n elements without growing. */
  lemma ReserveSuffices(w: nat, growth: nat)
    ensures CapacityToGrowth(w, NormalizeCapacity(GrowthToLowerboundCapacity(w, growth))) >= growth
  {
    var x := GrowthToLowerboundCapacity(w, growth);
    var cap := NormalizeCapacity(x);
    if growth > 0 && !(w == 8 && cap == 7) {
      assert x - x / 8 >= growth;
      assert cap - cap / 8 >= x - x / 8;
    }
  }
}
