/** The portable eight-byte group `GroupPortableImpl`: bit tricks on one 64-bit word refine the
    byte-wise matches that the table is verified with. */
module PortableGroup {
  import opened ControlBytes

  const MSBS: bv64 := 0x8080808080808080
  const LSBS: bv64 := 0x0101010101010101

  /** A byte is set, up to borrows from lower set bytes, where x has a zero byte. */
  function ZeroBytes(x: bv64): bv64 {
    (x - LSBS) & !x & MSBS
  }

  function MatchWord(ctrl: bv64, hash: bv64): bv64 {
    ZeroBytes(ctrl ^ (LSBS * hash))
  }

  function MatchEmptyWord(ctrl: bv64): bv64 {
    (ctrl & (!ctrl << 6)) & MSBS
  }

  function MatchEmptyOrDeletedWord(ctrl: bv64): bv64 {
    (ctrl & (!ctrl << 7)) & MSBS
  }

  function ConvertWord(ctrl: bv64): bv64 {
    var x := ctrl & MSBS;
    (!x + (x >> 7)) & !LSBS
  }

  /** Byte number i of a little-endian word. */
  function Lane(x: bv64, i: bv64): bv64
    requires i < 8
  {
    (x >> (8 * i)) & 0xFF
  }

  /** The bytes below lane i. */
  function Lower(x: bv64, i: bv64): bv64
    requires i < 8
  {
    x & ((1 << (8 * i)) - 1)
  }

  /** The two's complement byte of a control value. */
  function Code(c: int): bv64
    requires -128 <= c < 128
  {
    if c < 0 then (c + 256) as bv64 else c as bv64
  }

  // ---------- one byte ----------

  lemma EmptyLane(x: bv64, i: bv64)
    requires i < 8 && (Lane(x, i) < 0x80 || Lane(x, i) == 0x80 || Lane(x, i) == 0xFE || Lane(x, i) == 0xFF)
    ensures Lane(MatchEmptyWord(x), i) == if Lane(x, i) == 0x80 then 0x80 else 0
    ensures Lane(MatchEmptyOrDeletedWord(x), i) == if Lane(x, i) == 0x80 || Lane(x, i) == 0xFE then 0x80 else 0
  {
  }

  lemma ConvertLane(x: bv64, i: bv64)
    requires i < 8
    ensures Lane(ConvertWord(x), i) == if Lane(x, i) < 0x80 then 0xFE else 0x80
  {
  }

  function Repeat(b: bv64): bv64 {
    var x := b | (b << 8);
    var y := x | (x << 16);
    y | (y << 32)
  }

  lemma LsbsTimes(b: bv64)
    requires b < 0x100
    ensures LSBS * b == Repeat(b)
  {
  }

  function MatchRepeated(ctrl: bv64, r: bv64): bv64 {
    ZeroBytes(ctrl ^ r)
  }

  lemma MatchLane(x: bv64, h: bv64, i: bv64)
    requires i < 8 && h < 0x80
    ensures Lane(x, i) == h ==> Lane(MatchRepeated(x, Repeat(h)), i) == 0x80
    ensures Lane(MatchRepeated(x, Repeat(h)), i) != 0 ==> Lane(x, i) < 0x80
  {
  }

  lemma FirstMatchLane(x: bv64, h: bv64, i: bv64)
    requires i < 8 && h < 0x80
    requires Lane(MatchRepeated(x, Repeat(h)), i) != 0 && Lower(MatchRepeated(x, Repeat(h)), i) == 0
    ensures Lane(x, i) == h
  {
  }

  lemma MatchIsRepeated(x: bv64, h: bv64)
    requires h < 0x80
    ensures MatchWord(x, h) == MatchRepeated(x, Repeat(h))
  {
    hide Repeat, ZeroBytes;
    LsbsTimes(h);
  }

  lemma MatchWordLane(x: bv64, h: bv64, i: bv64)
    requires i < 8 && h < 0x80
    ensures Lane(x, i) == h ==> Lane(MatchWord(x, h), i) == 0x80
    ensures Lane(MatchWord(x, h), i) != 0 ==> Lane(x, i) < 0x80
    ensures Lane(MatchWord(x, h), i) != 0 && Lower(MatchWord(x, h), i) == 0 ==> Lane(x, i) == h
  {
    hide MatchWord, MatchRepeated, Repeat, ZeroBytes, Lane, Lower;
    MatchIsRepeated(x, h);
    MatchLane(x, h, i);
    if Lane(MatchWord(x, h), i) != 0 && Lower(MatchWord(x, h), i) == 0 {
      FirstMatchLane(x, h, i);
    }
  }

  // ---------- a whole group ----------

  lemma SmallCode(c: int)
    requires 0 <= c < 128
    ensures c as bv64 < 0x80
  {
  }

  lemma CodeIs(c: int)
    requires SlotByte(c) || c == K_SENTINEL
    ensures IsFull(c) <==> Code(c) < 0x80
    ensures c == K_EMPTY <==> Code(c) == 0x80
    ensures c == K_DELETED <==> Code(c) == 0xFE
    ensures c == K_SENTINEL <==> Code(c) == 0xFF
  {
    if c >= 0 {
      SmallCode(c);
    } else {
      assert c == -128 || c == -2 || c == -1;
    }
  }

  /** The word x holds the control bytes g. */
  ghost predicate Loaded(x: bv64, g: seq<int>) {
    && |g| == 8
    && forall j :: 0 <= j < 8 ==> (SlotByte(g[j]) || g[j] == K_SENTINEL) && Lane(x, j as bv64) == Code(g[j])
  }

  /** The masks of the word are the byte-wise masks: exact for empty and for special bytes. */
  lemma SpecialMasksRefine(x: bv64, g: seq<int>, j: int)
    requires Loaded(x, g) && 0 <= j < 8
    ensures MatchEmpty(g)[j] <==> Lane(MatchEmptyWord(x), j as bv64) == 0x80
    ensures !MatchEmpty(g)[j] <==> Lane(MatchEmptyWord(x), j as bv64) == 0
    ensures MatchEmptyOrDeleted(g)[j] <==> Lane(MatchEmptyOrDeletedWord(x), j as bv64) == 0x80
    ensures !MatchEmptyOrDeleted(g)[j] <==> Lane(MatchEmptyOrDeletedWord(x), j as bv64) == 0
  {
    hide MatchEmptyWord, MatchEmptyOrDeletedWord, Lane, Code;
    CodeIs(g[j]);
    EmptyLane(x, j as bv64);
  }

  /** Converting the word converts every byte: special to empty, full to deleted. */
  lemma ConvertRefines(x: bv64, g: seq<int>, j: int)
    requires Loaded(x, g) && 0 <= j < 8
    ensures Lane(ConvertWord(x), j as bv64) == Code(if IsFull(g[j]) then K_DELETED else K_EMPTY)
  {
    CodeIs(g[j]);
    CodeIs(K_DELETED);
    CodeIs(K_EMPTY);
    ConvertLane(x, j as bv64);
  }

  /** `Match` finds every byte with the hash bits, finds full bytes only, and the first byte that
      it finds is a true match: false positives need a real match before them. */
  lemma MatchRefines(x: bv64, g: seq<int>, h: int, j: int)
    requires Loaded(x, g) && 0 <= h < 128 && 0 <= j < 8
    ensures g[j] == h ==> Lane(MatchWord(x, Code(h)), j as bv64) == 0x80
    ensures Lane(MatchWord(x, Code(h)), j as bv64) != 0 ==> IsFull(g[j])
    ensures Lane(MatchWord(x, Code(h)), j as bv64) != 0 && Lower(MatchWord(x, Code(h)), j as bv64) == 0 ==>
      Code(g[j]) == Code(h)
  {
    hide MatchWord, Lane, Lower, Code;
    CodeIs(g[j]);
    CodeIs(h);
    MatchWordLane(x, Code(h), j as bv64);
  }

  // ---------- loading ----------

  function Pack(a: bv64, b: bv64, c: bv64, d: bv64): bv64 {
    a | (b << 8) | (c << 16) | (d << 24)
  }

  function Halves(lo: bv64, hi: bv64): bv64 {
    lo | (hi << 32)
  }

  lemma HalvesLow(lo: bv64, hi: bv64)
    requires lo < 0x1_0000_0000 && hi < 0x1_0000_0000
    ensures Lane(Halves(lo, hi), 0) == Lane(lo, 0) && Lane(Halves(lo, hi), 1) == Lane(lo, 1)
    ensures Lane(Halves(lo, hi), 2) == Lane(lo, 2) && Lane(Halves(lo, hi), 3) == Lane(lo, 3)
  {
  }

  lemma HalvesHigh(lo: bv64, hi: bv64)
    requires lo < 0x1_0000_0000 && hi < 0x1_0000_0000
    ensures Lane(Halves(lo, hi), 4) == Lane(hi, 0) && Lane(Halves(lo, hi), 5) == Lane(hi, 1)
    ensures Lane(Halves(lo, hi), 6) == Lane(hi, 2) && Lane(Halves(lo, hi), 7) == Lane(hi, 3)
  {
  }

  lemma PackLane(a: bv64, b: bv64, c: bv64, d: bv64)
    requires a < 0x100 && b < 0x100 && c < 0x100 && d < 0x100
    ensures Pack(a, b, c, d) < 0x1_0000_0000
    ensures Lane(Pack(a, b, c, d), 0) == a && Lane(Pack(a, b, c, d), 1) == b
    ensures Lane(Pack(a, b, c, d), 2) == c && Lane(Pack(a, b, c, d), 3) == d
  {
  }

  /** The little-endian word with the given bytes. */
  function Word(a: seq<bv64>): bv64
    requires |a| == 8
  {
    Halves(Pack(a[0], a[1], a[2], a[3]), Pack(a[4], a[5], a[6], a[7]))
  }

  lemma WordLane(a: seq<bv64>, j: int)
    requires |a| == 8 && (forall i :: 0 <= i < 8 ==> a[i] < 0x100) && 0 <= j < 8
    ensures Lane(Word(a), j as bv64) == a[j]
  {
    hide Lane, Pack, Halves;
    PackLane(a[0], a[1], a[2], a[3]);
    PackLane(a[4], a[5], a[6], a[7]);
    HalvesLow(Pack(a[0], a[1], a[2], a[3]), Pack(a[4], a[5], a[6], a[7]));
    HalvesHigh(Pack(a[0], a[1], a[2], a[3]), Pack(a[4], a[5], a[6], a[7]));
    assert j == 0 || j == 1 || j == 2 || j == 3 || j == 4 || j == 5 || j == 6 || j == 7;
  }

  ghost predicate GroupBytes(g: seq<int>) {
    |g| == 8 && forall j :: 0 <= j < 8 ==> SlotByte(g[j]) || g[j] == K_SENTINEL
  }

  lemma CodeIsByte(c: int)
    requires SlotByte(c) || c == K_SENTINEL
    ensures -128 <= c < 128 && Code(c) < 0x100
  {
    if c >= 0 {
      SmallCode(c);
    } else {
      assert c == -128 || c == -2 || c == -1;
    }
  }

  /** `Load`. */
  function Load(g: seq<int>): bv64
    requires |g| == 8 && forall j :: 0 <= j < 8 ==> -128 <= g[j] < 128
  {
    Word(seq(8, j requires 0 <= j < 8 => Code(g[j])))
  }

  lemma LoadIsLoaded(g: seq<int>)
    requires GroupBytes(g)
    ensures forall j :: 0 <= j < 8 ==> -128 <= g[j] < 128
    ensures Loaded(Load(g), g)
  {
    hide Lane, Word, Code;
    forall j | 0 <= j < 8 ensures -128 <= g[j] < 128 && Code(g[j]) < 0x100 {
      CodeIsByte(g[j]);
    }
    forall j | 0 <= j < 8 ensures Lane(Load(g), j as bv64) == Code(g[j]) {
      WordLane(seq(8, i requires 0 <= i < 8 => Code(g[i])), j);
    }
  }

  /** The bytes of a mask that are not zero. */
  function Flags(x: bv64): (m: seq<bool>)
    ensures |m| == 8
  {
    [Lane(x, 0) != 0, Lane(x, 1) != 0, Lane(x, 2) != 0, Lane(x, 3) != 0,
     Lane(x, 4) != 0, Lane(x, 5) != 0, Lane(x, 6) != 0, Lane(x, 7) != 0]
  }

  lemma FlagAt(x: bv64, j: int)
    requires 0 <= j < 8
    ensures Flags(x)[j] == (Lane(x, j as bv64) != 0)
  {
    hide Lane;
    assert j == 0 || j == 1 || j == 2 || j == 3 || j == 4 || j == 5 || j == 6 || j == 7;
  }

  /** The bytes that `Match` flags. */
  function PortableMatch(g: seq<int>, h: int): (m: seq<bool>)
    requires |g| == 8 && (forall j :: 0 <= j < 8 ==> -128 <= g[j] < 128) && 0 <= h < 128
    ensures |m| == 8
  {
    Flags(MatchWord(Load(g), Code(h)))
  }

  /** All bytes equal to h are flagged, and full bytes only. */
  lemma PortableMatchIs(g: seq<int>, h: int)
    requires GroupBytes(g) && 0 <= h < 128
    ensures forall j :: 0 <= j < 8 ==> -128 <= g[j] < 128
    ensures forall j :: 0 <= j < 8 ==>
      (g[j] == h ==> PortableMatch(g, h)[j]) && (PortableMatch(g, h)[j] ==> IsFull(g[j]))
  {
    LoadIsLoaded(g);
    hide Lane, MatchWord, Lower, Code, Load, Flags;
    var x := MatchWord(Load(g), Code(h));
    forall j | 0 <= j < 8
      ensures (g[j] == h ==> PortableMatch(g, h)[j]) && (PortableMatch(g, h)[j] ==> IsFull(g[j]))
    {
      FlagAt(x, j);
      MatchRefines(Load(g), g, h, j);
    }
  }
}
