/** The probe sequence of the hash table: windows of `width` control bytes whose offsets
    advance by width, 2*width, 3*width, ... modulo a power of two. */
module ProbeSequence {

  ghost predicate IsPow2(n: int)
    decreases n
  {
    n == 1 || (n > 1 && n % 2 == 0 && IsPow2(n / 2))
  }

  function Tri(n: nat): nat {
    if n == 0 then 0 else n + Tri(n - 1)
  }

  // ---------- arithmetic ----------

  lemma MulAdd(a: int, b: int, c: int)
    ensures a * (b + c) == a * b + a * c
    ensures a * (b - c) == a * b - a * c
  {
  }

  lemma MulAssoc(a: int, b: int, c: int)
    ensures a * (b * c) == (a * b) * c
  {
  }

  lemma MulGrows(p: int, d: int)
    requires p > 0
    ensures d >= 1 ==> p * d >= p
    ensures d <= -1 ==> p * d <= -p
  {
    if d >= 1 {
      MulAdd(p, d - 1, 1);
      assert p * (d - 1) >= 0;
    } else if d <= -1 {
      MulAdd(p, d + 1, -1);
      assert p * (d + 1) <= 0;
    }
  }

  /** Quotient and remainder are unique. */
  lemma ModOf(p: int, q: int, r: int)
    requires 0 <= r < p
    ensures (p * q + r) % p == r && (p * q + r) / p == q
  {
    var x := p * q + r;
    assert x == p * (x / p) + x % p;
    MulAdd(p, x / p, q);
    MulGrows(p, x / p - q);
  }

  /** Adding a multiple of the modulus does not change a remainder. */
  lemma ModShift(p: int, x: int, k: int)
    requires p > 0
    ensures (x + p * k) % p == x % p
  {
    MulAdd(p, x / p, k);
    ModOf(p, x / p + k, x % p);
  }

  /** A remainder may be taken before an addition. */
  lemma ModAdd(p: int, x: int, y: int)
    requires p > 0
    ensures (x + y) % p == (x % p + y) % p
  {
    ModShift(p, x % p + y, x / p);
  }

  // ---------- triangular numbers modulo a power of two ----------

  lemma {:induction false} TriClosed(n: nat)
    ensures 2 * Tri(n) == n * (n + 1)
  {
    if n > 0 {
      TriClosed(n - 1);
      MulAdd(n, n - 1, 2);
    }
  }

  lemma TriDifference(a: nat, b: nat)
    ensures 2 * (Tri(a) - Tri(b)) == (a - b) * (a + b + 1)
  {
    TriClosed(a);
    TriClosed(b);
    MulAdd(a + b + 1, a, b);
    MulAdd(a, a + 1, b);
    MulAdd(b, b + 1, a);
  }

  lemma OddTimes(a: int, y: int)
    ensures (2 * a + 1) * y == 2 * (a * y) + y
  {
    MulAdd(y, 2 * a, 1);
    MulAssoc(2, a, y);
  }

  lemma EvenTimes(x: int, b: int)
    ensures x * (2 * b) == 2 * (x * b)
  {
    MulAssoc(x, 2, b);
    MulAssoc(2, x, b);
  }

  /** An odd factor leaves the factor 2 to the other one. */
  lemma OddHalf(x: int, y: int, z: int) returns (b: int)
    requires x % 2 == 1 && x * y == 2 * z
    ensures y == 2 * b && x * b == z
  {
    OddTimes(x / 2, y);
    b := y / 2;
    EvenTimes(x, b);
  }

  /** An odd factor can be cancelled from divisibility by a power of two. */
  lemma {:induction false} OddCancels(p: nat, x: nat, y: int, k: int) returns (j: int)
    requires IsPow2(p) && x % 2 == 1 && x * y == p * k
    ensures y == p * j
    decreases p
  {
    if p == 1 {
      j := y;
    } else {
      var q := p / 2;
      MulAssoc(2, q, k);
      var b := OddHalf(x, y, q * k);
      j := OddCancels(q, x, b, k);
      MulAssoc(2, q, j);
    }
  }

  lemma SmallNotMultiple(p: nat, x: nat, j: int)
    requires 0 < x < p
    ensures x != p * j
  {
    MulGrows(p, j);
  }

  lemma ModDifference(p: nat, x: int, y: int) returns (k: int)
    requires p > 0 && x % p == y % p
    ensures x - y == p * k
  {
    MulAdd(p, x / p, y / p);
    k := x / p - y / p;
  }

  /** Triangular numbers are pairwise different modulo a power of two. */
  lemma TriInjective(p: nat, a: nat, b: nat)
    requires IsPow2(p) && b < a < p
    ensures Tri(a) % p != Tri(b) % p
  {
    if Tri(a) % p == Tri(b) % p {
      var k := ModDifference(p, Tri(a), Tri(b));
      TriDifference(a, b);
      MulAssoc(2, p, k);
      TriCollision(p, a, b, k);
    }
  }

  lemma TriCollision(p: nat, a: nat, b: nat, k: int)
    requires IsPow2(p) && b < a < p
    ensures (a - b) * (a + b + 1) != (2 * p) * k
  {
    var x, y := a - b, a + b + 1;
    if x * y == (2 * p) * k {
      assert IsPow2(2 * p);
      if x % 2 == 1 {
        var j := OddCancels(2 * p, x, y, k);
        SmallNotMultiple(2 * p, y, j);
      } else {
        var j := OddCancels(2 * p, y, x, k);
        SmallNotMultiple(2 * p, x, j);
      }
    }
  }

  // ---------- every residue is hit exactly once ----------

  ghost function Below(n: nat): (s: set<int>)
    ensures |s| == n
    ensures forall i :: i in s <==> 0 <= i < n
  {
    if n == 0 then {} else Below(n - 1) + {n - 1}
  }

  lemma SubsetSmaller<T>(s: set<T>, t: set<T>)
    requires s <= t && s != t
    ensures |s| < |t|
  {
    var x :| x in t && x !in s;
    assert t == s + {x} + (t - s - {x});
  }

  ghost function TriImage(p: nat, n: nat): set<int>
    requires p > 0
  {
    if n == 0 then {} else TriImage(p, n - 1) + {Tri(n - 1) % p}
  }

  lemma {:induction false} TriImageHas(p: nat, n: nat, b: int) returns (i: nat)
    requires p > 0 && b in TriImage(p, n)
    ensures i < n && Tri(i) % p == b
  {
    if b == Tri(n - 1) % p {
      i := n - 1;
    } else {
      i := TriImageHas(p, n - 1, b);
    }
  }

  lemma TriImageFresh(p: nat, n: nat)
    requires IsPow2(p) && n < p
    ensures Tri(n) % p !in TriImage(p, n) && 0 <= Tri(n) % p < p
  {
    if Tri(n) % p in TriImage(p, n) {
      var i := TriImageHas(p, n, Tri(n) % p);
      TriInjective(p, n, i);
    }
  }

  lemma {:induction false} TriImageSize(p: nat, n: nat)
    requires IsPow2(p) && n <= p
    ensures |TriImage(p, n)| == n && TriImage(p, n) <= Below(p)
  {
    if n > 0 {
      TriImageSize(p, n - 1);
      TriImageFresh(p, n - 1);
    }
  }

  /** Every residue modulo a power of two is hit by one of the first p triangular numbers. */
  lemma TriOnto(p: nat, b: nat) returns (i: nat)
    requires IsPow2(p) && b < p
    ensures i < p && Tri(i) % p == b
  {
    TriImageSize(p, p);
    if TriImage(p, p) != Below(p) {
      SubsetSmaller(TriImage(p, p), Below(p));
    }
    i := TriImageHas(p, p, b);
  }

  // ---------- windows ----------

  /** A power of two divides every larger one, and the quotient is again a power of two. */
  lemma {:induction false} Pow2Divides(m: nat, w: nat)
    requires IsPow2(m) && IsPow2(w) && w <= m
    ensures m == w * (m / w) && IsPow2(m / w)
    decreases w
  {
    if w > 1 {
      Pow2Divides(m / 2, w / 2);
      var n := (m / 2) / (w / 2);
      MulAssoc(2, w / 2, n);
      ModOf(w, n, 0);
    }
  }

  /** Number of windows after which the probe sequence has covered m positions. */
  function Windows(m: nat, w: nat): nat
    requires w > 0
  {
    if w <= m then m / w else 1
  }

  /** Offset of the n-th window for hash part h, in a table of m control positions. */
  function Offset(m: nat, w: nat, h: nat, n: nat): (o: nat)
    requires m > 0
    ensures o < m
  {
    (h + w * Tri(n)) % m
  }

  /** Cyclic distance from offset o forward to position p. */
  function Dist(m: nat, o: nat, p: nat): (d: nat)
    requires o < m && p < m
    ensures d < m
  {
    if o <= p then p - o else p - o + m
  }

  /** The n-th window contains position p. */
  predicate InWindow(m: nat, w: nat, h: nat, n: nat, p: nat)
    requires p < m
  {
    Dist(m, Offset(m, w, h, n), p) < w
  }

  /** Number of the aligned block, counted from the first window, that holds position p. */
  function Block(m: nat, w: nat, h: nat, p: nat): nat
    requires w > 0 && p < m
  {
    Dist(m, h % m, p) / w
  }

  lemma OffsetNext(m: nat, w: nat, h: nat, n: nat)
    requires m > 0
    ensures Offset(m, w, h, n + 1) == (Offset(m, w, h, n) + w * (n + 1)) % m
  {
    MulAdd(w, Tri(n), n + 1);
    ModAdd(m, h + w * Tri(n), w * (n + 1));
  }

  lemma ScaledMod(m: nat, w: nat, k: nat, x: nat) returns (q: nat)
    requires 0 < m && 0 < k && m == w * k
    ensures w * x == m * q + w * (x % k)
  {
    q := x / k;
    MulAdd(w, k * q, x % k);
    MulAssoc(w, k, q);
  }

  lemma OffsetByBlock(m: nat, w: nat, h: nat, n: nat, k: nat)
    requires m > 0 && k > 0 && m == w * k
    ensures Offset(m, w, h, n) == (h % m + w * (Tri(n) % k)) % m
  {
    var q := ScaledMod(m, w, k, Tri(n));
    var s := w * (Tri(n) % k);
    ModShift(m, h + s, q);
    ModAdd(m, h, s);
  }

  lemma BlockFits(w: nat, k: nat, t: nat)
    requires t < k
    ensures 0 <= w * t <= w * k - w
  {
    if w > 0 {
      MulAdd(w, k, t);
      MulGrows(w, k - t);
      MulGrows(w, t);
    }
  }

  lemma ModWrap(m: nat, x: nat)
    requires 0 < m && x < 2 * m
    ensures x % m == if x < m then x else x - m
  {
    if x < m {
      ModOf(m, 0, x);
    } else {
      ModOf(m, 1, x - m);
    }
  }

  lemma DivIs(w: nat, d: nat, b: nat)
    requires w > 0
    ensures d / w == b <==> w * b <= d < w * b + w
  {
    if w * b <= d < w * b + w {
      ModOf(w, b, d - w * b);
    }
  }

  /** The windows tile the table: window n holds exactly the positions of block Tri(n) mod k,
      counted from the first window. */
  lemma WindowIffBlock(m: nat, w: nat, h: nat, n: nat, p: nat)
    requires IsPow2(m) && IsPow2(w) && w <= m && p < m
    ensures m / w > 0
    ensures InWindow(m, w, h, n, p) <==> Block(m, w, h, p) == Tri(n) % (m / w)
  {
    Pow2Divides(m, w);
    OffsetByBlock(m, w, h, n, m / w);
    var s := w * (Tri(n) % (m / w));
    BlockFits(w, m / w, Tri(n) % (m / w));
    ModWrap(m, h % m + s);
    DivIs(w, Dist(m, h % m, p), Tri(n) % (m / w));
  }

  lemma WindowUnique(m: nat, w: nat, h: nat, p: nat, i: nat, j: nat)
    requires IsPow2(m) && IsPow2(w) && w <= m && p < m
    requires i < Windows(m, w) && j < Windows(m, w)
    requires InWindow(m, w, h, i, p) && InWindow(m, w, h, j, p)
    ensures i == j
  {
    Pow2Divides(m, w);
    WindowIffBlock(m, w, h, i, p);
    WindowIffBlock(m, w, h, j, p);
    if i < j { TriInjective(m / w, j, i); }
    if j < i { TriInjective(m / w, i, j); }
  }

  lemma BlockInRange(m: nat, w: nat, h: nat, p: nat) returns (b: nat)
    requires IsPow2(m) && IsPow2(w) && w <= m && p < m
    ensures b == Block(m, w, h, p) && b < m / w && IsPow2(m / w)
  {
    Pow2Divides(m, w);
    BlockBelow(m, w, Dist(m, h % m, p));
    b := Block(m, w, h, p);
  }

  lemma WindowOf(m: nat, w: nat, h: nat, p: nat) returns (n: nat)
    requires IsPow2(m) && IsPow2(w) && w <= m && p < m
    ensures n < Windows(m, w) && InWindow(m, w, h, n, p)
  {
    var b := BlockInRange(m, w, h, p);
    n := TriOnto(m / w, b);
    WindowIffBlock(m, w, h, n, p);
  }

  lemma BlockBelow(m: nat, w: nat, d: nat)
    requires 0 < w && m == w * (m / w) && d < m
    ensures d / w < m / w
  {
    MulAdd(w, d / w, m / w);
    MulGrows(w, d / w - m / w);
  }

  /** The first windows of every probe sequence cover each position exactly once. */
  lemma WindowsPartition(m: nat, w: nat, h: nat, p: nat)
    requires IsPow2(m) && IsPow2(w) && p < m
    ensures exists n: nat :: n < Windows(m, w) && InWindow(m, w, h, n, p)
    ensures forall i: nat, j: nat :: (i < Windows(m, w) && j < Windows(m, w)
        && InWindow(m, w, h, i, p) && InWindow(m, w, h, j, p)) ==> i == j
  {
    if w <= m {
      var n := WindowOf(m, w, h, p);
      forall i: nat, j: nat | i < Windows(m, w) && j < Windows(m, w)
        && InWindow(m, w, h, i, p) && InWindow(m, w, h, j, p) ensures i == j {
        WindowUnique(m, w, h, p, i, j);
      }
    } else {
      assert InWindow(m, w, h, 0, p);
    }
  }

  /** Number of the window, among those that cover the table, which holds position p. */
  ghost function WindowNo(m: nat, w: nat, h: nat, p: nat): (n: nat)
    requires IsPow2(m) && IsPow2(w) && p < m
    ensures n < Windows(m, w) && InWindow(m, w, h, n, p)
  {
    WindowsPartition(m, w, h, p);
    var n: nat :| n < Windows(m, w) && InWindow(m, w, h, n, p);
    n
  }

  lemma WindowNoIs(m: nat, w: nat, h: nat, p: nat, n: nat)
    requires IsPow2(m) && IsPow2(w) && p < m && n < Windows(m, w)
    ensures InWindow(m, w, h, n, p) <==> n == WindowNo(m, w, h, p)
  {
    WindowsPartition(m, w, h, p);
  }

  /** `probe_seq`: the mutable cursor over the windows. */
  class ProbeSeq {
    const width: nat
    const mask: nat
    var offset: nat
    var index: nat
    ghost const h: nat
    ghost var n: nat

    /** The cursor stands at window n of the sequence for h. */
    ghost predicate Valid()
      reads this
    {
      index == width * n && offset == Offset(mask + 1, width, h, n)
    }

    constructor (width: nat, hashval: nat, mask: nat)
      ensures Valid() && n == 0 && h == hashval && this.width == width && this.mask == mask
    {
      this.width, this.mask, this.h, this.n := width, mask, hashval, 0;
      offset, index := hashval % (mask + 1), 0;
    }

    function OffsetAt(i: nat): nat
      reads this
    {
      (offset + i) % (mask + 1)
    }

    method Next()
      requires Valid()
      modifies this
      ensures Valid() && n == old(n) + 1
    {
      OffsetNext(mask + 1, width, h, n);
      MulAdd(width, n, 1);
      index := index + width;
      offset := offset + index;
      offset := offset % (mask + 1);
      n := n + 1;
    }
  }
}
