/** Runs of elements moved within an array and between arrays, element by element. */
module ArrayMoves {

  /** s with x written over it from place j on. */
  function Placed<A>(s: seq<A>, j: nat, x: seq<A>): (r: seq<A>)
    requires j + |x| <= |s|
    ensures |r| == |s|
  {
    s[..j] + x + s[j + |x|..]
  }

  lemma PlacedNext<A>(s: seq<A>, j: nat, x: seq<A>, e: A)
    requires j + |x| < |s|
    ensures Placed(s, j, x)[j + |x| := e] == Placed(s, j, x + [e])
  {
  }

  lemma PlacedPrev<A>(s: seq<A>, j: nat, x: seq<A>, e: A)
    requires 0 < j && j + |x| <= |s|
    ensures Placed(s, j, x)[j - 1 := e] == Placed(s, j - 1, [e] + x)
  {
  }

  lemma PlacedOutside<A>(s: seq<A>, j: nat, x: seq<A>, i: nat)
    requires j + |x| <= |s| && i < |s|
    ensures i < j || j + |x| <= i ==> Placed(s, j, x)[i] == s[i]
  {
  }

  lemma PlacedFront<A>(s: seq<A>, j: nat, x: seq<A>)
    requires j + |x| <= |s|
    ensures Placed(s, j, x)[..j + |x|] == s[..j] + x
  {
  }

  lemma Slice<A>(s: seq<A>, n: nat, i: nat, j: nat)
    requires i <= j <= n <= |s|
    ensures s[..n][i..j] == s[i..j]
  {
  }

  /** Elements i .. i + n of src to place j of another array. */
  method MoveN<A>(src: array<A>, i: nat, n: nat, dst: array<A>, j: nat)
    requires src != dst && i + n <= src.Length && j + n <= dst.Length
    modifies dst
    ensures dst[..] == Placed(old(dst[..]), j, src[..][i..i + n])
  {
    hide Placed;
    ghost var s := dst[..];
    PlacedNone(s, j);
    assert src[..][i..i + 0] == [];
    for k := 0 to n
      invariant dst[..] == Placed(s, j, src[..][i..i + k])
    {
      PlacedNext(s, j, src[..][i..i + k], src[i + k]);
      assert src[..][i..i + k] + [src[i + k]] == src[..][i..i + k + 1];
      ghost var before := dst[..];
      dst[j + k] := src[i + k];
      assert dst[..] == before[j + k := src[i + k]];
    }
  }

  lemma PlacedNone<A>(s: seq<A>, j: nat)
    requires j <= |s|
    ensures Placed(s, j, []) == s
  {
  }

  /** Within one array, to the left. */
  method ShiftDown<A>(a: array<A>, from: nat, to: nat, n: nat)
    requires to <= from && from + n <= a.Length
    modifies a
    ensures a[..] == Placed(old(a[..]), to, old(a[..])[from..from + n])
  {
    hide Placed;
    ghost var s := a[..];
    PlacedNone(s, to);
    assert s[from..from + 0] == [];
    for k := 0 to n
      invariant a[..] == Placed(s, to, s[from..from + k])
    {
      PlacedNext(s, to, s[from..from + k], s[from + k]);
      PlacedOutside(s, to, s[from..from + k], from + k);
      assert s[from..from + k] + [s[from + k]] == s[from..from + k + 1];
      ghost var before := a[..];
      assert a[from + k] == before[from + k];
      a[to + k] := a[from + k];
      assert a[..] == before[to + k := s[from + k]];
    }
  }

  /** Within one array, to the right, the last element first. */
  method ShiftUp<A>(a: array<A>, from: nat, to: nat, n: nat)
    requires from <= to && to + n <= a.Length
    modifies a
    ensures a[..] == Placed(old(a[..]), to, old(a[..])[from..from + n])
  {
    hide Placed;
    ghost var s := a[..];
    PlacedNone(s, to + n);
    assert s[from + n..from + n] == [];
    for k := n downto 0
      invariant a[..] == Placed(s, to + k, s[from + k..from + n])
    {
      PlacedPrev(s, to + k + 1, s[from + k + 1..from + n], s[from + k]);
      PlacedOutside(s, to + k + 1, s[from + k + 1..from + n], from + k);
      assert [s[from + k]] + s[from + k + 1..from + n] == s[from + k..from + n];
      ghost var before := a[..];
      assert a[from + k] == before[from + k];
      a[to + k] := a[from + k];
      assert a[..] == before[to + k := s[from + k]];
    }
  }

  /** The first k elements of src go behind the first n of dst. */
  method Append<A>(dst: array<A>, n: nat, src: array<A>, k: nat)
    requires dst != src && n + k <= dst.Length && k <= src.Length
    modifies dst
    ensures dst[..n + k] == old(dst[..n]) + src[..k]
  {
    ghost var s := dst[..];
    MoveN(src, 0, k, dst, n);
    PlacedFront(s, n, src[..][0..k]);
  }

  /** Drops the first m of the first n elements. */
  method DropFront<A>(a: array<A>, n: nat, m: nat)
    requires m <= n <= a.Length
    modifies a
    ensures a[..n - m] == old(a[..n])[m..]
  {
    ghost var s := a[..];
    ShiftDown(a, m, 0, n - m);
    PlacedFront(s, 0, s[m..n]);
  }

  /** Makes room for m elements in front of the first n. */
  method RoomInFront<A>(a: array<A>, n: nat, m: nat)
    requires n + m <= a.Length
    modifies a
    ensures a[m..n + m] == old(a[..n])
  {
    ghost var s := a[..];
    ShiftUp(a, 0, m, n);
    PlacedFront(s, m, s[0..n]);
    assert a[..n + m][m..] == s[0..n];
  }

  /** k elements of src from place i on become the first k of dst. */
  method CopyToFront<A>(dst: array<A>, src: array<A>, i: nat, k: nat, ghost n: nat)
    requires dst != src && k <= n <= dst.Length && i + k <= src.Length
    modifies dst
    ensures dst[..k] == src[..][i..i + k] && dst[k..n] == old(dst[k..n])
  {
    ghost var s := dst[..];
    MoveN(src, i, k, dst, 0);
    PlacedFront(s, 0, src[..][i..i + k]);
    assert dst[k..n] == s[k..n];
  }

  /** The first n elements of dst move behind k elements of src. */
  method PutInFront<A>(dst: array<A>, n: nat, src: array<A>, i: nat, k: nat)
    requires dst != src && n + k <= dst.Length && i + k <= src.Length
    modifies dst
    ensures dst[..n + k] == src[..][i..i + k] + old(dst[..n])
  {
    RoomInFront(dst, n, k);
    ghost var r := dst[k..n + k];
    CopyToFront(dst, src, i, k, n + k);
    FrontAndRest(dst[..], k, n + k, src[..][i..i + k], r);
  }

  lemma WrittenInFront<A>(s: seq<A>, k: nat, v: A, n: nat)
    requires k < n <= |s|
    ensures s[k := v][k..n] == [v] + s[k + 1..n]
  {
  }

  /** The same with the value v in between. */
  method PutInFrontWith<A>(dst: array<A>, n: nat, v: A, src: array<A>, i: nat, k: nat)
    requires dst != src && n + 1 + k <= dst.Length && i + k <= src.Length
    modifies dst
    ensures dst[..n + k + 1] == src[..][i..i + k] + ([v] + old(dst[..n]))
  {
    RoomInFront(dst, n, k + 1);
    ghost var s := dst[..];
    dst[k] := v;
    WrittenInFront(s, k, v, n + k + 1);
    assert dst[..] == s[k := v];
    CopyToFront(dst, src, i, k, n + k + 1);
    FrontAndRest(dst[..], k, n + k + 1, src[..][i..i + k], [v] + s[k + 1..n + k + 1]);
  }

  lemma FrontAndRest<A>(s: seq<A>, k: nat, n: nat, a: seq<A>, b: seq<A>)
    requires k <= n <= |s| && s[..k] == a && s[k..n] == b
    ensures s[..n] == a + b
  {
    assert s[..n] == s[..k] + s[k..n];
  }

  function InsertAt<A>(s: seq<A>, i: nat, x: A): seq<A>
    requires i <= |s|
  {
    s[..i] + [x] + s[i..]
  }

  function RemoveAt<A>(s: seq<A>, i: nat): seq<A>
    requires i < |s|
  {
    s[..i] + s[i + 1..]
  }
}
