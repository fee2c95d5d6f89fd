/** What the arrays of a hash table stand for: which entries they hold, that each one can be
    found along its probe sequence, and how the counters account for the control bytes. */
module TableState {
  import opened ProbeSequence
  import opened ControlBytes

  datatype Entry<K, V> = Entry(key: K, value: V)

  // In what follows b are the control bytes of the positions 0..capacity, sentinel included.

  ghost function FullSet(b: seq<int>): set<int> {
    set p | 0 <= p < |b| && IsFull(b[p])
  }

  ghost function DeletedSet(b: seq<int>): set<int> {
    set p | 0 <= p < |b| && b[p] == K_DELETED
  }

  /** The slots s at the indices `occ` hold exactly the entries of m, each key once. */
  ghost predicate Holds<K, V>(s: seq<Entry<K, V>>, occ: set<int>, m: map<K, V>) {
    && (forall p :: p in occ ==> 0 <= p < |s| && s[p].key in m && m[s[p].key] == s[p].value)
    && (forall p, q :: p in occ && q in occ && s[p].key == s[q].key ==> p == q)
    && |m| == |occ|
  }

  ghost function KeysAt<K, V>(s: seq<Entry<K, V>>, occ: set<int>): set<K>
    requires forall p :: p in occ ==> 0 <= p < |s|
  {
    set p | p in occ :: s[p].key
  }

  lemma Pick<T>(s: set<T>) returns (x: T)
    requires s != {}
    ensures x in s
  {
    x :| x in s;
  }

  lemma {:induction false} KeysAtSize<K, V>(s: seq<Entry<K, V>>, occ: set<int>)
    requires forall p :: p in occ ==> 0 <= p < |s|
    requires forall p, q :: p in occ && q in occ && s[p].key == s[q].key ==> p == q
    ensures |KeysAt(s, occ)| == |occ|
    decreases |occ|
  {
    if occ != {} {
      var p := Pick(occ);
      KeysAtSize(s, occ - {p});
      assert KeysAt(s, occ) == KeysAt(s, occ - {p}) + {s[p].key};
      assert s[p].key !in KeysAt(s, occ - {p});
    }
  }

  /** Every key of the map sits in a slot. */
  lemma HoldsKeys<K, V>(s: seq<Entry<K, V>>, occ: set<int>, m: map<K, V>)
    requires Holds(s, occ, m)
    ensures m.Keys == KeysAt(s, occ)
  {
    KeysAtSize(s, occ);
    assert KeysAt(s, occ) <= m.Keys;
    if KeysAt(s, occ) != m.Keys {
      SubsetSmaller(KeysAt(s, occ), m.Keys);
    }
  }

  lemma SlotOf<K, V>(s: seq<Entry<K, V>>, occ: set<int>, m: map<K, V>, k: K) returns (p: nat)
    requires Holds(s, occ, m) && k in m
    ensures p in occ && s[p].key == k
  {
    HoldsKeys(s, occ, m);
    assert k in KeysAt(s, occ);
    p :| p in occ && s[p].key == k;
  }

  lemma HoldsInsert<K, V>(s: seq<Entry<K, V>>, occ: set<int>, m: map<K, V>, t: nat, e: Entry<K, V>)
    requires Holds(s, occ, m) && t < |s| && t !in occ && e.key !in m
    ensures Holds(s[t := e], occ + {t}, m[e.key := e.value])
  {
    var s', m' := s[t := e], m[e.key := e.value];
    assert m'.Keys == m.Keys + {e.key};
    forall p | p in occ + {t} ensures 0 <= p < |s'| && s'[p].key in m' && m'[s'[p].key] == s'[p].value {
      assert p == t || (p in occ && s'[p] == s[p]);
    }
    forall p, q | p in occ + {t} && q in occ + {t} && s'[p].key == s'[q].key ensures p == q {
      assert p == t || (p in occ && s'[p] == s[p]);
      assert q == t || (q in occ && s'[q] == s[q]);
    }
  }

  lemma HoldsRemove<K, V>(s: seq<Entry<K, V>>, occ: set<int>, m: map<K, V>, t: nat)
    requires Holds(s, occ, m) && t in occ
    ensures s[t].key in m && Holds(s, occ - {t}, m - {s[t].key})
  {
    assert (m - {s[t].key}).Keys == m.Keys - {s[t].key};
  }

  /** Moving the entry of slot i to the free slot t. */
  lemma HoldsMove<K, V>(s: seq<Entry<K, V>>, occ: set<int>, m: map<K, V>, i: nat, t: nat)
    requires Holds(s, occ, m) && i in occ && t < |s| && t !in occ
    ensures Holds(s[t := s[i]], occ - {i} + {t}, m)
  {
  }

  /** Exchanging two stored entries. */
  lemma HoldsSwap<K, V>(s: seq<Entry<K, V>>, occ: set<int>, m: map<K, V>, i: nat, t: nat)
    requires Holds(s, occ, m) && i in occ && t in occ
    ensures Holds(s[i := s[t]][t := s[i]], occ, m)
  {
  }

  /** The entries determine the map. */
  lemma HoldsUnique<K, V>(s: seq<Entry<K, V>>, occ: set<int>, m: map<K, V>, m': map<K, V>)
    requires Holds(s, occ, m) && Holds(s, occ, m')
    ensures m == m'
  {
    HoldsKeys(s, occ, m);
    HoldsKeys(s, occ, m');
    forall k | k in m ensures m[k] == m'[k] {
      var p := SlotOf(s, occ, m, k);
    }
  }

  /** Every full slot carries the low hash bits of its key and is reachable. */
  ghost predicate AllReachable<K, V>(b: seq<int>, s: seq<Entry<K, V>>, w: nat, hash: K -> nat)
    requires 0 < |b| && Geometry(|b| - 1, w)
  {
    forall p :: p in FullSet(b) && p < |s| ==>
      b[p] == H2(hash(s[p].key)) && Reachable(b, w, hash(s[p].key), p)
  }

  ghost predicate AllPacked<K, V>(b: seq<int>, s: seq<Entry<K, V>>, w: nat, hash: K -> nat)
    requires 0 < |b| && Geometry(|b| - 1, w)
  {
    forall p :: p in FullSet(b) && p < |s| ==>
      b[p] == H2(hash(s[p].key)) && Packed(b, w, hash(s[p].key), p)
  }

  lemma PackedAreReachable<K, V>(b: seq<int>, s: seq<Entry<K, V>>, w: nat, hash: K -> nat)
    requires 0 < |b| && Geometry(|b| - 1, w) && AllPacked(b, s, w, hash)
    ensures AllReachable(b, s, w, hash)
  {
    forall p | p in FullSet(b) && p < |s|
      ensures b[p] == H2(hash(s[p].key)) && Reachable(b, w, hash(s[p].key), p)
    {
      PackedIsReachable(b, w, hash(s[p].key), p);
    }
  }

  /** Putting an entry into a packed free slot. */
  lemma FillKeepsReachable<K, V>(b: seq<int>, s: seq<Entry<K, V>>, w: nat, hash: K -> nat, t: nat, e: Entry<K, V>)
    requires 0 < |b| && Geometry(|b| - 1, w) && AllReachable(b, s, w, hash)
    requires t < |s| && t < |b| && IsEmptyOrDeleted(b[t]) && Packed(b, w, hash(e.key), t)
    ensures AllReachable(b[t := H2(hash(e.key))], s[t := e], w, hash)
  {
    var h := H2(hash(e.key));
    var b', s' := b[t := h], s[t := e];
    forall p | p in FullSet(b') && p < |s'|
      ensures b'[p] == H2(hash(s'[p].key)) && Reachable(b', w, hash(s'[p].key), p)
    {
      if p == t {
        PackedIsReachable(b, w, hash(e.key), t);
      } else {
        assert p in FullSet(b);
      }
      NonEmptyKeepsReachable(b, w, hash(s'[p].key), p, t, h);
    }
  }

  lemma FillKeepsPacked<K, V>(b: seq<int>, s: seq<Entry<K, V>>, w: nat, hash: K -> nat, t: nat, e: Entry<K, V>)
    requires 0 < |b| && Geometry(|b| - 1, w) && AllPacked(b, s, w, hash)
    requires t < |s| && t < |b| && IsEmptyOrDeleted(b[t]) && Packed(b, w, hash(e.key), t)
    ensures AllPacked(b[t := H2(hash(e.key))], s[t := e], w, hash)
  {
    var h := H2(hash(e.key));
    var b', s' := b[t := h], s[t := e];
    forall p | p in FullSet(b') && p < |s'|
      ensures b'[p] == H2(hash(s'[p].key)) && Packed(b', w, hash(s'[p].key), p)
    {
      if p != t {
        assert p in FullSet(b);
      }
      FullKeepsPacked(b, w, hash(s'[p].key), p, t, h);
    }
  }

  /** A slot that is not full may change its byte and its entry without harm to packed slots. */
  lemma FreeKeepsPacked<K, V>(b: seq<int>, s: seq<Entry<K, V>>, w: nat, hash: K -> nat, t: nat, h: int, e: Entry<K, V>)
    requires 0 < |b| && Geometry(|b| - 1, w) && AllPacked(b, s, w, hash)
    requires t < |s| && t < |b| && IsEmptyOrDeleted(b[t]) && IsEmptyOrDeleted(h)
    ensures AllPacked(b[t := h], s[t := e], w, hash)
  {
    var b', s' := b[t := h], s[t := e];
    forall p | p in FullSet(b') && p < |s'|
      ensures b'[p] == H2(hash(s'[p].key)) && Packed(b', w, hash(s'[p].key), p)
    {
      assert p in FullSet(b);
      FullKeepsPacked(b, w, hash(s'[p].key), p, t, h);
    }
  }

  lemma EraseKeepsAllReachable<K, V>(c: seq<int>, cap: nat, s: seq<Entry<K, V>>, w: nat, hash: K -> nat, i: nat)
    requires Geometry(cap, w) && CtrlOk(c, cap, w) && i < cap && IsFull(c[i])
    requires AllReachable(c[..cap + 1], s, w, hash)
    ensures AllReachable(c[..cap + 1][i := if WasNeverFull(c, cap, w, i) then K_EMPTY else K_DELETED], s, w, hash)
  {
    hide WasNeverFull, Reachable, IsPow2, Mirrored;
    var b := c[..cap + 1];
    var b' := b[i := if WasNeverFull(c, cap, w, i) then K_EMPTY else K_DELETED];
    forall p | p in FullSet(b') && p < |s|
      ensures b'[p] == H2(hash(s[p].key)) && Reachable(b', w, hash(s[p].key), p)
    {
      assert p in FullSet(b);
      EraseKeepsReachable(c, cap, w, i, hash(s[p].key), p);
    }
  }

  // ---------- searching ----------

  /** No window before the n-th one holds the key. */
  ghost predicate MissedBefore<K, V>(b: seq<int>, s: seq<Entry<K, V>>, w: nat, hv: nat, n: nat, key: K)
    requires 0 < |b| && Geometry(|b| - 1, w)
  {
    forall p :: p in FullSet(b) && p < |s| && WindowRank(|b| - 1, w, hv, p) < n ==> s[p].key != key
  }

  /** The bytes loaded for window n. */
  function GroupAt(c: seq<int>, cap: nat, w: nat, hv: nat, n: nat): (g: seq<int>)
    requires |c| == cap + w + 1
    ensures |g| == w && forall j :: 0 <= j < w ==> g[j] == c[WindowOffset(cap, w, hv, n) + j]
  {
    c[WindowOffset(cap, w, hv, n)..WindowOffset(cap, w, hv, n) + w]
  }

  /** `seq.offset(j)`: the slot of the j-th byte of window n. */
  function SlotAt(cap: nat, w: nat, hv: nat, n: nat, j: nat): (p: nat)
    ensures p <= cap
  {
    (WindowOffset(cap, w, hv, n) + j) % (cap + 1)
  }

  lemma WindowsPositive(cap: nat, w: nat)
    requires Geometry(cap, w)
    ensures Windows(cap + 1, w) > 0
  {
    WidthIsPow2(cap, w);
    if w <= cap + 1 {
      Pow2Divides(cap + 1, w);
    }
  }

  lemma NothingBefore<K, V>(b: seq<int>, s: seq<Entry<K, V>>, w: nat, hv: nat, key: K)
    requires 0 < |b| && Geometry(|b| - 1, w)
    ensures MissedBefore(b, s, w, hv, 0, key)
  {
  }

  lemma Found<K, V>(s: seq<Entry<K, V>>, occ: set<int>, m: map<K, V>, p: nat)
    requires Holds(s, occ, m) && p in occ
    ensures s[p].key in m && s[p] == Entry(s[p].key, m[s[p].key])
  {
  }

  /** A byte that matches the low hash bits belongs to a full slot. */
  lemma MatchIsFull(c: seq<int>, cap: nat, w: nat, hv: nat, n: nat, j: nat)
    requires Geometry(cap, w) && CtrlOk(c, cap, w) && n < Windows(cap + 1, w) && j < w
    requires IsFull(GroupAt(c, cap, w, hv, n)[j])
    ensures SlotAt(cap, w, hv, n, j) < cap && IsFull(c[SlotAt(cap, w, hv, n, j)])
  {
    LoadedPosition(c, cap, w, hv, n, j);
  }

  /** No match in the first j bytes of window n is the key. */
  ghost predicate MissedIn<K, V>(c: seq<int>, s: seq<Entry<K, V>>, cap: nat, w: nat, hv: nat, n: nat, j: nat, key: K)
    requires |c| == cap + w + 1 && |s| == cap && j <= w
  {
    forall i :: 0 <= i < j && GroupAt(c, cap, w, hv, n)[i] == H2(hv) ==>
      SlotAt(cap, w, hv, n, i) < cap && s[SlotAt(cap, w, hv, n, i)].key != key
  }

  lemma WindowMissed<K, V>(c: seq<int>, s: seq<Entry<K, V>>, cap: nat, w: nat, hash: K -> nat, n: nat, key: K)
    requires Geometry(cap, w) && CtrlOk(c, cap, w) && |s| == cap
    requires AllReachable(c[..cap + 1], s, w, hash)
    requires MissedIn(c, s, cap, w, hash(key), n, w, key)
    requires MissedBefore(c[..cap + 1], s, w, hash(key), n, key)
    ensures MissedBefore(c[..cap + 1], s, w, hash(key), n + 1, key)
  {
    hide WindowRank, Windows, IsPow2, Mirrored, WindowOffset, Reachable;
    forall p | p in FullSet(c[..cap + 1]) && WindowRank(cap, w, hash(key), p) < n + 1
      ensures s[p].key != key
    {
      if WindowRank(cap, w, hash(key), p) == n {
        var j := PositionLoaded(c, cap, w, hash(key), n, p);
        assert GroupAt(c, cap, w, hash(key), n)[j] == c[p] == H2(hash(key)) || s[p].key != key;
      }
    }
  }

  /** An empty byte in window n proves that the key is absent. */
  lemma StopIsSound<K, V>(c: seq<int>, s: seq<Entry<K, V>>, cap: nat, w: nat, hash: K -> nat, n: nat, key: K,
                          m: map<K, V>)
    requires Geometry(cap, w) && CtrlOk(c, cap, w) && |s| == cap && n < Windows(cap + 1, w)
    requires Holds(s, FullSet(c[..cap + 1]), m) && AllReachable(c[..cap + 1], s, w, hash)
    requires MissedBefore(c[..cap + 1], s, w, hash(key), n + 1, key)
    requires K_EMPTY in GroupAt(c, cap, w, hash(key), n)
    ensures key !in m
  {
    hide WindowRank, IsPow2, Mirrored, SlotAt;
    if key in m {
      var p := SlotOf(s, FullSet(c[..cap + 1]), m, key);
      var j :| 0 <= j < w && GroupAt(c, cap, w, hash(key), n)[j] == K_EMPTY;
      LoadedPosition(c, cap, w, hash(key), n, j);
    }
  }

  /** The index of the probe sequence when there is a window left. */
  lemma IndexBelowCapacity(cap: nat, w: nat, n: nat)
    requires Geometry(cap, w) && n + 1 < Windows(cap + 1, w)
    ensures w * n < cap
  {
    WidthIsPow2(cap, w);
    Pow2Divides(cap + 1, w);
    BlockFits(w, (cap + 1) / w, n);
    assert w * n <= cap + 1 - w;
  }

  // ---------- the first slot that is not full ----------

  ghost predicate FullBefore(b: seq<int>, w: nat, hv: nat, n: nat)
    requires 0 < |b| && Geometry(|b| - 1, w)
  {
    forall q :: 0 <= q < |b| && WindowRank(|b| - 1, w, hv, q) < n ==> !IsEmptyOrDeleted(b[q])
  }

  /** What `find_first_non_full` may return: a free slot with only full windows before it, or,
      in a small table without a free slot, the index of the sentinel. */
  ghost predicate IsTarget(c: seq<int>, cap: nat, w: nat, hv: nat, p: nat)
    requires Geometry(cap, w) && |c| == cap + w + 1 && p <= cap
  {
    if p < cap then
      IsEmptyOrDeleted(c[p]) && Packed(c[..cap + 1], w, hv, p)
    else
      IsSmall(cap, w) && forall i :: 0 <= i < cap ==> IsFull(c[i])
  }

  lemma NothingFullBefore(b: seq<int>, w: nat, hv: nat)
    requires 0 < |b| && Geometry(|b| - 1, w)
    ensures FullBefore(b, w, hv, 0)
  {
  }

  lemma TargetHit(c: seq<int>, cap: nat, w: nat, hv: nat, n: nat, j: nat)
    requires Geometry(cap, w) && CtrlOk(c, cap, w) && n < Windows(cap + 1, w) && j < w
    requires FullBefore(c[..cap + 1], w, hv, n)
    requires IsEmptyOrDeleted(GroupAt(c, cap, w, hv, n)[j])
    requires forall i :: 0 <= i < j ==> !IsEmptyOrDeleted(GroupAt(c, cap, w, hv, n)[i])
    ensures IsTarget(c, cap, w, hv, SlotAt(cap, w, hv, n, j))
  {
    LoadedPosition(c, cap, w, hv, n, j);
    var o := WindowOffset(cap, w, hv, n);
    if o + j > 2 * cap {
      SmallLoadHasEmpty(c, cap, w, o);
      assert GroupAt(c, cap, w, hv, n)[2 * cap + 1 - o] == K_EMPTY;
      forall i | 0 <= i < cap ensures IsFull(c[i]) {
        LoadSees(c, cap, w, o, i);
        assert GroupAt(c, cap, w, hv, n)[Dist(cap + 1, o, i)] == c[i];
        assert SlotByte(c[i]);
      }
    }
  }

  lemma SmallGroupHasEmpty(c: seq<int>, cap: nat, w: nat, hv: nat, n: nat)
    requires Geometry(cap, w) && CtrlOk(c, cap, w) && IsSmall(cap, w)
    ensures exists k :: 0 <= k < w && GroupAt(c, cap, w, hv, n)[k] == K_EMPTY
  {
    var o := WindowOffset(cap, w, hv, n);
    SmallLoadHasEmpty(c, cap, w, o);
    assert GroupAt(c, cap, w, hv, n)[2 * cap + 1 - o] == K_EMPTY;
  }

  lemma TargetMiss(c: seq<int>, cap: nat, w: nat, hv: nat, n: nat, e: nat)
    requires Geometry(cap, w) && CtrlOk(c, cap, w) && n < Windows(cap + 1, w)
    requires FullBefore(c[..cap + 1], w, hv, n)
    requires forall i :: 0 <= i < w ==> !IsEmptyOrDeleted(GroupAt(c, cap, w, hv, n)[i])
    requires !IsSmall(cap, w) ==> e < cap && IsEmptyOrDeleted(c[e])
    ensures n + 1 < Windows(cap + 1, w) && FullBefore(c[..cap + 1], w, hv, n + 1)
  {
    hide WindowRank, Windows, IsPow2, Mirrored, WindowOffset, SlotAt;
    forall q | 0 <= q <= cap && WindowRank(cap, w, hv, q) < n + 1 ensures !IsEmptyOrDeleted(c[q]) {
      if WindowRank(cap, w, hv, q) == n {
        var j := PositionLoaded(c, cap, w, hv, n, q);
        assert GroupAt(c, cap, w, hv, n)[j] == c[q];
      }
    }
    if IsSmall(cap, w) {
      SmallGroupHasEmpty(c, cap, w, hv, n);
    } else {
      assert WindowRank(cap, w, hv, e) < Windows(cap + 1, w);
    }
  }

  /** One round of `find_first_non_full`: the first free byte of the group, or the next window. */
  lemma TargetInGroup(c: seq<int>, cap: nat, w: nat, hv: nat, n: nat, e: nat)
    requires Geometry(cap, w) && CtrlOk(c, cap, w) && n < Windows(cap + 1, w)
    requires FullBefore(c[..cap + 1], w, hv, n)
    requires !IsSmall(cap, w) ==> e < cap && IsEmptyOrDeleted(c[e])
    ensures var j := TrailingZeros(MatchEmptyOrDeleted(GroupAt(c, cap, w, hv, n)));
      if j < w then
        IsTarget(c, cap, w, hv, SlotAt(cap, w, hv, n, j)) && FirstFree(c, cap, w, hv, SlotAt(cap, w, hv, n, j))
      else n + 1 < Windows(cap + 1, w) && FullBefore(c[..cap + 1], w, hv, n + 1) && w * n < cap
  {
    hide Mirrored, IsPow2, Windows, FullBefore, IsTarget, TrailingZeros, MatchEmptyOrDeleted, IsEmptyOrDeleted, GroupAt,
         SlotAt;
    var g := GroupAt(c, cap, w, hv, n);
    var mask := MatchEmptyOrDeleted(g);
    var j := TrailingZeros(mask);
    assert forall i :: 0 <= i < w ==> mask[i] == IsEmptyOrDeleted(g[i]);
    if j < w {
      TargetHit(c, cap, w, hv, n, j);
      assert FirstIn(g, j);
    } else {
      TargetMiss(c, cap, w, hv, n, e);
      IndexBelowCapacity(cap, w, n);
    }
  }

  /** The slot of the first byte that is not full in the first window that has one. */
  ghost predicate FirstFree(c: seq<int>, cap: nat, w: nat, hv: nat, p: nat)
    requires Geometry(cap, w) && |c| == cap + w + 1
  {
    exists n: nat, j: nat ::
      && n < Windows(cap + 1, w) && j < w && p == SlotAt(cap, w, hv, n, j)
      && FullBefore(c[..cap + 1], w, hv, n) && FirstIn(GroupAt(c, cap, w, hv, n), j)
  }

  ghost predicate FirstIn(g: seq<int>, j: nat) {
    j < |g| && IsEmptyOrDeleted(g[j]) && forall i :: 0 <= i < j ==> !IsEmptyOrDeleted(g[i])
  }

  // ---------- counting ----------

  lemma NoneEmpty(b: seq<int>, cap: nat)
    requires |b| == cap + 1 && b[cap] == K_SENTINEL && forall i :: 0 <= i < cap ==> SlotByte(b[i])
    requires forall i :: 0 <= i < cap ==> b[i] != K_EMPTY
    ensures |FullSet(b)| + |DeletedSet(b)| == cap
  {
    assert FullSet(b) !! DeletedSet(b);
    assert FullSet(b) + DeletedSet(b) == Below(cap);
  }

  /** Fewer full and deleted bytes than slots leave an empty one. */
  lemma SomeEmpty(b: seq<int>, cap: nat) returns (q: nat)
    requires |b| == cap + 1 && b[cap] == K_SENTINEL && forall i :: 0 <= i < cap ==> SlotByte(b[i])
    requires |FullSet(b)| + |DeletedSet(b)| < cap
    ensures q < cap && b[q] == K_EMPTY
  {
    if forall i :: 0 <= i < cap ==> b[i] != K_EMPTY {
      NoneEmpty(b, cap);
    } else {
      q :| 0 <= q < cap && b[q] == K_EMPTY;
    }
  }

  lemma SomeNotFull(b: seq<int>, cap: nat) returns (q: nat)
    requires |b| == cap + 1 && b[cap] == K_SENTINEL && forall i :: 0 <= i < cap ==> SlotByte(b[i])
    requires |FullSet(b)| < cap
    ensures q < cap && IsEmptyOrDeleted(b[q])
  {
    if forall i :: 0 <= i < cap ==> IsFull(b[i]) {
      AllFull(b, cap);
    } else {
      q :| 0 <= q < cap && !IsFull(b[q]);
      assert SlotByte(b[q]);
    }
  }

  lemma AllFull(b: seq<int>, cap: nat)
    requires |b| == cap + 1 && b[cap] == K_SENTINEL && forall i :: 0 <= i < cap ==> IsFull(b[i])
    ensures |FullSet(b)| == cap
  {
    assert FullSet(b) == Below(cap);
  }

  lemma CountFull(b: seq<int>, i: nat, h: int)
    requires i < |b| && IsEmptyOrDeleted(b[i]) && IsFull(h)
    ensures FullSet(b[i := h]) == FullSet(b) + {i} && DeletedSet(b[i := h]) == DeletedSet(b) - {i}
    ensures |FullSet(b[i := h])| == |FullSet(b)| + 1
    ensures |DeletedSet(b[i := h])| == |DeletedSet(b)| - if b[i] == K_DELETED then 1 else 0
  {
  }

  lemma CountErase(b: seq<int>, i: nat, h: int)
    requires i < |b| && IsFull(b[i]) && (h == K_EMPTY || h == K_DELETED)
    ensures FullSet(b[i := h]) == FullSet(b) - {i}
    ensures |FullSet(b[i := h])| == |FullSet(b)| - 1
    ensures |DeletedSet(b[i := h])| == |DeletedSet(b)| + if h == K_DELETED then 1 else 0
  {
    assert DeletedSet(b[i := h]) == if h == K_DELETED then DeletedSet(b) + {i} else DeletedSet(b);
  }

  // ---------- the invariant ----------

  /** The arrays c and s of a table store the map m. */
  ghost predicate Stores<K, V>(c: seq<int>, s: seq<Entry<K, V>>, cap: nat, w: nat, hash: K -> nat, m: map<K, V>) {
    && Geometry(cap, w) && CtrlOk(c, cap, w) && |s| == cap
    && Holds(s, FullSet(c[..cap + 1]), m)
    && AllReachable(c[..cap + 1], s, w, hash)
  }

  /** The counters account for the control bytes: what may still be filled is the load limit
      less the elements and the tombstones, and a small table has no tombstone. */
  ghost predicate Accounts(c: seq<int>, cap: nat, w: nat, size: nat, growthLeft: int)
    requires |c| > cap
  {
    && size == |FullSet(c[..cap + 1])|
    && growthLeft == CapacityToGrowth(w, cap) - size - |DeletedSet(c[..cap + 1])|
    && (IsSmall(cap, w) ==> DeletedSet(c[..cap + 1]) == {})
  }

  lemma StoresParts<K, V>(c: seq<int>, s: seq<Entry<K, V>>, cap: nat, w: nat, hash: K -> nat, m: map<K, V>)
    requires Stores(c, s, cap, w, hash, m)
    ensures Holds(s, FullSet(c[..cap + 1]), m) && AllReachable(c[..cap + 1], s, w, hash)
  {
  }

  lemma StoredAt<K, V>(c: seq<int>, s: seq<Entry<K, V>>, cap: nat, w: nat, hash: K -> nat, m: map<K, V>, i: nat)
    requires Stores(c, s, cap, w, hash, m) && i < cap && IsFull(c[i])
    ensures i in FullSet(c[..cap + 1]) && s[i].key in m && s[i] == Entry(s[i].key, m[s[i].key])
    ensures 0 <= c[i] < 128
  {
    assert SlotByte(c[i]);
  }

  lemma EraseStep<K, V>(c: seq<int>, s: seq<Entry<K, V>>, cap: nat, w: nat, hash: K -> nat, m: map<K, V>,
                        size: nat, growthLeft: nat, i: nat)
    requires Stores(c, s, cap, w, hash, m) && Accounts(c, cap, w, size, growthLeft)
    requires i < cap && IsFull(c[i])
    ensures var never := WasNeverFull(c, cap, w, i);
      var c' := WithCtrl(c, cap, w, i, if never then K_EMPTY else K_DELETED);
      && size > 0 && s[i].key in m
      && Stores(c', s, cap, w, hash, m - {s[i].key})
      && Accounts(c', cap, w, size - 1, growthLeft + if never then 1 else 0)
  {
    var b, h := c[..cap + 1], if WasNeverFull(c, cap, w, i) then K_EMPTY else K_DELETED;
    StoredAt(c, s, cap, w, hash, m, i);
    if IsSmall(cap, w) {
      SmallNeverTombstone(c, cap, w, i);
    }
    EraseKeepsAllReachable(c, cap, s, w, hash, i);
    hide CtrlOk, Holds, AllReachable, WasNeverFull, CapacityToGrowth;
    HoldsRemove(s, FullSet(b), m, i);
    CountErase(b, i, h);
    assert WithCtrl(c, cap, w, i, h)[..cap + 1] == b[i := h];
  }

  // ---------- inserting ----------

  lemma TargetIsSlot(c: seq<int>, cap: nat, w: nat, hv: nat, p: nat, e: nat)
    requires Geometry(cap, w) && |c| == cap + w + 1 && p <= cap && IsTarget(c, cap, w, hv, p)
    requires e < cap && IsEmptyOrDeleted(c[e])
    ensures p < cap && IsEmptyOrDeleted(c[p]) && Packed(c[..cap + 1], w, hv, p)
  {
  }

  /** State after `prepare_insert`: slot p is reserved, the counters already include it. */
  ghost predicate Prepared(c: seq<int>, cap: nat, w: nat, size: nat, growthLeft: int, hv: nat, p: nat)
    requires Geometry(cap, w) && |c| == cap + w + 1
  {
    && p < cap && IsEmptyOrDeleted(c[p]) && Packed(c[..cap + 1], w, hv, p)
    && size > 0
    && Accounts(c, cap, w, size - 1, growthLeft + if c[p] == K_EMPTY then 1 else 0)
  }

  /** The test of `prepare_insert` leaves a real slot and a counter that does not underflow. */
  lemma TargetIsPrepared<K, V>(c: seq<int>, s: seq<Entry<K, V>>, cap: nat, w: nat, hash: K -> nat, m: map<K, V>,
                               size: nat, growthLeft: nat, hv: nat, p: nat)
    requires Stores(c, s, cap, w, hash, m) && Accounts(c, cap, w, size, growthLeft)
    requires p <= cap && IsTarget(c, cap, w, hv, p)
    requires growthLeft > 0 || c[p] == K_DELETED
    ensures p < cap
    ensures Prepared(c, cap, w, size + 1, growthLeft - if c[p] == K_EMPTY then 1 else 0, hv, p)
    ensures c[p] == K_EMPTY ==> growthLeft > 0
  {
    if p == cap {
      AllFull(c[..cap + 1], cap);
    }
  }

  lemma FreeIsOut(b: seq<int>, p: nat)
    requires p < |b| && IsEmptyOrDeleted(b[p])
    ensures p !in FullSet(b)
  {
  }

  lemma EmplaceStep<K, V>(c: seq<int>, s: seq<Entry<K, V>>, cap: nat, w: nat, hash: K -> nat, m: map<K, V>,
                          size: nat, growthLeft: nat, p: nat, e: Entry<K, V>)
    requires Stores(c, s, cap, w, hash, m) && Prepared(c, cap, w, size, growthLeft, hash(e.key), p) && e.key !in m
    ensures var c' := WithCtrl(c, cap, w, p, H2(hash(e.key)));
      && Stores(c', s[p := e], cap, w, hash, m[e.key := e.value])
      && Accounts(c', cap, w, size, growthLeft)
  {
    var b, h := c[..cap + 1], H2(hash(e.key));
    FreeIsOut(b, p);
    hide WithCtrl, H2, IsPow2, CtrlOk, Holds, AllReachable, Packed, CapacityToGrowth, FullSet, DeletedSet;
    FillKeepsReachable(b, s, w, hash, p, e);
    HoldsInsert(s, FullSet(b), m, p, e);
    CountFull(b, p, h);
    assert WithCtrl(c, cap, w, p, h)[..cap + 1] == b[p := h];
  }

  lemma PreparedSlot(c: seq<int>, cap: nat, w: nat, size: nat, growthLeft: int, hv: nat, p: nat)
    requires Geometry(cap, w) && |c| == cap + w + 1 && Prepared(c, cap, w, size, growthLeft, hv, p)
    ensures p < cap
  {
  }

  /** Something is free for `find_first_non_full` to find. */
  lemma SomeFree<K, V>(c: seq<int>, s: seq<Entry<K, V>>, cap: nat, w: nat, hash: K -> nat, m: map<K, V>,
                       size: nat, growthLeft: nat) returns (e: nat)
    requires Stores(c, s, cap, w, hash, m) && Accounts(c, cap, w, size, growthLeft)
    ensures !IsSmall(cap, w) ==> e < cap && c[e] == K_EMPTY
  {
    e := 0;
    if !IsSmall(cap, w) {
      e := SomeEmpty(c[..cap + 1], cap);
    }
  }

  lemma SizeIsCardinality<K, V>(c: seq<int>, s: seq<Entry<K, V>>, cap: nat, w: nat, hash: K -> nat, m: map<K, V>,
                                size: nat, growthLeft: nat)
    requires Stores(c, s, cap, w, hash, m) && Accounts(c, cap, w, size, growthLeft)
    ensures size == |m| && size <= CapacityToGrowth(w, cap)
    ensures Holds(s, FullSet(c[..cap + 1]), m)
  {
  }

  /** A small table fills up completely, and a full one never meets the condition for squashing
      tombstones in place. */
  lemma SmallNeverSquashes(c: seq<int>, cap: nat, w: nat, size: nat)
    requires Geometry(cap, w) && CtrlOk(c, cap, w) && IsSmall(cap, w) && cap > 0
    requires Accounts(c, cap, w, size, 0)
    ensures size == cap && size > CapacityToGrowth(w, cap) / 2
  {
    SmallIsHalf(cap, w);
  }

  lemma DoubleIsPow2(n: nat)
    requires IsPow2(n)
    ensures IsPow2(2 * n)
  {
  }

  lemma NewGeometry(cap: nat, newCap: nat, w: nat)
    requires Geometry(cap, w) && IsPow2(newCap + 1)
    ensures Geometry(newCap, w)
  {
  }

  lemma GrowthOfOne(w: nat)
    ensures CapacityToGrowth(w, 0) == 0 && CapacityToGrowth(w, 1) == 1 && IsPow2(1) && IsPow2(2)
  {
  }

  lemma LargerCapacityFits(w: nat, cap: nat, m: nat, size: nat)
    requires size <= CapacityToGrowth(w, cap)
    ensures m >= cap ==> size <= CapacityToGrowth(w, m)
  {
  }

  /** `rehash(0)` can ask for a capacity whose load limit is below the number of elements. */
  lemma RehashToZeroOverfills()
    ensures NormalizeCapacity(7) == 7 && CapacityToGrowth(8, 7) == 6
    ensures NormalizeCapacity(15) == 15 && CapacityToGrowth(16, 15) == 14
    ensures GrowthLeft(8, 7, 7) == 0xFFFF_FFFF_FFFF_FFFF
  {
    assert NormalizeCapacity(3) == 3 && NormalizeCapacity(7) == 7;
  }

  // ---------- which searches end ----------

  /** The search for the key ends at window n, with the key or with an empty byte. */
  ghost predicate StopsAt<K, V>(c: seq<int>, s: seq<Entry<K, V>>, cap: nat, w: nat, hash: K -> nat, key: K, n: nat)
    requires |c| == cap + w + 1 && |s| == cap
  {
    || K_EMPTY in GroupAt(c, cap, w, hash(key), n)
    || exists j :: 0 <= j < w && MatchesAt(c, s, cap, w, hash, key, n, j)
  }

  /** Byte j of window n has the hash bits of the key, and its slot the key. */
  ghost predicate MatchesAt<K, V>(c: seq<int>, s: seq<Entry<K, V>>, cap: nat, w: nat, hash: K -> nat, key: K, n: nat,
                                  j: nat)
    requires |c| == cap + w + 1 && j < w
  {
    GroupAt(c, cap, w, hash(key), n)[j] == H2(hash(key)) && KeyAt(s, SlotAt(cap, w, hash(key), n, j), key)
  }

  ghost predicate KeyAt<K, V>(s: seq<Entry<K, V>>, p: nat, key: K) {
    p < |s| && s[p].key == key
  }

  /** Some slot is neither full nor a tombstone. */
  ghost predicate HasEmpty<K, V>(c: seq<int>, cap: nat, m: map<K, V>)
    requires |c| > cap
  {
    |m| + |DeletedSet(c[..cap + 1])| < cap
  }

  /** Elements and tombstones fill the table exactly when no slot is empty. */
  lemma HasEmptyIff<K, V>(c: seq<int>, s: seq<Entry<K, V>>, cap: nat, w: nat, hash: K -> nat, m: map<K, V>)
    requires Stores(c, s, cap, w, hash, m)
    ensures HasEmpty(c, cap, m) <==> exists q :: 0 <= q < cap && c[q] == K_EMPTY
    ensures !HasEmpty(c, cap, m) <==> |m| + |DeletedSet(c[..cap + 1])| == cap
  {
    hide Mirrored, IsPow2, AllReachable;
    var b := c[..cap + 1];
    CountUsed(b, cap);
    if !(exists q :: 0 <= q < cap && c[q] == K_EMPTY) {
      NoneEmpty(b, cap);
    }
  }

  lemma CountUsed(b: seq<int>, cap: nat)
    requires |b| == cap + 1 && b[cap] == K_SENTINEL && forall i :: 0 <= i < cap ==> SlotByte(b[i])
    ensures |FullSet(b)| + |DeletedSet(b)| <= cap
    ensures (exists i :: 0 <= i < cap && b[i] == K_EMPTY) ==> |FullSet(b)| + |DeletedSet(b)| < cap
  {
    var f, d, all := FullSet(b), DeletedSet(b), Below(cap);
    assert f !! d && f + d <= all;
    if i :| 0 <= i < cap && b[i] == K_EMPTY {
      assert i in all && i !in f + d;
    }
    if f + d != all {
      SubsetSmaller(f + d, all);
    }
  }

  lemma NoEmptyLoaded(c: seq<int>, cap: nat, w: nat, o: nat)
    requires Geometry(cap, w) && CtrlOk(c, cap, w) && !IsSmall(cap, w) && o <= cap
    requires forall i :: 0 <= i < cap ==> c[i] != K_EMPTY
    ensures o + w <= |c| && K_EMPTY !in c[o..o + w]
  {
    hide IsPow2, Mirrored;
    if K_EMPTY in c[o..o + w] {
      var x :| o <= x < o + w && c[x] == K_EMPTY;
      LoadIs(c, cap, w, o, x - o);
    }
  }

  /** What the windows of one search show: in a large table they are all without an empty byte
      exactly when the elements and the tombstones fill the table. */
  lemma EmptySeenIff<K, V>(c: seq<int>, s: seq<Entry<K, V>>, cap: nat, w: nat, hash: K -> nat, m: map<K, V>, hv: nat)
    requires Stores(c, s, cap, w, hash, m) && !IsSmall(cap, w)
    ensures (forall n: nat :: n < Windows(cap + 1, w) ==> K_EMPTY !in GroupAt(c, cap, w, hv, n)) <==>
            |m| + |DeletedSet(c[..cap + 1])| == cap
    ensures (forall n: nat :: K_EMPTY !in GroupAt(c, cap, w, hv, n)) <==> |m| + |DeletedSet(c[..cap + 1])| == cap
  {
    hide AllReachable, Holds, Windows, IsPow2, Mirrored, WindowRank, DeletedSet, WindowOffset;
    HasEmptyIff(c, s, cap, w, hash, m);
    if HasEmpty(c, cap, m) {
      var q :| 0 <= q < cap && c[q] == K_EMPTY;
      var n := WindowRank(cap, w, hv, q);
      var j := PositionLoaded(c, cap, w, hv, n, q);
      assert GroupAt(c, cap, w, hv, n)[j] == K_EMPTY;
    } else {
      forall n: nat ensures K_EMPTY !in GroupAt(c, cap, w, hv, n) {
        NoEmptyLoaded(c, cap, w, WindowOffset(cap, w, hv, n));
      }
    }
  }

  /** A stored key shows up in the window of its slot. */
  lemma KeyStopsAt<K, V>(c: seq<int>, s: seq<Entry<K, V>>, cap: nat, w: nat, hash: K -> nat, m: map<K, V>, key: K)
      returns (n: nat)
    requires Stores(c, s, cap, w, hash, m) && key in m
    ensures n < Windows(cap + 1, w) && StopsAt(c, s, cap, w, hash, key, n)
  {
    hide Windows, IsPow2, Mirrored, WindowRank, Reachable, WindowOffset;
    var p := SlotOf(s, FullSet(c[..cap + 1]), m, key);
    n := WindowRank(cap, w, hash(key), p);
    var j := PositionLoaded(c, cap, w, hash(key), n, p);
    assert GroupAt(c, cap, w, hash(key), n)[j] == c[p];
    assert MatchesAt(c, s, cap, w, hash, key, n, j);
  }

  /** An absent key shows up nowhere. */
  lemma KeyNowhere<K, V>(c: seq<int>, s: seq<Entry<K, V>>, cap: nat, w: nat, hash: K -> nat, m: map<K, V>, key: K,
                         n: nat)
    requires Stores(c, s, cap, w, hash, m) && key !in m && StopsAt(c, s, cap, w, hash, key, n)
    ensures K_EMPTY in GroupAt(c, cap, w, hash(key), n)
  {
    hide Mirrored, SlotByte, IsPow2, Holds, AllReachable, WindowOffset, SlotAt, KeyAt;
    if K_EMPTY !in GroupAt(c, cap, w, hash(key), n) {
      var j :| 0 <= j < w && MatchesAt(c, s, cap, w, hash, key, n, j);
      KeyIsStored(c, s, cap, w, hash, m, key, n, j);
    }
  }

  lemma KeyIsStored<K, V>(c: seq<int>, s: seq<Entry<K, V>>, cap: nat, w: nat, hash: K -> nat, m: map<K, V>, key: K,
                          n: nat, j: nat)
    requires Stores(c, s, cap, w, hash, m) && j < w && MatchesAt(c, s, cap, w, hash, key, n, j)
    ensures key in m
  {
    hide IsPow2, Mirrored, AllReachable, Holds, WindowOffset, FullSet, H2;
    LoadIs(c, cap, w, WindowOffset(cap, w, hash(key), n), j);
    StoredAt(c, s, cap, w, hash, m, SlotAt(cap, w, hash(key), n, j));
  }

  /** The exact condition for a search to end: the table is small, or the key is stored, or some
      slot is empty. When it ends, it does so within the windows that cover the table. */
  lemma SearchEndsIff<K, V>(c: seq<int>, s: seq<Entry<K, V>>, cap: nat, w: nat, hash: K -> nat, m: map<K, V>, key: K)
    requires Stores(c, s, cap, w, hash, m)
    ensures (exists n: nat :: StopsAt(c, s, cap, w, hash, key, n)) <==> Ends(c, cap, w, m, key)
    ensures Ends(c, cap, w, m, key) ==> exists n: nat :: n < Windows(cap + 1, w) && StopsAt(c, s, cap, w, hash, key, n)
  {
    hide StopsAt, Stores, DeletedSet, Windows, IsPow2, IsSmall;
    if IsSmall(cap, w) {
      SmallStopsAt(c, s, cap, w, hash, m, key);
    } else if key in m {
      var n := KeyStopsAt(c, s, cap, w, hash, m, key);
    } else {
      AbsentStopsAt(c, s, cap, w, hash, m, key);
    }
  }

  /** A window whose matches are not the key and which has no empty byte. */
  lemma GoesOn<K, V>(c: seq<int>, s: seq<Entry<K, V>>, cap: nat, w: nat, hash: K -> nat, n: nat, key: K)
    requires |c| == cap + w + 1 && |s| == cap && MissedIn(c, s, cap, w, hash(key), n, w, key)
    requires K_EMPTY !in GroupAt(c, cap, w, hash(key), n)
    ensures !StopsAt(c, s, cap, w, hash, key, n)
  {
    hide SlotAt, GroupAt, H2;
  }

  lemma ValidEnds<K, V>(c: seq<int>, s: seq<Entry<K, V>>, cap: nat, w: nat, hash: K -> nat, m: map<K, V>,
                        size: nat, growthLeft: nat, key: K)
    requires Stores(c, s, cap, w, hash, m) && Accounts(c, cap, w, size, growthLeft)
    ensures Ends(c, cap, w, m, key)
  {
  }

  ghost predicate Ends<K, V>(c: seq<int>, cap: nat, w: nat, m: map<K, V>, key: K)
    requires |c| > cap
  {
    IsSmall(cap, w) || key in m || HasEmpty(c, cap, m)
  }

  lemma SmallStopsAt<K, V>(c: seq<int>, s: seq<Entry<K, V>>, cap: nat, w: nat, hash: K -> nat, m: map<K, V>, key: K)
    requires Stores(c, s, cap, w, hash, m) && IsSmall(cap, w)
    ensures 0 < Windows(cap + 1, w) && StopsAt(c, s, cap, w, hash, key, 0)
  {
    WindowsPositive(cap, w);
    SmallGroupHasEmpty(c, cap, w, hash(key), 0);
  }

  lemma AbsentStopsAt<K, V>(c: seq<int>, s: seq<Entry<K, V>>, cap: nat, w: nat, hash: K -> nat, m: map<K, V>, key: K)
    requires Stores(c, s, cap, w, hash, m) && !IsSmall(cap, w) && key !in m
    ensures (exists n: nat :: StopsAt(c, s, cap, w, hash, key, n)) ==> HasEmpty(c, cap, m)
    ensures HasEmpty(c, cap, m) ==> exists n: nat :: n < Windows(cap + 1, w) && StopsAt(c, s, cap, w, hash, key, n)
  {
    hide AllReachable, Holds, Windows, IsPow2, Mirrored, DeletedSet, WindowOffset, GroupAt;
    EmptySeenIff(c, s, cap, w, hash, m, hash(key));
    HasEmptyIff(c, s, cap, w, hash, m);
    if HasEmpty(c, cap, m) {
      var n: nat :| n < Windows(cap + 1, w) && K_EMPTY in GroupAt(c, cap, w, hash(key), n);
      assert StopsAt(c, s, cap, w, hash, key, n);
    }
    forall n: nat | StopsAt(c, s, cap, w, hash, key, n) ensures HasEmpty(c, cap, m) {
      KeyNowhere(c, s, cap, w, hash, m, key, n);
    }
  }

  /** Without a tombstone, as after a rehash: the number of elements is the capacity. */
  lemma RebuiltEndsIff<K, V>(c: seq<int>, s: seq<Entry<K, V>>, cap: nat, w: nat, hash: K -> nat, m: map<K, V>, key: K)
    requires Rebuilt(c, s, cap, w, hash, m) && !IsSmall(cap, w) && key !in m
    ensures (forall n: nat :: !StopsAt(c, s, cap, w, hash, key, n)) <==> |m| == cap
  {
    hide StopsAt, AllPacked, AllReachable, Holds, IsPow2, Mirrored;
    RebuiltIsTable(c, s, cap, w, hash, m);
    HasEmptyIff(c, s, cap, w, hash, m);
    SearchEndsIff(c, s, cap, w, hash, m, key);
  }

  /** The numbers of elements that `rehash(0)` leaves no empty slot for. */
  lemma NormalizeExact(n: nat)
    requires n > 0
    ensures NormalizeCapacity(n) == n <==> IsPow2(n + 1)
  {
    if IsPow2(n + 1) {
      NormalizeLeast(n, n);
    }
  }

  /** After `rehash(0)`: no search for an absent key ends exactly when one more than the number of
      elements is a power of two that is at least the group width. */
  lemma RehashedEndsIff<K, V>(c: seq<int>, s: seq<Entry<K, V>>, cap: nat, w: nat, hash: K -> nat, m: map<K, V>, key: K)
    requires Rebuilt(c, s, cap, w, hash, m) && cap == NormalizeCapacity(|m|) && |m| > 0 && key !in m
    ensures (forall n: nat :: !StopsAt(c, s, cap, w, hash, key, n)) <==> IsPow2(|m| + 1) && |m| + 1 >= w
  {
    hide StopsAt, AllPacked, AllReachable, Holds, IsPow2, Mirrored, Rebuilt, NormalizeCapacity;
    NormalizeExact(|m|);
    if IsSmall(cap, w) {
      RebuiltIsTable(c, s, cap, w, hash, m);
      SmallStopsAt(c, s, cap, w, hash, m, key);
      assert |m| <= cap;
    } else {
      RebuiltEndsIff(c, s, cap, w, hash, m, key);
    }
  }

  /** Erasing from a table without an empty slot leaves a tombstone, so that it still has none. */
  lemma EraseLeavesNoEmpty<K, V>(c: seq<int>, s: seq<Entry<K, V>>, cap: nat, w: nat, hash: K -> nat, m: map<K, V>,
                                 i: nat)
    requires Stores(c, s, cap, w, hash, m) && !IsSmall(cap, w) && !HasEmpty(c, cap, m) && i < cap && IsFull(c[i])
    ensures !WasNeverFull(c, cap, w, i) && s[i].key in m
    ensures var c' := WithCtrl(c, cap, w, i, K_DELETED);
      Stores(c', s, cap, w, hash, m - {s[i].key}) && !HasEmpty(c', cap, m - {s[i].key})
  {
    var b := c[..cap + 1];
    HasEmptyIff(c, s, cap, w, hash, m);
    NoEmptyLoaded(c, cap, w, i);
    EraseKeepsAllReachable(c, cap, s, w, hash, i);
    hide CtrlOk, Holds, AllReachable;
    StoredAt(c, s, cap, w, hash, m, i);
    HoldsRemove(s, FullSet(b), m, i);
    CountErase(b, i, K_DELETED);
    assert WithCtrl(c, cap, w, i, K_DELETED)[..cap + 1] == b[i := K_DELETED];
  }

  lemma ReservedGrowth(w: nat, n: nat, cap: nat)
    requires IsPow2(cap + 1) && (n > 0 ==> cap >= GrowthToLowerboundCapacity(w, n))
    ensures CapacityToGrowth(w, cap) >= n
  {
    if n > 0 {
      var x := GrowthToLowerboundCapacity(w, n);
      NormalizeLeast(x, cap);
      ReserveSuffices(w, n);
      LargerCapacityFits(w, NormalizeCapacity(x), cap, n);
    }
  }

  /** What a request for n elements may end with: room for them and for those that there are. */
  ghost predicate TakesAll(w: nat, cap: nat, n: nat, size: nat) {
    IsPow2(cap + 1) && cap >= 1 && CapacityToGrowth(w, cap) >= n && cap >= size
  }

  /** `reserve(n)` asks for the least capacity with room. */
  lemma ReserveLeast(w: nat, n: nat, size: nat, cap: nat)
    requires TakesAll(w, cap, n, size)
    ensures var x := GrowthToLowerboundCapacity(w, n);
      NormalizeCapacity(if x < size then size else x) <= cap
  {
    hide IsPow2;
    var x := GrowthToLowerboundCapacity(w, n);
    assert x <= cap;
    NormalizeLeast(if x < size then size else x, cap);
  }

  lemma GrowthDoubles(w: nat, cap: nat)
    requires cap >= 1
    ensures CapacityToGrowth(w, 2 * cap + 1) > CapacityToGrowth(w, cap) >= 1
  {
  }

  // ---------- space ----------

  /** The load limit is seven eighths of the slots, up to rounding, and below the number of slots
      exactly in large tables. */
  lemma GrowthIs(w: nat, cap: nat)
    requires Geometry(cap, w)
    ensures 7 * cap <= 8 * CapacityToGrowth(w, cap) + 1 && 8 * CapacityToGrowth(w, cap) <= 7 * cap + 7
    ensures CapacityToGrowth(w, cap) < cap <==> !IsSmall(cap, w)
  {
    if IsSmall(cap, w) {
      SmallIsHalf(cap, w);
    }
  }

  /** A growing insertion makes the first slot, or doubles a table with more elements than half of
      its load limit. */
  ghost predicate Doubled(w: nat, cap: nat, cap': nat, size: nat) {
    if cap == 0 then cap' == 1 else cap' == 2 * cap + 1 && CapacityToGrowth(w, cap) / 2 < size
  }

  /** The capacity is small, or has been doubled for a number of elements that is at most `peak`. */
  ghost predicate WithinSpace(w: nat, cap: nat, peak: nat) {
    cap <= 1 || CapacityToGrowth(w, (cap - 1) / 2) / 2 < peak
  }

  lemma DoubledWithin(w: nat, cap: nat, cap': nat, size: nat)
    requires Doubled(w, cap, cap', size)
    ensures WithinSpace(w, cap', size)
  {
  }

  lemma WithinLess(w: nat, cap: nat, peak: nat, cap': nat, peak': nat)
    requires WithinSpace(w, cap, peak) && cap' <= cap && peak <= peak'
    ensures WithinSpace(w, cap', peak')
  {
  }

  /** So the capacity is less than five times the number of elements. */
  lemma SpaceIsLinear(w: nat, cap: nat, peak: nat)
    requires WithinSpace(w, cap, peak) && cap > 1
    ensures 7 * cap <= 32 * peak
  {
  }

  // ---------- rebuilding ----------

  /** A table without tombstones in which every entry lies in the first window that had room. */
  ghost predicate Rebuilt<K, V>(c: seq<int>, s: seq<Entry<K, V>>, cap: nat, w: nat, hash: K -> nat, m: map<K, V>) {
    && Geometry(cap, w) && CtrlOk(c, cap, w) && |s| == cap
    && Holds(s, FullSet(c[..cap + 1]), m)
    && AllPacked(c[..cap + 1], s, w, hash)
    && DeletedSet(c[..cap + 1]) == {}
  }

  /** What `reset_growth_left` leaves in an unsigned 64-bit counter. */
  function GrowthLeft(w: nat, cap: nat, size: nat): (g: nat)
  {
    var d := CapacityToGrowth(w, cap) - size;
    if d >= 0 then d else d % 0x1_0000_0000_0000_0000
  }

  lemma EmptyIsRebuilt<K, V>(c: seq<int>, s: seq<Entry<K, V>>, cap: nat, w: nat, hash: K -> nat)
    requires Geometry(cap, w) && |c| == cap + w + 1 && |s| == cap
    requires c[cap] == K_SENTINEL && forall i :: 0 <= i < cap + w && i != cap ==> c[i] == K_EMPTY
    ensures Rebuilt(c, s, cap, w, hash, map[])
  {
    assert FullSet(c[..cap + 1]) == {};
  }

  lemma RebuiltIsTable<K, V>(c: seq<int>, s: seq<Entry<K, V>>, cap: nat, w: nat, hash: K -> nat, m: map<K, V>)
    requires Rebuilt(c, s, cap, w, hash, m)
    ensures Stores(c, s, cap, w, hash, m)
    ensures Accounts(c, cap, w, |m|, GrowthLeft(w, cap, |m|)) <==> |m| <= CapacityToGrowth(w, cap)
  {
    hide AllPacked, AllReachable;
    PackedAreReachable(c[..cap + 1], s, w, hash);
  }

  lemma RebuildStep<K, V>(c: seq<int>, s: seq<Entry<K, V>>, cap: nat, w: nat, hash: K -> nat, m: map<K, V>, p: nat,
                          e: Entry<K, V>)
    requires Rebuilt(c, s, cap, w, hash, m) && e.key !in m
    requires p < cap && IsEmptyOrDeleted(c[p]) && Packed(c[..cap + 1], w, hash(e.key), p)
    ensures Rebuilt(WithCtrl(c, cap, w, p, H2(hash(e.key))), s[p := e], cap, w, hash, m[e.key := e.value])
  {
    var b, h := c[..cap + 1], H2(hash(e.key));
    FreeIsOut(b, p);
    hide WithCtrl, H2, IsPow2, CtrlOk, Holds, AllPacked, Packed, FullSet, DeletedSet;
    FillKeepsPacked(b, s, w, hash, p, e);
    HoldsInsert(s, FullSet(b), m, p, e);
    CountFull(b, p, h);
    assert WithCtrl(c, cap, w, p, h)[..cap + 1] == b[p := h];
  }

  lemma RebuiltHasRoom<K, V>(c: seq<int>, s: seq<Entry<K, V>>, cap: nat, w: nat, hash: K -> nat, m: map<K, V>)
      returns (e: nat)
    requires Rebuilt(c, s, cap, w, hash, m) && |m| < cap
    ensures e < cap && IsEmptyOrDeleted(c[e])
  {
    e := SomeNotFull(c[..cap + 1], cap);
  }

  /** The full slots with an index below i. */
  ghost function FullBelow(b: seq<int>, i: int): set<int> {
    set p | 0 <= p < |b| && p < i && IsFull(b[p])
  }

  lemma FullBelowStep(b: seq<int>, i: nat)
    requires i < |b|
    ensures FullBelow(b, i + 1) == if IsFull(b[i]) then FullBelow(b, i) + {i} else FullBelow(b, i)
    ensures IsFull(b[i]) ==> i !in FullBelow(b, i) && i in FullSet(b) && |FullBelow(b, i)| < |FullSet(b)|
  {
    if IsFull(b[i]) {
      assert FullBelow(b, i) + {i} <= FullSet(b);
      SubsetSmaller(FullBelow(b, i), FullSet(b));
    }
  }

  lemma FullBelowAll(b: seq<int>, cap: nat)
    requires |b| == cap + 1 && !IsFull(b[cap])
    ensures FullBelow(b, 0) == {} && FullBelow(b, cap) == FullSet(b)
  {
  }

  lemma SentinelNotFull(c: seq<int>, cap: nat, w: nat)
    requires CtrlOk(c, cap, w)
    ensures |c| == cap + w + 1 && !IsFull(c[cap])
  {
  }

  lemma SentinelAt(c: seq<int>, cap: nat, w: nat)
    requires CtrlOk(c, cap, w)
    ensures |c| == cap + w + 1 && c[..cap + 1][cap] == K_SENTINEL
  {
  }

  lemma NothingHeld<K, V>(s: seq<Entry<K, V>>)
    ensures Holds(s, {}, map[])
  {
  }

  /** Entries copied from the slots below i of another table extend to slot i. */
  lemma CopyStep<K, V>(b: seq<int>, s: seq<Entry<K, V>>, m: map<K, V>, i: nat, moved: map<K, V>)
    requires i < |b| && i < |s| && IsFull(b[i]) && Holds(s, FullSet(b), m) && Holds(s, FullBelow(b, i), moved)
    ensures s[i].key !in moved && |moved| < |m|
    ensures Holds(s, FullBelow(b, i + 1), moved[s[i].key := s[i].value])
  {
    FullBelowStep(b, i);
    if s[i].key in moved {
      var p := SlotOf(s, FullBelow(b, i), moved, s[i].key);
    }
    HoldsInsert(s, FullBelow(b, i), moved, i, s[i]);
    assert s[i := s[i]] == s;
  }

  // ---------- the in-place sweep ----------

  ghost function Occupied(b: seq<int>): set<int> {
    FullSet(b) + DeletedSet(b)
  }

  /** During `drop_deletes_without_resize` a deleted byte marks an entry still to be placed;
      none is left below index i. */
  ghost predicate Sweeping<K, V>(b: seq<int>, s: seq<Entry<K, V>>, w: nat, hash: K -> nat, m: map<K, V>, i: int) {
    && 0 < |b| && Geometry(|b| - 1, w) && |s| == |b| - 1
    && Holds(s, Occupied(b), m)
    && AllPacked(b, s, w, hash)
    && PlacedBelow(b, i)
  }

  ghost predicate PlacedBelow(b: seq<int>, i: int) {
    forall p :: 0 <= p < i && p < |b| ==> b[p] != K_DELETED
  }

  lemma ConvertedIsSweeping<K, V>(c: seq<int>, b: seq<int>, s: seq<Entry<K, V>>, cap: nat, w: nat, hash: K -> nat,
                                  m: map<K, V>)
    requires Stores(c, s, cap, w, hash, m) && |b| == cap + 1 && b[cap] == K_SENTINEL
    requires forall p :: 0 <= p < cap ==> b[p] == if IsFull(c[p]) then K_DELETED else K_EMPTY
    ensures Sweeping(b, s, w, hash, m, 0)
  {
    assert FullSet(b) == {};
    assert DeletedSet(b) == FullSet(c[..cap + 1]);
  }

  lemma SweptIsRebuilt<K, V>(c: seq<int>, s: seq<Entry<K, V>>, cap: nat, w: nat, hash: K -> nat, m: map<K, V>)
    requires Geometry(cap, w) && CtrlOk(c, cap, w) && Sweeping(c[..cap + 1], s, w, hash, m, cap)
    ensures Rebuilt(c, s, cap, w, hash, m)
  {
    assert DeletedSet(c[..cap + 1]) == {};
    assert Occupied(c[..cap + 1]) == FullSet(c[..cap + 1]);
  }

  /** Positions in the same block, as `probe_index` numbers them, are in the same window. */
  lemma SameBlockSameWindow(cap: nat, w: nat, hv: nat, p: nat, q: nat)
    requires Geometry(cap, w) && !IsSmall(cap, w) && p <= cap && q <= cap
    requires Block(cap + 1, w, H1(hv), p) == Block(cap + 1, w, H1(hv), q)
    ensures WindowRank(cap, w, hv, p) == WindowRank(cap, w, hv, q)
  {
    WidthIsPow2(cap, w);
    var n := WindowRank(cap, w, hv, p);
    WindowIffBlock(cap + 1, w, H1(hv), n, p);
    WindowIffBlock(cap + 1, w, H1(hv), n, q);
    WindowNoIs(cap + 1, w, H1(hv), q, n);
  }

  lemma PlaceSets(b: seq<int>, i: nat, h: int)
    requires i < |b| && b[i] == K_DELETED && IsFull(h)
    ensures Occupied(b[i := h]) == Occupied(b)
    ensures forall k :: PlacedBelow(b, k) ==> PlacedBelow(b[i := h], k)
    ensures PlacedBelow(b, i) ==> PlacedBelow(b[i := h], i + 1)
    ensures i in DeletedSet(b) && |DeletedSet(b[i := h])| < |DeletedSet(b)|
  {
    CountFull(b, i, h);
  }

  lemma UpdateSame<T>(s: seq<T>, i: nat, x: T)
    requires i < |s| && s[i] == x
    ensures s[i := x] == s
  {
  }

  lemma UpdateCommutes<T>(s: seq<T>, i: nat, x: T, p: nat, y: T)
    requires i < |s| && p < |s| && i != p
    ensures s[p := y][i := x] == s[i := x][p := y]
  {
  }

  lemma SkipStep<K, V>(b: seq<int>, s: seq<Entry<K, V>>, w: nat, hash: K -> nat, m: map<K, V>, i: nat)
    requires Sweeping(b, s, w, hash, m, i) && i < |s| && b[i] != K_DELETED
    ensures Sweeping(b, s, w, hash, m, i + 1)
  {
  }

  lemma GroupsFit(cap: nat, w: nat)
    requires Geometry(cap, w) && !IsSmall(cap, w)
    ensures cap + 1 == w * ((cap + 1) / w)
  {
    WidthIsPow2(cap, w);
    Pow2Divides(cap + 1, w);
  }

  lemma NextGroup(cap: nat, w: nat, k: nat)
    requires w > 0 && cap + 1 == w * ((cap + 1) / w) && w * k < cap + 1
    ensures k < (cap + 1) / w && w * (k + 1) == w * k + w <= cap + 1
  {
    var n := (cap + 1) / w;
    MulAdd(w, n, k);
    MulGrows(w, n - k);
    MulAdd(w, k, 1);
  }

  /** `probe_index(p) == probe_index(q)`: equal distance, in groups, from the first window. */
  predicate SameProbeIndex(cap: nat, w: nat, hv: nat, p: nat, q: nat)
    requires w > 0
  {
    var o := WindowOffset(cap, w, hv, 0);
    ((p - o) % (cap + 1)) / w == ((q - o) % (cap + 1)) / w
  }

  lemma OwnGroup(cap: nat, w: nat, hv: nat, p: nat, q: nat)
    requires w > 0 && !SameProbeIndex(cap, w, hv, p, q)
    ensures p != q
  {
  }

  lemma FreeByte(c: seq<int>, cap: nat, w: nat, p: nat)
    requires CtrlOk(c, cap, w) && p < cap && IsEmptyOrDeleted(c[p])
    ensures c[p] == K_EMPTY || c[p] == K_DELETED
  {
    assert SlotByte(c[p]);
  }

  lemma PackedInSameGroup(b: seq<int>, w: nat, hv: nat, p: nat, i: nat)
    requires 0 < |b| && Geometry(|b| - 1, w) && !IsSmall(|b| - 1, w) && p < |b| && i < |b|
    requires Packed(b, w, hv, p) && SameProbeIndex(|b| - 1, w, hv, p, i)
    ensures Packed(b, w, hv, i)
  {
    var o := WindowOffset(|b| - 1, w, hv, 0);
    CyclicDistance(|b|, o, p);
    CyclicDistance(|b|, o, i);
    SameBlockSameWindow(|b| - 1, w, hv, p, i);
  }

  lemma CyclicDistance(m: nat, o: nat, p: nat)
    requires o < m && p < m
    ensures (p - o) % m == Dist(m, o, p)
  {
    if o <= p { ModOf(m, 0, p - o); } else { ModOf(m, -1, p - o + m); }
  }

  /** The element does not move. */
  lemma StayStep<K, V>(b: seq<int>, s: seq<Entry<K, V>>, w: nat, hash: K -> nat, m: map<K, V>, i: nat)
    requires Sweeping(b, s, w, hash, m, i) && i < |s| && b[i] == K_DELETED && Packed(b, w, hash(s[i].key), i)
    ensures var b' := b[i := H2(hash(s[i].key))];
      Sweeping(b', s, w, hash, m, i + 1) && |DeletedSet(b')| < |DeletedSet(b)|
  {
    var e := s[i];
    PlaceSets(b, i, H2(hash(e.key)));
    hide H2, IsPow2, Holds, AllPacked, Packed, FullSet, DeletedSet, Occupied, PlacedBelow;
    FillKeepsPacked(b, s, w, hash, i, e);
    UpdateSame(s, i, e);
  }

  lemma MoveSets(b: seq<int>, p: nat, i: nat, h: int)
    requires p < |b| && i < |b| && b[p] == K_EMPTY && b[i] == K_DELETED && IsFull(h)
    ensures var b' := b[p := h][i := K_EMPTY];
      && i in Occupied(b) && p !in Occupied(b)
      && Occupied(b') == Occupied(b) - {i} + {p}
      && |DeletedSet(b')| < |DeletedSet(b)|
      && (PlacedBelow(b, i) ==> PlacedBelow(b', i + 1))
  {
    var b' := b[p := h][i := K_EMPTY];
    assert i in DeletedSet(b);
    assert DeletedSet(b') == DeletedSet(b) - {i};
  }

  /** The element moves to an empty slot. */
  lemma MoveStep<K, V>(b: seq<int>, s: seq<Entry<K, V>>, w: nat, hash: K -> nat, m: map<K, V>, i: nat, p: nat)
    requires Sweeping(b, s, w, hash, m, i) && i < |s| && b[i] == K_DELETED
    requires p < |s| && b[p] == K_EMPTY && Packed(b, w, hash(s[i].key), p)
    ensures var b' := b[p := H2(hash(s[i].key))][i := K_EMPTY];
      Sweeping(b', s[p := s[i]], w, hash, m, i + 1) && |DeletedSet(b')| < |DeletedSet(b)|
  {
    hide H2, IsPow2, Holds, AllPacked, Packed, FullSet, DeletedSet, Occupied, PlacedBelow;
    var e := s[i];
    var h := H2(hash(e.key));
    MoveSets(b, p, i, h);
    FillKeepsPacked(b, s, w, hash, p, e);
    FreeKeepsPacked(b[p := h], s[p := e], w, hash, i, K_EMPTY, e);
    UpdateSame(s[p := e], i, e);
    HoldsMove(s, Occupied(b), m, i, p);
  }

  /** The element changes places with another one that is still to be placed. */
  lemma SwapStep<K, V>(b: seq<int>, s: seq<Entry<K, V>>, w: nat, hash: K -> nat, m: map<K, V>, i: nat, p: nat)
    requires Sweeping(b, s, w, hash, m, i) && i < |s| && b[i] == K_DELETED
    requires p < |s| && b[p] == K_DELETED && p != i && Packed(b, w, hash(s[i].key), p)
    ensures var b' := b[p := H2(hash(s[i].key))];
      Sweeping(b', s[i := s[p]][p := s[i]], w, hash, m, i) && |DeletedSet(b')| < |DeletedSet(b)|
  {
    var e := s[i];
    var h := H2(hash(e.key));
    PlaceSets(b, p, h);
    assert i in DeletedSet(b);
    hide H2, IsPow2, Holds, AllPacked, Packed, FullSet, DeletedSet, Occupied, PlacedBelow;
    FillKeepsPacked(b, s, w, hash, p, e);
    FreeKeepsPacked(b[p := h], s[p := e], w, hash, i, K_DELETED, s[p]);
    UpdateSame(b[p := h], i, K_DELETED);
    UpdateCommutes(s, i, s[p], p, e);
    HoldsSwap(s, Occupied(b), m, i, p);
  }
}
