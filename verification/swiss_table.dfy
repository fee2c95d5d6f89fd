/** The open-addressing table `raw_hash_set`. */
module SwissTable {
  import opened Options
  import opened ProbeSequence
  import opened ControlBytes
  import opened PortableGroup
  import opened TableState

  class RawHashSet<K(==, 0), V(0)> {
    const w: nat            // bytes in a group: 8 or 16
    const hash: K -> nat
    var ctrl: array<int>
    var slots: array<Entry<K, V>>
    var size: nat
    var capacity: nat
    var growthLeft: nat
    ghost var contents: map<K, V>

    ghost predicate Shape()
      reads this, ctrl
    {
      && Geometry(capacity, w)
      && ctrl.Length == capacity + w + 1 && slots.Length == capacity
      && CtrlOk(ctrl[..], capacity, w)
    }

    /** The control bytes of the slots, and the sentinel. */
    ghost function Bytes(): (b: seq<int>)
      requires ctrl.Length > capacity
      reads this, ctrl
    {
      ctrl[..][..capacity + 1]
    }

    ghost predicate Valid()
      reads this, ctrl, slots
    {
      && Shape()
      && Stores(ctrl[..], slots[..], capacity, w, hash, contents)
      && Accounts(ctrl[..], capacity, w, size, growthLeft)
    }

    /** A default table: one block of empty control bytes and no slots. */
    constructor (width: nat, hash: K -> nat)
      requires width == 8 || width == 16
      ensures Valid() && contents == map[] && this.hash == hash && w == width && size == capacity == 0
      ensures fresh(ctrl) && fresh(slots)
    {
      w, this.hash := width, hash;
      ctrl := new int[width + 1](i => if i == 0 then K_SENTINEL else K_EMPTY);
      slots := new Entry<K, V>[0];
      size, capacity, growthLeft := 0, 0, 0;
      contents := map[];
      new;
      EmptyIsRebuilt(ctrl[..], slots[..], 0, w, hash);
      RebuiltIsTable(ctrl[..], slots[..], 0, w, hash, contents);
    }

    // ---------- lookup ----------

    /** `Match`: a mask with every byte that equals h2, and with full bytes only. In a group of eight
        it comes from the portable word, which may flag other full bytes too. */
    method Match(h2: int, offset: nat) returns (mask: seq<bool>)
      requires Shape() && 0 <= h2 < 128 && offset <= capacity
      ensures |mask| == w && forall j :: 0 <= j < w ==>
        (ctrl[offset + j] == h2 ==> mask[j]) && (mask[j] ==> IsFull(ctrl[offset + j]))
    {
      hide IsPow2, Mirrored, PortableMatch;
      LoadedBytes(ctrl[..], capacity, w, offset);
      var g := ctrl[offset..offset + w];
      if w == 8 {
        PortableMatchIs(g, h2);
        mask := PortableMatch(g, h2);
      } else {
        mask := seq(w, j requires 0 <= j < w => g[j] == h2);
      }
    }

    /** What the cursor stands for in the table. */
    lemma Faces(sq: ProbeSeq, hv: nat)
      requires Shape() && sq.Valid() && sq.width == w && sq.mask == capacity && sq.h == H1(hv)
      ensures sq.offset + w <= ctrl.Length
      ensures ctrl[sq.offset..sq.offset + w] == GroupAt(ctrl[..], capacity, w, hv, sq.n)
      ensures forall j: nat :: sq.OffsetAt(j) == SlotAt(capacity, w, hv, sq.n, j)
    {
      hide Offset, IsPow2, CtrlOk;
    }

    /** `for (i : g.Match(H2(hashval)))` over the group at the cursor. */
    method ScanGroup(key: K, sq: ProbeSeq) returns (r: Option<nat>)
      requires Shape() && sq.Valid() && sq.n < Windows(capacity + 1, w)
      requires sq.width == w && sq.mask == capacity && sq.h == H1(hash(key))
      ensures r.Some? ==> r.value < capacity && IsFull(ctrl[r.value]) && slots[r.value].key == key
      ensures r.None? ==> MissedIn(ctrl[..], slots[..], capacity, w, hash(key), sq.n, w, key)
    {
      hide Offset, CtrlOk, IsPow2, Windows, H1, H2, GroupAt, SlotAt, FullSet, ProbeSeq.OffsetAt;
      ghost var c, hv, n := ctrl[..], hash(key), sq.n;
      Faces(sq, hv);
      var mask := Match(H2(hash(key)), sq.offset);
      for j := 0 to w
        invariant MissedIn(c, slots[..], capacity, w, hv, n, j, key)
      {
        assert c[sq.offset + j] == GroupAt(c, capacity, w, hv, n)[j];
        if mask[j] {
          MatchIsFull(c, capacity, w, hv, n, j);
          var i := sq.OffsetAt(j);
          if slots[i].key == key {
            return Some(i);
          }
        }
      }
      return None;
    }

    /** `_find_key`, and the loop of `find_impl`: the slot that holds `key`, if any. The
        precondition is the exact one for the loop to end. */
    method FindKey(key: K) returns (r: Option<nat>)
      requires Shape() && Stores(ctrl[..], slots[..], capacity, w, hash, contents)
      requires Ends(ctrl[..], capacity, w, contents, key)
      ensures r.None? <==> key !in contents
      ensures r.Some? ==> r.value < capacity && IsFull(ctrl[r.value]) && slots[r.value] == Entry(key, contents[key])
    {
      hide Offset, Windows, IsPow2, CtrlOk, AllReachable, Holds, MissedBefore, MissedIn, Stores, StopsAt, Ends,
           FullSet, H1, H2, GroupAt, SlotAt, ProbeSeq.OffsetAt;
      ghost var c, s := ctrl[..], slots[..];
      SearchEndsIff(c, s, capacity, w, hash, contents, key);
      ghost var last: nat :| last < Windows(capacity + 1, w) && StopsAt(c, s, capacity, w, hash, key, last);
      NothingBefore(c[..capacity + 1], s, w, hash(key), key);
      var hv := hash(key);
      var sq := new ProbeSeq(w, H1(hv), capacity);
      while true
        invariant sq.Valid() && fresh(sq) && sq.width == w && sq.mask == capacity && sq.h == H1(hv)
        invariant sq.n <= last
        invariant MissedBefore(c[..capacity + 1], s, w, hv, sq.n, key)
        decreases last - sq.n
      {
        r := ScanGroup(key, sq);
        if r.Some? {
          StoredAt(c, s, capacity, w, hash, contents, r.value);
          return;
        }
        StoresParts(c, s, capacity, w, hash, contents);
        WindowMissed(c, s, capacity, w, hash, sq.n, key);
        Faces(sq, hv);
        if K_EMPTY in ctrl[sq.offset..sq.offset + w] {
          StopIsSound(c, s, capacity, w, hash, sq.n, key, contents);
          return;
        }
        GoesOn(c, s, capacity, w, hash, sq.n, key);
        sq.Next();
      }
    }

    /** `find_first_non_full`. In a large table some slot must be free. */
    method FindFirstNonFull(hv: nat, ghost e: nat) returns (p: nat)
      requires Shape() && (!IsSmall(capacity, w) ==> e < capacity && IsEmptyOrDeleted(ctrl[e]))
      ensures p <= capacity && IsTarget(ctrl[..], capacity, w, hv, p) && FirstFree(ctrl[..], capacity, w, hv, p)
    {
      hide Offset, Windows, IsPow2, CtrlOk, FullBefore, IsTarget, TrailingZeros, MatchEmptyOrDeleted, WindowRank,
           IsEmptyOrDeleted, H1, GroupAt, SlotAt, FirstFree, ProbeSeq.OffsetAt;
      ghost var c := ctrl[..];
      WindowsPositive(capacity, w);
      NothingFullBefore(c[..capacity + 1], w, hv);
      var sq := new ProbeSeq(w, H1(hv), capacity);
      while true
        invariant sq.Valid() && fresh(sq) && sq.width == w && sq.mask == capacity && sq.h == H1(hv)
        invariant sq.n < Windows(capacity + 1, w)
        invariant FullBefore(c[..capacity + 1], w, hv, sq.n)
        decreases Windows(capacity + 1, w) - sq.n
      {
        TargetInGroup(c, capacity, w, hv, sq.n, e);
        Faces(sq, hv);
        var mask := MatchEmptyOrDeleted(ctrl[sq.offset..sq.offset + w]);
        var j := TrailingZeros(mask);
        if j < w {
          return sq.OffsetAt(j);
        }
        assert sq.index < capacity;  // not a full table
        sq.Next();
      }
    }

    // ---------- single bytes ----------

    /** `set_ctrl`: writes a control byte and its mirror. */
    method SetCtrl(i: nat, h: int)
      requires Shape() && i < capacity && SlotByte(h)
      modifies ctrl
      ensures Shape() && ctrl[..] == WithCtrl(old(ctrl[..]), capacity, w, i, h)
    {
      ghost var c := ctrl[..];
      SetCtrlOk(c, capacity, w, i, h);
      ctrl[i] := h;
      ctrl[(i - w) % (capacity + 1) + 1 + (w - 1) % (capacity + 1)] := h;
      assert ctrl[..] == WithCtrl(c, capacity, w, i, h);
    }

    /** `erase_meta_only`. */
    method EraseMetaOnly(i: nat)
      requires Valid() && i < capacity && IsFull(ctrl[i])
      modifies this, ctrl
      ensures Valid() && ctrl == old(ctrl) && slots == old(slots) && capacity == old(capacity)
      ensures slots[i].key in old(contents) && contents == old(contents) - {slots[i].key}
      ensures ctrl[..] == WithCtrl(old(ctrl[..]), capacity, w, i,
                                   if WasNeverFull(old(ctrl[..]), capacity, w, i) then K_EMPTY else K_DELETED)
    {
      hide CtrlOk, IsPow2, Holds, AllReachable, Accounts, WasNeverFull, WithCtrl;
      EraseStep(ctrl[..], slots[..], capacity, w, hash, contents, size, growthLeft, i);
      var never := WasNeverFull(ctrl[..], capacity, w, i);
      size := size - 1;
      SetCtrl(i, if never then K_EMPTY else K_DELETED);
      growthLeft := growthLeft + if never then 1 else 0;
      contents := contents - {slots[i].key};
    }

    /** `erase(key)`: the number of elements removed. */
    method Erase(key: K) returns (n: nat)
      requires Valid()
      modifies this, ctrl
      ensures Valid() && ctrl == old(ctrl) && slots == old(slots) && capacity == old(capacity)
      ensures n == if key in old(contents) then 1 else 0
      ensures contents == old(contents) - {key}
    {
      hide Stores, Accounts, Ends;
      ValidEnds(ctrl[..], slots[..], capacity, w, hash, contents, size, growthLeft, key);
      var r := FindKey(key);
      if r.None? {
        assert contents == contents - {key};
        return 0;
      }
      EraseMetaOnly(r.value);
      return 1;
    }

    // ---------- rebuilding ----------

    /** `resize`: moves all elements to fresh arrays. */
    method Resize(newCapacity: nat)
      requires Valid() && newCapacity > 0 && IsPow2(newCapacity + 1) && size <= newCapacity
      modifies this
      ensures Shape() && Stores(ctrl[..], slots[..], capacity, w, hash, contents)
      ensures contents == old(contents) && capacity == newCapacity && size == old(size)
      ensures Valid() <==> size <= CapacityToGrowth(w, newCapacity)
      ensures growthLeft == GrowthLeft(w, newCapacity, size)
      ensures fresh(ctrl) && fresh(slots) && Rebuilt(ctrl[..], slots[..], capacity, w, hash, contents)
    {
      hide IsPow2, CtrlOk, Holds, AllReachable, Accounts, FullSet, DeletedSet, Rebuilt, WithCtrl, CapacityToGrowth,
           Stores;
      SizeIsCardinality(ctrl[..], slots[..], capacity, w, hash, contents, size, growthLeft);
      SentinelNotFull(ctrl[..], capacity, w);
      NewGeometry(capacity, newCapacity, w);
      var oldCtrl, oldSlots, oldCapacity := ctrl, slots, capacity;
      InitializeSlots(newCapacity);
      TransferAll(oldCtrl, oldSlots, oldCapacity, contents);
      RebuiltIsTable(ctrl[..], slots[..], capacity, w, hash, contents);
    }

    /** The loop of `resize`. */
    method TransferAll(oldCtrl: array<int>, oldSlots: array<Entry<K, V>>, oldCapacity: nat, ghost m: map<K, V>)
      requires Shape() && Rebuilt(ctrl[..], slots[..], capacity, w, hash, map[]) && |m| <= capacity
      requires oldCtrl != ctrl && oldSlots != slots && oldCtrl.Length > oldCapacity == oldSlots.Length
      requires !IsFull(oldCtrl[oldCapacity]) && Holds(oldSlots[..], FullSet(oldCtrl[..][..oldCapacity + 1]), m)
      modifies ctrl, slots
      ensures Shape() && Rebuilt(ctrl[..], slots[..], capacity, w, hash, m)
    {
      hide IsPow2, CtrlOk, Holds, FullSet, FullBelow, Rebuilt;
      ghost var ob, os := oldCtrl[..][..oldCapacity + 1], oldSlots[..];
      ghost var moved: map<K, V> := map[];
      FullBelowAll(ob, oldCapacity);
      NothingHeld(os);
      for i := 0 to oldCapacity
        invariant Shape() && Rebuilt(ctrl[..], slots[..], capacity, w, hash, moved)
        invariant Holds(os, FullBelow(ob, i), moved)
      {
        FullBelowStep(ob, i);
        if IsFull(oldCtrl[i]) {
          CopyStep(ob, os, m, i, moved);
          PlaceEntry(oldSlots[i], moved);
          moved := moved[os[i].key := os[i].value];
        }
      }
      HoldsUnique(os, FullSet(ob), m, moved);
    }

    /** `initialize_slots`. */
    method InitializeSlots(newCapacity: nat)
      requires Geometry(newCapacity, w)
      modifies this
      ensures capacity == newCapacity && size == old(size) && contents == old(contents)
      ensures growthLeft == GrowthLeft(w, newCapacity, size)
      ensures fresh(ctrl) && fresh(slots) && Shape()
      ensures Rebuilt(ctrl[..], slots[..], capacity, w, hash, map[])
    {
      ctrl := new int[newCapacity + w + 1](i => if i == newCapacity then K_SENTINEL else K_EMPTY);
      slots := new Entry<K, V>[newCapacity];
      growthLeft := GrowthLeft(w, newCapacity, size);
      capacity := newCapacity;
      EmptyIsRebuilt(ctrl[..], slots[..], capacity, w, hash);
    }

    /** One step of the loop in `resize`: an entry goes to the first slot that is not full. */
    method PlaceEntry(e: Entry<K, V>, ghost moved: map<K, V>)
      requires Shape() && Rebuilt(ctrl[..], slots[..], capacity, w, hash, moved)
      requires e.key !in moved && |moved| < capacity
      modifies ctrl, slots
      ensures Shape() && Rebuilt(ctrl[..], slots[..], capacity, w, hash, moved[e.key := e.value])
    {
      hide IsPow2, CtrlOk, Holds, AllPacked, FullSet, DeletedSet, IsTarget, Packed, WithCtrl, FirstFree;
      ghost var c, s := ctrl[..], slots[..];
      var hv := hash(e.key);
      ghost var q := RebuiltHasRoom(c, s, capacity, w, hash, moved);
      var p := FindFirstNonFull(hv, q);
      TargetIsSlot(c, capacity, w, hv, p, q);
      RebuildStep(c, s, capacity, w, hash, moved, p, e);
      SetCtrl(p, H2(hv));
      slots[p] := e;
      assert slots[..] == s[p := e];
    }

    /** `ConvertDeletedToEmptyAndFullToDeleted`, group by group. */
    method ConvertDeletedToEmptyAndFullToDeleted()
      requires Shape() && !IsSmall(capacity, w)
      modifies ctrl
      ensures Shape()
      ensures forall p :: 0 <= p < capacity ==> ctrl[p] == if IsFull(old(ctrl[p])) then K_DELETED else K_EMPTY
    {
      hide IsPow2;
      GroupsFit(capacity, w);
      var pos := 0;
      ghost var k := 0;
      while pos != capacity + 1
        invariant pos == w * k && k <= (capacity + 1) / w && pos <= capacity + 1
        invariant forall p :: 0 <= p < pos ==> ctrl[p] == if IsFull(old(ctrl[p])) then K_DELETED else K_EMPTY
        invariant forall p :: pos <= p <= capacity ==> ctrl[p] == old(ctrl[p])
        decreases capacity + 1 - pos
      {
        NextGroup(capacity, w, k);
        forall j | 0 <= j < w {
          ctrl[pos + j] := if IsFull(ctrl[pos + j]) then K_DELETED else K_EMPTY;
        }
        pos := pos + w;
        k := k + 1;
      }
      forall j | 0 <= j < w {
        ctrl[capacity + 1 + j] := ctrl[j];
      }
      ctrl[capacity] := K_SENTINEL;
    }

    /** `drop_deletes_without_resize`. The index goes back by one when the entry at hand was
        exchanged with another one that still has to be placed. */
    method DropDeletesWithoutResize()
      requires Valid() && !IsSmall(capacity, w)
      modifies this, ctrl, slots
      ensures Valid() && contents == old(contents) && capacity == old(capacity) && size == old(size)
      ensures ctrl == old(ctrl) && slots == old(slots)
      ensures growthLeft == CapacityToGrowth(w, capacity) - size
    {
      hide IsPow2, CtrlOk, Sweeping, Rebuilt, Stores, Accounts, DeletedSet, Packed, CapacityToGrowth, WithCtrl;
      ghost var c, m := ctrl[..], contents;
      SizeIsCardinality(c, slots[..], capacity, w, hash, m, size, growthLeft);
      ConvertDeletedToEmptyAndFullToDeleted();
      SentinelAt(ctrl[..], capacity, w);
      ConvertedIsSweeping(c, Bytes(), slots[..], capacity, w, hash, m);
      var i: int := 0;
      while i != capacity
        invariant 0 <= i <= capacity && Shape()
        invariant Sweeping(Bytes(), slots[..], w, hash, m, i)
        modifies ctrl, slots
        decreases |DeletedSet(Bytes())|, capacity - i
      {
        if ctrl[i] != K_DELETED {
          SkipStep(Bytes(), slots[..], w, hash, m, i);
        } else {
          i := PlaceMarked(i, m);
        }
        i := i + 1;
      }
      SweptIsRebuilt(ctrl[..], slots[..], capacity, w, hash, m);
      RebuiltIsTable(ctrl[..], slots[..], capacity, w, hash, m);
      growthLeft := CapacityToGrowth(w, capacity) - size;
    }

    /** The body of the sweep for a marked slot; returns the index to increment. */
    method PlaceMarked(i: nat, ghost m: map<K, V>) returns (r: int)
      requires Shape() && !IsSmall(capacity, w) && i < capacity && ctrl[i] == K_DELETED
      requires Sweeping(Bytes(), slots[..], w, hash, m, i)
      modifies ctrl, slots
      ensures Shape() && i - 1 <= r <= i
      ensures Sweeping(Bytes(), slots[..], w, hash, m, r + 1)
      ensures |DeletedSet(Bytes())| < |DeletedSet(old(Bytes()))|
    {
      hide IsPow2, CtrlOk, Sweeping, DeletedSet, Packed, WithCtrl, IsTarget, SameProbeIndex, FirstFree;
      ghost var c, s, b := ctrl[..], slots[..], Bytes();
      var hv := hash(slots[i].key);
      var newI := FindFirstNonFull(hv, i);
      TargetIsSlot(c, capacity, w, hv, newI, i);
      if SameProbeIndex(capacity, w, hv, newI, i) {
        PackedInSameGroup(b, w, hv, newI, i);
        StayStep(b, s, w, hash, m, i);
        SetCtrl(i, H2(hv));
        r := i;
      } else if ctrl[newI] == K_EMPTY {
        MoveStep(b, s, w, hash, m, i, newI);
        SetCtrl(newI, H2(hv));
        slots[newI] := slots[i];
        SetCtrl(i, K_EMPTY);
        assert slots[..] == s[newI := s[i]];
        r := i;
      } else {
        FreeByte(c, capacity, w, newI);
        OwnGroup(capacity, w, hv, newI, i);
        SwapStep(b, s, w, hash, m, i, newI);
        SetCtrl(newI, H2(hv));
        var slot := slots[i];
        slots[i] := slots[newI];
        slots[newI] := slot;
        assert slots[..] == s[i := s[newI]][newI := s[i]];
        r := i - 1;
      }
    }

    /** `rehash_and_grow_if_necessary`, called when the growth budget is used up. */
    method RehashAndGrowIfNecessary()
      requires Valid() && growthLeft == 0
      modifies this, ctrl, slots
      ensures Valid() && contents == old(contents) && size == old(size) && growthLeft > 0
      ensures (ctrl == old(ctrl) && slots == old(slots)) || (fresh(ctrl) && fresh(slots))
      ensures growthLeft == CapacityToGrowth(w, capacity) - size
      ensures if 0 < old(capacity) && size <= CapacityToGrowth(w, old(capacity)) / 2
        then ctrl == old(ctrl) && slots == old(slots) && capacity == old(capacity)
        else Doubled(w, old(capacity), capacity, size)
    {
      hide IsPow2, CtrlOk, Stores, Accounts, CapacityToGrowth;
      SizeIsCardinality(ctrl[..], slots[..], capacity, w, hash, contents, size, growthLeft);
      if capacity == 0 {
        GrowthOfOne(w);
        Resize(1);
      } else if size <= CapacityToGrowth(w, capacity) / 2 {
        if IsSmall(capacity, w) {
          SmallNeverSquashes(ctrl[..], capacity, w, size);
        }
        GrowthDoubles(w, capacity);
        DropDeletesWithoutResize();
      } else {
        GrowthDoubles(w, capacity);
        DoubleIsPow2(capacity + 1);
        Resize(capacity * 2 + 1);
      }
    }

    // ---------- insertion ----------

    /** `prepare_insert`: reserves a slot for a new element, growing the table if needed. */
    method PrepareInsert(hv: nat) returns (p: nat)
      requires Valid()
      modifies this, ctrl, slots
      ensures Shape() && Stores(ctrl[..], slots[..], capacity, w, hash, contents)
      ensures contents == old(contents)
      ensures capacity == old(capacity) || (old(growthLeft) == 0 && Doubled(w, old(capacity), capacity, old(size)))
      ensures Prepared(ctrl[..], capacity, w, size, growthLeft, hv, p) && FirstFree(ctrl[..], capacity, w, hv, p)
      ensures (ctrl == old(ctrl) && slots == old(slots)) || (fresh(ctrl) && fresh(slots))
    {
      hide IsPow2, CtrlOk, Stores, Accounts, Prepared, IsTarget, CapacityToGrowth, Doubled, FirstFree;
      ghost var e := SomeFree(ctrl[..], slots[..], capacity, w, hash, contents, size, growthLeft);
      p := FindFirstNonFull(hv, e);
      if growthLeft == 0 && ctrl[p] != K_DELETED {
        RehashAndGrowIfNecessary();
        e := SomeFree(ctrl[..], slots[..], capacity, w, hash, contents, size, growthLeft);
        p := FindFirstNonFull(hv, e);
      }
      TargetIsPrepared(ctrl[..], slots[..], capacity, w, hash, contents, size, growthLeft, hv, p);
      size := size + 1;
      growthLeft := growthLeft - if ctrl[p] == K_EMPTY then 1 else 0;
    }

    /** `emplace`: inserts the element unless its key is present; the slot, and whether it is new. */
    method Emplace(key: K, value: V) returns (i: nat, inserted: bool)
      requires Valid()
      modifies this, ctrl, slots
      ensures Valid() && i < capacity && slots[i].key == key
      ensures inserted == (key !in old(contents))
      ensures contents == if inserted then old(contents)[key := value] else old(contents)
      ensures capacity == old(capacity)
        || (inserted && old(growthLeft) == 0 && Doubled(w, old(capacity), capacity, old(size)))
      ensures (ctrl == old(ctrl) && slots == old(slots)) || (fresh(ctrl) && fresh(slots))
    {
      hide IsPow2, CtrlOk, Stores, Accounts, Prepared, WithCtrl, Ends, Doubled, FirstFree;
      ValidEnds(ctrl[..], slots[..], capacity, w, hash, contents, size, growthLeft, key);
      var r := FindKey(key);
      if r.Some? {
        return r.value, false;
      }
      i := PrepareInsert(hash(key));
      inserted := true;
      PreparedSlot(ctrl[..], capacity, w, size, growthLeft, hash(key), i);
      ghost var s := slots[..];
      EmplaceStep(ctrl[..], s, capacity, w, hash, contents, size, growthLeft, i, Entry(key, value));
      slots[i] := Entry(key, value);
      assert slots[..] == s[i := Entry(key, value)];
      SetCtrl(i, H2(hash(key)));
      contents := contents[key := value];
    }

    /** `clear`. Tombstones of an already empty table stay. */
    method Clear()
      requires Valid()
      modifies this, ctrl
      ensures Valid() && contents == map[] && ctrl == old(ctrl) && slots == old(slots) && capacity == old(capacity)
      ensures if old(size) == 0 then ctrl[..] == old(ctrl[..]) else growthLeft == CapacityToGrowth(w, capacity)
    {
      hide IsPow2, CtrlOk, Stores, Accounts, Rebuilt, CapacityToGrowth;
      SizeIsCardinality(ctrl[..], slots[..], capacity, w, hash, contents, size, growthLeft);
      if size == 0 {
        return;
      }
      size := 0;
      forall i | 0 <= i < capacity + w {
        ctrl[i] := K_EMPTY;
      }
      ctrl[capacity] := K_SENTINEL;
      growthLeft := CapacityToGrowth(w, capacity);
      contents := map[];
      EmptyIsRebuilt(ctrl[..], slots[..], capacity, w, hash);
      RebuiltIsTable(ctrl[..], slots[..], capacity, w, hash, contents);
    }

    /** `rehash(n)`. It always keeps the elements; it keeps the accounts exactly when n > 0 or the
        elements fit into the load limit of their own normalized number. */
    method Rehash(n: nat)
      requires Valid()
      modifies this
      ensures Shape() && Stores(ctrl[..], slots[..], capacity, w, hash, contents)
      ensures contents == old(contents) && size == old(size)
      ensures Valid() <==> n > 0 || size <= CapacityToGrowth(w, NormalizeCapacity(size))
      ensures n > 0 ==> capacity >= n && capacity >= old(capacity)
      ensures n > 0 ==> capacity == old(capacity) || capacity == NormalizeCapacity(if n < size then size else n)
      ensures capacity <= old(capacity) || capacity == NormalizeCapacity(n)
      ensures n == 0 ==> capacity == if old(capacity) == 0 || size == 0 then 0 else NormalizeCapacity(size)
      ensures n == 0 && capacity > 0 ==> Rebuilt(ctrl[..], slots[..], capacity, w, hash, contents)
      ensures (ctrl == old(ctrl) && slots == old(slots) && capacity == old(capacity)) || (fresh(ctrl) && fresh(slots))
    {
      hide IsPow2, CtrlOk, Stores, Accounts, Rebuilt, CapacityToGrowth;
      SizeIsCardinality(ctrl[..], slots[..], capacity, w, hash, contents, size, growthLeft);
      if n == 0 && capacity == 0 {
        return;
      }
      if n == 0 && size == 0 {
        // destroy_slots
        GrowthOfOne(w);
        ctrl := new int[w + 1](i => if i == 0 then K_SENTINEL else K_EMPTY);
        slots := new Entry<K, V>[0];
        capacity, growthLeft := 0, 0;
        EmptyIsRebuilt(ctrl[..], slots[..], 0, w, hash);
        RebuiltIsTable(ctrl[..], slots[..], 0, w, hash, contents);
        return;
      }
      var m := NormalizeCapacity(if n < size then size else n);
      if n < size {
        NormalizeLeast(size, capacity);
      }
      if n == 0 || m > capacity {
        LargerCapacityFits(w, capacity, m, size);
        Resize(m);
      }
    }

    /** `reserve(n)`: afterwards n elements fit without growing. */
    method Reserve(n: nat)
      requires Valid()
      modifies this
      ensures Shape() && Stores(ctrl[..], slots[..], capacity, w, hash, contents)
      ensures contents == old(contents) && size == old(size) && CapacityToGrowth(w, capacity) >= n
      ensures Valid() <==> n > 0 || size <= CapacityToGrowth(w, NormalizeCapacity(size))
      ensures n > 0 ==> capacity == old(capacity) || forall cap :: TakesAll(w, cap, n, size) ==> capacity <= cap
      ensures capacity <= old(capacity) || capacity == NormalizeCapacity(GrowthToLowerboundCapacity(w, n))
      ensures (ctrl == old(ctrl) && slots == old(slots) && capacity == old(capacity)) || (fresh(ctrl) && fresh(slots))
    {
      hide Stores, Accounts, CapacityToGrowth, TakesAll, NormalizeCapacity;
      forall cap | TakesAll(w, cap, n, size) ensures
        var x := GrowthToLowerboundCapacity(w, n); NormalizeCapacity(if x < size then size else x) <= cap
      {
        ReserveLeast(w, n, size, cap);
      }
      Rehash(GrowthToLowerboundCapacity(w, n));
      ReservedGrowth(w, n, capacity);
    }
  }

  // ---------- whole runs ----------

  datatype Op<K, V> =
    | Emplace(key: K, value: V)
    | Find(key: K)
    | Erase(key: K)
    | Clear
    | Reserve(n: nat)
    | Rehash(n: nat)

  datatype Answer<V> = Inserted(b: bool) | Looked(r: Option<V>) | Erased(n: nat) | Done

  /** What an operation does to the abstract map. */
  function After<K(==), V>(m: map<K, V>, op: Op<K, V>): map<K, V> {
    match op
    case Emplace(k, v) => if k in m then m else m[k := v]
    case Find(_) => m
    case Erase(k) => m - {k}
    case Clear => map[]
    case Reserve(_) => m
    case Rehash(_) => m
  }

  function Reply<K(==), V>(m: map<K, V>, op: Op<K, V>): Answer<V> {
    match op
    case Emplace(k, _) => Inserted(k !in m)
    case Find(k) => Looked(if k in m then Some(m[k]) else None)
    case Erase(k) => Erased(if k in m then 1 else 0)
    case Clear => Done
    case Reserve(_) => Done
    case Rehash(_) => Done
  }

  /** A request to shrink needs room for the elements in their own normalized number. */
  predicate Fits<K, V>(width: nat, m: map<K, V>, op: Op<K, V>) {
    (op.Reserve? || op.Rehash?) && op.n == 0 ==> |m| <= CapacityToGrowth(width, NormalizeCapacity(|m|))
  }

  function FinalMap<K(==), V>(ops: seq<Op<K, V>>): map<K, V> {
    if ops == [] then map[] else After(FinalMap(ops[..|ops| - 1]), ops[|ops| - 1])
  }

  function Replies<K(==), V>(ops: seq<Op<K, V>>): seq<Answer<V>> {
    if ops == [] then []
    else Replies(ops[..|ops| - 1]) + [Reply(FinalMap(ops[..|ops| - 1]), ops[|ops| - 1])]
  }

  function Max(a: nat, b: nat): nat {
    if a < b then b else a
  }

  /** The largest number of elements at the end of an operation. */
  function Peak<K(==), V>(ops: seq<Op<K, V>>): nat {
    if ops == [] then 0 else Max(Peak(ops[..|ops| - 1]), |FinalMap(ops)|)
  }

  /** The capacity that an operation asks for. */
  function Request<K, V>(width: nat, op: Op<K, V>): nat {
    match op
    case Reserve(n) => NormalizeCapacity(GrowthToLowerboundCapacity(width, n))
    case Rehash(n) => NormalizeCapacity(n)
    case _ => 0
  }

  function Requested<K, V>(width: nat, ops: seq<Op<K, V>>): nat {
    if ops == [] then 0 else Max(Requested(width, ops[..|ops| - 1]), Request(width, ops[|ops| - 1]))
  }

  /** Every run of operations on a fresh table answers like the abstract map, whatever the hash
      function, and ends with as many elements as that map. Its capacity is at most what has been asked
      for, or else small or within a factor of the largest number of elements so far. */
  method Run<K(==, 0), V(0)>(width: nat, hash: K -> nat, ops: seq<Op<K, V>>)
      returns (answers: seq<Answer<V>>, size: nat, capacity: nat)
    requires width == 8 || width == 16
    requires forall k :: 0 <= k < |ops| ==> Fits(width, FinalMap(ops[..k]), ops[k])
    ensures answers == Replies(ops)
    ensures size == |FinalMap(ops)|
    ensures capacity <= Requested(width, ops) || WithinSpace(width, capacity, Peak(ops))
  {
    hide WithinSpace, Doubled, Stores, Accounts, CapacityToGrowth, NormalizeCapacity, Fits;
    var t := new RawHashSet(width, hash);
    answers := [];
    for k := 0 to |ops|
      invariant fresh(t) && fresh(t.ctrl) && fresh(t.slots) && t.Valid() && t.w == width
      invariant t.contents == FinalMap(ops[..k])
      invariant answers == Replies(ops[..k])
      invariant t.capacity <= Requested(width, ops[..k]) || WithinSpace(width, t.capacity, Peak(ops[..k]))
    {
      assert ops[..k + 1][..k] == ops[..k];
      ghost var before := t.capacity;
      SizeIsCardinality(t.ctrl[..], t.slots[..], t.capacity, t.w, t.hash, t.contents, t.size, t.growthLeft);
      var answer := Perform(t, ops[k]);
      answers := answers + [answer];
      SpaceKept(width, before, t.capacity, ops, k);
    }
    assert ops[..|ops|] == ops;
    size, capacity := t.size, t.capacity;
    SizeIsCardinality(t.ctrl[..], t.slots[..], t.capacity, t.w, t.hash, t.contents, t.size, t.growthLeft);
  }

  /** One operation keeps the bound on the space. */
  lemma SpaceKept<K, V>(w: nat, cap: nat, cap': nat, ops: seq<Op<K, V>>, k: nat)
    requires k < |ops|
    requires cap <= Requested(w, ops[..k]) || WithinSpace(w, cap, Peak(ops[..k]))
    requires cap' <= Max(cap, Request(w, ops[k])) || Doubled(w, cap, cap', |FinalMap(ops[..k])|)
    ensures cap' <= Requested(w, ops[..k + 1]) || WithinSpace(w, cap', Peak(ops[..k + 1]))
  {
    hide WithinSpace, Doubled, CapacityToGrowth, NormalizeCapacity, Request, FinalMap;
    var a, b := ops[..k], ops[..k + 1];
    assert b[..|b| - 1] == a && b[|b| - 1] == ops[k];
    PeakCovers(a);
    if Doubled(w, cap, cap', |FinalMap(a)|) {
      DoubledWithin(w, cap, cap', |FinalMap(a)|);
      WithinLess(w, cap', |FinalMap(a)|, cap', Peak(b));
    } else if cap' <= cap && WithinSpace(w, cap, Peak(a)) {
      WithinLess(w, cap, Peak(a), cap', Peak(b));
    }
  }

  lemma PeakCovers<K, V>(ops: seq<Op<K, V>>)
    ensures |FinalMap(ops)| <= Peak(ops)
  {
  }

  /** Seven keys in groups of eight and then `rehash(0)`: a run after which the accounts are wrong
      and no search for an absent key ends. */
  method Overfill(hash: int -> nat) returns (t: RawHashSet<int, int>)
    ensures fresh(t) && t.Shape() && t.size == t.capacity == 7 && !t.Valid()
    ensures Stores(t.ctrl[..], t.slots[..], 7, 8, hash, t.contents) && t.contents.Keys == Below(7)
    ensures forall key, n: nat :: key !in t.contents ==> !StopsAt(t.ctrl[..], t.slots[..], 7, 8, hash, key, n)
  {
    hide StopsAt, Stores, Accounts, Rebuilt, CapacityToGrowth, NormalizeCapacity, IsPow2, CtrlOk;
    RehashToZeroOverfills();
    t := SevenKeys(hash);
    t.Rehash(0);
    assert t.contents.Keys == Below(7) && |t.contents| == |t.contents.Keys|;
    forall key | key !in t.contents ensures forall n: nat :: !StopsAt(t.ctrl[..], t.slots[..], 7, 8, hash, key, n) {
      RebuiltEndsIff(t.ctrl[..], t.slots[..], 7, 8, hash, t.contents, key);
    }
  }

  method SevenKeys(hash: int -> nat) returns (t: RawHashSet<int, int>)
    ensures fresh(t) && t.Valid() && t.w == 8 && t.hash == hash && t.contents == map k | k in Below(7) :: k
    ensures t.size == 7 && t.capacity > 0
  {
    hide *;
    t := new RawHashSet(8, hash);
    for i := 0 to 7
      invariant fresh(t) && fresh(t.ctrl) && fresh(t.slots) && t.Valid() && t.w == 8 && t.hash == hash
      invariant t.contents == map k | k in Below(i) :: k
    {
      var _, _ := t.Emplace(i, i);
    }
    CountSeven(t);
  }

  lemma CountSeven(t: RawHashSet<int, int>)
    requires t.Valid() && t.contents.Keys == Below(7)
    ensures t.size == 7 && t.capacity > 0
  {
    SizeIsCardinality(t.ctrl[..], t.slots[..], t.capacity, t.w, t.hash, t.contents, t.size, t.growthLeft);
    assert |t.contents| == |t.contents.Keys|;
  }

  method Perform<K(==, 0), V(0)>(t: RawHashSet<K, V>, op: Op<K, V>) returns (answer: Answer<V>)
    requires t.Valid() && Fits(t.w, t.contents, op)
    modifies t, t.ctrl, t.slots
    ensures t.Valid() && t.contents == After(old(t.contents), op)
    ensures answer == Reply(old(t.contents), op)
    ensures || t.capacity <= Max(old(t.capacity), Request(t.w, op))
            || Doubled(t.w, old(t.capacity), t.capacity, |old(t.contents)|)
    ensures (t.ctrl == old(t.ctrl) && t.slots == old(t.slots)) || (fresh(t.ctrl) && fresh(t.slots))
  {
    hide Stores, Accounts, Ends;
    SizeIsCardinality(t.ctrl[..], t.slots[..], t.capacity, t.w, t.hash, t.contents, t.size, t.growthLeft);
    match op {
      case Emplace(k, v) =>
        var _, b := t.Emplace(k, v);
        answer := Inserted(b);
      case Find(k) =>
        ValidEnds(t.ctrl[..], t.slots[..], t.capacity, t.w, t.hash, t.contents, t.size, t.growthLeft, k);
        var r := t.FindKey(k);
        answer := Looked(if r.Some? then Some(t.slots[r.value].value) else None);
      case Erase(k) =>
        var n := t.Erase(k);
        answer := Erased(n);
      case Clear =>
        t.Clear();
        answer := Done;
      case Reserve(n) =>
        t.Reserve(n);
        answer := Done;
      case Rehash(n) =>
        t.Rehash(n);
        answer := Done;
    }
  }
}
