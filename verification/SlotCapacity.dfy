/** What a store's capacity and slot size mean in bytes (src/common/slot_allocator.cpp): how many slots there
    are, which sizes they take, in which order they are handed out, and what a free does to that. */
module SlotCapacity {
  import opened Base
  import opened SlotAllocation

  /** The allocator of a new store once its slot size is known: from the start, or from the size of the
      first allocation. */
  ghost function LaidOut(totalBytes: nat, slotSize: nat, size: nat): AllocState {
    if slotSize > 0 then Fresh(totalBytes, slotSize) else AllocSpec(Fresh(totalBytes, 0), size).0
  }

  function SizeOfSlot(slotSize: nat, size: nat): nat { if slotSize > 0 then slotSize else size }

  lemma WholeSlots(totalBytes: nat, z: nat, q: nat)
    requires 0 < z && q * z <= totalBytes < (q + 1) * z
    ensures Quotient(totalBytes, z) == q
  {
    assert (q + 1) * z == q * z + z;
    OffsetIsProduct(q, z);
    Decompose(totalBytes, z);
    DecompositionUnique(q, totalBytes - q * z, Quotient(totalBytes, z), Remainder(totalBytes, z), z);
  }

  /** A store has as many slots as fit whole into its capacity; one, if not even one fits; and with 2^32 or
      more, the low 32 bits of that. */
  lemma CapacityInSlots(totalBytes: nat, slotSize: nat, size: nat, q: nat)
    requires
      var z := SizeOfSlot(slotSize, size);
      0 < z < U32 && q * z <= totalBytes < (q + 1) * z
    ensures
      var (s, z) := (LaidOut(totalBytes, slotSize, size), SizeOfSlot(slotSize, size));
      && s.initialized && s.slotSize == z && s.totalBytes == s.totalSlots * z
      && s.totalSlots == (if q % U32 == 0 then 1 else q % U32)
      && (z <= totalBytes && q < U32 ==> s.totalSlots * z <= totalBytes < (s.totalSlots + 1) * z)
      && (totalBytes < z ==> s.totalSlots == 1)
  {
    var z := SizeOfSlot(slotSize, size);
    WholeSlots(totalBytes, z, q);
    OffsetIsProduct(LaidOut(totalBytes, slotSize, size).totalSlots, z);
    if totalBytes < z { WholeSlots(totalBytes, z, 0); }
  }

  // ---------- in which order slots are handed out ----------

  function Ascending(first: nat, n: nat, z: nat): seq<nat> { seq(n, i requires 0 <= i < n => (first + i) * z) }

  lemma {:induction false} VirginInOrder(s: AllocState, size: nat, count: nat)
    requires s.initialized && Admissible(s, size) && s.freeStack == [] && s.nextSlot <= s.totalSlots
    ensures
      var n := Min(count, s.totalSlots - s.nextSlot);
      RepeatAlloc(s, size, count).1 == Ascending(s.nextSlot, n, s.slotSize)
    decreases count
  {
    if count > 0 && s.nextSlot < s.totalSlots {
      var n := Min(count - 1, s.totalSlots - s.nextSlot - 1);
      VirginInOrder(Bump(s), size, count - 1);
      OffsetIsProduct(s.nextSlot, s.slotSize);
      assert Ascending(s.nextSlot, n + 1, s.slotSize)
        == [s.nextSlot * s.slotSize] + Ascending(s.nextSlot + 1, n, s.slotSize);
    }
  }

  /** A new store grants that many allocations of an accepted size, one slot after the other from the front
      of the file, and no more. */
  lemma NewStoreGrants(totalBytes: nat, slotSize: nat, size: nat, q: nat, count: nat)
    requires
      var z := SizeOfSlot(slotSize, size);
      size <= z && 0 < z < U32 && q * z <= totalBytes < (q + 1) * z
    ensures
      var (offs, z) := (RepeatAlloc(Fresh(totalBytes, slotSize), size, count).1, SizeOfSlot(slotSize, size));
      var n := Min(count, if q % U32 == 0 then 1 else q % U32);
      |offs| == n && forall i :: 0 <= i < n ==> offs[i] == i * z
  {
    CapacityInSlots(totalBytes, slotSize, size, q);
    if slotSize > 0 {
      VirginInOrder(Fresh(totalBytes, slotSize), size, count);
    } else if count > 0 {
      FirstOfLazy(totalBytes, size, count);
      VirginInOrder(LaidOut(totalBytes, 0, size), size, count - 1);
    }
  }

  lemma FirstOfLazy(totalBytes: nat, size: nat, count: nat)
    requires 0 < size < U32 && count > 0
    ensures
      var t := LaidOut(totalBytes, 0, size);
      && t.initialized && Admissible(t, size) && t.freeStack == [] && t.nextSlot == 1 <= t.totalSlots && t.autoDetected
      && RepeatAlloc(Fresh(totalBytes, 0), size, count).1 == [0] + RepeatAlloc(t, size, count - 1).1
  {
  }

  /** Free slots are a stack: the one freed last is handed out next, and the allocator is then as if it had
      never been freed. */
  lemma FreedIsNext(s: AllocState, off: nat, size: nat)
    requires Wf(s) && off in InUse(s) && Admissible(s, size)
    ensures AllocSpec(FreeSpec(s, off), size) == (s, Some(off))
  {
    var i := SlotOf(s, off);
    OffsetDivides(i, s.slotSize);
    FreePushes(s, off, i);
    var t := PushFree(s, i);
    assert t.freeStack[..|t.freeStack| - 1] == s.freeStack;
    UsedIsPositive(s, i);
  }

  lemma UsedIsPositive(s: AllocState, slot: nat)
    requires Wf(s) && Taken(s, slot)
    ensures 0 < s.usedSlots < U32
  {
    if s.usedSlots == 0 {
      InUseMember(s, OffsetOf(slot, s.slotSize));
    }
  }

  // ---------- which sizes are taken, and which frees ----------

  /** A fixed slot takes every size up to its own, none left out; a store without one takes any size but
      zero first, and then only that size. */
  lemma SizesTaken(totalBytes: nat, slotSize: nat, first: nat, size: nat, q: nat)
    requires slotSize < U32 && 0 < first < U32 && size < U32
    requires 1 < q < U32 && q * first <= totalBytes < (q + 1) * first
    ensures slotSize > 0 ==> (AllocSpec(Fresh(totalBytes, slotSize), size).1.Some? <==> size <= slotSize)
    ensures AllocSpec(Fresh(totalBytes, 0), size).1.Some? <==> size > 0
    ensures AllocSpec(AllocSpec(Fresh(totalBytes, 0), first).0, size).1.Some? <==> size == first
  {
    FirstTaken(totalBytes, slotSize, size);
    FirstOfLazy(totalBytes, first, 1);
    CapacityInSlots(totalBytes, 0, first, q);
  }

  lemma FirstTaken(totalBytes: nat, slotSize: nat, size: nat)
    requires slotSize < U32 && size < U32
    ensures slotSize > 0 ==> (AllocSpec(Fresh(totalBytes, slotSize), size).1.Some? <==> size <= slotSize)
    ensures AllocSpec(Fresh(totalBytes, 0), size).1.Some? <==> size > 0
  {
  }

  /** A free of an offset that is negative, not a whole number of slots, or past the last slot is ignored,
      and so is any before the slot size is known. */
  lemma StrayFreesIgnored(s: AllocState, off: int)
    requires Wf(s)
    requires !s.initialized || off < 0 || off % s.slotSize != 0 || s.totalSlots <= off / s.slotSize < U32
    ensures FreeSpec(s, off) == s
  {
    if s.initialized && off >= 0 { QuotientIsDivision(off, s.slotSize); }
  }
}
