/** Space management of one store (src/common/slot_allocator.cpp): a lazily initialised bump
    pointer over equal-sized slots with a LIFO stack of freed slots. */
module SlotAllocation {
  import opened Base

  /** The allocator's fields as a value. */
  datatype AllocState = AllocState(
    slotSize: nat, totalSlots: nat, usedSlots: nat, totalBytes: nat, nextSlot: nat,
    initialized: bool, autoDetected: bool, freeStack: seq<nat>)

  ghost predicate Wf(s: AllocState) {
    if s.initialized then
      && 0 < s.slotSize < U32 && 0 < s.totalSlots < U32
      && s.totalBytes == OffsetOf(s.totalSlots, s.slotSize)
      && s.nextSlot <= s.totalSlots
      && NoDup(s.freeStack) && (forall x :: x in s.freeStack ==> x < s.nextSlot)
      && s.usedSlots + |s.freeStack| == s.nextSlot
      && s.usedSlots == |InUse(s)|
    else
      && s.slotSize == s.usedSlots == s.nextSlot == 0 && s.freeStack == [] && !s.autoDetected
  }

  predicate Taken(s: AllocState, slot: nat) {
    slot < s.nextSlot && slot !in s.freeStack
  }

  /** The byte offsets of the slots handed out and not freed. */
  ghost function InUse(s: AllocState): set<nat> {
    UsedBelow(s.freeStack, s.nextSlot, s.slotSize)
  }

  ghost function UsedBelow(free: seq<nat>, n: nat, size: nat): set<nat> {
    if n == 0 then {}
    else UsedBelow(free, n - 1, size) + if n - 1 in free then {} else {OffsetOf(n - 1, size)}
  }

  lemma {:induction false} UsedBelowMember(free: seq<nat>, n: nat, size: nat, x: nat)
    ensures x in UsedBelow(free, n, size) <==> exists i: nat :: i < n && i !in free && OffsetOf(i, size) == x
  {
    if n > 0 { UsedBelowMember(free, n - 1, size, x); }
  }

  lemma InUseMember(s: AllocState, x: nat)
    ensures x in InUse(s) <==> exists i: nat :: Taken(s, i) && OffsetOf(i, s.slotSize) == x
  {
    UsedBelowMember(s.freeStack, s.nextSlot, s.slotSize, x);
  }

  lemma SlotOf(s: AllocState, x: nat) returns (i: nat)
    requires x in InUse(s)
    ensures Taken(s, i) && OffsetOf(i, s.slotSize) == x
  {
    InUseMember(s, x);
    i :| Taken(s, i) && OffsetOf(i, s.slotSize) == x;
  }

  /** No slot is left to hand out. */
  predicate Full(s: AllocState) {
    s.initialized && s.freeStack == [] && s.nextSlot >= s.totalSlots
  }

  function FreeSlots(s: AllocState): nat
    requires s.nextSlot <= s.totalSlots
  {
    |s.freeStack| + s.totalSlots - s.nextSlot
  }

  /** The size an allocation must have: exact once detected from the first request, at most
      the slot size when configured, and non-zero while the slot size is still open. */
  predicate Admissible(s: AllocState, size: nat) {
    if !s.initialized then size > 0
    else if s.autoDetected then size == s.slotSize
    else size <= s.slotSize
  }

  // ---------- arithmetic of slots ----------

  /** `slot * size`, `offset / size` and `offset % size` by repeated addition and subtraction:
      the specification stays free of products of two variables. */
  ghost function OffsetOf(slot: nat, size: nat): nat {
    if slot == 0 then 0 else OffsetOf(slot - 1, size) + size
  }

  ghost function Quotient(offset: nat, size: nat): nat {
    if size == 0 || offset < size then 0 else Quotient(offset - size, size) + 1
  }

  ghost function Remainder(offset: nat, size: nat): nat {
    if size == 0 || offset < size then offset else Remainder(offset - size, size)
  }

  lemma {:induction false} OffsetIsProduct(slot: nat, size: nat)
    ensures OffsetOf(slot, size) == slot * size
  {
    if slot > 0 { OffsetIsProduct(slot - 1, size); }
  }

  lemma {:induction false} Decompose(offset: nat, size: nat)
    requires size > 0
    ensures offset == OffsetOf(Quotient(offset, size), size) + Remainder(offset, size)
    ensures Remainder(offset, size) < size
  {
    if offset >= size { Decompose(offset - size, size); }
  }

  lemma {:induction false} OffsetDivides(slot: nat, size: nat)
    requires size > 0
    ensures Quotient(OffsetOf(slot, size), size) == slot && Remainder(OffsetOf(slot, size), size) == 0
  {
    if slot > 0 { OffsetDivides(slot - 1, size); }
  }

  lemma {:induction false} SlotGap(i: nat, j: nat, size: nat)
    requires i < j
    ensures OffsetOf(i, size) + size <= OffsetOf(j, size)
  {
    if i < j - 1 { SlotGap(i, j - 1, size); }
  }

  lemma SlotUnique(i: nat, j: nat, size: nat)
    requires size > 0 && OffsetOf(i, size) == OffsetOf(j, size)
    ensures i == j
  {
    if i < j { SlotGap(i, j, size); }
    if j < i { SlotGap(j, i, size); }
  }

  lemma DecompositionUnique(q1: nat, r1: nat, q2: nat, r2: nat, size: nat)
    requires OffsetOf(q1, size) + r1 == OffsetOf(q2, size) + r2 && r1 < size && r2 < size
    ensures q1 == q2 && r1 == r2
  {
    if q1 < q2 { SlotGap(q1, q2, size); }
    if q2 < q1 { SlotGap(q2, q1, size); }
  }

  lemma DivisionIdentity(offset: nat, size: nat)
    requires size > 0
    ensures offset == (offset / size) * size + offset % size
  {
  }

  lemma QuotientIsDivision(offset: nat, size: nat)
    requires size > 0
    ensures Quotient(offset, size) == offset / size && Remainder(offset, size) == offset % size
  {
    var q, r := offset / size, offset % size;
    assert offset == OffsetOf(q, size) + r by {
      DivisionIdentity(offset, size);
      OffsetIsProduct(q, size);
    }
    Decompose(offset, size);
    DecompositionUnique(q, r, Quotient(offset, size), Remainder(offset, size), size);
  }

  // ---------- specification ----------

  ghost function SlotCount(totalBytes: nat, size: nat): nat {
    var n := Quotient(totalBytes, size) % U32;
    if n == 0 then 1 else n
  }

  /** Fixes the slot size: the 32-bit slot count, at least one, and the capacity it gives. */
  ghost function Layout(s: AllocState, size: nat, detected: bool): AllocState {
    var total := SlotCount(s.totalBytes, size);
    s.(slotSize := size, totalSlots := total, totalBytes := OffsetOf(total, size),
       nextSlot := 0, initialized := true, autoDetected := detected)
  }

  ghost function Fresh(totalBytes: nat, slotSize: nat): AllocState {
    var s := AllocState(0, 0, 0, totalBytes, 0, false, false, []);
    if slotSize == 0 then s else Layout(s, slotSize, false)
  }

  ghost function LazyInit(s: AllocState, size: nat): AllocState {
    if s.initialized || size == 0 then s else Layout(s, size, true)
  }

  function PopFree(s: AllocState): AllocState
    requires s.freeStack != []
  {
    s.(freeStack := s.freeStack[..|s.freeStack| - 1], usedSlots := s.usedSlots + 1)
  }

  function Bump(s: AllocState): AllocState {
    s.(nextSlot := s.nextSlot + 1, usedSlots := s.usedSlots + 1)
  }

  function PushFree(s: AllocState, slot: nat): AllocState {
    s.(freeStack := s.freeStack + [slot], usedSlots := (s.usedSlots + U32 - 1) % U32)
  }

  ghost function AllocSpec(s: AllocState, size: nat): (AllocState, Option<nat>) {
    var t := LazyInit(s, size);
    if !Admissible(s, size) then (s, None)
    else if t.freeStack != [] then
      (PopFree(t), Some(OffsetOf(t.freeStack[|t.freeStack| - 1], t.slotSize)))
    else if t.nextSlot < t.totalSlots then (Bump(t), Some(OffsetOf(t.nextSlot, t.slotSize)))
    else (t, None)
  }

  /** One allocation after another until `count` succeeded or one failed. */
  ghost function RepeatAlloc(s: AllocState, size: nat, count: nat): (AllocState, seq<nat>)
    decreases count
  {
    if count == 0 then (s, [])
    else
      var (t, off) := AllocSpec(s, size);
      if off.None? then (t, [])
      else
        var (u, rest) := RepeatAlloc(t, size, count - 1);
        (u, [off.value] + rest)
  }

  /** The slot index `Free` computes, cut to 32 bits. */
  ghost function SlotIndex(s: AllocState, offset: nat): nat {
    Quotient(offset, s.slotSize) % U32
  }

  /** Does `Free(offset)` put a slot on the stack, rather than being ignored? */
  ghost predicate Frees(s: AllocState, offset: int) {
    offset >= 0 && s.initialized && Remainder(offset, s.slotSize) == 0
    && SlotIndex(s, offset) < s.totalSlots
  }

  ghost function FreeSpec(s: AllocState, offset: int): AllocState {
    if Frees(s, offset) then PushFree(s, SlotIndex(s, offset)) else s
  }

  ghost function FreeAll(s: AllocState, offsets: seq<nat>): AllocState
    decreases |offsets|
  {
    if offsets == [] then s else FreeAll(FreeSpec(s, offsets[0]), offsets[1..])
  }

  // ---------- what the specification guarantees ----------

  /** A fixed slot size gives a usable, empty allocator whatever the capacity: the slot count
      is never zero and never exceeds 32 bits. */
  lemma LayoutWf(s: AllocState, size: nat, detected: bool)
    requires s.usedSlots == 0 && s.freeStack == [] && 0 < size < U32
    ensures Wf(Layout(s, size, detected)) && InUse(Layout(s, size, detected)) == {}
  {
  }

  lemma FreshWf(totalBytes: nat, slotSize: nat)
    requires slotSize < U32
    ensures Wf(Fresh(totalBytes, slotSize)) && InUse(Fresh(totalBytes, slotSize)) == {}
  {
    if slotSize > 0 {
      LayoutWf(AllocState(0, 0, 0, totalBytes, 0, false, false, []), slotSize, false);
    }
  }

  /** Adding a slot to the ones in use. */
  lemma InUseGrows(s: AllocState, t: AllocState, slot: nat)
    requires s.slotSize == t.slotSize > 0
    requires forall i: nat :: Taken(t, i) <==> Taken(s, i) || i == slot
    requires !Taken(s, slot)
    ensures InUse(t) == InUse(s) + {OffsetOf(slot, s.slotSize)}
    ensures OffsetOf(slot, s.slotSize) !in InUse(s)
  {
    var off := OffsetOf(slot, s.slotSize);
    forall x ensures x in InUse(t) <==> x in InUse(s) || x == off {
      InUseMember(s, x);
      InUseMember(t, x);
      assert Taken(t, slot);
    }
    if off in InUse(s) {
      var i := SlotOf(s, off);
      SlotUnique(i, slot, s.slotSize);
    }
  }

  lemma PopTakes(s: AllocState)
    requires Wf(s) && s.initialized && s.freeStack != []
    ensures
      var off := OffsetOf(s.freeStack[|s.freeStack| - 1], s.slotSize);
      Wf(PopFree(s)) && off !in InUse(s) && InUse(PopFree(s)) == InUse(s) + {off}
  {
    var t := PopFree(s);
    var slot := s.freeStack[|s.freeStack| - 1];
    assert s.freeStack == t.freeStack + [slot];
    NoDupTake(s.freeStack, |t.freeStack|);
    assert slot in s.freeStack[|t.freeStack|..];
    assert forall x :: x in t.freeStack ==> x in s.freeStack;
    forall i: nat ensures Taken(t, i) <==> Taken(s, i) || i == slot {
      assert i in s.freeStack <==> i in t.freeStack || i == slot;
    }
    InUseGrows(s, t, slot);
  }

  lemma BumpTakes(s: AllocState)
    requires Wf(s) && s.initialized && s.nextSlot < s.totalSlots
    ensures
      var off := OffsetOf(s.nextSlot, s.slotSize);
      Wf(Bump(s)) && off !in InUse(s) && InUse(Bump(s)) == InUse(s) + {off}
  {
    var t := Bump(s);
    assert forall i: nat :: Taken(t, i) <==> Taken(s, i) || i == s.nextSlot;
    InUseGrows(s, t, s.nextSlot);
  }

  lemma PushReleases(s: AllocState, slot: nat)
    requires Wf(s) && s.initialized && Taken(s, slot)
    ensures
      var off := OffsetOf(slot, s.slotSize);
      Wf(PushFree(s, slot)) && off in InUse(s) && InUse(PushFree(s, slot)) == InUse(s) - {off}
  {
    var t := PushFree(s, slot);
    NoDupAppend(s.freeStack, slot);
    assert forall x :: x in t.freeStack <==> x in s.freeStack || x == slot;
    assert forall i: nat :: Taken(s, i) <==> Taken(t, i) || i == slot;
    InUseGrows(t, s, slot);
    assert InUse(t) == InUse(s) - {OffsetOf(slot, s.slotSize)};
  }

  predicate SameGeometry(s: AllocState, t: AllocState) {
    s.initialized == t.initialized && s.slotSize == t.slotSize && s.totalSlots == t.totalSlots
    && s.autoDetected == t.autoDetected && s.totalBytes == t.totalBytes
  }

  /** What an allocation taking `s` to `t` guarantees: a success hands out an offset nobody
      holds and changes nothing else; a failure, which happens exactly on an inadmissible size
      or a full store, leaves the offsets in use as they were. */
  ghost predicate AllocTaken(s: AllocState, size: nat, t: AllocState, off: Option<nat>) {
    && Wf(t)
    && (off.None? <==> !Admissible(s, size) || Full(s))
    && (off.None? ==> InUse(t) == InUse(s))
    && (off.Some? ==> t.initialized && size <= t.slotSize && off.value !in InUse(s)
                      && InUse(t) == InUse(s) + {off.value})
    && (s.initialized ==> SameGeometry(s, t))
    && (!s.initialized && off.Some? ==> t.slotSize == size)
  }

  lemma AllocCorrect(s: AllocState, size: nat)
    requires Wf(s) && size < U32
    ensures var (t, off) := AllocSpec(s, size); AllocTaken(s, size, t, off)
  {
    if Admissible(s, size) {
      var t := LazyInit(s, size);
      if !s.initialized { LayoutWf(s, size, true); assert InUse(s) == {}; }
      if t.freeStack != [] { PopTakes(t); } else if t.nextSlot < t.totalSlots { BumpTakes(t); }
    }
  }

  /** Every offset in use is a whole slot inside the capacity, and two of them never overlap. */
  lemma InUseDisjoint(s: AllocState, a: nat, b: nat)
    requires Wf(s) && a in InUse(s) && b in InUse(s)
    ensures s.initialized && a + s.slotSize <= s.totalBytes
    ensures a != b ==> a + s.slotSize <= b || b + s.slotSize <= a
  {
    var i := SlotOf(s, a);
    var j := SlotOf(s, b);
    SlotGap(i, s.totalSlots, s.slotSize);
    if i < j { SlotGap(i, j, s.slotSize); }
    if j < i { SlotGap(j, i, s.slotSize); }
  }

  /** Freeing an offset in use takes exactly that offset out of use. */
  lemma FreeCorrect(s: AllocState, off: nat)
    requires Wf(s) && off in InUse(s)
    ensures Frees(s, off) && Wf(FreeSpec(s, off))
    ensures InUse(FreeSpec(s, off)) == InUse(s) - {off}
    ensures FreeSlots(FreeSpec(s, off)) == FreeSlots(s) + 1
  {
    var i := SlotOf(s, off);
    OffsetDivides(i, s.slotSize);
    PushReleases(s, i);
  }

  /** `Free` keeps the allocator well formed exactly when it is ignored or the slot it computes is
      in use; below the end of the file that slot is the offset's own. */
  lemma FreeKeepsWfIff(s: AllocState, off: nat)
    requires Wf(s)
    ensures Wf(FreeSpec(s, off)) <==> (Frees(s, off) ==> OffsetOf(SlotIndex(s, off), s.slotSize) in InUse(s))
    ensures Frees(s, off) && off < s.totalBytes ==> OffsetOf(SlotIndex(s, off), s.slotSize) == off
  {
    if Frees(s, off) {
      var i := SlotIndex(s, off);
      InUseMember(s, OffsetOf(i, s.slotSize));
      if Taken(s, i) {
        PushReleases(s, i);
      } else {
        PushBreaks(s, i);
        NotInUse(s, i);
      }
      if off < s.totalBytes { OwnSlot(s, off); }
    }
  }

  lemma PushBreaks(s: AllocState, slot: nat)
    requires Wf(s) && s.initialized && !Taken(s, slot)
    ensures !Wf(PushFree(s, slot))
  {
    var free := PushFree(s, slot).freeStack;
    if slot in s.freeStack && NoDup(free) {
      var j :| 0 <= j < |s.freeStack| && s.freeStack[j] == slot;
      NoDupAt(free, j, |s.freeStack|);
    }
    assert free[|s.freeStack|] == slot && slot in free;
  }

  lemma NotInUse(s: AllocState, slot: nat)
    requires Wf(s) && s.initialized && !Taken(s, slot)
    ensures OffsetOf(slot, s.slotSize) !in InUse(s)
  {
    var off := OffsetOf(slot, s.slotSize);
    InUseMember(s, off);
    if off in InUse(s) {
      var j := SlotOf(s, off);
      SlotUnique(j, slot, s.slotSize);
    }
  }

  lemma OwnSlot(s: AllocState, off: nat)
    requires Wf(s) && Frees(s, off) && off < s.totalBytes
    ensures OffsetOf(SlotIndex(s, off), s.slotSize) == off
  {
    var q := Quotient(off, s.slotSize);
    Decompose(off, s.slotSize);
    if q > s.totalSlots { SlotGap(s.totalSlots, q, s.slotSize); }
    assert q < s.totalSlots;
  }

  /** Once an offset is out of use, freeing it again breaks the allocator: the next two
      allocations return the same slot. Hence `Free` needs a caller that frees only what it
      holds. */
  lemma DoubleFreeAliases(s: AllocState, off: nat, size: nat)
    requires Wf(s) && off in InUse(s) && Admissible(s, size)
    ensures
      var t := FreeSpec(FreeSpec(s, off), off);
      var (u, first) := AllocSpec(t, size);
      AllocSpec(u, size).1 == first == Some(off)
  {
    var i := SlotOf(s, off);
    OffsetDivides(i, s.slotSize);
    FreePushes(s, off, i);
    FreePushes(PushFree(s, i), off, i);
    PoppedTwice(s, i, size);
  }

  lemma FreePushes(s: AllocState, off: nat, slot: nat)
    requires s.initialized && slot < s.totalSlots < U32
    requires Remainder(off, s.slotSize) == 0 && Quotient(off, s.slotSize) == slot
    ensures FreeSpec(s, off) == PushFree(s, slot)
  {
  }

  lemma PoppedTwice(s: AllocState, slot: nat, size: nat)
    requires s.initialized && Admissible(s, size)
    ensures
      var t := PushFree(PushFree(s, slot), slot);
      var (u, first) := AllocSpec(t, size);
      AllocSpec(u, size).1 == first == Some(OffsetOf(slot, s.slotSize))
  {
    var t := PushFree(PushFree(s, slot), slot);
    assert t.freeStack == s.freeStack + [slot] + [slot];
    assert PopFree(t).freeStack == s.freeStack + [slot];
  }

  ghost predicate AllInUse(s: AllocState, offsets: seq<nat>) {
    NoDup(offsets) && forall x :: x in offsets ==> x in InUse(s)
  }

  lemma {:induction false} FreeAllCorrect(s: AllocState, offsets: seq<nat>)
    requires Wf(s) && AllInUse(s, offsets)
    ensures
      var t := FreeAll(s, offsets);
      && Wf(t) && InUse(t) == InUse(s) - (set x | x in offsets)
      && FreeSlots(t) == FreeSlots(s) + |offsets|
      && SameGeometry(s, t)
    decreases |offsets|
  {
    if offsets != [] {
      FreeCorrect(s, offsets[0]);
      FreeAllCorrect(FreeSpec(s, offsets[0]), offsets[1..]);
      assert offsets == [offsets[0]] + offsets[1..];
    }
  }

  /** What a batch of allocations taking `s` to `t` and returning `offs` guarantees: distinct
      offsets that were free, as many as asked for unless the store fills up. */
  ghost predicate BatchTaken(s: AllocState, size: nat, count: nat, t: AllocState, offs: seq<nat>) {
    && Wf(t) && NoDup(offs) && |offs| <= count
    && (forall x :: x in offs ==> x !in InUse(s))
    && InUse(t) == InUse(s) + (set x | x in offs)
    && (|offs| < count ==> !Admissible(s, size) || Full(t))
    && (offs != [] ==> t.initialized && size <= t.slotSize)
    && (s.initialized ==> SameGeometry(s, t))
  }

  lemma BatchTakenStep(s: AllocState, size: nat, count: nat, t: AllocState, off: nat, u: AllocState, rest: seq<nat>)
    requires Wf(s) && count > 0 && AllocTaken(s, size, t, Some(off)) && BatchTaken(t, size, count - 1, u, rest)
    ensures BatchTaken(s, size, count, u, [off] + rest)
  {
    assert off in InUse(t);
    assert ([off] + rest)[1..] == rest;
    assert forall x :: x in [off] + rest <==> x == off || x in rest;
  }

  lemma {:induction false} RepeatAllocCorrect(s: AllocState, size: nat, count: nat)
    requires Wf(s) && size < U32
    ensures BatchTaken(s, size, count, RepeatAlloc(s, size, count).0, RepeatAlloc(s, size, count).1)
    decreases count
  {
    if count > 0 {
      AllocCorrect(s, size);
      var (t, off) := AllocSpec(s, size);
      if off.Some? {
        RepeatAllocCorrect(t, size, count - 1);
        BatchTakenStep(s, size, count, t, off.value, RepeatAlloc(t, size, count - 1).0,
                       RepeatAlloc(t, size, count - 1).1);
      }
    }
  }

  /** With a capacity below 2^63 bytes no offset overflows the signed 64-bit offset type. */
  lemma OffsetsFitInt64(totalBytes: nat, slotSize: nat, detected: bool)
    requires totalBytes < 0x8000_0000_0000_0000 && 0 < slotSize < U32
    ensures Layout(Fresh(totalBytes, 0), slotSize, detected).totalBytes < 0x8000_0000_0000_0000
  {
    var q := Quotient(totalBytes, slotSize);
    Decompose(totalBytes, slotSize);
    if q % U32 == 0 {
      assert OffsetOf(1, slotSize) == OffsetOf(0, slotSize) + slotSize;
    } else if q % U32 < q {
      SlotGap(q % U32, q, slotSize);
    }
  }

  // ---------- the allocator itself ----------

  class SlotAllocator {
    var slotSize: nat
    var totalSlots: nat
    var usedSlots: nat
    var totalBytes: nat
    var nextSlot: nat
    var initialized: bool
    var autoDetected: bool
    var freeStack: seq<nat>

    ghost function View(): AllocState
      reads this
    {
      AllocState(slotSize, totalSlots, usedSlots, totalBytes, nextSlot, initialized, autoDetected, freeStack)
    }

    constructor (totalBytes: nat, slotSize: nat)
      ensures View() == Fresh(totalBytes, slotSize)
    {
      this.slotSize := slotSize;
      this.usedSlots := 0;
      this.nextSlot := 0;
      this.autoDetected := false;
      this.freeStack := [];
      if slotSize > 0 {
        var total := (totalBytes / slotSize) % U32;
        if total == 0 {
          total := 1;
        }
        QuotientIsDivision(totalBytes, slotSize);
        OffsetIsProduct(total, slotSize);
        this.totalSlots := total;
        this.totalBytes := total * slotSize;
        this.initialized := true;
      } else {
        this.totalSlots := 0;
        this.totalBytes := totalBytes;
        this.initialized := false;
      }
    }

    method InitFrom(size: nat)
      requires !initialized && size > 0
      modifies this
      ensures View() == Layout(old(View()), size, true)
    {
      slotSize := size;
      totalSlots := (totalBytes / slotSize) % U32;
      if totalSlots == 0 {
        totalSlots := 1;
      }
      QuotientIsDivision(totalBytes, slotSize);
      OffsetIsProduct(totalSlots, slotSize);
      totalBytes := totalSlots * slotSize;
      nextSlot := 0;
      initialized := true;
      autoDetected := true;
    }

    /** `offset` is -1 when nothing was allocated; `allocSize` is written only on success. */
    method Alloc(size: nat) returns (offset: int, allocSize: nat)
      modifies this
      ensures View() == AllocSpec(old(View()), size).0
      ensures match AllocSpec(old(View()), size).1
              case None => offset == -1 && allocSize == 0
              case Some(o) => offset == o && allocSize == slotSize
    {
      if !initialized {
        if size == 0 {
          return -1, 0;
        }
        InitFrom(size);
      }
      if autoDetected {
        if size != slotSize {
          return -1, 0;
        }
      } else if size > slotSize {
        return -1, 0;
      }
      var slotIndex;
      if freeStack != [] {
        slotIndex := freeStack[|freeStack| - 1];
        freeStack := freeStack[..|freeStack| - 1];
      } else if nextSlot < totalSlots {
        slotIndex := nextSlot;
        nextSlot := nextSlot + 1;
      } else {
        return -1, 0;
      }
      usedSlots := usedSlots + 1;
      OffsetIsProduct(slotIndex, slotSize);
      offset, allocSize := slotIndex * slotSize, slotSize;
    }

    /** Drains the free stack, then the virgin region; the result is that of repeated `Alloc`. */
    method BatchAlloc(size: nat, count: nat) returns (offsets: seq<nat>, allocSize: nat)
      modifies this
      ensures View() == RepeatAlloc(old(View()), size, count).0
      ensures offsets == RepeatAlloc(old(View()), size, count).1
      ensures allocSize == if count > 0 && Admissible(old(View()), size) then slotSize else 0
    {
      offsets, allocSize := [], 0;
      if count == 0 {
        return;
      }
      if !initialized {
        if size == 0 {
          return;
        }
        InitFrom(size);
      }
      if autoDetected {
        if size != slotSize {
          return;
        }
      } else if size > slotSize {
        return;
      }
      assert RepeatAlloc(View(), size, count) == RepeatAlloc(old(View()), size, count);
      offsets := TakeSlots(size, count);
      allocSize := slotSize;
    }

    /** The two loops of `BatchAlloc`: drain the free stack, then the virgin region. */
    method TakeSlots(size: nat, count: nat) returns (offsets: seq<nat>)
      requires initialized && Admissible(View(), size)
      modifies this
      ensures View() == RepeatAlloc(old(View()), size, count).0
      ensures offsets == RepeatAlloc(old(View()), size, count).1
      ensures slotSize == old(slotSize)
    {
      ghost var start, cur := View(), View();
      offsets, cur := PopSlots(size, count);
      while nextSlot < totalSlots && |offsets| < count
        invariant Taking(start, size, count, cur, offsets)
        invariant freeStack == [] || |offsets| == count
      {
        ResumeBump(start, size, count, cur, offsets);
        OffsetIsProduct(nextSlot, slotSize);
        offsets, cur := offsets + [nextSlot * slotSize], Bump(cur);
        nextSlot := nextSlot + 1;
      }
      usedSlots := usedSlots + |offsets|;
      ResumeEnd(start, size, count, cur, offsets);
    }

    /** The first loop. */
    method PopSlots(size: nat, count: nat) returns (offsets: seq<nat>, ghost cur: AllocState)
      requires initialized && Admissible(View(), size)
      modifies `freeStack
      ensures Taking(old(View()), size, count, cur, offsets) && (freeStack == [] || |offsets| == count)
    {
      offsets := [];
      cur := View();
      ghost var start := View();
      ResumeStart(start, size, count);
      while freeStack != [] && |offsets| < count
        invariant Taking(start, size, count, cur, offsets)
        decreases |freeStack|
      {
        var slotIndex := freeStack[|freeStack| - 1];
        freeStack := freeStack[..|freeStack| - 1];
        ResumePop(start, size, count, cur, offsets);
        OffsetIsProduct(slotIndex, slotSize);
        offsets, cur := offsets + [slotIndex * slotSize], PopFree(cur);
      }
    }

    /** Midway: `cur` is what the batch has come to; only the used-slot counter lags behind. */
    ghost predicate Taking(start: AllocState, size: nat, count: nat, cur: AllocState, offsets: seq<nat>)
      reads this
    {
      && Running(start, size, count, cur, offsets)
      && cur == View().(usedSlots := start.usedSlots + |offsets|) && usedSlots == start.usedSlots
    }

    /** Ignores a negative, misaligned or out-of-range offset. There is no check for a slot that is
        free already: the allocator stays well formed if the offset is one in use. */
    method Free(offset: int, allocSize: nat)
      requires initialized ==> slotSize > 0
      modifies this
      ensures View() == FreeSpec(old(View()), offset)
      ensures old(Wf(View()) && (Frees(View(), offset) ==> offset in InUse(View()))) ==>
                Wf(View()) && InUse(View()) == old(InUse(View())) - {offset}
    {
      if Wf(View()) && offset in InUse(View()) { FreeCorrect(View(), offset); }
      if offset >= 0 && initialized { QuotientIsDivision(offset, slotSize); }
      if offset < 0 {
        return;
      }
      if !initialized {
        return;
      }
      if offset % slotSize != 0 {
        return;
      }
      var slotIndex := (offset / slotSize) % U32;
      if slotIndex >= totalSlots {
        return;
      }
      freeStack := freeStack + [slotIndex];
      usedSlots := (usedSlots + U32 - 1) % U32;
    }

    function GetTotalBytes(): nat
      reads this
    {
      totalBytes
    }

    /** `GetUsageRatio`, as an exact fraction. */
    function GetUsageRatio(): real
      reads this
    {
      if !initialized || totalSlots == 0 then 0.0 else usedSlots as real / totalSlots as real
    }
  }

  /** Continuing from `cur` with `offs` already collected finishes the batch begun at `start`. */
  ghost predicate Running(start: AllocState, size: nat, count: nat, cur: AllocState, offs: seq<nat>) {
    && cur.initialized && cur.slotSize == start.slotSize && Admissible(cur, size) && |offs| <= count
    && var (t, rest) := RepeatAlloc(cur, size, count - |offs|);
       RepeatAlloc(start, size, count) == (t, offs + rest)
  }

  lemma ResumeStart(start: AllocState, size: nat, count: nat)
    requires start.initialized && Admissible(start, size)
    ensures Running(start, size, count, start, [])
  {
    var all := RepeatAlloc(start, size, count).1;
    assert [] + all == all;
  }

  lemma ResumePop(start: AllocState, size: nat, count: nat, cur: AllocState, offs: seq<nat>)
    requires |offs| < count && Running(start, size, count, cur, offs) && cur.freeStack != []
    ensures
      var off := OffsetOf(cur.freeStack[|cur.freeStack| - 1], cur.slotSize);
      Running(start, size, count, PopFree(cur), offs + [off])
  {
    var off := OffsetOf(cur.freeStack[|cur.freeStack| - 1], cur.slotSize);
    var rest := RepeatAlloc(PopFree(cur), size, count - |offs| - 1).1;
    assert offs + ([off] + rest) == offs + [off] + rest;
  }

  lemma ResumeBump(start: AllocState, size: nat, count: nat, cur: AllocState, offs: seq<nat>)
    requires |offs| < count && Running(start, size, count, cur, offs)
    requires cur.freeStack == [] && cur.nextSlot < cur.totalSlots
    ensures Running(start, size, count, Bump(cur), offs + [OffsetOf(cur.nextSlot, cur.slotSize)])
  {
    var off := OffsetOf(cur.nextSlot, cur.slotSize);
    var rest := RepeatAlloc(Bump(cur), size, count - |offs| - 1).1;
    assert offs + ([off] + rest) == offs + [off] + rest;
  }

  lemma ResumeEnd(start: AllocState, size: nat, count: nat, cur: AllocState, offs: seq<nat>)
    requires Running(start, size, count, cur, offs)
    requires |offs| == count || (cur.freeStack == [] && cur.nextSlot >= cur.totalSlots)
    ensures RepeatAlloc(start, size, count) == (cur, offs)
  {
    assert RepeatAlloc(cur, size, count - |offs|) == (cur, []);
    assert offs + [] == offs;
  }
}
