/** The physical frame allocator: a packed bitmap of frames and three running counters. */
module PhysAllocator {
  import opened Bits
  import opened FrameBits
  import opened MemoryMap
  import Bitmap

  /** The counters agree with `taken` taken frames: what is not free is used or reserved.
      `f` and `t` say how often the free counter and the total have wrapped around. */
  predicate Accounts(total: U64, taken: int, free: U64, used: U64, reserved: U64, f: int, t: int) {
    free == total - 4096 * taken + TWO64 * f && free + used + reserved == total + TWO64 * t
  }

  /** The free counter is exact modulo 2^64, and exact outright precisely while the taken
      frames do not outweigh the memory: the bitmap's last byte has bits for frames past it. */
  lemma {:induction false} CountersMeaning(total: U64, taken: nat, free: U64, used: U64, reserved: U64, f: int, t: int)
    requires taken <= MAX_FRAMES
    requires Accounts(total, taken, free, used, reserved, f, t)
    ensures free == Wrap(total - 4096 * taken)
    ensures Wrap(free + used + reserved) == total
    ensures free == total - 4096 * taken <==> 4096 * taken <= total
  {
    ShiftedWrap(free, total - 4096 * taken, f);
    ShiftedWrap(total, free + used + reserved, -t);
  }

  lemma ShiftedWrap(x: U64, y: int, k: int)
    requires x == y + TWO64 * k
    ensures x == Wrap(y)
  {
  }

  class PhysAllocator {
    const pageBitmap: Bitmap.Bitmap
    var freeMemory: U64
    var usedMemory: U64
    var reservedMemory: U64
    ghost const memorySize: U64
    ghost var freeWraps: int
    ghost var totalWraps: int

    /** One flag a frame, true when the frame is taken. */
    ghost function Bits(): seq<bool>
      reads pageBitmap
    {
      pageBitmap.bits
    }

    /** The counters agree with the bitmap, in 64-bit arithmetic. */
    ghost predicate Valid()
      reads this, pageBitmap, pageBitmap.buffer
    {
      && pageBitmap.Valid()
      && 0 < |Bits()| <= MAX_FRAMES
      && Accounts(memorySize, CountTaken(Bits()), freeMemory, usedMemory, reservedMemory, freeWraps, totalWraps)
    }

    /** read_memory_map, run once at boot. */
    constructor ReadMemoryMap(map_: seq<MemmapEntry>, ghost home: U64)
      requires 8 * BitmapSize(map_) <= MAX_FRAMES
      requires IsHome(map_, home) && FitsBitmap(map_, home)
      ensures Valid() && fresh(pageBitmap) && fresh(pageBitmap.buffer)
      ensures memorySize == MemorySize(map_) && |Bits()| == 8 * BitmapSize(map_)
      ensures forall f :: 0 <= f < |Bits()| ==> (Bits()[f] <==> TakenAtBoot(map_, home, f))
    {
      var largest := FindLargest(map_);
      var size := MemorySize(map_);
      freeMemory, usedMemory, reservedMemory := size, 0, 0;
      memorySize, freeWraps, totalWraps := size, 0, 0;
      var bitmapSize := size / 4096 / 8 + 1;
      pageBitmap := new Bitmap.Bitmap(bitmapSize);
      new;
      assert Taken(Bits()) == {};
      assert home == largest;

      LockPages(largest, (bitmapSize + 4095) / 4096);
      ReserveWithheld(map_, home);
      LockPage(0);
    }

    /** Reserves every entry that is neither usable nor reserved. */
    method ReserveWithheld(map_: seq<MemmapEntry>, ghost home: U64)
      requires Valid() && |Bits()| == 8 * BitmapSize(map_)
      requires FitsBitmap(map_, home)
      modifies this, pageBitmap, pageBitmap.buffer
      ensures Valid() && |Bits()| == old(|Bits()|)
      ensures forall f :: 0 <= f < |Bits()| ==> (Bits()[f] <==> old(Bits()[f]) || CoveredByFirst(map_, |map_|, f))
    {
      for i := 0 to |map_|
        invariant Valid() && |Bits()| == old(|Bits()|)
        invariant forall f :: 0 <= f < |Bits()| ==> (Bits()[f] <==> old(Bits()[f]) || CoveredByFirst(map_, i, f))
      {
        ghost var before := Bits();
        if map_[i].kind != MEMMAP_USABLE && map_[i].kind != MEMMAP_RESERVED {
          ReservePages(map_[i].base, Pages(map_[i].length));
        }
        forall f | 0 <= f < |Bits()|
          ensures Bits()[f] <==> before[f] || WithheldCovers(map_[i], f)
        {
        }
        forall f | 0 <= f < |Bits()|
          ensures CoveredByFirst(map_, i + 1, f) <==> CoveredByFirst(map_, i, f) || WithheldCovers(map_[i], f)
        {
          CoverStep(map_, i, f);
        }
      }
    }

    method FreePage(addr: U64)
      requires Valid() && addr / 4096 < |Bits()|
      modifies this, pageBitmap, pageBitmap.buffer
      ensures Valid() && Bits() == old(Bits())[addr / 4096 := false]
      ensures reservedMemory == old(reservedMemory)
      ensures !old(Bits())[addr / 4096] ==> freeMemory == old(freeMemory) && usedMemory == old(usedMemory)
    {
      var index := addr / 4096;
      var taken := pageBitmap.Get(index);
      if taken == false {
        assert Bits() == Bits()[index := false];
        return;
      }
      CountUpdate(Bits(), index, false);
      pageBitmap.Set(index, false);
      ghost var carry, borrow := Carry(freeMemory, 4096), Borrow(usedMemory, 4096);
      freeMemory := AddU64(freeMemory, 4096);
      usedMemory := SubU64(usedMemory, 4096);
      freeWraps, totalWraps := freeWraps - carry, totalWraps - carry + borrow;
    }

    method LockPage(addr: U64)
      requires Valid() && addr / 4096 < |Bits()|
      modifies this, pageBitmap, pageBitmap.buffer
      ensures Valid() && Bits() == old(Bits())[addr / 4096 := true]
      ensures reservedMemory == old(reservedMemory)
      ensures old(Bits())[addr / 4096] ==> freeMemory == old(freeMemory) && usedMemory == old(usedMemory)
    {
      var index := addr / 4096;
      var taken := pageBitmap.Get(index);
      if taken == true {
        assert Bits() == Bits()[index := true];
        return;
      }
      CountUpdate(Bits(), index, true);
      pageBitmap.Set(index, true);
      ghost var carry, borrow := Carry(usedMemory, 4096), Borrow(freeMemory, 4096);
      freeMemory := SubU64(freeMemory, 4096);
      usedMemory := AddU64(usedMemory, 4096);
      freeWraps, totalWraps := freeWraps + borrow, totalWraps - carry + borrow;
    }

    method ReservePage(addr: U64)
      requires Valid() && addr / 4096 < |Bits()|
      modifies this, pageBitmap, pageBitmap.buffer
      ensures Valid() && Bits() == old(Bits())[addr / 4096 := true]
      ensures usedMemory == old(usedMemory)
      ensures old(Bits())[addr / 4096] ==> freeMemory == old(freeMemory) && reservedMemory == old(reservedMemory)
    {
      var index := addr / 4096;
      var taken := pageBitmap.Get(index);
      if taken == true {
        assert Bits() == Bits()[index := true];
        return;
      }
      CountUpdate(Bits(), index, true);
      pageBitmap.Set(index, true);
      ghost var carry, borrow := Carry(reservedMemory, 4096), Borrow(freeMemory, 4096);
      freeMemory := SubU64(freeMemory, 4096);
      reservedMemory := AddU64(reservedMemory, 4096);
      freeWraps, totalWraps := freeWraps + borrow, totalWraps - carry + borrow;
    }

    method ReleasePage(addr: U64)
      requires Valid() && addr / 4096 < |Bits()|
      modifies this, pageBitmap, pageBitmap.buffer
      ensures Valid() && Bits() == old(Bits())[addr / 4096 := false]
      ensures usedMemory == old(usedMemory)
      ensures !old(Bits())[addr / 4096] ==> freeMemory == old(freeMemory) && reservedMemory == old(reservedMemory)
    {
      var index := addr / 4096;
      var taken := pageBitmap.Get(index);
      if taken == false {
        assert Bits() == Bits()[index := false];
        return;
      }
      CountUpdate(Bits(), index, false);
      pageBitmap.Set(index, false);
      ghost var carry, borrow := Carry(freeMemory, 4096), Borrow(reservedMemory, 4096);
      freeMemory := AddU64(freeMemory, 4096);
      reservedMemory := SubU64(reservedMemory, 4096);
      freeWraps, totalWraps := freeWraps - carry, totalWraps - carry + borrow;
    }

    method FreePages(addr: U64, count: nat)
      requires Valid() && RangeFits(addr, count, |Bits()|)
      modifies this, pageBitmap, pageBitmap.buffer
      ensures Valid() && Bits() == Marked(old(Bits()), addr / 4096, count, false)
      ensures reservedMemory == old(reservedMemory)
    {
      for i := 0 to count
        invariant Valid() && reservedMemory == old(reservedMemory)
        invariant Bits() == Marked(old(Bits()), addr / 4096, i, false)
      {
        FreePage(addr + i * 4096);
      }
    }

    method LockPages(addr: U64, count: nat)
      requires Valid() && RangeFits(addr, count, |Bits()|)
      modifies this, pageBitmap, pageBitmap.buffer
      ensures Valid() && Bits() == Marked(old(Bits()), addr / 4096, count, true)
      ensures reservedMemory == old(reservedMemory)
    {
      for i := 0 to count
        invariant Valid() && reservedMemory == old(reservedMemory)
        invariant Bits() == Marked(old(Bits()), addr / 4096, i, true)
      {
        LockPage(addr + i * 4096);
      }
    }

    method ReservePages(addr: U64, count: nat)
      requires Valid() && RangeFits(addr, count, |Bits()|)
      modifies this, pageBitmap, pageBitmap.buffer
      ensures Valid() && Bits() == Marked(old(Bits()), addr / 4096, count, true)
      ensures usedMemory == old(usedMemory)
    {
      for i := 0 to count
        invariant Valid() && usedMemory == old(usedMemory)
        invariant Bits() == Marked(old(Bits()), addr / 4096, i, true)
      {
        ReservePage(addr + i * 4096);
      }
    }

    method ReleasePages(addr: U64, count: nat)
      requires Valid() && RangeFits(addr, count, |Bits()|)
      modifies this, pageBitmap, pageBitmap.buffer
      ensures Valid() && Bits() == Marked(old(Bits()), addr / 4096, count, false)
      ensures usedMemory == old(usedMemory)
    {
      for i := 0 to count
        invariant Valid() && usedMemory == old(usedMemory)
        invariant Bits() == Marked(old(Bits()), addr / 4096, i, false)
      {
        ReleasePage(addr + i * 4096);
      }
    }

    /** The address of the least clear frame, which it takes; 0 when there is none. */
    method RequestPage() returns (addr: U64)
      requires Valid()
      modifies this, pageBitmap, pageBitmap.buffer
      ensures Valid() && reservedMemory == old(reservedMemory)
      ensures CountClear(old(Bits())) > 0 ==>
                addr % 4096 == 0 && LeastClear(old(Bits()), addr / 4096) &&
                Bits() == old(Bits())[addr / 4096 := true]
      ensures CountClear(old(Bits())) == 0 ==> addr == 0 && Bits() == old(Bits())
    {
      for index := 0 to 8 * pageBitmap.buffer.Length
        invariant Valid() && Bits() == old(Bits()) && reservedMemory == old(reservedMemory)
        invariant forall i :: 0 <= i < index ==> Bits()[i]
      {
        var taken := pageBitmap.Get(index);
        if taken == true {
          continue;
        }
        SomeClear(Bits(), index);
        LockPage(index * 4096);
        return index * 4096;
      }
      assert Clear(Bits()) == {};
      return 0;
    }

    /** The address of the least run of `count` clear frames, which it takes; 0 when there is
        none. The count is an `int`; and the probe has to stay inside the bitmap, see
        `ProbeStaysInside`. */
    method RequestPages(count: nat) returns (addr: U64)
      requires Valid() && count < 0x8000_0000
      requires ProbeIsSafe(Bits(), count)
      modifies this, pageBitmap, pageBitmap.buffer
      ensures Valid() && reservedMemory == old(reservedMemory)
      ensures RunExists(old(Bits()), count) ==>
                addr % 4096 == 0 && LeastRun(old(Bits()), addr / 4096, count) &&
                Bits() == Marked(old(Bits()), addr / 4096, count, true)
      ensures !RunExists(old(Bits()), count) ==> addr == 0 && Bits() == old(Bits())
    {
      for index := 0 to 8 * pageBitmap.buffer.Length
        invariant Valid() && Bits() == old(Bits()) && reservedMemory == old(reservedMemory)
        invariant forall s :: 0 <= s < index ==> !ClearRun(Bits(), s, count)
      {
        var usable := true;
        var fwd := 0;
        while usable && fwd < count
          invariant 0 <= fwd <= count && index + fwd <= |Bits()|
          invariant usable ==> forall i :: index <= i < index + fwd ==> !Bits()[i]
          invariant !usable ==> !ClearRun(Bits(), index, count)
          decreases usable, count - fwd
          modifies {}
        {
          ProbeInside(Bits(), count, index, fwd);
          var taken := pageBitmap.Get(index + fwd);
          if taken == false {
            fwd := fwd + 1;
          } else {
            usable := false;
          }
        }
        if !usable {
          continue;
        }
        assert LeastRun(Bits(), index, count);
        LockPages(index * 4096, count);
        return index * 4096;
      }
      return 0;
    }
  }

  lemma {:induction false} SomeClear(bits: seq<bool>, i: nat)
    requires i < |bits| && !bits[i]
    ensures CountClear(bits) > 0
  {
    CountUpdate(bits, i, true);
  }

  ghost predicate ProbeIsSafe(bits: seq<bool>, count: nat) {
    |bits| > 0 && (count == 0 || RunExists(bits, count) || bits[|bits| - 1])
  }

  lemma {:induction false} ProbeInside(bits: seq<bool>, count: nat, index: nat, fwd: nat)
    requires ProbeIsSafe(bits, count) && index < |bits| && fwd < count
    requires forall s :: 0 <= s < index ==> !ClearRun(bits, s, count)
    requires index + fwd <= |bits| && forall i :: index <= i < index + fwd ==> !bits[i]
    ensures index + fwd < |bits|
  {
    if RunExists(bits, count) {
      var s :| 0 <= s <= |bits| && ClearRun(bits, s, count);
      assert index <= s;
    }
  }

  /** request_pages, scanning from start `index`, reads the bit `index + fwd` past the end. */
  ghost predicate ProbesPastEnd(bits: seq<bool>, count: nat, index: nat, fwd: nat) {
    && index < |bits| && fwd < count && index + fwd == |bits|
    && (forall s :: 0 <= s < index ==> !ClearRun(bits, s, count))
    && (forall i :: index <= i < |bits| ==> !bits[i])
  }

  /** The scan stays inside the bitmap exactly when a fitting run exists or the last frame is
      taken (or nothing is asked for). */
  lemma {:induction false} ProbeStaysInside(bits: seq<bool>, count: nat)
    requires |bits| > 0
    ensures ProbeIsSafe(bits, count) <==> !exists index: nat, fwd: nat :: ProbesPastEnd(bits, count, index, fwd)
  {
    if ProbeIsSafe(bits, count) {
      forall index: nat, fwd: nat
        ensures !ProbesPastEnd(bits, count, index, fwd)
      {
        if RunExists(bits, count) {
          var s :| 0 <= s <= |bits| && ClearRun(bits, s, count);
          assert s < index || s + count > |bits| || s >= index;
        }
      }
    } else {
      var index := TrailingClear(bits);
      assert ProbesPastEnd(bits, count, index, |bits| - index) by {
        if |bits| - index >= count {
          assert ClearRun(bits, index, count);
        }
      }
    }
  }

  /** The start of the run of clear frames at the end of the bitmap. */
  lemma {:induction false} TrailingClear(bits: seq<bool>) returns (index: nat)
    requires |bits| > 0 && !bits[|bits| - 1]
    ensures index < |bits| && forall i :: index <= i < |bits| ==> !bits[i]
  {
    index := |bits| - 1;
  }

  /** Eight frames, the last one clear: a request for two reads the bit of frame 8. */
  lemma {:induction false} ProbeLeavesBitmap(bits: seq<bool>)
    requires bits == [true, true, true, true, true, true, true, false]
    ensures ProbesPastEnd(bits, 2, 7, 1) && !ProbeIsSafe(bits, 2)
  {
    assert forall i :: 0 <= i < 7 ==> bits[i];
    assert !bits[7];
    forall s | 0 <= s < 7
      ensures !ClearRun(bits, s, 2)
    {
      assert bits[s];
    }
    assert ProbesPastEnd(bits, 2, 7, 1);
    ProbeStaysInside(bits, 2);
  }

  /** One usable page of memory: booting takes frames 0 and 1, and the counter of free memory,
      4096 - 2 * 4096, wraps around. */
  lemma {:induction false} FreeCounterWraps(map_: seq<MemmapEntry>, bits: seq<bool>, free: U64, used: U64, reserved: U64, f: int, t: int)
    requires map_ == [MemmapEntry(0x1000, 0x1000, MEMMAP_USABLE)]
    requires |bits| == 8 * BitmapSize(map_) && forall i :: 0 <= i < |bits| ==> (bits[i] <==> TakenAtBoot(map_, 0x1000, i))
    requires Accounts(MemorySize(map_), CountTaken(bits), free, used, reserved, f, t)
    ensures IsHome(map_, 0x1000) && FitsBitmap(map_, 0x1000)
    ensures MemorySize(map_) == 4096 && CountTaken(bits) == 2 && free == TWO64 - 4096
  {
    OnePageOfMemory(map_);
    assert forall i: nat :: TakenAtBoot(map_, 0x1000, i) <==> i == 0 || i == 1;
    assert Taken(bits) == {0, 1};
  }
}
