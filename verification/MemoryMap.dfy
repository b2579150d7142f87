/** The boot loader's memory map: how much memory there is, where the frame bitmap goes, which
    frames booting takes, and when it stays inside the bitmap. */
module MemoryMap {
  import opened Bits

  const MEMMAP_USABLE := 0
  const MEMMAP_RESERVED := 1

  /** One entry of the boot loader's memory map. */
  datatype MemmapEntry = MemmapEntry(base: U64, length: U64, kind: nat)

  /** `(length + 4095) / 4096` in 64-bit arithmetic. */
  function Pages(length: U64): nat { AddU64(length, 4095) / 4096 }

  /** get_memory_size: everything but the RESERVED entries, in 64-bit arithmetic. */
  function MemorySize(map_: seq<MemmapEntry>): U64 {
    if map_ == [] then 0
    else
      var rest := MemorySize(map_[..|map_| - 1]);
      var e := map_[|map_| - 1];
      if e.kind != MEMMAP_RESERVED then Wrap(rest + e.length) else rest
  }

  function BitmapSize(map_: seq<MemmapEntry>): nat { MemorySize(map_) / 4096 / 8 + 1 }

  /** What an entry adds to the size; kind 1 is reserved. */
  function Counted(e: MemmapEntry): nat { if e.kind == 1 then 0 else e.length }

  lemma {:induction false} SizeAppend(map_: seq<MemmapEntry>, e: MemmapEntry)
    ensures MemorySize(map_ + [e]) == (MemorySize(map_) + Counted(e)) % TWO64
  {
    assert (map_ + [e])[..|map_|] == map_;
  }

  lemma Regroup<T>(a: seq<T>, e: T, b: seq<T>, last: T)
    ensures a + [e] + (b + [last]) == a + [e] + b + [last]
    ensures a + (b + [last]) == a + b + [last]
  {
  }

  /** An entry anywhere in the map adds its length to the size of the others, unless it is reserved. */
  lemma {:induction false} SizeWithEntry(front: seq<MemmapEntry>, e: MemmapEntry, back: seq<MemmapEntry>)
    ensures MemorySize([]) == 0
    ensures MemorySize(front + [e] + back) == (MemorySize(front + back) + Counted(e)) % TWO64
    decreases |back|
  {
    if back == [] {
      SizeAppend(front, e);
      assert front + [e] + back == front + [e] && front + back == front;
    } else {
      var init, last := back[..|back| - 1], back[|back| - 1];
      assert back == init + [last];
      SizeWithEntry(front, e, init);
      Regroup(front, e, init, last);
      SizeAppend(front + [e] + init, last);
      SizeAppend(front + init, last);
      WrapAdd(MemorySize(front + init), Counted(e), Counted(last));
    }
  }

  lemma {:induction false} WrapAdd(a: nat, b: nat, c: nat)
    ensures ((a + b) % TWO64 + c) % TWO64 == ((a + c) % TWO64 + b) % TWO64
  {
    WrapInner(a + b, c);
    WrapInner(a + c, b);
  }

  lemma {:induction false} WrapInner(a: nat, b: nat)
    ensures (a % TWO64 + b) % TWO64 == (a + b) % TWO64
  {
    var q, r := a / TWO64, a % TWO64;
    var q', r' := (r + b) / TWO64, (r + b) % TWO64;
    DivModUnique(a + b, TWO64, q + q', r');
  }

  function Unreserved(map_: seq<MemmapEntry>): seq<MemmapEntry> {
    if map_ == [] then [] else Unreserved(map_[..|map_| - 1]) + (if map_[|map_| - 1].kind == 1 then [] else [map_[|map_| - 1]])
  }

  /** Maps that differ in reserved entries alone have the same size. */
  lemma {:induction false} ReservedDoNotCount(map_: seq<MemmapEntry>)
    ensures MemorySize(map_) == MemorySize(Unreserved(map_))
  {
    if map_ != [] {
      var init, last := map_[..|map_| - 1], map_[|map_| - 1];
      assert map_ == init + [last];
      ReservedDoNotCount(init);
      SizeAppend(init, last);
      SizeAppend(Unreserved(init), last);
      assert last.kind == 1 ==> Unreserved(map_) == Unreserved(init);
    }
  }

  /** The bitmap has a bit for every whole frame of that much memory, and at most eight to spare. */
  lemma BitmapCoversMemory(map_: seq<MemmapEntry>)
    ensures MemorySize(map_) < 8 * BitmapSize(map_) * 4096 <= MemorySize(map_) + 8 * 4096
  {
  }

  /** Enough frames for a length and no more; none for the last lengths, which wrap around. */
  lemma PagesMeaning(length: U64)
    ensures length <= TWO64 - 4096 ==> length <= 4096 * Pages(length) < length + 4096
    ensures length > TWO64 - 4096 ==> Pages(length) == 0
  {
  }

  /** Entry `k` is the first of the usable entries of greatest length. */
  predicate LargestUsable(map_: seq<MemmapEntry>, k: nat) {
    k < |map_| && map_[k].kind == MEMMAP_USABLE && map_[k].length > 0 &&
    (forall i :: 0 <= i < |map_| && map_[i].kind == MEMMAP_USABLE ==> map_[i].length <= map_[k].length) &&
    (forall i :: 0 <= i < k && map_[i].kind == MEMMAP_USABLE ==> map_[i].length < map_[k].length)
  }

  predicate Withheld(e: MemmapEntry) {
    e.kind != MEMMAP_USABLE && e.kind != MEMMAP_RESERVED
  }

  predicate WithheldCovers(e: MemmapEntry, frame: nat) {
    Withheld(e) && Covers(e.base / 4096, Pages(e.length), frame)
  }

  predicate Covers(start: nat, count: nat, frame: nat) { start <= frame < start + count }

  /** The frames read_memory_map takes: frame 0, those under the bitmap itself, and those of
      every entry that is neither usable nor reserved. */
  predicate TakenAtBoot(map_: seq<MemmapEntry>, home: U64, frame: nat) {
    frame == 0 || Covers(home / 4096, Pages(BitmapSize(map_)), frame) ||
    CoveredByFirst(map_, |map_|, frame)
  }

  /** Frame `frame` lies in a withheld entry among the first `n`. */
  predicate CoveredByFirst(map_: seq<MemmapEntry>, n: nat, frame: nat)
    requires n <= |map_|
  {
    exists i :: 0 <= i < n && WithheldCovers(map_[i], frame)
  }

  /** The base of the first usable entry of greatest length, 0 when there is none. */
  method FindLargest(map_: seq<MemmapEntry>) returns (largest: U64)
    ensures forall k: nat :: LargestUsable(map_, k) ==> largest == map_[k].base
    ensures (forall k: nat :: !LargestUsable(map_, k)) ==> largest == 0
  {
    var largestSize := 0;
    largest := 0;
    ghost var chosen := 0;
    for i := 0 to |map_|
      invariant forall j :: 0 <= j < i && map_[j].kind == MEMMAP_USABLE ==> map_[j].length <= largestSize
      invariant largestSize > 0 ==> chosen < i && largest == map_[chosen].base &&
                                    largestSize == map_[chosen].length && map_[chosen].kind == MEMMAP_USABLE
      invariant largestSize > 0 ==> forall j :: 0 <= j < chosen && map_[j].kind == MEMMAP_USABLE ==>
                                      map_[j].length < largestSize
      invariant largestSize == 0 ==> largest == 0
    {
      if map_[i].kind == MEMMAP_USABLE {
        if map_[i].length > largestSize {
          largest, largestSize, chosen := map_[i].base, map_[i].length, i;
        }
      }
    }
    assert largestSize > 0 ==> LargestUsable(map_, chosen);
    forall k: nat | LargestUsable(map_, k)
      ensures largestSize > 0 && k == chosen
    {
      assert k == chosen || k < chosen || chosen < k;
    }
  }

  lemma {:induction false} CoverStep(map_: seq<MemmapEntry>, i: nat, f: nat)
    requires i < |map_|
    ensures CoveredByFirst(map_, i + 1, f) <==> CoveredByFirst(map_, i, f) || WithheldCovers(map_[i], f)
  {
    if CoveredByFirst(map_, i, f) {
      var j :| 0 <= j < i && WithheldCovers(map_[j], f);
      assert 0 <= j < i + 1;
    }
  }

  // ---- When booting stays inside the bitmap ----

  /** The base of the first usable entry of greatest length, where the bitmap goes; 0 if there is
      none. */
  ghost predicate IsHome(map_: seq<MemmapEntry>, home: U64) {
    (forall k: nat :: LargestUsable(map_, k) ==> home == map_[k].base) &&
    ((forall k: nat :: !LargestUsable(map_, k)) ==> home == 0)
  }

  /** The frames from `addr` on are among the first `n`; no frames always are. */
  predicate RangeFits(addr: U64, count: nat, n: nat) { count > 0 ==> addr / 4096 + count <= n }

  /** The bitmap is sized by the amount of memory, and frames are marked by their addresses: the
      bitmap's own frames and every withheld entry must end below the last bit. */
  predicate FitsBitmap(map_: seq<MemmapEntry>, home: U64) {
    && RangeFits(home, Pages(BitmapSize(map_)), 8 * BitmapSize(map_))
    && forall i :: 0 <= i < |map_| && Withheld(map_[i]) ==> RangeFits(map_[i].base, Pages(map_[i].length), 8 * BitmapSize(map_))
  }

  /** How many frames 64-bit addresses can name. */
  const ALL_FRAMES := 0x10_0000_0000_0000

  /** lock_pages or reserve_pages from `addr` on gets to the bit of `frame`; addresses wrap. */
  ghost predicate Reaches(addr: U64, count: nat, frame: nat) {
    exists i: nat :: i < count && frame == FrameAfter(addr, i)
  }

  function FrameAfter(addr: U64, i: nat): nat { Wrap(addr + i * 4096) / 4096 }

  /** read_memory_map gets to the bit of `frame`. */
  ghost predicate BootReaches(map_: seq<MemmapEntry>, home: U64, frame: nat) {
    || frame == 0
    || Reaches(home, Pages(BitmapSize(map_)), frame)
    || exists i :: 0 <= i < |map_| && Withheld(map_[i]) && Reaches(map_[i].base, Pages(map_[i].length), frame)
  }

  lemma {:induction false} RangeReaches(addr: U64, count: nat, n: nat)
    requires n < ALL_FRAMES
    ensures RangeFits(addr, count, n) <==> forall frame: nat :: Reaches(addr, count, frame) ==> frame < n
  {
    if RangeFits(addr, count, n) {
      forall i: nat | i < count
        ensures FrameAfter(addr, i) < n
      {
        FrameInOrder(addr, i);
      }
    } else {
      var i := if addr / 4096 >= n then 0 else n - addr / 4096;
      FrameInOrder(addr, i);
      assert Reaches(addr, count, FrameAfter(addr, i));
    }
  }

  lemma {:induction false} FrameInOrder(addr: U64, i: nat)
    requires i == 0 || addr / 4096 + i < ALL_FRAMES
    ensures FrameAfter(addr, i) == addr / 4096 + i
  {
    assert addr + i * 4096 < TWO64;
  }

  lemma {:induction false} AllReachable(map_: seq<MemmapEntry>, home: U64)
    ensures forall frame: nat :: BootReaches(map_, home, frame) ==> frame < ALL_FRAMES
  {
    forall addr: U64, i: nat
      ensures FrameAfter(addr, i) < ALL_FRAMES
    {
    }
  }

  /** For every memory map: booting stays inside the bitmap exactly when everything it marks ends
      below the bitmap's last bit, or the bitmap has a bit for every 64-bit address. */
  lemma {:induction false} BootStaysInside(map_: seq<MemmapEntry>, home: U64)
    ensures 8 * BitmapSize(map_) <= ALL_FRAMES
    ensures FitsBitmap(map_, home) || 8 * BitmapSize(map_) == ALL_FRAMES <==>
            forall frame: nat :: BootReaches(map_, home, frame) ==> frame < 8 * BitmapSize(map_)
  {
    var n := 8 * BitmapSize(map_);
    if n == ALL_FRAMES {
      AllReachable(map_, home);
      return;
    }
    RangeReaches(home, Pages(BitmapSize(map_)), n);
    forall i | 0 <= i < |map_|
      ensures RangeFits(map_[i].base, Pages(map_[i].length), n) <==>
              forall frame: nat :: Reaches(map_[i].base, Pages(map_[i].length), frame) ==> frame < n
    {
      RangeReaches(map_[i].base, Pages(map_[i].length), n);
    }
    if forall frame: nat :: BootReaches(map_, home, frame) ==> frame < n {
      forall i | 0 <= i < |map_| && Withheld(map_[i])
        ensures RangeFits(map_[i].base, Pages(map_[i].length), n)
      {
        assert forall frame: nat :: Reaches(map_[i].base, Pages(map_[i].length), frame) ==> BootReaches(map_, home, frame);
      }
      assert forall frame: nat :: Reaches(home, Pages(BitmapSize(map_)), frame) ==> BootReaches(map_, home, frame);
    }
  }

  /** What booting then reaches is what it takes. */
  lemma {:induction false} ReachedIsTaken(map_: seq<MemmapEntry>, home: U64, frame: nat)
    requires FitsBitmap(map_, home)
    ensures BootReaches(map_, home, frame) <==> TakenAtBoot(map_, home, frame)
  {
    ReachesCovered(home, Pages(BitmapSize(map_)), frame);
    forall i | 0 <= i < |map_| && Withheld(map_[i])
      ensures Reaches(map_[i].base, Pages(map_[i].length), frame) <==> WithheldCovers(map_[i], frame)
    {
      ReachesCovered(map_[i].base, Pages(map_[i].length), frame);
    }
  }

  lemma {:induction false} ReachesCovered(addr: U64, count: nat, frame: nat)
    requires RangeFits(addr, count, ALL_FRAMES)
    ensures Reaches(addr, count, frame) <==> Covers(addr / 4096, count, frame)
  {
    forall i: nat | i < count
      ensures FrameAfter(addr, i) == addr / 4096 + i
    {
      FrameInOrder(addr, i);
    }
    if Covers(addr / 4096, count, frame) {
      var i := frame - addr / 4096;
      assert frame == FrameAfter(addr, i);
    }
  }

  /** 256 MiB of memory and a frame buffer at 0xFD00_0000: booting marks frame 0xFD000, and the
      bitmap ends at 0x103F0. */
  lemma {:induction false} FrameBufferAboveBitmap(map_: seq<MemmapEntry>)
    requires map_ == [MemmapEntry(0x10_0000, 0x1000_0000, MEMMAP_USABLE), MemmapEntry(0xFD00_0000, 0x3E_8000, 7)]
    ensures IsHome(map_, 0x10_0000) && 8 * BitmapSize(map_) == 0x103F0
    ensures BootReaches(map_, 0x10_0000, 0xFD000) && !FitsBitmap(map_, 0x10_0000)
  {
    assert map_[..1] == [map_[0]] && map_[..1][..0] == [];
    assert MemorySize(map_[..1]) == 0x1000_0000;
    assert LargestUsable(map_, 0);
    assert FrameAfter(0xFD00_0000, 0) == 0xFD000;
    assert Withheld(map_[1]) && Reaches(map_[1].base, Pages(map_[1].length), 0xFD000);
  }

  /** One usable page: the bitmap is one byte, on that page. */
  lemma {:induction false} OnePageOfMemory(map_: seq<MemmapEntry>)
    requires map_ == [MemmapEntry(0x1000, 0x1000, MEMMAP_USABLE)]
    ensures MemorySize(map_) == 4096 && BitmapSize(map_) == 1 && Pages(1) == 1
    ensures IsHome(map_, 0x1000) && FitsBitmap(map_, 0x1000)
  {
    assert map_[..0] == [] && MemorySize([]) == 0;
    assert MemorySize(map_) == Wrap(0x1000) == 0x1000;
    SmallSizes(MemorySize(map_));
    assert LargestUsable(map_, 0);
  }

  lemma SmallSizes(size: U64)
    requires size == 4096
    ensures size / 4096 / 8 + 1 == 1 && Pages(1) == 1
  {
  }

  // ---- When every clear frame is usable memory ----

  /** Frame `f` lies whole in a usable entry. */
  predicate UsableCovers(e: MemmapEntry, f: nat) {
    e.kind == MEMMAP_USABLE && e.base <= f * 4096 && f * 4096 + 4096 <= e.base + e.length
  }

  predicate HasByte(e: MemmapEntry, a: nat) { e.base <= a < e.base + e.length }

  /** That is, all its bytes do. */
  lemma {:induction false} FrameIsUsable(e: MemmapEntry, f: nat)
    ensures UsableCovers(e, f) <==> e.kind == 0 && forall a :: f * 4096 <= a < (f + 1) * 4096 ==> HasByte(e, a)
  {
    if forall a :: f * 4096 <= a < (f + 1) * 4096 ==> HasByte(e, a) {
      assert HasByte(e, f * 4096) && HasByte(e, f * 4096 + 4095);
    }
  }

  predicate InUsable(map_: seq<MemmapEntry>, f: nat) {
    exists i :: 0 <= i < |map_| && UsableCovers(map_[i], f)
  }

  /** Booting takes the frame, or it is usable memory. */
  predicate Accounted(map_: seq<MemmapEntry>, home: U64, f: nat) { TakenAtBoot(map_, home, f) || InUsable(map_, f) }

  /** The first frame past those an entry accounts for. */
  function EdgeOf(e: MemmapEntry): nat {
    if Withheld(e) then e.base / 4096 + Pages(e.length)
    else if e.kind == MEMMAP_USABLE then (e.base + e.length) / 4096
    else 0
  }

  predicate EdgeAccounted(map_: seq<MemmapEntry>, home: U64, edge: nat) {
    edge < 8 * BitmapSize(map_) ==> Accounted(map_, home, edge)
  }

  /** Where what frame 0, the bitmap or an entry accounts for ends, something else goes on or the
      bitmap ends. */
  predicate EdgesAccounted(map_: seq<MemmapEntry>, home: U64) {
    && EdgeAccounted(map_, home, 1)
    && EdgeAccounted(map_, home, home / 4096 + Pages(BitmapSize(map_)))
    && forall i :: 0 <= i < |map_| ==> EdgeAccounted(map_, home, EdgeOf(map_[i]))
  }

  /** For every map: every frame that is clear after boot, and so may be handed out, is usable memory
      exactly when all the edges are accounted for. */
  lemma {:induction false} ClearIsUsableExactly(map_: seq<MemmapEntry>, home: U64)
    ensures EdgesAccounted(map_, home) <==>
            forall f: nat {:trigger InUsable(map_, f)} :: f < 8 * BitmapSize(map_) && !TakenAtBoot(map_, home, f) ==> InUsable(map_, f)
  {
    if EdgesAccounted(map_, home) {
      forall f: nat | f < 8 * BitmapSize(map_) && !TakenAtBoot(map_, home, f)
        ensures InUsable(map_, f)
      {
        AccountedUpTo(map_, home, f);
      }
    } else if forall f: nat {:trigger InUsable(map_, f)} :: f < 8 * BitmapSize(map_) && !TakenAtBoot(map_, home, f) ==> InUsable(map_, f) {
      forall edge: nat
        ensures EdgeAccounted(map_, home, edge)
      {
      }
    }
  }

  lemma {:induction false} AccountedUpTo(map_: seq<MemmapEntry>, home: U64, f: nat)
    requires EdgesAccounted(map_, home) && f < 8 * BitmapSize(map_)
    ensures Accounted(map_, home, f)
    decreases f
  {
    if f > 0 {
      AccountedUpTo(map_, home, f - 1);
      if InUsable(map_, f - 1) {
        var i :| 0 <= i < |map_| && UsableCovers(map_[i], f - 1);
        NextOrEdge(map_[i], f - 1);
        assert EdgeAccounted(map_, home, EdgeOf(map_[i]));
      } else if CoveredByFirst(map_, |map_|, f - 1) {
        var i :| 0 <= i < |map_| && WithheldCovers(map_[i], f - 1);
        assert WithheldCovers(map_[i], f) || f == EdgeOf(map_[i]);
        assert EdgeAccounted(map_, home, EdgeOf(map_[i]));
      }
    }
  }

  lemma NextOrEdge(e: MemmapEntry, f: nat)
    requires UsableCovers(e, f)
    ensures UsableCovers(e, f + 1) || f + 1 == EdgeOf(e)
  {
  }

  /** 128 MiB of usable memory from address 0 on, and nothing else: the bitmap goes on past its end,
      and frame 0x8000, which is no memory at all, is clear after boot. */
  lemma {:induction false} FrameBeyondMemory(map_: seq<MemmapEntry>)
    requires map_ == [MemmapEntry(0, 0x800_0000, MEMMAP_USABLE)]
    ensures IsHome(map_, 0) && FitsBitmap(map_, 0) && 8 * BitmapSize(map_) == 0x8008
    ensures !TakenAtBoot(map_, 0, 0x8000) && !InUsable(map_, 0x8000) && !EdgesAccounted(map_, 0)
  {
    assert map_[..0] == [] && MemorySize([]) == 0;
    assert MemorySize(map_) == 0x800_0000;
    assert LargestUsable(map_, 0);
    assert EdgeOf(map_[0]) == 0x8000;
    ClearIsUsableExactly(map_, 0);
  }
}
