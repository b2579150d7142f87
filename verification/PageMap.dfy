/** The kernel's page map: a tree of table frames in physical memory, grown on demand from the
    frame allocator. */
module PageMap {
  import opened Bits
  import opened FrameBits
  import opened PageEntry
  import opened PageTree
  import opened PageCost
  import opened MemoryState
  import opened Mmu
  import PhysAllocator

  /** The pages in [lo, hi) are not covered by a huge page. */
  ghost predicate NoHuge(flat: imap<nat, Translation>, lo: nat, hi: nat) {
    forall p: nat :: lo <= p < hi ==> p in flat && !flat[p].HugePage?
  }

  class PageMap {
    const allocator: PhysAllocator.PhysAllocator
    const pml4: nat              // the frame of the root table
    var memory: seq<Frame>       // physical memory, frame by frame
    ghost var tables: map<Node, nat>         // where every table of the tree lies
    ghost var flat: imap<nat, Translation>   // what the walk yields, page by page
    ghost const grants: imap<nat, Rights>    // what is permitted on the way of each page

    ghost function Repr(): set<object>
    {
      {this, allocator, allocator.pageBitmap, allocator.pageBitmap.buffer}
    }

    ghost function Now(): State
      reads this, allocator.pageBitmap
    {
      State(memory, allocator.Bits(), tables, flat, grants)
    }

    /** The table frames form a tree, and the allocator knows every one of them is taken. */
    ghost predicate Valid()
      reads Repr()
    {
      allocator.Valid() && allocator.Bits()[0] && Sound(Now(), pml4)
    }

    /** The page map the boot loader left in `root`, taken over together with the memory. */
    constructor (allocator: PhysAllocator.PhysAllocator, root: nat, memory: seq<Frame>, ghost tables: map<Node, nat>)
      requires allocator.Valid() && |memory| == |allocator.Bits()| && allocator.Bits()[0]
      requires IsTree(memory, root, tables)
      requires TablesTaken(allocator.Bits(), tables)
      ensures Valid() && this.allocator == allocator && pml4 == root && this.memory == memory && this.tables == tables
    {
      ghost var walks, rights := WalkTable(memory, root);
      this.allocator, this.pml4, this.memory, this.tables := allocator, root, memory, tables;
      flat, grants := walks, rights;
    }

    /** paging_phys_alloc: a zeroed frame; when no frame is clear, frame 0, whatever it held. */
    method AllocateTable() returns (target: U64)
      requires Valid()
      modifies Repr()
      ensures allocator.Valid() && target % 0x1000 == 0 && target / 0x1000 < MAX_FRAMES
      ensures CountClear(old(allocator.Bits())) > 0 ==>
                0 < target && LeastClear(old(allocator.Bits()), target / 0x1000) &&
                Now() == old(Now()).(mem := old(memory)[target / 0x1000 := EmptyTable()],
                                     bits := old(allocator.Bits())[target / 0x1000 := true])
      ensures CountClear(old(allocator.Bits())) == 0 ==>
                target == 0 && Now() == old(Now()).(mem := old(memory)[0 := EmptyTable()])
    {
      target := allocator.RequestPage();
      memory := memory[target / 0x1000 := EmptyTable()];
    }

    /** A new table under an empty slot. */
    method HangTable(ghost n: Node, table: nat, index: nat)
      requires Valid() && n in tables && tables[n] == table && Depth(n) < 3 && index < 512
      requires !Present(Entry(memory, table, index))
      requires CountClear(allocator.Bits()) > 0
      modifies Repr()
      ensures Valid() && flat == old(flat)
      ensures Child(n, index) !in old(tables) && tables.Keys == old(tables.Keys) + {Child(n, index)}
      ensures Grown(old(Now()), Now())
      ensures CountClear(allocator.Bits()) == old(CountClear(allocator.Bits())) - 1
    {
      ghost var s := Now();
      assert Edge(memory, tables, n, index);
      TableAt(memory, pml4, tables, n);
      var target := AllocateTable();
      ghost var child := target / 0x1000;
      ClearHoldsNone(s.bits, s.tables, child);
      CountUpdate(s.bits, child, true);
      HungSound(s, pml4, n, index, child);
      TableEntryMeaning(child);
      assert target == child * 0x1000;
      memory := WithEntry(memory, table, index, TableEntry(target));
      tables := tables[Child(n, index) := child];
      assert Now() == Hung(s, pml4, n, index, child);
    }

    lemma {:induction false} NoHugeSlot(v: U64, depth: nat)
      requires Valid() && depth < 3 && NodeFor(v, depth) in tables && !flat[PageOf(v)].HugePage?
      ensures Index(v, depth) < 512
      ensures !(Present(Entry(memory, tables[NodeFor(v, depth)], Index(v, depth))) &&
                Huge(Entry(memory, tables[NodeFor(v, depth)], Index(v, depth))))
    {
      IndexBound(v, depth);
      WalkReaches(memory, pml4, tables, v, depth);
    }

    /** One level of the walk of `v`: hang a new table under the slot if nothing is there, and
        follow the slot. */
    method Descend(ghost v: U64, ghost depth: nat, table: nat, index: nat) returns (child: nat)
      requires Valid() && depth < 3 && index == Index(v, depth) && !flat[PageOf(v)].HugePage?
      requires NodeFor(v, depth) in tables && tables[NodeFor(v, depth)] == table
      requires NodeFor(v, depth + 1) !in tables ==> CountClear(allocator.Bits()) > 0
      modifies Repr()
      ensures Valid() && flat == old(flat)
      ensures NodeFor(v, depth + 1) in tables && tables[NodeFor(v, depth + 1)] == child
      ensures tables.Keys == old(tables.Keys) + {NodeFor(v, depth + 1)}
      ensures Grown(old(Now()), Now())
      ensures CountClear(allocator.Bits()) ==
              old(CountClear(allocator.Bits())) - (if NodeFor(v, depth + 1) in old(tables) then 0 else 1)
    {
      ghost var n := NodeFor(v, depth);
      NodeDepth(v, depth);
      NoHugeSlot(v, depth);
      assert NodeFor(v, depth + 1) == Child(n, index);
      assert Edge(memory, tables, n, index);
      GrownRefl(Now());
      if !Present(Entry(memory, table, index)) {
        ghost var s := Now();
        HangTable(n, table, index);
        assert TableKept(s, Now(), n);
        assert Edge(memory, tables, n, index);
      }
      child := FrameOf(Entry(memory, table, index));
    }

    /** The last-level slot: cleared for a zero address, otherwise filled in. */
    method SetLeaf(v: U64, pt: nat, ptIndex: nat, physicalAddress: U64, flags: U64)
      requires Valid() && NodeFor(v, 3) in tables && tables[NodeFor(v, 3)] == pt && ptIndex == PtIndex(v)
      requires physicalAddress / 0x1000 < MAX_FRAMES && PdeAddr(flags) == 0
      modifies this`memory, this`flat
      ensures Valid() && |memory| == old(|memory|)
      ensures forall f :: 0 <= f < |memory| && f != pt ==> memory[f] == old(memory)[f]
      ensures flat == old(flat)[PageOf(v) := Mapping(physicalAddress, flags, grants[PageOf(v)])]
    {
      ghost var s := Now();
      LeafedSound(s, pml4, v, physicalAddress, flags);
      if physicalAddress == 0 {
        memory := WithEntry(memory, pt, ptIndex, 0);
      } else {
        memory := WithEntry(memory, pt, ptIndex, LeafEntry(physicalAddress, flags));
      }
      flat := flat[PageOf(v) := Mapping(physicalAddress, flags, grants[PageOf(v)])];
      assert Now() == Leafed(s, v, physicalAddress, flags);
    }

    /** The first two intermediate levels: the page directory of `v`. */
    method PageDirectory(v: U64) returns (pd: nat)
      requires Valid() && !flat[PageOf(v)].HugePage?
      requires CountClear(allocator.Bits()) >= Missing(tables.Keys, v)
      modifies Repr()
      ensures Valid() && flat == old(flat)
      ensures NodeFor(v, 2) in tables && tables[NodeFor(v, 2)] == pd
      ensures tables.Keys == old(tables.Keys) + {NodeFor(v, 1)} + {NodeFor(v, 2)}
      ensures Grown(old(Now()), Now())
      ensures CountClear(allocator.Bits()) - Missing(tables.Keys, v) ==
              old(CountClear(allocator.Bits()) - Missing(tables.Keys, v))
    {
      ghost var s := Now();
      MissingStep(s.tables.Keys, v, 1);
      MissingStep(s.tables.Keys + {NodeFor(v, 1)}, v, 2);
      var pdp := Descend(v, 0, pml4, Pml4Index(v));
      ghost var s' := Now();
      pd := Descend(v, 1, pdp, PdptIndex(v));
      GrownTrans(s, s', Now());
    }

    /** All three intermediate levels: the last-level table of `v`, with whatever had to be
        created on the way. */
    method LastLevelTable(v: U64) returns (pt: nat)
      requires Valid() && !flat[PageOf(v)].HugePage?
      requires CountClear(allocator.Bits()) >= Missing(tables.Keys, v)
      modifies Repr()
      ensures Valid() && flat == old(flat)
      ensures NodeFor(v, 3) in tables && tables[NodeFor(v, 3)] == pt
      ensures tables.Keys == old(tables.Keys) + {NodeFor(v, 1)} + {NodeFor(v, 2)} + {NodeFor(v, 3)}
      ensures Grown(old(Now()), Now())
      ensures CountClear(allocator.Bits()) - Missing(tables.Keys, v) ==
              old(CountClear(allocator.Bits()) - Missing(tables.Keys, v))
    {
      ghost var s := Now();
      MissingStep(s.tables.Keys + {NodeFor(v, 1)} + {NodeFor(v, 2)}, v, 3);
      var pd := PageDirectory(v);
      ghost var s' := Now();
      pt := Descend(v, 2, pd, PdIndex(v));
      GrownTrans(s, s', Now());
    }

    /** map_virtual_memory. */
    method MapVirtualMemory(virtualAddress: U64, physicalAddress: U64, flags: U64)
      requires Valid()
      requires physicalAddress / 0x1000 < MAX_FRAMES && PdeAddr(flags) == 0
      requires !flat[PageOf(virtualAddress)].HugePage?
      requires CountClear(allocator.Bits()) >= Missing(tables.Keys, virtualAddress)
      modifies Repr()
      ensures Valid()
      ensures flat == old(flat)[PageOf(virtualAddress) := Mapping(physicalAddress, flags, grants[PageOf(virtualAddress)])]
      ensures MapsOnly(old(memory), memory, pml4, virtualAddress, physicalAddress, flags)
      ensures tables.Keys == WithPath(old(tables.Keys), virtualAddress)
      ensures Grown(old(Now()), Now())
      ensures allocator.Bits() == TakeLowest(old(allocator.Bits()), old(Missing(tables.Keys, virtualAddress)))
    {
      ghost var s := Now();
      NoneMissing(s.tables.Keys, virtualAddress);
      PathIs(s.tables.Keys, virtualAddress);
      var pt := LastLevelTable(virtualAddress);
      ghost var s' := Now();
      SetLeaf(virtualAddress, pt, PtIndex(virtualAddress), physicalAddress, flags);
      FlatMapsOnly(s, Now(), pml4, virtualAddress, physicalAddress, flags);
      TableWritten(s, s', Now(), NodeFor(virtualAddress, 3));
      PathTook(s.bits, s.tables.Keys, allocator.Bits(), tables.Keys, virtualAddress);
    }

    /** request_page, for a page whose tables may be missing. */
    method RequestFrame(ghost v: U64) returns (frame: nat)
      requires Valid() && HasFrames(allocator.Bits(), tables.Keys, v)
      modifies allocator, allocator.pageBitmap, allocator.pageBitmap.buffer
      ensures Valid()
      ensures 0 < frame < |old(allocator.Bits())| && frame < MAX_FRAMES && LeastClear(old(allocator.Bits()), frame)
      ensures allocator.Bits() == old(allocator.Bits())[frame := true]
      ensures CountClear(allocator.Bits()) >= Missing(tables.Keys, v)
    {
      ghost var bits := allocator.Bits();
      var phys := allocator.RequestPage();
      frame := phys / 0x1000;
      CountUpdate(bits, frame, true);
      TakenStays(bits, tables, allocator.Bits());
    }

    /** request_page followed by map_virtual_memory, as the heap and the program loader do: the
        least clear frame for the page, the next ones for the tables that are missing. */
    method MapFresh(virtualAddress: U64, flags: U64) returns (frame: nat)
      requires Valid() && PdeAddr(flags) == 0 && !flat[PageOf(virtualAddress)].HugePage?
      requires HasFrames(allocator.Bits(), tables.Keys, virtualAddress)
      modifies Repr()
      ensures Valid()
      ensures 0 < frame < |old(allocator.Bits())| && frame < MAX_FRAMES && LeastClear(old(allocator.Bits()), frame)
      ensures flat == old(flat)[PageOf(virtualAddress) := Mapping(frame * 0x1000, flags, grants[PageOf(virtualAddress)])]
      ensures Grown(old(Now()).(bits := old(allocator.Bits())[frame := true]), Now())
      ensures UsedFrames(old(allocator.Bits()), old(tables.Keys), virtualAddress, allocator.Bits(), tables.Keys)
    {
      ghost var s := Now();
      frame := RequestFrame(virtualAddress);
      assert Now() == s.(bits := s.bits[frame := true]);
      MapVirtualMemory(virtualAddress, frame * 0x1000, flags);
      FramesUsed(s.bits, frame, s.tables.Keys, virtualAddress, allocator.Bits(), tables.Keys);
    }
  }
}
