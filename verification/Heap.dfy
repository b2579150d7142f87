/** The kernel heap: malloc and free over the segment list, growing into pages that are mapped
    one by one to fresh frames. */
module Heap {
  import opened Bits
  import opened FrameBits
  import opened PageEntry
  import opened PageTree
  import opened PageCost
  import opened MemoryState
  import opened PageMap
  import opened FrameOwnership
  import opened HeapTiles
  import opened HeapList
  import opened HeapTheorems

  /** PAGE_RW | PAGE_USER */
  const HEAP_FLAGS := 0x6

  /** The heap grows upwards inside the lower half of the address space. */
  const HEAP_LIMIT := 0x8000_0000_0000

  lemma {:induction false} HeapFlags()
    ensures BitOr(PAGE_RW, PAGE_USER) == HEAP_FLAGS && PdeAddr(HEAP_FLAGS) == 0
  {
    MaskOfAddress(HEAP_FLAGS);
  }

  /** `size` rounded up to a multiple of 16, in 64-bit arithmetic: the last fifteen sizes wrap
      around to 0. */
  function Rounded(size: U64): U64 {
    if Round16(size) < TWO64 then Round16(size) else 0
  }

  /** The rounded size is the least multiple of 16 with room for the size asked for; malloc(0) and the
      sizes that wrap around are the ones that become 0. */
  lemma {:induction false} RoundedMeaning(size: U64)
    ensures Rounded(size) % 16 == 0
    ensures Rounded(size) > 0 ==> size <= Rounded(size) < size + 16
    ensures Rounded(size) == 0 <==> size == 0 || size > TWO64 - 16
  {
    var units := if size % 16 > 0 then size / 16 + 1 else size / 16;
    DivModUnique(Round16(size), 16, units, 0);
  }

  /** NULL for 0 and for the sizes that wrap around, and the row is left alone; a block that serves the
      request for all others. */
  ghost predicate Answered(ts: seq<Tile>, after: seq<Tile>, address: nat, size: nat) {
    if size == 0 || size > TWO64 - 16 then address == NULL && after == ts
    else address != NULL && Served(ts, after, address, size)
  }

  /** What the search takes is what malloc is to allocate. */
  lemma {:induction false} FitTaken(ts: seq<Tile>, start: nat, end: nat, n: nat, after: seq<Tile>, address: nat)
    requires WellFormed(ts, start, end) && n > 0 && n % 16 == 0
    requires HasFit(ts, n) ==> after == Take(ts, FirstFit(ts, n), n) && address == ts[FirstFit(ts, n)].Block()
    requires !HasFit(ts, n) ==> after == ts
    ensures Coalesced(after)
    ensures HasFit(ts, n) ==> after == Allocated(ts, n) && address == Address(ts, n) && EnlargedBy(ts, n) == 0
  {
    if HasFit(ts, n) {
      AllocatedAtOnce(ts, start, end, n);
    }
  }

  lemma {:induction false} AllocatedAnswers(ts: seq<Tile>, start: nat, end: nat, size: U64)
    requires WellFormed(ts, start, end)
    ensures Rounded(size) == 0 ==> Answered(ts, ts, NULL, size)
    ensures Rounded(size) > 0 ==> Answered(ts, Allocated(ts, Rounded(size)), Address(ts, Rounded(size)), size)
  {
    RoundedMeaning(size);
    if Rounded(size) > 0 {
      AllocatedServes(ts, start, end, size, Rounded(size));
      EnlargedHasFit(ts, start, end, Rounded(size));
    }
  }

  lemma PageNumbers(a: U64)
    requires a % 0x1000 == 0 && a < HEAP_LIMIT
    ensures PageOf(a) == a / 0x1000 && AddressOf(a / 0x1000) == a
  {
  }

  lemma {:induction false} PageRounding(amount: nat)
    requires amount > 0
    ensures RoundPage(amount) % 0x1000 == 0 && RoundPage(amount) / 0x1000 * 0x1000 == RoundPage(amount)
    ensures amount <= RoundPage(amount) < amount + 0x1000
    ensures RoundPage(amount) > HEADER && RoundPage(amount) % 16 == 0
  {
    var pages := if amount % 0x1000 > 0 then amount / 0x1000 + 1 else amount / 0x1000;
    WholePages(RoundPage(amount), pages);
  }

  lemma {:induction false} WholePages(a: nat, pages: nat)
    requires a == pages * 0x1000
    ensures a % 0x1000 == 0 && a / 0x1000 == pages && a % 16 == 0
  {
    DivModUnique(a, 0x1000, pages, 0);
    DivModUnique(a, 16, pages * 256, 0);
  }

  lemma PagesAdd(a: nat, b: nat)
    requires a % 0x1000 == 0 && b % 0x1000 == 0
    ensures (a + b) / 0x1000 == a / 0x1000 + b / 0x1000
  {
  }

  lemma {:induction false} PageAligned16(a: nat, page: nat)
    requires a == page * 0x1000
    ensures a % 16 == 0
  {
    WholePages(a, page);
  }

  /** What malloc still has to expand by after the first expansion, in pages. */
  lemma {:induction false} EnlargedPages(ts: seq<Tile>, start: nat, end: nat, n: nat)
    requires WellFormed(ts, start, end) && n > 0 && !HasFit(ts, n)
    ensures |Expand(ts, n)| > 0
    ensures EnlargedBy(ts, n) / 0x1000 == RoundPage(n) / 0x1000 + EnlargedBy(Expand(ts, n), n) / 0x1000
  {
    EnlargedAfterExpand(ts, start, end, n);
    PageRounding(n);
    PagesAdd(RoundPage(n), EnlargedBy(Expand(ts, n), n));
  }

  /** The page at `hi`, mapped to the least clear frame, joins the pages in [lo, hi), and there is
      still room for `more` after it. */
  lemma {:induction false} PageJoins(s: State, s': State, lo: nat, hi: nat, more: nat, v: U64, f: nat)
    requires OwnsRange(s, lo, hi) && AllAccessible(s, lo, hi) && lo <= hi && Joined(s, s', hi, f, HEAP_FLAGS)
    requires Affords(s.bits, s.tables.Keys, hi, 1 + more) && v == AddressOf(hi)
    requires UsedFrames(s.bits, s.tables.Keys, v, s'.bits, s'.tables.Keys)
    ensures OwnsRange(s', lo, hi + 1) && AllAccessible(s', lo, hi + 1)
    ensures Affords(s'.bits, s'.tables.Keys, hi + 1, more)
  {
    JoinedKeeps(s, s', hi, f, HEAP_FLAGS);
    OwnsExtend(s, s', lo, hi, f, HEAP_FLAGS);
    FreshMapping(f * 0x1000, HEAP_FLAGS, s.grants[hi]);
    AccessibleExtend(s, s', lo, hi);
    AffordsRest(s.bits, s.tables.Keys, hi, more, v, s'.bits, s'.tables.Keys);
  }

  /** request_page and map_virtual_memory for `page`, right after those from `lo` on. */
  method MapNext(paging: PageMap, v: U64, ghost page: nat, ghost lo: nat, ghost more: nat)
    requires paging.Valid() && v == page * 0x1000 && v < HEAP_LIMIT && lo <= page && !paging.flat[page].HugePage?
    requires OwnsRange(paging.Now(), lo, page) && AllAccessible(paging.Now(), lo, page)
    requires Affords(paging.allocator.Bits(), paging.tables.Keys, page, 1 + more)
    modifies paging.Repr()
    ensures paging.Valid()
    ensures OwnsRange(paging.Now(), lo, page + 1) && AllAccessible(paging.Now(), lo, page + 1)
    ensures Affords(paging.allocator.Bits(), paging.tables.Keys, page + 1, more)
    ensures Undisturbed(old(paging.Now()), paging.Now()) && OnlyMaps(old(paging.Now()), paging.Now(), page, 1)
  {
    PageNumbers(v);
    HeapFlags();
    ghost var s := paging.Now();
    AffordsFirst(s.bits, s.tables.Keys, page, more, v);
    var frame := paging.MapFresh(v, HEAP_FLAGS);
    assert Joined(s, paging.Now(), page, frame, HEAP_FLAGS);
    JoinedKeeps(s, paging.Now(), page, frame, HEAP_FLAGS);
    PageJoins(s, paging.Now(), lo, page, more, v, frame);
  }

  /** The loop of heap_init and of expand_heap: `pages` pages from `v` on. */
  method MapRange(paging: PageMap, v: U64, pages: nat, ghost page: nat, ghost lo: nat, ghost more: nat)
    requires paging.Valid() && v == page * 0x1000 && v + pages * 0x1000 <= HEAP_LIMIT && lo <= page
    requires OwnsRange(paging.Now(), lo, page) && AllAccessible(paging.Now(), lo, page)
    requires Affords(paging.allocator.Bits(), paging.tables.Keys, page, pages + more)
    requires NoHuge(paging.flat, page, page + pages)
    modifies paging.Repr()
    ensures paging.Valid()
    ensures OwnsRange(paging.Now(), lo, page + pages) && AllAccessible(paging.Now(), lo, page + pages)
    ensures Affords(paging.allocator.Bits(), paging.tables.Keys, page + pages, more)
    ensures Undisturbed(old(paging.Now()), paging.Now()) && OnlyMaps(old(paging.Now()), paging.Now(), page, pages)
  {
    ghost var s := paging.Now();
    UndisturbedRefl(s);
    var pos, i := v, 0;
    while i < pages
      invariant paging.Valid() && ExtendedSoFar(s, paging.Now(), lo, page, i, pages, more) && pos == v + i * 0x1000
    {
      i := MapAnother(paging, pos, s, lo, page, i, pages, more);
      pos := pos + 0x1000;
    }
  }

  /** From `s` to `s'`, the pages in [lo, page) were extended by `i` pages, and no other was mapped. */
  ghost predicate Extended(s: State, s': State, lo: nat, page: nat, i: nat) {
    && OwnsRange(s', lo, page + i) && AllAccessible(s', lo, page + i)
    && Undisturbed(s, s') && OnlyMaps(s, s', page, i)
  }

  /** That is where the loop stands after `i` of its pages, with frames for the others and for `more`. */
  ghost predicate ExtendedSoFar(s: State, s': State, lo: nat, page: nat, i: nat, pages: nat, more: nat) {
    i <= pages && Extended(s, s', lo, page, i) && Affords(s'.bits, s'.tables.Keys, page + i, pages - i + more)
  }

  /** One round of the loop. */
  method MapAnother(paging: PageMap, v: U64, ghost s: State, ghost lo: nat, ghost page: nat, i: nat, ghost pages: nat, ghost more: nat)
    returns (i': nat)
    requires paging.Valid() && ExtendedSoFar(s, paging.Now(), lo, page, i, pages, more) && i < pages && NoHuge(s.flat, page, page + pages)
    requires v == (page + i) * 0x1000 && v < HEAP_LIMIT && lo <= page
    modifies paging.Repr()
    ensures paging.Valid() && ExtendedSoFar(s, paging.Now(), lo, page, i', pages, more) && i' == i + 1
  {
    ghost var s' := paging.Now();
    assert SameAt(s, s', page + i);
    MapNext(paging, v, page + i, lo, pages - i - 1 + more);
    UndisturbedTrans(s, s', paging.Now());
    OnlyMapsMore(s, s', paging.Now(), page, i);
    i' := i + 1;
  }

  lemma {:induction false} StillNoHuge(s: State, s': State, page: nat, pages: nat, more: nat)
    requires NoHuge(s.flat, page, page + (pages + more)) && OnlyMaps(s, s', page, pages)
    ensures NoHuge(s'.flat, page + pages, page + pages + more)
  {
    forall p: nat | page + pages <= p < page + pages + more
      ensures p in s'.flat && !s'.flat[p].HugePage?
    {
      assert SameAt(s, s', p);
    }
  }

  /** The pages in [lo, hi) own their frames, and are writable and open to user mode as far as the
      intermediate entries on their way permit. */
  ghost predicate HeapPages(paging: PageMap, lo: nat, hi: nat)
    reads paging.Repr()
  {
    && paging.Valid() && 0 < lo <= hi && hi * 0x1000 <= HEAP_LIMIT
    && OwnsRange(paging.Now(), lo, hi) && AllAccessible(paging.Now(), lo, hi)
  }

  class Heap {
    const paging: PageMap
    const list: SegmentList
    var heapStart: U64
    var heapEnd: U64
    ghost var firstPage: nat   // the pages these bounds are at
    ghost var endPage: nat

    ghost function Repr(): set<object> {
      {this, list} + paging.Repr()
    }

    /** The pages below `heapEnd` are the heap's own. */
    ghost predicate Mapped()
      reads Repr()
    {
      HeapPages(paging, firstPage, endPage) && heapStart == firstPage * 0x1000 && heapEnd == endPage * 0x1000
    }

    /** The segments tile the heap exactly, linked both ways, with no two free neighbours, over
        pages that each own their frame. */
    ghost predicate Valid()
      reads Repr()
    {
      && Mapped() && list.Valid()
      && list.start == heapStart && list.end == heapEnd
      && Coalesced(list.tiles)
    }

    /** Room to map `pages` more pages: address space, no huge page in the way, and a frame for each
        page and for each table that is missing. */
    ghost predicate CanGrow(pages: nat)
      reads Repr()
    {
      && heapEnd + pages * 0x1000 <= HEAP_LIMIT
      && NoHuge(paging.flat, endPage, endPage + pages)
      && Affords(paging.allocator.Bits(), paging.tables.Keys, endPage, pages)
    }

    /** heap_init: `size` pages from `start`, one free segment over all of them. */
    constructor (paging: PageMap, start: U64, size: nat)
      requires paging.Valid() && size > 0
      requires 0 < start && start % 0x1000 == 0 && start + size * 0x1000 <= HEAP_LIMIT
      requires NoHuge(paging.flat, start / 0x1000, start / 0x1000 + size)
      requires Affords(paging.allocator.Bits(), paging.tables.Keys, start / 0x1000, size)
      modifies paging.Repr()
      ensures Valid() && fresh(this) && fresh(list) && this.paging == paging
      ensures heapStart == start && heapEnd == start + size * 0x1000
      ensures list.tiles == [Tile(start, size * 0x1000 - HEADER, true)]
    {
      this.paging := paging;
      heapStart, heapEnd := start, start;
      list := new SegmentList(start);
      new;
      PageAligned16(start, start / 0x1000);
      Init(start, size, start / 0x1000);
    }

    method Init(start: U64, size: nat, ghost page: nat)
      requires paging.Valid() && size > 0 && list.start == start && start % 16 == 0
      requires 0 < page && start == page * 0x1000 && start + size * 0x1000 <= HEAP_LIMIT
      requires NoHuge(paging.flat, page, page + size)
      requires Affords(paging.allocator.Bits(), paging.tables.Keys, page, size)
      modifies this, list, paging.Repr()
      ensures Valid() && heapStart == start && heapEnd == start + size * 0x1000
      ensures list.tiles == [Tile(start, size * 0x1000 - HEADER, true)]
    {
      MapRange(paging, start, size, page, page, 0);
      SetUpList(start, size, page);
    }

    /** The last part of it: the heap's bounds and its first segment. */
    method SetUpList(start: U64, size: nat, ghost page: nat)
      requires size > 0 && list.start == start && start % 16 == 0 && start == page * 0x1000 && HeapPages(paging, page, page + size)
      modifies this, list
      ensures Valid() && heapStart == start && heapEnd == start + size * 0x1000
      ensures list.tiles == [Tile(start, size * 0x1000 - HEADER, true)]
    {
      heapStart, heapEnd := start, start + size * 0x1000;
      firstPage, endPage := page, page + size;
      list.SetUp(start, size * 0x1000);
    }

    /** Maps `pages` fresh pages at the end of the heap. */
    method MapPages(pages: nat, ghost more: nat)
      requires Mapped() && CanGrow(pages + more)
      modifies this`heapEnd, this`endPage, paging.Repr()
      ensures Mapped() && CanGrow(more)
      ensures heapEnd == old(heapEnd) + pages * 0x1000 && endPage == old(endPage) + pages
      ensures OnlyMaps(old(paging.Now()), paging.Now(), old(endPage), pages)
    {
      MapRange(paging, heapEnd, pages, endPage, firstPage, more);
      StillNoHuge(old(paging.Now()), paging.Now(), endPage, pages, more);
      heapEnd := heapEnd + pages * 0x1000;
      endPage := endPage + pages;
    }

    /** expand_heap */
    method ExpandHeap(amount: U64, ghost pages: nat, ghost more: nat)
      requires Valid() && amount > 0 && CanGrow(pages) && pages == RoundPage(amount) / 0x1000 + more
      modifies this`heapEnd, this`endPage, list, paging.Repr()
      ensures Valid() && CanGrow(more)
      ensures list.tiles == Expand(old(list.tiles), amount)
      ensures heapEnd == old(heapEnd) + RoundPage(amount)
    {
      PageAligned16(heapStart, firstPage);
      var rounded, pageCount := RoundToPages(amount);
      var new_ := heapEnd;
      MapPages(pageCount, more);
      AppendTail(new_, rounded, amount);
    }

    /** The rounding at its start. */
    static method RoundToPages(amount: U64) returns (rounded: nat, pageCount: nat)
      requires amount > 0
      ensures rounded == RoundPage(amount) == pageCount * 0x1000 && pageCount == RoundPage(amount) / 0x1000
    {
      PageRounding(amount);
      rounded := amount;
      if rounded % 0x1000 > 0 {
        rounded := rounded - rounded % 0x1000;
        rounded := rounded + 0x1000;
      }
      pageCount := rounded / 0x1000;
    }

    /** The tail of expand_heap: the new pages become a free segment, merged with a free
        neighbour. */
    method AppendTail(new_: nat, rounded: nat, ghost amount: nat)
      requires list.Valid() && Coalesced(list.tiles) && list.start % 16 == 0
      requires list.end == new_ && amount > 0 && rounded == RoundPage(amount)
      modifies list
      ensures list.Valid() && list.end == new_ + rounded && Coalesced(list.tiles)
      ensures list.tiles == Expand(old(list.tiles), amount)
    {
      PageRounding(amount);
      ExpandWellFormed(list.tiles, list.start, list.end, amount);
      list.Append(new_, rounded);
      list.CombineBackward(new_, |old(list.tiles)|);
    }

    /** expand_heap on behalf of a malloc that found nothing: one expansion less to go. */
    method ExpandFor(n: U64)
      requires Valid() && n > 0 && n % 16 == 0 && !HasFit(list.tiles, n)
      requires CanGrow(EnlargedBy(list.tiles, n) / 0x1000)
      modifies this`heapEnd, this`endPage, list, paging.Repr()
      ensures Valid() && CanGrow(EnlargedBy(list.tiles, n) / 0x1000)
      ensures Allocated(list.tiles, n) == Allocated(old(list.tiles), n) && Address(list.tiles, n) == Address(old(list.tiles), n)
      ensures Expansions(list.tiles, n) == Expansions(old(list.tiles), n) - 1
      ensures heapEnd + EnlargedBy(list.tiles, n) == old(heapEnd + EnlargedBy(list.tiles, n))
    {
      PageAligned16(heapStart, firstPage);
      AllocatedAfterExpand(list.tiles, heapStart, heapEnd, n);
      EnlargedPages(list.tiles, heapStart, heapEnd, n);
      ExpandHeap(n, EnlargedBy(list.tiles, n) / 0x1000, EnlargedBy(Expand(list.tiles, n), n) / 0x1000);
    }

    /** The rounding at the start of malloc. */
    static method RoundSize(size: U64) returns (rounded: U64)
      ensures rounded == Rounded(size) == Rounded(rounded) && rounded % 16 == 0
    {
      rounded := size;
      if rounded % 0x10 > 0 {
        rounded := SubU64(rounded, rounded % 0x10);
        rounded := AddU64(rounded, 0x10);
      }
    }

    /** The search through the list: the first fit is taken, if there is one. */
    method TakeFit(n: U64) returns (address: nat)
      requires Valid() && n > 0 && n % 16 == 0
      modifies list
      ensures Valid() && (address != NULL <==> HasFit(old(list.tiles), n))
      ensures address == NULL ==> list.tiles == old(list.tiles)
      ensures address != NULL ==>
                address == Address(old(list.tiles), n) && list.tiles == Allocated(old(list.tiles), n) &&
                EnlargedBy(old(list.tiles), n) == 0
    {
      ghost var ts := list.tiles;
      PageAligned16(heapStart, firstPage);
      address := list.TakeFirstFit(heapStart, n);
      FitTaken(ts, heapStart, heapEnd, n, list.tiles, address);
    }

    /** malloc: the block of the first fit, after as many expansions (at most two) as it takes;
        NULL for a size that rounds to 0. */
    method Malloc(size: U64) returns (address: nat)
      requires Valid()
      requires Rounded(size) > 0 ==> CanGrow(EnlargedBy(list.tiles, Rounded(size)) / 0x1000)
      modifies this`heapEnd, this`endPage, list, paging.Repr()
      ensures Valid()
      ensures Rounded(size) == 0 ==> address == NULL && list.tiles == old(list.tiles) && heapEnd == old(heapEnd)
      ensures Answered(old(list.tiles), list.tiles, address, size)
      ensures Rounded(size) > 0 ==>
                address == Address(old(list.tiles), Rounded(size)) &&
                list.tiles == Allocated(old(list.tiles), Rounded(size)) &&
                heapEnd == old(heapEnd + EnlargedBy(list.tiles, Rounded(size)))
      decreases if Rounded(size) == 0 then 0 else Expansions(list.tiles, Rounded(size))
    {
      var rounded := RoundSize(size);
      ghost var ts := list.tiles;
      PageAligned16(heapStart, firstPage);
      AllocatedAnswers(ts, heapStart, heapEnd, size);
      if rounded == 0 {
        return NULL;
      }
      address := TakeFit(rounded);
      if address != NULL {
        return;
      }
      ExpandFor(rounded);
      address := Malloc(rounded);
    }

    /** free */
    method Free(address: nat, ghost k: nat)
      requires Valid() && k < |list.tiles| && address == list.tiles[k].Block()
      modifies list
      ensures Valid() && list.tiles == Release(old(list.tiles), k)
    {
      ReleaseWellFormed(list.tiles, heapStart, heapEnd, k);
      list.Free(address, k);
    }
  }

  /** Across the layers: a frame the allocator could hand out next holds no page table and backs no
      page of the heap. */
  lemma {:induction false} ClearFramesAreForeign(h: Heap, f: nat)
    requires h.Mapped() && f < |h.paging.allocator.Bits()| && !h.paging.allocator.Bits()[f]
    ensures f !in h.paging.tables.Values
    ensures forall p: nat :: h.firstPage <= p < h.endPage ==>
              h.paging.flat[p].Page? && FrameOf(h.paging.flat[p].entry) != f
  {
    ClearHoldsNone(h.paging.allocator.Bits(), h.paging.tables, f);
    forall p: nat | h.firstPage <= p < h.endPage
      ensures h.paging.flat[p].Page? && FrameOf(h.paging.flat[p].entry) != f
    {
      assert OwnedPage(h.paging.Now(), p);
    }
  }

  /** And no two pages of the heap share a frame. */
  lemma {:induction false} HeapPagesShareNothing(h: Heap, p: nat, q: nat)
    requires h.Mapped() && h.firstPage <= p < q < h.endPage
    ensures p in h.paging.flat && q in h.paging.flat && h.paging.flat[p].Page? && h.paging.flat[q].Page?
    ensures FrameOf(h.paging.flat[p].entry) != FrameOf(h.paging.flat[q].entry)
  {
    assert OwnedPage(h.paging.Now(), p);
    assert OwnedPage(h.paging.Now(), q);
    assert !SamePageFrame(h.paging.Now(), p, q);
  }
}
