/** Loading program segments: a run of frames per segment, its pages mapped to them in order, and
    the file's bytes copied in through the mapping. Headers and bytes are read through the same
    page tables that are being changed. */
module ElfLoader {
  import opened Bits
  import opened Wrappers
  import opened ByteSeq
  import opened FrameBits
  import opened PageEntry
  import opened PageTree
  import opened PageCost
  import opened MemoryState
  import opened PageMap
  import opened FrameOwnership
  import opened VirtualMemory
  import opened ElfFile
  import opened FrameSupply

  /** PAGE_PRESENT | PAGE_RW | PAGE_USER */
  const USER_FLAGS := 0x7

  lemma {:induction false} UserFlags()
    ensures BitOr(BitOr(PAGE_PRESENT, PAGE_RW), PAGE_USER) == USER_FLAGS && PdeAddr(USER_FLAGS) == 0
  {
    MaskOfAddress(USER_FLAGS);
  }

  ghost function SupplyOf(s: State): Supply { Supply(s.bits, s.tables.Keys) }

  /** Program header `h` lies at `phdr`. */
  ghost predicate HeaderLies(s: State, phdr: nat, h: ProgramHeader) {
    exists bytes {:trigger Shows(s, phdr, bytes)} :: |bytes| == PHDR_SIZE && Shows(s, phdr, bytes) && HeaderAt(bytes, 0) == h
  }

  /** The program header at `phdr`, read through the page tables as they are. */
  method ReadHeader(pm: PageMap, phdr: U64, ghost h: ProgramHeader) returns (header: ProgramHeader)
    requires pm.Valid() && HeaderLies(pm.Now(), phdr, h)
    ensures header == h
  {
    ghost var bytes :| |bytes| == PHDR_SIZE && Shows(pm.Now(), phdr, bytes) && HeaderAt(bytes, 0) == h;
    var read := ReadBytes(pm, phdr, PHDR_SIZE, bytes);
    header := HeaderAt(read, 0);
  }

  // ---- The mapping loop ----

  /** How far below its frame a page is mapped: not at all for a page-aligned base. */
  function Short(virtualBase: U64): nat { if virtualBase % 0x1000 == 0 then 0 else 1 }

  /** The arithmetic of the mapping loop: for a page-aligned base the j-th page is mapped to the
      j-th frame of the grant, for any other base to the frame before it. */
  lemma {:induction false} AlignedPagesOnly(virtualBase: U64, phys: nat, j: nat)
    requires phys % 0x1000 == 0 && 0x1000 <= phys && virtualBase + j * 0x1000 < TWO64 && phys + j * 0x1000 < TWO64
    ensures var virtualOrig := virtualBase + j * 0x1000;
            var virtualAligned := PageAlign(virtualOrig);
            var physicalAligned := phys + j * 0x1000 - (virtualOrig - virtualAligned);
            0 < physicalAligned && physicalAligned / 0x1000 == phys / 0x1000 + j - Short(virtualBase)
  {
    assert (virtualBase + j * 0x1000) % 0x1000 == virtualBase % 0x1000;
  }

  lemma PagesInOrder(virtualBase: U64, j: nat)
    requires virtualBase / 0x1000 + j < USER_PAGES
    ensures virtualBase + j * 0x1000 < TWO64
    ensures PageAlign(virtualBase + j * 0x1000) == AddressOf(virtualBase / 0x1000 + j)
    ensures PageOf(PageAlign(virtualBase + j * 0x1000)) == virtualBase / 0x1000 + j
  {
  }

  /** The addresses of one round of the mapping loop. */
  method PageTarget(virtualBase: U64, phys: U64, j: nat, ghost p: nat, ghost f: nat) returns (virtualAligned: U64, physicalAligned: U64)
    requires p == virtualBase / 0x1000 + j < USER_PAGES
    requires phys % 0x1000 == 0 && 0 < phys && f == phys / 0x1000 - Short(virtualBase) + j && phys / 0x1000 + j < MAX_FRAMES
    ensures virtualAligned == AddressOf(p) && PageOf(virtualAligned) == p
    ensures 0 < physicalAligned && physicalAligned / 0x1000 == f < MAX_FRAMES
  {
    PagesInOrder(virtualBase, j);
    AlignedPagesOnly(virtualBase, phys, j);
    var virtualOrig := virtualBase + j * 0x1000;
    var physicalOrig := phys + j * 0x1000;
    virtualAligned := PageAlign(virtualOrig);
    physicalAligned := physicalOrig - (virtualOrig - virtualAligned);
  }

  /** From `s` to `s'`, page `page` was mapped to frame `f` for the program. */
  ghost predicate Mapped(s: State, s': State, page: nat, f: nat) {
    && Grown(s, s') && OnlyMaps(s, s', page, 1) && s'.tables.Keys == WithPath(s.tables.Keys, AddressOf(page))
    && s'.bits == TakeLowest(s.bits, Missing(s.tables.Keys, AddressOf(page)))
    && Accessible(s', page) && FrameOf(s'.flat[page].entry) == f
  }

  /** A run of the mapping loop: from each state to the next, one page more was mapped, the pages from
      `page` on to the frames from `base` on. */
  ghost predicate MapRun(run: seq<State>, page: nat, base: nat) {
    |run| > 0 && forall i {:trigger MapStep(run, page, base, i)} :: 0 <= i < |run| - 1 ==> MapStep(run, page, base, i)
  }

  ghost predicate MapStep(run: seq<State>, page: nat, base: nat, i: nat)
    requires i + 1 < |run|
  {
    Mapped(run[i], run[i + 1], page + i, base + i)
  }

  /** What a run of `j` pages comes to: they lead to the frames, every other page is mapped as it was, and
      exactly the tables needed were added. */
  ghost predicate RangeMapped(s: State, s': State, page: nat, j: nat, base: nat) {
    && Backed(s'.flat, page, j, base) && AllAccessible(s', page, page + j)
    && Grown(s, s') && OnlyMaps(s, s', page, j)
    && s'.tables.Keys == s.tables.Keys + RangeNodes(page, j)
  }

  lemma {:induction false} RunMaps(run: seq<State>, s: State, s': State, page: nat, n: nat, base: nat, j: nat)
    requires MapRun(run, page, base) && j < |run| && j <= n && s == run[0] && s' == run[j]
    requires |s.mem| == |s.bits| && TablesTaken(s.bits, s.tables) && HasTables(s.bits, s.tables.Keys, page, n)
    ensures RangeMapped(s, s', page, j, base) && HasTables(s'.bits, s'.tables.Keys, page + j, n - j)
    decreases j
  {
    if j == 0 {
      NothingMapped(s, page, base);
    } else {
      var mid := run[j - 1];
      RunMaps(run, s, mid, page, n, base, j - 1);
      assert MapStep(run, page, base, j - 1);
      RunStep(s, mid, s', page, j - 1, n, base);
    }
  }

  lemma {:induction false} RunStep(s: State, s': State, s'': State, page: nat, j: nat, n: nat, base: nat)
    requires RangeMapped(s, s', page, j, base) && Mapped(s', s'', page + j, base + j) && j < n
    requires HasTables(s'.bits, s'.tables.Keys, page + j, n - j)
    ensures RangeMapped(s, s'', page, j + 1, base) && HasTables(s''.bits, s''.tables.Keys, page + j + 1, n - j - 1)
  {
    OneMoreMapped(s, s', s'', page, j, base);
    TablesFirst(s'.bits, s'.tables.Keys, page + j, n - j, s''.bits, s''.tables.Keys);
  }

  lemma {:induction false} NothingMapped(s: State, page: nat, base: nat)
    requires |s.mem| == |s.bits| && TablesTaken(s.bits, s.tables)
    ensures RangeMapped(s, s, page, 0, base)
  {
    GrownRefl(s);
    assert s.tables.Keys + RangeNodes(page, 0) == s.tables.Keys;
  }

  lemma {:induction false} OneMoreMapped(s: State, s': State, s'': State, page: nat, j: nat, base: nat)
    requires RangeMapped(s, s', page, j, base) && Mapped(s', s'', page + j, base + j)
    ensures RangeMapped(s, s'', page, j + 1, base)
  {
    GrownTrans(s, s', s'');
    AccessibleExtend(s', s'', page, page + j);
    NodesSoFar(s.tables.Keys, page, j);
    OnlyMapsMore(s, s', s'', page, j);
    forall i | 0 <= i < j + 1
      ensures BackedAt(s''.flat, page, base, i)
    {
      assert i < j ==> BackedAt(s'.flat, page, base, i) && SameAt(s', s'', page + i);
    }
  }

  /** The next page is not under a huge page, and there are frames for the tables it lacks. */
  lemma {:induction false} CanMapNext(run: seq<State>, root: nat, page: nat, n: nat, base: nat, s: State, p: nat)
    requires MapRun(run, page, base) && Sound(run[0], root) && HasTables(run[0].bits, run[0].tables.Keys, page, n)
    requires |run| <= n && NoHuge(run[0].flat, page, page + n) && s == run[|run| - 1] && p == page + |run| - 1
    ensures p in s.flat && !s.flat[p].HugePage?
    ensures CountClear(s.bits) >= Missing(s.tables.Keys, AddressOf(p))
  {
    var j := |run| - 1;
    RunMaps(run, run[0], s, page, n, base, j);
    assert SameAt(run[0], s, p);
    TablesFirst(s.bits, s.tables.Keys, p, n - j, s.bits, s.tables.Keys);
  }

  lemma {:induction false} LongerRun(run: seq<State>, s: State, page: nat, base: nat, p: nat, f: nat)
    requires MapRun(run, page, base) && p == page + |run| - 1 && f == base + |run| - 1 && Mapped(run[|run| - 1], s, p, f)
    ensures MapRun(run + [s], page, base)
  {
    var longer := run + [s];
    forall i | 0 <= i < |longer| - 1
      ensures MapStep(longer, page, base, i)
    {
      assert i < |run| - 1 ==> MapStep(run, page, base, i);
    }
  }

  lemma {:induction false} NodesSoFar(nodes: set<Node>, page: nat, j: nat)
    ensures WithPath(nodes + RangeNodes(page, j), AddressOf(page + j)) == nodes + RangeNodes(page, j + 1)
  {
    RangeNodesSplit(page, j, 1);
    RangeNodesOne(page + j);
  }

  /** One page mapped to a given frame. */
  method MapOnePage(pm: PageMap, virtualAligned: U64, physicalAligned: U64, ghost page: nat, ghost f: nat)
    requires pm.Valid() && virtualAligned == AddressOf(page) && PageOf(virtualAligned) == page
    requires 0 < physicalAligned && physicalAligned / 0x1000 == f < MAX_FRAMES && !pm.flat[page].HugePage?
    requires CountClear(pm.allocator.Bits()) >= Missing(pm.tables.Keys, virtualAligned)
    modifies pm.Repr()
    ensures pm.Valid() && Mapped(old(pm.Now()), pm.Now(), page, f)
  {
    UserFlags();
    FreshMapping(physicalAligned, USER_FLAGS, pm.grants[page]);
    pm.MapVirtualMemory(virtualAligned, physicalAligned, USER_FLAGS);
  }

  /** A header elsewhere is still there when one of the pages is mapped. */
  lemma {:induction false} HeaderStays(s: State, s': State, phdr: nat, h: ProgramHeader, page: nat, j: nat, n: nat, p: nat, f: nat)
    requires p == page + j && Mapped(s, s', p, f) && HeaderLies(s, phdr, h) && !Meets(phdr, PHDR_SIZE, page, n) && j < n
    ensures HeaderLies(s', phdr, h)
  {
    var bytes :| |bytes| == PHDR_SIZE && Shows(s, phdr, bytes) && HeaderAt(bytes, 0) == h;
    assert s == s.(bits := s.bits);
    GrownUndisturbed(s, s.bits, s');
    FewerMeet(phdr, |bytes|, page, j, n);
    ShowsKept(s, s', phdr, bytes, p, 1);
  }

  lemma {:induction false} FewerMeet(at: nat, len: nat, page: nat, j: nat, n: nat)
    requires !Meets(at, len, page, n) && j < n
    ensures !Meets(at, len, page + j, 1)
  {
    var p := page + j;
    forall k: nat | k < len
      ensures !(p <= PageAfter(at, k) < p + 1)
    {
    }
  }

  /** The mapping loop of elf_load, which looks at the header in every round. For a page-aligned base
      the pages lead to the frames of the grant in order, for any other base each to the frame before
      its own. */
  method MapSegment(pm: PageMap, phdr: U64, phys: U64, ghost h: ProgramHeader, ghost page: nat, ghost n: nat)
    requires pm.Valid() && HeaderLies(pm.Now(), phdr, h)
    requires page == h.virtualBase / 0x1000 && n == PagesOf(h.sizeMemory) && page + n <= USER_PAGES
    requires !Meets(phdr, PHDR_SIZE, page, n) && NoHuge(pm.flat, page, page + n)
    requires phys % 0x1000 == 0 && phys / 0x1000 + n <= |pm.memory| && (n > 0 ==> 0 < phys)
    requires HasTables(pm.allocator.Bits(), pm.tables.Keys, page, n)
    modifies pm.Repr()
    ensures pm.Valid()
    ensures RangeMapped(old(pm.Now()), pm.Now(), page, n, if n == 0 then 0 else phys / 0x1000 - Short(h.virtualBase))
  {
    ghost var s, base := pm.Now(), if n == 0 then 0 else phys / 0x1000 - Short(h.virtualBase);
    ghost var run := [s];
    var j := 0;
    while true
      invariant pm.Valid() && HeaderLies(pm.Now(), phdr, h)
      invariant MapRun(run, page, base) && |run| == j + 1 <= n + 1 && run[0] == s && run[j] == pm.Now()
      decreases n - j
    {
      var header := ReadHeader(pm, phdr, h);
      if j >= PagesOf(header.sizeMemory) {
        break;
      }
      j, run := MapRound(pm, header.virtualBase, phys, j, run, phdr, h, page, n, base);
    }
    RunMaps(run, s, pm.Now(), page, n, base, n);
  }

  /** One round of the loop. */
  method MapRound(pm: PageMap, virtualBase: U64, phys: U64, j: nat, ghost run: seq<State>, ghost phdr: nat, ghost h: ProgramHeader,
                  ghost page: nat, ghost n: nat, ghost base: nat)
    returns (j': nat, ghost run': seq<State>)
    requires pm.Valid() && HeaderLies(pm.Now(), phdr, h) && !Meets(phdr, PHDR_SIZE, page, n)
    requires MapRun(run, page, base) && |run| == j + 1 <= n && run[j] == pm.Now()
    requires Sound(run[0], pm.pml4) && HasTables(run[0].bits, run[0].tables.Keys, page, n) && NoHuge(run[0].flat, page, page + n)
    requires page == virtualBase / 0x1000 && page + n <= USER_PAGES
    requires phys % 0x1000 == 0 && 0 < phys && phys / 0x1000 + n <= MAX_FRAMES && base == phys / 0x1000 - Short(virtualBase)
    modifies pm.Repr()
    ensures pm.Valid() && HeaderLies(pm.Now(), phdr, h)
    ensures MapRun(run', page, base) && |run'| == j' + 1 <= n + 1 && j' == j + 1 && run'[0] == run[0] && run'[j'] == pm.Now()
  {
    ghost var s, p, f := pm.Now(), page + j, base + j;
    CanMapNext(run, pm.pml4, page, n, base, s, p);
    MapTarget(pm, virtualBase, phys, j, p, f);
    j', run' := j + 1, run + [pm.Now()];
    LongerRun(run, pm.Now(), page, base, p, f);
    HeaderStays(s, pm.Now(), phdr, h, page, j, n, p, f);
  }

  /** The j-th page mapped where the loop would have it. */
  method MapTarget(pm: PageMap, virtualBase: U64, phys: U64, j: nat, ghost p: nat, ghost f: nat)
    requires pm.Valid() && p == virtualBase / 0x1000 + j < USER_PAGES && !pm.flat[p].HugePage?
    requires phys % 0x1000 == 0 && 0 < phys && f == phys / 0x1000 - Short(virtualBase) + j && phys / 0x1000 + j < MAX_FRAMES
    requires CountClear(pm.allocator.Bits()) >= Missing(pm.tables.Keys, AddressOf(p))
    modifies pm.Repr()
    ensures pm.Valid() && Mapped(old(pm.Now()), pm.Now(), p, f)
  {
    var virtualAligned, physicalAligned := PageTarget(virtualBase, phys, j, p, f);
    MapOnePage(pm, virtualAligned, physicalAligned, p, f);
  }

  // ---- The grant of a segment ----

  /** The page leads to the frame it led to. */
  ghost predicate LeadsAsBefore(s: State, s': State, p: nat) {
    p in s.flat && s.flat[p].Page? && p in s'.flat && s'.flat[p].Page? && FrameOf(s'.flat[p].entry) == FrameOf(s.flat[p].entry)
  }

  /** From `s` to `s'`, the pages from `page` on came to lead to the frames from `base` on, which were
      the least run of clear frames there was, and the least clear frames after those became their
      tables. */
  ghost predicate Granted(s: State, s': State, page: nat, n: nat, base: nat) {
    && LeastRun(s.bits, base, n) && base + n <= |s'.mem|
    && Undisturbed(s, s') && OnlyMaps(s, s', page, n)
    && (forall f {:trigger s'.bits[f]} {:trigger f in s'.tables.Values} :: base <= f < base + n ==> s'.bits[f] && f !in s'.tables.Values)
    && AllAccessible(s', page, page + n)
    && SupplyOf(s') == Spent(SupplyOf(s), page, n)
  }

  /** request_pages and the mapping loop. For an unaligned base the first page leads to a frame that
      was taken before. */
  method MapGrant(pm: PageMap, phdr: U64, ghost h: ProgramHeader, ghost page: nat, ghost n: nat)
    returns (ghost base: nat)
    requires pm.Valid() && HeaderLies(pm.Now(), phdr, h)
    requires page == h.virtualBase / 0x1000 && n == PagesOf(h.sizeMemory) && page + n <= USER_PAGES && n < 0x8000_0000
    requires !Meets(phdr, PHDR_SIZE, page, n) && NoHuge(pm.flat, page, page + n)
    requires Suffices(SupplyOf(pm.Now()), page, n)
    modifies pm.Repr()
    ensures pm.Valid() && Granted(old(pm.Now()), pm.Now(), page, n, base)
    ensures n > 0 ==> 0 < base && Backed(pm.flat, page, n, base - Short(h.virtualBase))
    ensures n > 0 && h.virtualBase % 0x1000 != 0 ==> LeadsTo(pm.flat, page, base - 1) && old(pm.allocator.Bits())[base - 1]
  {
    ghost var s := pm.Now();
    var header := ReadHeader(pm, phdr, h);
    var phys := RequestRun(pm, PagesOf(header.sizeMemory), page);
    base := phys / 0x1000;
    ghost var marked := pm.Now();
    HeaderMarked(s, marked.bits, phdr, h);
    MapSegment(pm, phdr, phys, h, page, n);
    GrantIs(s, marked, pm.Now(), pm.pml4, page, n, base, if n == 0 then 0 else base - Short(h.virtualBase));
    if n > 0 {
      FrameBeforeRunTaken(s.bits, base, n);
      assert BackedAt(pm.flat, page, base - Short(h.virtualBase), 0);
    }
  }

  ghost predicate LeadsTo(flat: imap<nat, Translation>, p: nat, f: nat) {
    p in flat && flat[p].Page? && FrameOf(flat[p].entry) == f
  }

  lemma {:induction false} HeaderMarked(s: State, bits: seq<bool>, phdr: nat, h: ProgramHeader)
    requires HeaderLies(s, phdr, h) && |bits| == |s.bits| && forall f :: 0 <= f < |bits| && s.bits[f] ==> bits[f]
    ensures HeaderLies(s.(bits := bits), phdr, h)
  {
    var bytes :| |bytes| == PHDR_SIZE && Shows(s, phdr, bytes) && HeaderAt(bytes, 0) == h;
    forall k | 0 <= k < |bytes|
      ensures ShowsAt(s.(bits := bits), phdr, bytes, k)
    {
      assert ShowsAt(s, phdr, bytes, k);
    }
    assert Shows(s.(bits := bits), phdr, bytes);
  }

  lemma {:induction false} GrantIs(s: State, marked: State, s': State, root: nat, page: nat, n: nat, base: nat, first: nat)
    requires Sound(s, root) && LeastRun(s.bits, base, n) && marked == s.(bits := Marked(s.bits, base, n, true))
    requires RangeMapped(marked, s', page, n, first)
    ensures Granted(s, s', page, n, base)
  {
    GrownUndisturbed(s, marked.bits, s');
    FirstRunIs(s.bits, n, base);
    assert Lacking(s'.tables.Keys, s.tables.Keys) == Lacking(RangeNodes(page, n), s.tables.Keys);
    forall p: nat | !(page <= p < page + n)
      ensures SameAt(s, s', p)
    {
      assert SameAt(marked, s', p);
    }
    forall f | base <= f < base + n
      ensures s'.bits[f] && f !in s'.tables.Values
    {
      ClearHoldsNone(s.bits, s.tables, f);
      NotNewTable(marked, s', f);
    }
  }

  /** request_pages for a segment. */
  method RequestRun(pm: PageMap, n: nat, ghost page: nat) returns (phys: U64)
    requires pm.Valid() && Suffices(SupplyOf(pm.Now()), page, n) && n < 0x8000_0000
    modifies pm.allocator, pm.allocator.pageBitmap, pm.allocator.pageBitmap.buffer
    ensures pm.Valid() && phys % 0x1000 == 0 && (n > 0 ==> 0 < phys) && phys / 0x1000 + n <= |pm.memory|
    ensures LeastRun(old(pm.allocator.Bits()), phys / 0x1000, n)
    ensures pm.Now() == old(pm.Now()).(bits := Marked(old(pm.allocator.Bits()), phys / 0x1000, n, true))
    ensures HasTables(pm.allocator.Bits(), pm.tables.Keys, page, n)
  {
    ghost var bits := pm.allocator.Bits();
    phys := pm.allocator.RequestPages(n);
    TakenStays(bits, pm.tables, pm.allocator.Bits());
    TablesAfterRun(bits, pm.tables.Keys, page, n, phys / 0x1000);
  }

  /** A page that owned its frame still leads to it exactly if it is not one of the segment's. */
  lemma {:induction false} OwnersLoseExactly(s: State, s': State, page: nat, n: nat, base: nat, p: nat)
    requires Granted(s, s', page, n, base) && Backed(s'.flat, page, n, base) && OwnedPage(s, p)
    ensures LeadsAsBefore(s, s', p) <==> !(page <= p < page + n)
  {
    if page <= p < page + n {
      assert BackedAt(s'.flat, page, base, p - page);
    } else {
      assert SameAt(s, s', p);
    }
  }

  /** What lies in memory stays where it lay exactly if the segment takes none of its pages. */
  lemma {:induction false} DataStaysExactly(s: State, s': State, page: nat, n: nat, base: nat, at: nat, data: seq<Byte>)
    requires Granted(s, s', page, n, base) && Backed(s'.flat, page, n, base) && Shows(s, at, data)
    ensures (forall k: nat {:trigger PageAfter(at, k)} :: k < |data| ==> LeadsAsBefore(s, s', PageAfter(at, k))) <==>
            !Meets(at, |data|, page, n)
  {
    forall k: nat | k < |data|
      ensures LeadsAsBefore(s, s', PageAfter(at, k)) <==> !(page <= PageAfter(at, k) < page + n)
    {
      assert ShowsAt(s, at, data, k);
      OwnersLoseExactly(s, s', page, n, base, PageAfter(at, k));
    }
  }

  // ---- A whole segment ----

  /** The segment is in memory: its pages lead, in order, to taken frames that hold no table, and
      those hold its bytes; its last-level entries say present, writable and user. */
  ghost predicate Resident(s: State, segment: Segment, base: nat) {
    && Backed(s.flat, segment.page, segment.pages, base) && AllAccessible(s, segment.page, segment.page + segment.pages)
    && base + segment.pages <= |s.bits| == |s.mem|
    && |segment.content| <= segment.pages * 0x1000 && segment.page + segment.pages <= USER_PAGES
    && (forall f {:trigger s.bits[f]} :: base <= f < base + segment.pages ==> s.bits[f] && f !in s.tables.Values)
    && (forall i :: 0 <= i < |segment.content| ==> PhysByte(s.mem, base, i) == segment.content[i])
  }

  /** What does not disturb taken frames, nor remap its pages, leaves a segment in memory. */
  lemma {:induction false} ResidentKept(s: State, s': State, segment: Segment, base: nat)
    requires Resident(s, segment, base) && Undisturbed(s, s')
    requires SameRange(s, s', segment.page, segment.page + segment.pages)
    ensures Resident(s', segment, base)
  {
    AccessibleKept(s, s', segment.page, segment.page + segment.pages);
    forall j | 0 <= j < segment.pages
      ensures BackedAt(s'.flat, segment.page, base, j)
    {
      assert BackedAt(s.flat, segment.page, base, j) && SameAt(s, s', segment.page + j);
    }
    forall f | base <= f < base + segment.pages
      ensures s'.bits[f] && f !in s'.tables.Values && s'.mem[f] == s.mem[f]
    {
      assert s.bits[f] && FrameUndisturbed(s, s', f);
    }
    forall i | 0 <= i < |segment.content|
      ensures PhysByte(s'.mem, base, i) == segment.content[i]
    {
      assert PhysByte(s.mem, base, i) == segment.content[i];
      assert i / 0x1000 < segment.pages;
    }
  }

  lemma {:induction false} ResidentAt(s: State, segment: Segment, base: nat, i: nat)
    requires Resident(s, segment, base) && i < |segment.content|
    ensures i / 0x1000 < segment.pages && BackedAt(s.flat, segment.page, base, i / 0x1000)
    ensures Accessible(s, segment.page + i / 0x1000)
    ensures base + i / 0x1000 < |s.mem| && BytesOf(s.mem[base + i / 0x1000])[i % 0x1000] == segment.content[i]
  {
    assert PhysByte(s.mem, base, i) == segment.content[i];
  }

  /** A program reading an address of the segment gets the segment's byte: the hardware's walk
      ends at the frame that holds it. */
  lemma {:induction false} ReadBack(s: State, root: nat, segment: Segment, base: nat, i: nat, v: nat)
    requires Sound(s, root) && Resident(s, segment, base) && i < |segment.content| && v == segment.page * 0x1000 + i
    ensures v < TWO64 && ByteAt(s.mem, root, v) == Some(segment.content[i])
    ensures WalkFrom(s.mem, root, 0, v).rights == s.grants[PageOf(v)]
  {
    ResidentAt(s, segment, base, i);
    PageSplit(segment.page, i, segment.pages);
    WalkIs(s, root, v, segment.page + i / 0x1000);
  }

  lemma {:induction false} WalkIs(s: State, root: nat, v: U64, p: nat)
    requires Refines(s.mem, root, s.flat) && PageOf(v) == p
    ensures p in s.flat && WalkFrom(s.mem, root, 0, v) == s.flat[p]
  {
  }

  lemma PagesCover(size: nat)
    ensures size <= PagesOf(size) * 0x1000 < size + 0x1000
  {
  }

  /** The frames from `base` on back the segment and hold none of the file, which lies at `data` with
      the segment's header at `phdr`. */
  ghost predicate Fillable(s: State, data: nat, phdr: nat, file: seq<Byte>, o: nat, h: ProgramHeader, segment: Segment, base: nat) {
    && Shows(s, data, file) && data + |file| <= TWO64
    && o + PHDR_SIZE <= |file| && phdr == data + o && h == HeaderAt(file, o) && LoadOk(file, h) && segment == SegmentOf(file, h)
    && Backed(s.flat, segment.page, segment.pages, base) && DataFrames(|s.mem|, s.tables, base, segment.pages)
    && Spared(s.flat, data, |file|, base, segment.pages)
  }

  /** Frames other than those [base, base + n) are as they were, and so is everything but memory. */
  ghost predicate OnlyWrites(s: State, s': State, base: nat, n: nat) {
    s' == s.(mem := s'.mem) && |s'.mem| == |s.mem| &&
    forall f {:trigger s'.mem[f]} :: 0 <= f < |s.mem| && !(base <= f < base + n) ==> s'.mem[f] == s.mem[f]
  }

  lemma {:induction false} StaysFillable(s: State, s': State, data: nat, phdr: nat, file: seq<Byte>, o: nat, h: ProgramHeader, segment: Segment, base: nat)
    requires Fillable(s, data, phdr, file, o, h, segment, base) && OnlyWrites(s, s', base, segment.pages)
    ensures Fillable(s', data, phdr, file, o, h, segment, base)
  {
    ShowsAround(s, s'.mem, data, file, base, segment.pages);
  }

  /** memset over the whole segment, then memcpy of the file's bytes, as the header says. */
  method Fill(pm: PageMap, data: U64, phdr: U64, ghost file: seq<Byte>, ghost o: nat, ghost h: ProgramHeader,
              ghost segment: Segment, ghost base: nat)
    requires pm.Valid() && Fillable(pm.Now(), data, phdr, file, o, h, segment, base)
    modifies pm`memory
    ensures pm.Valid() && OnlyWrites(old(pm.Now()), pm.Now(), base, segment.pages)
    ensures Fillable(pm.Now(), data, phdr, file, o, h, segment, base)
    ensures forall i: nat :: i < |segment.content| ==> PhysByte(pm.memory, base, i) == segment.content[i]
  {
    ghost var s := pm.Now();
    FillZeros(pm, data, phdr, file, o, h, segment, base);
    StaysFillable(s, pm.Now(), data, phdr, file, o, h, segment, base);
    FillBytes(pm, data, phdr, file, o, h, segment, base);
    StaysFillable(s, pm.Now(), data, phdr, file, o, h, segment, base);
  }

  method FillZeros(pm: PageMap, data: U64, phdr: U64, ghost file: seq<Byte>, ghost o: nat, ghost h: ProgramHeader,
                   ghost segment: Segment, ghost base: nat)
    requires pm.Valid() && Fillable(pm.Now(), data, phdr, file, o, h, segment, base)
    modifies pm`memory
    ensures pm.Valid() && OnlyWrites(old(pm.Now()), pm.Now(), base, segment.pages)
    ensures forall i: nat :: i < |segment.content| ==> PhysByte(pm.memory, base, i) == 0
  {
    var header := ReadInFile(pm, data, phdr, file, o, h);
    PagesCover(h.sizeMemory);
    SetZero(pm, header.virtualBase, header.sizeMemory, segment.page, segment.pages, base);
  }

  method FillBytes(pm: PageMap, data: U64, phdr: U64, ghost file: seq<Byte>, ghost o: nat, ghost h: ProgramHeader,
                   ghost segment: Segment, ghost base: nat)
    requires pm.Valid() && Fillable(pm.Now(), data, phdr, file, o, h, segment, base)
    requires forall i: nat :: i < |segment.content| ==> PhysByte(pm.memory, base, i) == 0
    modifies pm`memory
    ensures pm.Valid() && OnlyWrites(old(pm.Now()), pm.Now(), base, segment.pages)
    ensures forall i: nat :: i < |segment.content| ==> PhysByte(pm.memory, base, i) == segment.content[i]
  {
    var header := ReadInFile(pm, data, phdr, file, o, h);
    PagesCover(h.sizeMemory);
    ghost var source := file[h.dataOffset..h.dataOffset + h.sizeFile];
    ShowsPart(pm.Now(), data, file, h.dataOffset, h.sizeFile);
    SparedPart(pm.flat, data, |file|, h.dataOffset, h.sizeFile, base, segment.pages);
    assert segment.content == source + seq(h.sizeMemory - |source|, _ => 0);
    CopyIn(pm, header.virtualBase, AddU64(data, header.dataOffset), header.sizeFile, source, segment.page, segment.pages, base);
  }

  /** The header `o` bytes into the file. */
  method ReadInFile(pm: PageMap, ghost data: U64, phdr: U64, ghost file: seq<Byte>, ghost o: nat, ghost h: ProgramHeader)
    returns (header: ProgramHeader)
    requires pm.Valid() && Shows(pm.Now(), data, file)
    requires o + PHDR_SIZE <= |file| && phdr == data + o && h == HeaderAt(file, o)
    ensures header == h
  {
    HeaderInFile(pm.Now(), data, file, o);
    header := ReadHeader(pm, phdr, h);
  }

  lemma {:induction false} HeaderInFile(s: State, data: nat, file: seq<Byte>, o: nat)
    requires Shows(s, data, file) && o + PHDR_SIZE <= |file|
    ensures HeaderLies(s, data + o, HeaderAt(file, o))
  {
    ShowsPart(s, data, file, o, PHDR_SIZE);
    HeaderAlone(file, o);
  }

  lemma {:induction false} SparedPart(flat: imap<nat, Translation>, at: nat, len: nat, o: nat, m: nat, base: nat, n: nat)
    requires Spared(flat, at, len, base, n) && o + m <= len
    ensures Spared(flat, at + o, m, base, n)
  {
    var start := at + o;
    forall k: nat | k < m
      ensures PageAfter(start, k) == PageAfter(at, o + k)
    {
    }
  }

  /** One PT_LOAD entry, the header at `phdr`: request_pages, the mapping loop, memset and memcpy. The
      file lies at `data`, off the segment's pages, and stays there. */
  method LoadSegment(pm: PageMap, data: U64, phdr: U64, ghost file: seq<Byte>, ghost o: nat, ghost h: ProgramHeader, ghost segment: Segment)
    returns (ghost base: nat)
    requires pm.Valid() && Shows(pm.Now(), data, file) && data + |file| <= TWO64
    requires o + PHDR_SIZE <= |file| && phdr == data + o && h == HeaderAt(file, o) && LoadOk(file, h) && segment == SegmentOf(file, h)
    requires !Meets(data, |file|, segment.page, segment.pages)
    requires NoHuge(pm.flat, segment.page, segment.page + segment.pages)
    requires Suffices(SupplyOf(pm.Now()), segment.page, segment.pages)
    modifies pm.Repr()
    ensures pm.Valid() && Shows(pm.Now(), data, file)
    ensures Resident(pm.Now(), segment, base)
    ensures Granted(old(pm.Now()), pm.Now(), segment.page, segment.pages, base)
  {
    ghost var s := pm.Now();
    SegmentShape(file, h, segment);
    HeaderInFile(s, data, file, o);
    PartMeets(data, |file|, o, PHDR_SIZE, segment.page, segment.pages);
    base := MapGrant(pm, phdr, h, segment.page, segment.pages);
    ghost var granted := pm.Now();
    GrantFillable(s, granted, data, phdr, file, o, h, segment, base);
    FillGranted(pm, data, phdr, file, o, h, segment, base, s, granted);
  }

  lemma SegmentShape(file: seq<Byte>, h: ProgramHeader, segment: Segment)
    requires LoadOk(file, h) && segment == SegmentOf(file, h)
    ensures segment.page == h.virtualBase / 0x1000 && segment.pages == PagesOf(h.sizeMemory) && Short(h.virtualBase) == 0
    ensures segment.page + segment.pages <= USER_PAGES && segment.pages < 0x8000_0000
  {
  }

  method FillGranted(pm: PageMap, data: U64, phdr: U64, ghost file: seq<Byte>, ghost o: nat, ghost h: ProgramHeader, ghost segment: Segment,
                     ghost base: nat, ghost s: State, ghost granted: State)
    requires pm.Valid() && pm.Now() == granted && Granted(s, granted, segment.page, segment.pages, base)
    requires Fillable(granted, data, phdr, file, o, h, segment, base)
    modifies pm`memory
    ensures pm.Valid() && Shows(pm.Now(), data, file) && Resident(pm.Now(), segment, base)
    ensures Granted(s, pm.Now(), segment.page, segment.pages, base)
  {
    Fill(pm, data, phdr, file, o, h, segment, base);
    SegmentDone(s, granted, pm.Now(), h, file, segment, base);
  }

  /** After the grant the file lies where it lay, and none of it in the frames granted. */
  lemma {:induction false} GrantFillable(s: State, s': State, data: nat, phdr: nat, file: seq<Byte>, o: nat, h: ProgramHeader,
                                         segment: Segment, base: nat)
    requires Granted(s, s', segment.page, segment.pages, base) && (segment.pages > 0 ==> Backed(s'.flat, segment.page, segment.pages, base))
    requires Shows(s, data, file) && data + |file| <= TWO64 && !Meets(data, |file|, segment.page, segment.pages)
    requires o + PHDR_SIZE <= |file| && phdr == data + o && h == HeaderAt(file, o) && LoadOk(file, h) && segment == SegmentOf(file, h)
    ensures Fillable(s', data, phdr, file, o, h, segment, base)
  {
    ShowsKept(s, s', data, file, segment.page, segment.pages);
    ClearRunSpares(s, data, file, base, segment.pages);
    SparedKept(s, s', data, |file|, base, segment.pages, segment.page, segment.pages);
  }

  /** Filling the frames granted disturbs no other, and leaves the segment in memory. */
  lemma {:induction false} SegmentDone(s: State, s': State, s'': State, h: ProgramHeader, file: seq<Byte>, segment: Segment, base: nat)
    requires Granted(s, s', segment.page, segment.pages, base) && (segment.pages > 0 ==> Backed(s'.flat, segment.page, segment.pages, base))
    requires LoadOk(file, h) && segment == SegmentOf(file, h) && OnlyWrites(s', s'', base, segment.pages)
    requires forall i: nat :: i < |segment.content| ==> PhysByte(s''.mem, base, i) == segment.content[i]
    ensures Granted(s, s'', segment.page, segment.pages, base) && Resident(s'', segment, base)
  {
    PagesCover(h.sizeMemory);
    GrantFilled(s, s', s'', segment.page, segment.pages, base);
  }

  lemma {:induction false} GrantFilled(s: State, s': State, s'': State, page: nat, n: nat, base: nat)
    requires Granted(s, s', page, n, base) && OnlyWrites(s', s'', base, n)
    ensures Granted(s, s'', page, n, base)
  {
    forall f | 0 <= f < |s.bits|
      ensures FrameUndisturbed(s, s'', f)
    {
      assert FrameUndisturbed(s, s', f);
    }
    forall p: nat | !(page <= p < page + n)
      ensures SameAt(s, s'', p)
    {
      assert SameAt(s, s', p);
    }
    forall p | page <= p < page + n
      ensures Accessible(s'', p)
    {
      assert Accessible(s', p);
    }
  }

  // ---- Segments that do not come out as the file describes them ----

  /** A one-page segment based at 0x1800, with frame 5 the first clear one: its page leads to frame 4,
      which was taken by someone else. */
  method UnalignedBaseMissesFrame(pm: PageMap, phdr: U64, ghost h: ProgramHeader)
    requires pm.Valid() && HeaderLies(pm.Now(), phdr, h) && h.virtualBase == 0x1800 && PagesOf(h.sizeMemory) == 1
    requires !Meets(phdr, PHDR_SIZE, 1, 1) && NoHuge(pm.flat, 1, 2)
    requires Suffices(SupplyOf(pm.Now()), 1, 1) && LeastRun(pm.allocator.Bits(), 5, 1)
    modifies pm.Repr()
    ensures LeadsTo(pm.flat, 1, 4) && old(pm.allocator.Bits())[4]
  {
    FirstRunIs(pm.allocator.Bits(), 1, 5);
    ghost var s := pm.Now();
    var base := MapGrant(pm, phdr, h, 1, 1);
    FirstRunIs(s.bits, 1, base);
  }

  /** Every byte of the page is 0. */
  ghost predicate ShowsZeros(s: State, page: nat) {
    forall i: nat {:trigger ShowsZero(s, page, i)} :: i < 0x1000 ==> ShowsZero(s, page, i)
  }

  ghost predicate ShowsZero(s: State, page: nat, i: nat) { ShowsByte(s, page * 0x1000 + i, 0) }

  /** Frame `f` holds zeros. */
  ghost predicate ZeroFrame(mem: seq<Frame>, f: nat) {
    f < |mem| && forall i :: 0 <= i < 0x1000 ==> BytesOf(mem[f])[i] == 0
  }

  /** A page mapped to a frame of zeros reads as zeros. */
  lemma {:induction false} MappedToZeros(s: State, s': State, page: nat, f: nat)
    requires Mapped(s, s', page, f) && page < USER_PAGES && 0 < f < |s.bits| && s.bits[f] && f !in s.tables.Values && ZeroFrame(s.mem, f)
    ensures ShowsZeros(s', page)
  {
    NotNewTable(s, s', f);
    forall i: nat | i < 0x1000
      ensures ShowsZero(s', page, i)
    {
      PageSplit(page, i, 1);
    }
  }

  lemma {:induction false} ZeroHeader(s: State, page: nat, phdr: nat)
    requires ShowsZeros(s, page) && phdr / 0x1000 == page && phdr % 0x1000 + PHDR_SIZE <= 0x1000
    ensures HeaderLies(s, phdr, ProgramHeader(0, 0, 0, 0, 0))
  {
    var zeros := seq(PHDR_SIZE, _ => 0);
    forall k | 0 <= k < PHDR_SIZE
      ensures ShowsAt(s, phdr, zeros, k)
    {
      assert ShowsZero(s, page, phdr % 0x1000 + k);
    }
    assert Shows(s, phdr, zeros);
    assert HeaderAt(zeros, 0) == ProgramHeader(0, 0, 0, 0, 0);
  }

  /** A one-page segment over the page its own header lies in, and a first clear frame that holds
      zeros: once the page is mapped, the header reads as zeros, so the mapping loop ends, memset and
      memcpy are asked for nothing, and the segment is all zeros whatever the file says. */
  method SegmentOverItsHeader(pm: PageMap, phdr: U64, ghost h: ProgramHeader, ghost page: nat, ghost f: nat)
    returns (header: ProgramHeader)
    requires pm.Valid() && HeaderLies(pm.Now(), phdr, h) && phdr / 0x1000 == page < USER_PAGES && phdr % 0x1000 + PHDR_SIZE <= 0x1000
    requires h.virtualBase % 0x1000 == 0 && h.virtualBase / 0x1000 == page && PagesOf(h.sizeMemory) == 1
    requires NoHuge(pm.flat, page, page + 1) && Suffices(SupplyOf(pm.Now()), page, 1)
    requires LeastRun(pm.allocator.Bits(), f, 1) && ZeroFrame(pm.memory, f)
    modifies pm.Repr()
    ensures pm.Valid() && header == ProgramHeader(0, 0, 0, 0, 0) && PagesOf(header.sizeMemory) == 0
    ensures ShowsZeros(pm.Now(), page)
  {
    ghost var bits, tables := pm.allocator.Bits(), pm.tables;
    header := ReadHeader(pm, phdr, h);
    var phys := RequestRun(pm, PagesOf(header.sizeMemory), page);
    FirstRunIs(bits, 1, f);
    FirstRunIs(bits, 1, phys / 0x1000);
    ClearHoldsNone(bits, tables, f);
    MapOver(pm, header.virtualBase, phys, page, f);
    ZeroHeader(pm.Now(), page, phdr);
    header := ReadHeader(pm, phdr, ProgramHeader(0, 0, 0, 0, 0));
  }

  method MapOver(pm: PageMap, virtualBase: U64, phys: U64, ghost page: nat, ghost f: nat)
    requires pm.Valid() && virtualBase % 0x1000 == 0 && virtualBase / 0x1000 == page < USER_PAGES
    requires phys % 0x1000 == 0 && phys / 0x1000 == f && 0 < f < |pm.memory| && ZeroFrame(pm.memory, f)
    requires pm.allocator.Bits()[f] && f !in pm.tables.Values
    requires NoHuge(pm.flat, page, page + 1) && HasTables(pm.allocator.Bits(), pm.tables.Keys, page, 1)
    modifies pm.Repr()
    ensures pm.Valid() && ShowsZeros(pm.Now(), page)
  {
    ghost var s := pm.Now();
    CanMapNext([s], pm.pml4, page, 1, f, s, page);
    MapTarget(pm, virtualBase, phys, 0, page, f);
    MappedToZeros(s, pm.Now(), page, f);
  }

  /** Such a file: it lies at the start of the heap, and has a segment of 16 bytes for that page. */
  method FileAtHeapStart(pm: PageMap, phdr: U64, ghost h: ProgramHeader, ghost f: nat) returns (header: ProgramHeader)
    requires pm.Valid() && HeaderLies(pm.Now(), phdr, h) && phdr == 0x1000_0000_0060
    requires h.virtualBase == 0x1000_0000_0000 && h.sizeFile == 16 && h.sizeMemory == 0x1000
    requires NoHuge(pm.flat, 0x1_0000_0000, 0x1_0000_0001) && Suffices(SupplyOf(pm.Now()), 0x1_0000_0000, 1)
    requires LeastRun(pm.allocator.Bits(), f, 1) && ZeroFrame(pm.memory, f)
    modifies pm.Repr()
    ensures pm.Valid() && header.sizeMemory == 0 && ShowsZeros(pm.Now(), 0x1_0000_0000)
  {
    header := SegmentOverItsHeader(pm, phdr, h, 0x1_0000_0000, f);
  }
}
