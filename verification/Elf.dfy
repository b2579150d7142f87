/** elf_load: the file's program headers, every PT_LOAD segment in turn, and the user stack. The file
    lies in memory, and every part of it is read through the page tables that loading changes. */
module Elf {
  import opened Bits
  import opened Wrappers
  import opened ByteSeq
  import opened Layout
  import opened FrameBits
  import opened PageEntry
  import opened PageTree
  import opened PageCost
  import opened MemoryState
  import opened PageMap
  import opened FrameOwnership
  import opened VirtualMemory
  import opened ElfFile
  import opened FrameSupply
  import opened ElfLoader

  // ---- What has been loaded ----

  /** Every segment is in memory, the k-th from frame bases[k] on. */
  ghost predicate AllResident(s: State, segments: seq<Segment>, bases: seq<nat>) {
    |bases| == |segments| &&
    forall k {:trigger bases[k]} :: 0 <= k < |segments| ==> Resident(s, segments[k], bases[k])
  }

  /** Pages of no segment are mapped as before. */
  ghost predicate OnlyMapped(s: State, s': State, segments: seq<Segment>) {
    forall p: nat {:trigger SameAt(s, s', p)} :: Outside(segments, p) ==> SameAt(s, s', p)
  }

  /** The frames from bases[k] on, one for each page of the k-th segment, were clear. */
  ghost predicate WereClear(bits: seq<bool>, segments: seq<Segment>, bases: seq<nat>) {
    |bases| == |segments| && forall k {:trigger bases[k]} :: 0 <= k < |segments| ==> ClearRun(bits, bases[k], segments[k].pages)
  }

  /** From `s` to `s'`, these segments were loaded and nothing else happened. */
  ghost predicate LoadedSoFar(s: State, s': State, segments: seq<Segment>, bases: seq<nat>) {
    && AllResident(s', segments, bases) && OnlyMapped(s, s', segments) && WereClear(s.bits, segments, bases)
    && Undisturbed(s, s') && SupplyOf(s') == SpentAll(SupplyOf(s), segments)
  }

  lemma {:induction false} NothingLoaded(s: State)
    requires |s.mem| == |s.bits|
    ensures LoadedSoFar(s, s, [], [])
  {
    UndisturbedRefl(s);
  }

  lemma {:induction false} AllResidentKept(s: State, s': State, segments: seq<Segment>, bases: seq<nat>)
    requires AllResident(s, segments, bases) && Undisturbed(s, s')
    requires forall p: nat {:trigger SameAt(s, s', p)} :: !Outside(segments, p) ==> SameAt(s, s', p)
    ensures AllResident(s', segments, bases)
  {
    forall k | 0 <= k < |segments|
      ensures Resident(s', segments[k], bases[k])
    {
      var segment := segments[k];
      forall p: nat | segment.page <= p < segment.page + segment.pages
        ensures SameAt(s, s', p)
      {
        assert In(segments[k], p) && !Outside(segments, p);
      }
      ResidentKept(s, s', segment, bases[k]);
    }
  }

  /** One segment more, next to those already loaded. */
  lemma {:induction false} LoadedMore(s: State, s': State, s'': State, segments: seq<Segment>, bases: seq<nat>, segment: Segment, base: nat)
    requires LoadedSoFar(s, s', segments, bases) && PageDisjoint(segments + [segment])
    requires Granted(s', s'', segment.page, segment.pages, base) && Resident(s'', segment, base)
    ensures LoadedSoFar(s, s'', segments + [segment], bases + [base])
  {
    MoreResident(s', s'', segments, bases, segment, base);
    MoreMapped(s, s', s'', segments, segment);
    ClearBefore(s, s', base, segment.pages);
    MoreClear(s.bits, segments, bases, segment, base);
    UndisturbedTrans(s, s', s'');
    SpentOneMore(SupplyOf(s), segments, segment);
  }

  lemma {:induction false} MoreResident(s: State, s': State, segments: seq<Segment>, bases: seq<nat>, segment: Segment, base: nat)
    requires AllResident(s, segments, bases) && PageDisjoint(segments + [segment])
    requires Undisturbed(s, s') && OnlyMaps(s, s', segment.page, segment.pages) && Resident(s', segment, base)
    ensures AllResident(s', segments + [segment], bases + [base])
  {
    forall p: nat | !Outside(segments, p)
      ensures SameAt(s, s', p)
    {
      if In(segment, p) {
        ApartOutside(segments, segment, p);
      }
    }
    AllResidentKept(s, s', segments, bases);
    var all, at := segments + [segment], bases + [base];
    forall k | 0 <= k < |all|
      ensures Resident(s', all[k], at[k])
    {
      assert k < |segments| ==> all[k] == segments[k] && at[k] == bases[k];
    }
  }

  lemma {:induction false} MoreMapped(s: State, s': State, s'': State, segments: seq<Segment>, segment: Segment)
    requires OnlyMapped(s, s', segments) && OnlyMaps(s', s'', segment.page, segment.pages)
    ensures OnlyMapped(s, s'', segments + [segment])
  {
    forall p: nat | Outside(segments + [segment], p)
      ensures SameAt(s, s'', p)
    {
      OutsideMore(segments, segment, p);
      assert SameAt(s, s', p) && SameAt(s', s'', p);
    }
  }

  lemma {:induction false} MoreClear(bits: seq<bool>, segments: seq<Segment>, bases: seq<nat>, segment: Segment, base: nat)
    requires WereClear(bits, segments, bases) && ClearRun(bits, base, segment.pages)
    ensures WereClear(bits, segments + [segment], bases + [base])
  {
    var all, at := segments + [segment], bases + [base];
    forall k | 0 <= k < |all|
      ensures ClearRun(bits, at[k], all[k].pages)
    {
      assert k < |segments| ==> all[k] == segments[k] && at[k] == bases[k];
    }
  }

  /** Frames that are clear were clear before. */
  lemma {:induction false} ClearBefore(s: State, s': State, base: nat, n: nat)
    requires Undisturbed(s, s') && ClearRun(s'.bits, base, n)
    ensures ClearRun(s.bits, base, n)
  {
    forall f | base <= f < base + n
      ensures !s.bits[f]
    {
      assert FrameUndisturbed(s, s', f);
    }
  }

  // ---- What can be loaded ----

  /** A segment that can be put in place: it stays below the stack, no huge page is in the way, and
      the file, `len` bytes from `data` on, does not lie on its pages. */
  ghost predicate Placeable(s: State, data: nat, len: nat, segment: Segment) {
    && segment.page + segment.pages <= STACK_PAGE
    && NoHuge(s.flat, segment.page, segment.page + segment.pages)
    && !Meets(data, len, segment.page, segment.pages)
  }

  /** So can all of these, and there are frames for each in turn. */
  ghost predicate CanLoad(s: State, data: nat, len: nat, segments: seq<Segment>) {
    && PageDisjoint(segments)
    && (forall k {:trigger segments[k]} :: 0 <= k < |segments| ==> Placeable(s, data, len, segments[k]))
    && SufficesFor(SupplyOf(s), segments)
  }

  /** The file's segments can be loaded, and there are frames for the stack after that; the file lies
      on none of their pages. */
  ghost predicate Loadable(s: State, data: nat, file: seq<Byte>) {
    && EntriesOk(file) && CanLoad(s, data, |file|, AllSegments(file))
    && NoHuge(s.flat, STACK_PAGE, STACK_PAGE + STACK_PAGES) && !Meets(data, |file|, STACK_PAGE, STACK_PAGES)
    && Affords(SpentAll(SupplyOf(s), AllSegments(file)).bits, SpentAll(SupplyOf(s), AllSegments(file)).nodes, STACK_PAGE, STACK_PAGES)
  }

  /** One clear run with four frames for each page of the segments and of the stack is enough. */
  lemma {:induction false} OneRunIsEnough(s: State, data: nat, file: seq<Byte>, a: nat, e: nat)
    requires EntriesOk(file) && PageDisjoint(AllSegments(file))
    requires forall k {:trigger AllSegments(file)[k]} :: 0 <= k < |AllSegments(file)| ==> Placeable(s, data, |file|, AllSegments(file)[k])
    requires NoHuge(s.flat, STACK_PAGE, STACK_PAGE + STACK_PAGES) && !Meets(data, |file|, STACK_PAGE, STACK_PAGES)
    requires a + 4 * (TotalPages(AllSegments(file)) + STACK_PAGES) <= e <= |s.bits| && ClearRun(s.bits, a, e - a)
    ensures Loadable(s, data, file)
  {
    RunSuffices(SupplyOf(s), AllSegments(file), a, e);
  }

  /** The next segment fits next to what is loaded. */
  lemma {:induction false} NextFits(s: State, s': State, data: nat, len: nat, all: seq<Segment>, bases: seq<nat>, k: nat)
    requires CanLoad(s, data, len, all) && k < |all| && LoadedSoFar(s, s', all[..k], bases)
    ensures PageDisjoint(all[..k] + [all[k]])
    ensures NoHuge(s'.flat, all[k].page, all[k].page + all[k].pages) && !Meets(data, len, all[k].page, all[k].pages)
    ensures Suffices(SupplyOf(s'), all[k].page, all[k].pages)
  {
    assert all[..k] + [all[k]] == all[..k + 1];
    DisjointPrefix(all, k + 1);
    assert SufficesAt(SupplyOf(s), all, k);
    assert Placeable(s, data, len, all[k]);
    forall p: nat | all[k].page <= p < all[k].page + all[k].pages
      ensures p in s'.flat && !s'.flat[p].HugePage?
    {
      ApartOutside(all[..k], all[k], p);
      assert SameAt(s, s', p);
    }
  }

  // ---- The loop over the program headers ----

  /** A 16-bit and a 64-bit field of the file. */
  method ReadField16(pm: PageMap, data: U64, at: nat, ghost file: seq<Byte>) returns (n: nat)
    requires pm.Valid() && Shows(pm.Now(), data, file) && data + |file| <= TWO64 && at + 2 <= |file|
    ensures n == Le16(file, at)
  {
    ShowsPart(pm.Now(), data, file, at, 2);
    var bytes := ReadBytes(pm, data + at, 2, file[at..at + 2]);
    n := Le16(bytes, 0);
  }

  method ReadField64(pm: PageMap, data: U64, at: nat, ghost file: seq<Byte>) returns (n: U64)
    requires pm.Valid() && Shows(pm.Now(), data, file) && data + |file| <= TWO64 && at + 8 <= |file|
    ensures n == Le64(file, at)
  {
    ShowsPart(pm.Now(), data, file, at, 8);
    var bytes := ReadBytes(pm, data + at, 8, file[at..at + 8]);
    n := Le64(bytes, 0);
  }

  /** The address of the i-th program header. */
  method HeaderAddress(pm: PageMap, data: U64, i: nat, ghost file: seq<Byte>) returns (phdr: U64)
    requires pm.Valid() && Shows(pm.Now(), data, file) && data + |file| <= TWO64
    requires |file| >= HEADER_SIZE && HeaderOffset(file, i) + PHDR_SIZE <= |file|
    ensures phdr == data + HeaderOffset(file, i)
  {
    HeaderOffsetIs(file, i);
    var entrySize := ReadField16(pm, data, 54, file);
    var offset := i * entrySize;
    var table := ReadField64(pm, data, 32, file);
    phdr := data + table + offset;
  }

  /** Where that loop stands: the segments of the first `i` entries are loaded, and the file is still in
      place. */
  ghost predicate InEntries(s: State, s': State, data: nat, file: seq<Byte>, entries: seq<Option<Segment>>, i: nat, bases: seq<nat>) {
    Shows(s', data, file) && i <= |entries| && LoadedSoFar(s, s', Segments(entries, i), bases)
  }

  /** One round of the loop over the program headers: entries other than PT_LOAD are passed over. */
  method LoadEntry(pm: PageMap, data: U64, i: nat, ghost file: seq<Byte>, ghost entries: seq<Option<Segment>>, ghost s: State, ghost bases: seq<nat>)
    returns (i': nat, ghost bases': seq<nat>)
    requires pm.Valid() && InEntries(s, pm.Now(), data, file, entries, i, bases) && data + |file| <= TWO64
    requires DescribesAll(file, entries) && i < |entries| && CanLoad(s, data, |file|, Segments(entries, |entries|))
    modifies pm.Repr()
    ensures pm.Valid() && i' == i + 1 && InEntries(s, pm.Now(), data, file, entries, i', bases')
  {
    i' := i + 1;
    assert Describes(file, entries, i);
    ghost var o := HeaderOffset(file, i);
    ghost var h := HeaderAt(file, o);
    var phdr := HeaderAddress(pm, data, i, file);
    var header := ReadInFile(pm, data, phdr, file, o, h);
    if header.kind != PT_LOAD {
      NoMore(entries, i);
      return i', bases;
    }
    SegmentInAll(entries, i, SegmentOf(file, h));
    bases' := LoadNext(pm, data, phdr, file, o, h, Segments(entries, |entries|), |Segments(entries, i)|, s, bases);
  }

  /** A PT_LOAD entry, the k-th of the segments. */
  method LoadNext(pm: PageMap, data: U64, phdr: U64, ghost file: seq<Byte>, ghost o: nat, ghost h: ProgramHeader,
                  ghost all: seq<Segment>, ghost k: nat, ghost s: State, ghost bases: seq<nat>)
    returns (ghost bases': seq<nat>)
    requires pm.Valid() && Shows(pm.Now(), data, file) && data + |file| <= TWO64
    requires o + PHDR_SIZE <= |file| && phdr == data + o && h == HeaderAt(file, o) && LoadOk(file, h)
    requires CanLoad(s, data, |file|, all) && k < |all| && all[k] == SegmentOf(file, h) && LoadedSoFar(s, pm.Now(), all[..k], bases)
    modifies pm.Repr()
    ensures pm.Valid() && Shows(pm.Now(), data, file)
    ensures LoadedSoFar(s, pm.Now(), all[..k] + [all[k]], bases')
  {
    ghost var s' := pm.Now();
    NextFits(s, s', data, |file|, all, bases, k);
    ghost var base := LoadSegment(pm, data, phdr, file, o, h, all[k]);
    LoadedMore(s, s', pm.Now(), all[..k], bases, all[k], base);
    bases' := bases + [base];
  }

  /** The loop over the program headers. */
  method LoadSegments(pm: PageMap, data: U64, ghost file: seq<Byte>, ghost entries: seq<Option<Segment>>) returns (ghost bases: seq<nat>)
    requires pm.Valid() && Shows(pm.Now(), data, file) && data + |file| <= TWO64
    requires DescribesAll(file, entries) && CanLoad(pm.Now(), data, |file|, Segments(entries, |entries|))
    modifies pm.Repr()
    ensures pm.Valid() && Shows(pm.Now(), data, file)
    ensures LoadedSoFar(old(pm.Now()), pm.Now(), Segments(entries, |entries|), bases)
  {
    ghost var s := pm.Now();
    NothingLoaded(pm.Now());
    bases := [];
    var i := 0;
    var count := ReadField16(pm, data, 56, file);
    while i < count
      invariant pm.Valid() && InEntries(s, pm.Now(), data, file, entries, i, bases) && count == |entries|
    {
      i, bases := LoadEntry(pm, data, i, file, entries, s, bases);
      count := ReadField16(pm, data, 56, file);
    }
    assert i == |entries|;
  }

  // ---- The user stack ----

  const USER_STACK_TOP := 0x0000_7fff_ffff_e000
  const USER_STACK_SIZE := 0x4000

  /** From `s` to `s'`, page `p` came to lead to a frame that was clear. */
  ghost predicate FreshPage(s: State, s': State, p: nat) {
    p in s'.flat && s'.flat[p].Page? && FrameOf(s'.flat[p].entry) < |s.bits| && !s.bits[FrameOf(s'.flat[p].entry)]
  }

  /** The stack below `page` is mapped, and there are frames for the rest. */
  ghost predicate StackSoFar(s: State, s': State, page: nat) {
    && STACK_PAGE <= page <= STACK_PAGE + STACK_PAGES
    && OwnsRange(s', STACK_PAGE, page) && AllAccessible(s', STACK_PAGE, page)
    && Undisturbed(s, s') && OnlyMaps(s, s', STACK_PAGE, page - STACK_PAGE)
    && (forall p {:trigger FreshPage(s, s', p)} :: STACK_PAGE <= p < page ==> FreshPage(s, s', p))
    && Affords(s'.bits, s'.tables.Keys, page, STACK_PAGE + STACK_PAGES - page)
  }

  lemma {:induction false} StackGrows(s: State, s': State, s'': State, page: nat, f: nat, v: U64)
    requires StackSoFar(s, s', page) && page < STACK_PAGE + STACK_PAGES && v == AddressOf(page)
    requires Joined(s', s'', page, f, USER_FLAGS) && UsedFrames(s'.bits, s'.tables.Keys, v, s''.bits, s''.tables.Keys)
    ensures StackSoFar(s, s'', page + 1)
  {
    JoinedKeeps(s', s'', page, f, USER_FLAGS);
    OwnsExtend(s', s'', STACK_PAGE, page, f, USER_FLAGS);
    FreshMapping(f * 0x1000, USER_FLAGS, s'.grants[page]);
    AccessibleExtend(s', s'', STACK_PAGE, page);
    UndisturbedTrans(s, s', s'');
    OnlyMapsMore(s, s', s'', STACK_PAGE, page - STACK_PAGE);
    AffordsRest(s'.bits, s'.tables.Keys, page, STACK_PAGE + STACK_PAGES - page - 1, v, s''.bits, s''.tables.Keys);
    assert FrameUndisturbed(s, s', f);
    forall p | STACK_PAGE <= p < page + 1
      ensures FreshPage(s, s'', p)
    {
      assert p < page ==> FreshPage(s, s', p) && SameAt(s', s'', p);
    }
  }

  lemma StackAddress(address: U64, page: nat)
    requires STACK_PAGE <= page < STACK_PAGE + STACK_PAGES && address == page * 0x1000
    ensures address == AddressOf(page) && PageOf(address) == page
  {
  }

  /** One stack page. */
  method MapStackPage(pm: PageMap, address: U64, ghost page: nat, ghost s: State)
    requires pm.Valid() && StackSoFar(s, pm.Now(), page) && page < STACK_PAGE + STACK_PAGES && address == page * 0x1000
    requires NoHuge(s.flat, STACK_PAGE, STACK_PAGE + STACK_PAGES)
    modifies pm.Repr()
    ensures pm.Valid() && StackSoFar(s, pm.Now(), page + 1)
  {
    UserFlags();
    StackAddress(address, page);
    ghost var s' := pm.Now();
    assert SameAt(s, s', page);
    AffordsFirst(s'.bits, s'.tables.Keys, page, STACK_PAGE + STACK_PAGES - page - 1, address);
    var frame := pm.MapFresh(address, USER_FLAGS);
    StackGrows(s, s', pm.Now(), page, frame, address);
  }

  /** The user stack. */
  method MapStack(pm: PageMap)
    requires pm.Valid() && NoHuge(pm.flat, STACK_PAGE, STACK_PAGE + STACK_PAGES)
    requires Affords(pm.allocator.Bits(), pm.tables.Keys, STACK_PAGE, STACK_PAGES)
    modifies pm.Repr()
    ensures pm.Valid() && StackSoFar(old(pm.Now()), pm.Now(), STACK_PAGE + STACK_PAGES)
  {
    var i := 0;
    ghost var page := STACK_PAGE;
    UndisturbedRefl(pm.Now());
    while i < USER_STACK_SIZE + 1
      invariant i == (page - STACK_PAGE) * 0x1000 && pm.Valid() && StackSoFar(old(pm.Now()), pm.Now(), page)
      decreases USER_STACK_SIZE + 1 - i
    {
      MapStackPage(pm, USER_STACK_TOP - USER_STACK_SIZE + i, page, old(pm.Now()));
      i := i + 0x1000;
      page := page + 1;
    }
  }

  // ---- The whole load ----

  /** From `s` to `s'`, the file was loaded: its segments are in memory, the stack pages own fresh
      frames, every other page is mapped as it was, taken frames that held no table are as they were,
      and of the pages that owned their frames exactly those of no segment and not of the stack still
      lead to them. */
  ghost predicate Loaded(s: State, s': State, segments: seq<Segment>, bases: seq<nat>) {
    && AllResident(s', segments, bases)
    && OwnsRange(s', STACK_PAGE, STACK_PAGE + STACK_PAGES) && AllAccessible(s', STACK_PAGE, STACK_PAGE + STACK_PAGES)
    && (forall p: nat {:trigger SameAt(s, s', p)} :: Untaken(segments, p) ==> SameAt(s, s', p))
    && Undisturbed(s, s')
    && (forall p: nat {:trigger LeadsAsBefore(s, s', p)} :: OwnedPage(s, p) ==> (LeadsAsBefore(s, s', p) <==> Untaken(segments, p)))
  }

  /** The program asks for none of the pages. */
  ghost predicate Untaken(segments: seq<Segment>, p: nat) { Outside(segments, p) && !InStack(p) }

  ghost predicate UntakenRange(segments: seq<Segment>, lo: nat, hi: nat) {
    forall p: nat {:trigger Untaken(segments, p)} :: lo <= p < hi ==> Untaken(segments, p)
  }

  lemma {:induction false} LoadDone(s: State, mid: State, s': State, segments: seq<Segment>, bases: seq<nat>)
    requires LoadedSoFar(s, mid, segments, bases) && StackSoFar(mid, s', STACK_PAGE + STACK_PAGES)
    requires forall k {:trigger segments[k]} :: 0 <= k < |segments| ==> segments[k].page + segments[k].pages <= STACK_PAGE
    ensures Loaded(s, s', segments, bases)
  {
    forall p: nat | !Outside(segments, p)
      ensures SameAt(mid, s', p)
    {
      assert !InStack(p);
    }
    AllResidentKept(mid, s', segments, bases);
    UndisturbedTrans(s, mid, s');
    forall p: nat | Untaken(segments, p)
      ensures SameAt(s, s', p)
    {
      assert SameAt(s, mid, p) && SameAt(mid, s', p);
    }
    forall p: nat | OwnedPage(s, p)
      ensures LeadsAsBefore(s, s', p) <==> Untaken(segments, p)
    {
      if InStack(p) {
        assert FreshPage(mid, s', p) && FrameUndisturbed(s, mid, FrameOf(s.flat[p].entry));
      } else if Outside(segments, p) {
        assert SameAt(s, s', p);
      } else {
        SegmentFrames(s, s', segments, bases, p);
      }
    }
  }

  /** A page of a segment leads to a frame that was clear before loading. */
  lemma {:induction false} SegmentFrames(s: State, s': State, segments: seq<Segment>, bases: seq<nat>, p: nat)
    requires AllResident(s', segments, bases) && WereClear(s.bits, segments, bases) && !Outside(segments, p)
    ensures FreshPage(s, s', p)
  {
    var k :| 0 <= k < |segments| && In(segments[k], p);
    assert Resident(s', segments[k], bases[k]) && ClearRun(s.bits, bases[k], segments[k].pages);
    assert BackedAt(s'.flat, segments[k].page, bases[k], p - segments[k].page);
  }

  /** elf_load of the file at `data`: anything without the ELF magic is refused untouched; otherwise the
      file is loaded, it still lies where it lay, and the entry point is returned. */
  method ElfLoad(pm: PageMap, data: U64, ghost file: seq<Byte>) returns (entry: Option<U64>, ghost bases: seq<nat>)
    requires pm.Valid() && Shows(pm.Now(), data, file) && data + |file| <= TWO64 && |file| >= HEADER_SIZE
    requires HasMagic(file) ==> Loadable(pm.Now(), data, file)
    modifies pm.Repr()
    ensures pm.Valid() && Shows(pm.Now(), data, file)
    ensures !HasMagic(file) ==> entry == None && pm.Now() == old(pm.Now())
    ensures HasMagic(file) ==> entry.Some? && Little(entry.value, 8) == file[24..32]
    ensures HasMagic(file) ==> Loaded(old(pm.Now()), pm.Now(), AllSegments(file), bases)
  {
    bases := [];
    ShowsPart(pm.Now(), data, file, 0, 4);
    var magic := ReadBytes(pm, data, 4, file[0..4]);
    assert file[0..4] == file[..4];
    if magic != [0x7f, 0x45, 0x4c, 0x46] {
      return None, bases;
    }
    bases := LoadAll(pm, data, file);
    var start := ReadField64(pm, data, 24, file);
    Le64Writes(file, 24);
    entry := Some(start);
  }

  /** The segments, then the stack. */
  method LoadAll(pm: PageMap, data: U64, ghost file: seq<Byte>) returns (ghost bases: seq<nat>)
    requires pm.Valid() && Shows(pm.Now(), data, file) && data + |file| <= TWO64 && Loadable(pm.Now(), data, file)
    modifies pm.Repr()
    ensures pm.Valid() && Shows(pm.Now(), data, file)
    ensures Loaded(old(pm.Now()), pm.Now(), AllSegments(file), bases)
  {
    ghost var s, all := pm.Now(), AllSegments(file);
    bases := LoadSegments(pm, data, file, Entries(file));
    ghost var mid := pm.Now();
    StackUntouched(s, mid, data, |file|, all, bases);
    MapStack(pm);
    ShowsKept(mid, pm.Now(), data, file, STACK_PAGE, STACK_PAGES);
    LoadDone(s, mid, pm.Now(), all, bases);
  }

  lemma {:induction false} StackUntouched(s: State, s': State, data: nat, len: nat, segments: seq<Segment>, bases: seq<nat>)
    requires LoadedSoFar(s, s', segments, bases) && CanLoad(s, data, len, segments)
    requires NoHuge(s.flat, STACK_PAGE, STACK_PAGE + STACK_PAGES)
    ensures NoHuge(s'.flat, STACK_PAGE, STACK_PAGE + STACK_PAGES)
    ensures forall k {:trigger segments[k]} :: 0 <= k < |segments| ==> segments[k].page + segments[k].pages <= STACK_PAGE
  {
    forall k | 0 <= k < |segments|
      ensures segments[k].page + segments[k].pages <= STACK_PAGE
    {
      assert Placeable(s, data, len, segments[k]);
    }
    forall p: nat | STACK_PAGE <= p < STACK_PAGE + STACK_PAGES
      ensures p in s'.flat && !s'.flat[p].HugePage?
    {
      assert Outside(segments, p) && SameAt(s, s', p);
    }
  }

  // ---- What the program sees ----

  /** Once a file is loaded, the program reads at every address of every PT_LOAD entry the file's byte,
      and zero past the entry's bytes in the file; and it may do there whatever the intermediate
      entries permit. */
  lemma {:induction false} LoadedProgramReadsBack(s: State, root: nat, file: seq<Byte>, bases: seq<nat>, e: nat, h: ProgramHeader, o: nat)
    requires Sound(s, root) && EntriesOk(file) && AllResident(s, AllSegments(file), bases)
    requires e < EntryCount(file) && EntryOk(file, e)
    requires h == HeaderAt(file, HeaderOffset(file, e)) && h.kind == PT_LOAD && o < h.sizeMemory
    ensures h.virtualBase + o < TWO64
    ensures ByteAt(s.mem, root, h.virtualBase + o) == Some(if o < h.sizeFile then file[h.dataOffset + o] else 0)
    ensures WalkFrom(s.mem, root, 0, h.virtualBase + o).rights == s.grants[PageOf(h.virtualBase + o)]
  {
    var entries := Entries(file);
    assert Describes(file, entries, e);
    SegmentInAll(entries, e, SegmentOf(file, h));
    EntryReadsBack(s, root, file, h, AllSegments(file), bases, |Segments(entries, e)|, o);
  }

  lemma {:induction false} EntryReadsBack(s: State, root: nat, file: seq<Byte>, h: ProgramHeader, all: seq<Segment>, bases: seq<nat>,
                                          k: nat, o: nat)
    requires Sound(s, root) && AllResident(s, all, bases) && k < |all|
    requires LoadOk(file, h) && all[k] == SegmentOf(file, h) && o < h.sizeMemory
    ensures h.virtualBase + o < TWO64
    ensures ByteAt(s.mem, root, h.virtualBase + o) == Some(if o < h.sizeFile then file[h.dataOffset + o] else 0)
    ensures WalkFrom(s.mem, root, 0, h.virtualBase + o).rights == s.grants[PageOf(h.virtualBase + o)]
  {
    SegmentBytes(file, h, o);
    SegmentReadsBack(s, root, all, bases, k, o, h.virtualBase + o, all[k].content[o]);
  }

  lemma {:induction false} SegmentReadsBack(s: State, root: nat, all: seq<Segment>, bases: seq<nat>, k: nat, o: nat, v: nat, b: Byte)
    requires Sound(s, root) && AllResident(s, all, bases) && k < |all|
    requires o < |all[k].content| && v == all[k].page * 0x1000 + o && b == all[k].content[o]
    ensures v < TWO64 && ByteAt(s.mem, root, v) == Some(b)
    ensures WalkFrom(s.mem, root, 0, v).rights == s.grants[PageOf(v)]
  {
    assert Resident(s, all[k], bases[k]);
    ReadBack(s, root, all[k], bases[k], o, v);
  }

  /** The same for a program header given by its fields, which starts `i` entry sizes into the table
      the file's header names. */
  lemma {:induction false} LaidProgramReadsBack(s: State, root: nat, file: seq<Byte>, bases: seq<nat>, h: ElfHeader, i: nat,
                                                p: ElfProgramHeader, q: ProgramHeader, o: nat)
    requires Sound(s, root) && EntriesOk(file) && AllResident(s, AllSegments(file), bases)
    requires LiesAt(file, 0, h.Fields()) && i < h.phdrEntryCount
    requires LiesAt(file, h.phdrTableOffset + Offset(i, h.phdrEntrySize), p.Fields()) && p.kind == 1 && o < p.sizeMemory
    requires q == ProgramHeader(p.kind, p.dataOffset, p.virtualBase, p.sizeFile, p.sizeMemory)
    ensures q.virtualBase + o < TWO64 && q.dataOffset + q.sizeFile <= |file|
    ensures ByteAt(s.mem, root, q.virtualBase + o) == Some(if o < q.sizeFile then file[q.dataOffset + o] else 0)
  {
    LaidHeader(file, i, h, p);
    LoadedProgramReadsBack(s, root, file, bases, i, q, o);
  }

  /** The frame the page led to holds what it held. */
  ghost predicate HoldsAsBefore(s: State, s': State, p: nat) {
    p in s.flat && s.flat[p].Page? && FrameOf(s.flat[p].entry) < |s.mem| == |s'.mem| &&
    s'.mem[FrameOf(s.flat[p].entry)] == s.mem[FrameOf(s.flat[p].entry)]
  }

  /** Loading a program leaves a range of pages that own their frames, such as the heap's, leading to
      them exactly if it asks for none of them; and then those hold what they held. */
  lemma {:induction false} LoadKeepsOwners(s: State, s': State, segments: seq<Segment>, bases: seq<nat>, lo: nat, hi: nat)
    requires Loaded(s, s', segments, bases) && OwnsRange(s, lo, hi)
    ensures (forall p: nat {:trigger LeadsAsBefore(s, s', p)} :: lo <= p < hi ==> LeadsAsBefore(s, s', p)) <==> UntakenRange(segments, lo, hi)
    ensures UntakenRange(segments, lo, hi) ==>
              OwnsRange(s', lo, hi) &&
              forall p: nat {:trigger HoldsAsBefore(s, s', p)} :: lo <= p < hi ==> HoldsAsBefore(s, s', p)
  {
    forall p: nat | lo <= p < hi && LeadsAsBefore(s, s', p)
      ensures Untaken(segments, p)
    {
      assert OwnedPage(s, p);
    }
    if UntakenRange(segments, lo, hi) {
      forall p: nat | lo <= p < hi
        ensures SameAt(s, s', p)
      {
        assert Untaken(segments, p);
      }
      forall p: nat | lo <= p < hi
        ensures HoldsAsBefore(s, s', p) && LeadsAsBefore(s, s', p)
      {
        assert OwnedPage(s, p) && SameAt(s, s', p);
        OwnerKept(s, s', p);
      }
      OwnsKept(s, s', lo, hi);
    } else {
      var p: nat :| lo <= p < hi && !Untaken(segments, p);
      assert OwnedPage(s, p) && !LeadsAsBefore(s, s', p);
    }
  }
}
