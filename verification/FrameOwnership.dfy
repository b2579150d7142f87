/** Which virtual pages own the frame behind them, what they may be used for, and why mapping other
    pages leaves them as they are. */
module FrameOwnership {
  import opened Bits
  import opened FrameBits
  import opened PageEntry
  import opened PageTree
  import opened MemoryState

  /** The page leads to a frame that is taken and holds no page table. */
  ghost predicate OwnedPage(s: State, p: nat) {
    p in s.flat && s.flat[p].Page? &&
    var f := FrameOf(s.flat[p].entry);
    0 < f < |s.bits| && s.bits[f] && f !in s.tables.Values
  }

  ghost predicate SamePageFrame(s: State, p: nat, q: nat) {
    p in s.flat && q in s.flat && s.flat[p].Page? && s.flat[q].Page? && FrameOf(s.flat[p].entry) == FrameOf(s.flat[q].entry)
  }

  /** Every page in [lo, hi) owns its frame, and no two share one. */
  ghost predicate OwnsRange(s: State, lo: nat, hi: nat) {
    && (forall p {:trigger OwnedPage(s, p)} :: lo <= p < hi ==> OwnedPage(s, p))
    && (forall p, q {:trigger SamePageFrame(s, p, q)} :: lo <= p < q < hi ==> !SamePageFrame(s, p, q))
  }

  /** Page `p` is mapped as it was. */
  ghost predicate SameAt(s: State, s': State, p: nat) {
    p in s.flat ==> p in s'.flat && s'.flat[p] == s.flat[p]
  }

  /** So is every page outside [page, page + n). */
  ghost predicate OnlyMaps(s: State, s': State, page: nat, n: nat) {
    forall p: nat {:trigger SameAt(s, s', p)} :: !(page <= p < page + n) ==> SameAt(s, s', p)
  }

  ghost predicate SameRange(s: State, s': State, lo: nat, hi: nat) {
    forall p {:trigger SameAt(s, s', p)} :: lo <= p < hi ==> SameAt(s, s', p)
  }

  /** Mapping one page more after those mapped. */
  lemma {:induction false} OnlyMapsMore(s: State, s': State, s'': State, page: nat, j: nat)
    requires OnlyMaps(s, s', page, j) && OnlyMaps(s', s'', page + j, 1)
    ensures OnlyMaps(s, s'', page, j + 1)
  {
    forall p: nat | !(page <= p < page + j + 1)
      ensures SameAt(s, s'', p)
    {
      assert SameAt(s, s', p) && SameAt(s', s'', p);
    }
  }

  // ---- What other mappings leave alone ----

  /** Frames that were taken stay taken, and those that held no table are as they were. */
  ghost predicate Undisturbed(s: State, s': State) {
    && |s.mem| == |s'.mem| == |s.bits| == |s'.bits| && s'.grants == s.grants
    && forall f {:trigger FrameUndisturbed(s, s', f)} :: 0 <= f < |s.bits| ==> FrameUndisturbed(s, s', f)
  }

  ghost predicate FrameUndisturbed(s: State, s': State, f: nat)
    requires f < |s.mem| == |s'.mem| == |s.bits| == |s'.bits|
  {
    && (s.bits[f] ==> s'.bits[f])
    && (s.bits[f] && f !in s.tables.Values ==> f !in s'.tables.Values && s'.mem[f] == s.mem[f])
  }

  /** Taking some frames and growing from there disturbs none. */
  lemma {:induction false} GrownUndisturbed(s: State, marked: seq<bool>, s': State)
    requires |s.bits| == |marked| && forall f :: 0 <= f < |marked| && s.bits[f] ==> marked[f]
    requires Grown(s.(bits := marked), s')
    ensures Undisturbed(s, s')
  {
    forall f | 0 <= f < |s.bits|
      ensures FrameUndisturbed(s, s', f)
    {
      assert FrameKept(s.(bits := marked), s', f);
      if s.bits[f] && f !in s.tables.Values {
        NotNewTable(s.(bits := marked), s', f);
      }
    }
  }

  lemma UndisturbedRefl(s: State)
    requires |s.mem| == |s.bits|
    ensures Undisturbed(s, s)
  {
  }

  lemma {:induction false} UndisturbedTrans(s: State, s': State, s'': State)
    requires Undisturbed(s, s') && Undisturbed(s', s'')
    ensures Undisturbed(s, s'')
  {
    forall f | 0 <= f < |s.bits|
      ensures FrameUndisturbed(s, s'', f)
    {
      assert FrameUndisturbed(s, s', f) && FrameUndisturbed(s', s'', f);
    }
  }

  /** A page that owns its frame and is not remapped keeps it, and what it holds. */
  lemma {:induction false} OwnerKept(s: State, s': State, p: nat)
    requires Undisturbed(s, s') && OwnedPage(s, p) && SameAt(s, s', p)
    ensures OwnedPage(s', p) && s'.mem[FrameOf(s.flat[p].entry)] == s.mem[FrameOf(s.flat[p].entry)]
  {
    assert FrameUndisturbed(s, s', FrameOf(s.flat[p].entry));
  }

  /** Pages that own their frames keep them when only other pages are mapped. */
  lemma {:induction false} OwnsKept(s: State, s': State, lo: nat, hi: nat)
    requires OwnsRange(s, lo, hi) && Undisturbed(s, s') && SameRange(s, s', lo, hi)
    ensures OwnsRange(s', lo, hi)
  {
    forall p | lo <= p < hi
      ensures OwnedPage(s', p)
    {
      assert OwnedPage(s, p) && SameAt(s, s', p);
      OwnerKept(s, s', p);
    }
    forall p, q | lo <= p < q < hi
      ensures !SamePageFrame(s', p, q)
    {
      assert OwnedPage(s, p) && OwnedPage(s, q) && SameAt(s, s', p) && SameAt(s, s', q);
      assert !SamePageFrame(s, p, q);
    }
  }

  // ---- One page more ----

  /** From `s` to `s'`, page `page` is mapped to frame `f`, which was clear, with these flags. */
  ghost predicate Joined(s: State, s': State, page: nat, f: nat, flags: U64) {
    && 0 < f < |s.bits| && f < MAX_FRAMES && !s.bits[f] && TablesTaken(s.bits, s.tables)
    && Grown(s.(bits := s.bits[f := true]), s')
    && PdeAddr(flags) == 0 && page in s.grants
    && s'.flat == s.flat[page := Mapping(f * 0x1000, flags, s.grants[page])]
  }

  lemma {:induction false} JoinedKeeps(s: State, s': State, page: nat, f: nat, flags: U64)
    requires Joined(s, s', page, f, flags)
    ensures Undisturbed(s, s') && OnlyMaps(s, s', page, 1)
    ensures OwnedPage(s', page) && s'.flat[page].Page? && FrameOf(s'.flat[page].entry) == f
  {
    var marked := s.bits[f := true];
    GrownUndisturbed(s, marked, s');
    LeafEntryMeaning(f * 0x1000, flags);
    ClearHoldsNone(s.bits, s.tables, f);
    NotNewTable(s.(bits := marked), s', f);
  }

  /** A newly mapped page with a fresh frame joins the range it borders. */
  lemma {:induction false} OwnsExtend(s: State, s': State, lo: nat, hi: nat, f: nat, flags: U64)
    requires OwnsRange(s, lo, hi) && lo <= hi && Joined(s, s', hi, f, flags)
    ensures OwnsRange(s', lo, hi + 1)
  {
    JoinedKeeps(s, s', hi, f, flags);
    OwnsKept(s, s', lo, hi);
    forall p | lo <= p < hi
      ensures !SamePageFrame(s', p, hi)
    {
      assert OwnedPage(s, p) && SameAt(s, s', p);
    }
    forall p | lo <= p < hi + 1
      ensures OwnedPage(s', p)
    {
      assert p < hi || p == hi;
    }
    forall p, q | lo <= p < q < hi + 1
      ensures !SamePageFrame(s', p, q)
    {
      assert q < hi || q == hi;
    }
  }

  // ---- Access rights ----

  /** PAGE_PRESENT | PAGE_RW | PAGE_USER */
  const PAGE_FLAGS := 0x7

  /** The page's last-level entry says present, writable and open to user mode, and so the page is
      whatever the intermediate entries on its way permit. */
  ghost predicate Accessible(s: State, p: nat) {
    p in s.flat && s.flat[p].Page? && PdeFlags(s.flat[p].entry) == PAGE_FLAGS &&
    p in s.grants && s.flat[p].rights == s.grants[p]
  }

  ghost predicate AllAccessible(s: State, lo: nat, hi: nat) {
    forall p {:trigger Accessible(s, p)} :: lo <= p < hi ==> Accessible(s, p)
  }

  lemma {:induction false} AccessibleKept(s: State, s': State, lo: nat, hi: nat)
    requires AllAccessible(s, lo, hi) && s'.grants == s.grants && SameRange(s, s', lo, hi)
    ensures AllAccessible(s', lo, hi)
  {
    forall p | lo <= p < hi
      ensures Accessible(s', p)
    {
      assert Accessible(s, p) && SameAt(s, s', p);
    }
  }

  lemma {:induction false} AccessibleExtend(s: State, s': State, lo: nat, hi: nat)
    requires AllAccessible(s, lo, hi) && lo <= hi && s'.grants == s.grants && OnlyMaps(s, s', hi, 1) && Accessible(s', hi)
    ensures AllAccessible(s', lo, hi + 1)
  {
    assert SameRange(s, s', lo, hi);
    AccessibleKept(s, s', lo, hi);
  }

  /** The flags the heap passes, PAGE_RW | PAGE_USER, and those the program loader passes, with
      PAGE_PRESENT as well, make the same entries. */
  lemma {:induction false} FreshMapping(physicalAddress: U64, flags: U64, granted: Rights)
    requires 0 < physicalAddress && physicalAddress / 0x1000 < MAX_FRAMES && (flags == 0x6 || flags == PAGE_FLAGS)
    ensures PdeAddr(flags) == 0
    ensures var t := Mapping(physicalAddress, flags, granted);
            t.Page? && PdeFlags(t.entry) == PAGE_FLAGS && t.rights == granted && FrameOf(t.entry) == physicalAddress / 0x1000
  {
    MaskOfAddress(flags);
    LeafEntryMeaning(physicalAddress, flags);
    LeafRights(physicalAddress, flags);
    SmallFlags(flags);
  }

  lemma {:induction false} SmallFlags(flags: U64)
    requires flags == 0x6 || flags == PAGE_FLAGS
    ensures BitOr(PAGE_PRESENT, PdeFlags(flags)) == PAGE_FLAGS && RightsOf(flags) == ALL_RIGHTS
  {
    assert BitAnd(0x6, TWO64 - 1 - PAGE_ADDR_MASK) == 0x6;
    assert BitAnd(0x7, TWO64 - 1 - PAGE_ADDR_MASK) == 0x7;
    assert BitOr(0x1, 0x6) == 0x7 && BitOr(0x1, 0x7) == 0x7;
    assert BitAnd(0x6, PAGE_RW) == 2 && BitAnd(0x7, PAGE_RW) == 2 && BitAnd(0x6, PAGE_USER) == 4 && BitAnd(0x7, PAGE_USER) == 4;
  }

  /** The pages from `lo` on are writable and open to user mode exactly where every intermediate
      entry that leads to a table on their way is. */
  lemma {:induction false} OpenExactly(s: State, root: nat, lo: nat, hi: nat, p: nat, v: U64)
    requires Sound(s, root) && AllAccessible(s, lo, hi) && lo <= p < hi && PageOf(v) == p
    ensures WalkFrom(s.mem, root, 0, v).Page?
    ensures WalkFrom(s.mem, root, 0, v).rights == ALL_RIGHTS <==>
            forall d {:trigger Grants(s.mem, s.tables, v, d, ALL_RIGHTS)} :: 0 <= d < 3 ==> Grants(s.mem, s.tables, v, d, ALL_RIGHTS)
  {
    assert Accessible(s, p);
    GrantedExactly(s.mem, root, s.tables, v, ALL_RIGHTS, 0);
    assert GrantedFrom(s.mem, root, 0, v) == s.grants[p];
  }
}
