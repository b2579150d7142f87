/** Four-level paging in the plain arithmetic of the processor's manual (Intel SDM volume 3A,
    sections 4.5 and 4.6): the reference the walk written with the macros of page_map.h agrees with. */
module Mmu {
  import opened Bits
  import opened PageEntry
  import opened PageTree
  import opened MemoryState

  /** What an access to an address meets: a fault, a page larger than 4 KiB, or a frame. */
  datatype Access = Fault | Large | Small(frame: nat, write: bool, user: bool)

  predicate IsPresent(e: U64) { e % 2 == 1 }

  predicate IsLarge(e: U64) { e / 128 % 2 == 1 }

  predicate IsTable(e: U64) { IsPresent(e) && !IsLarge(e) }

  predicate MayWrite(e: U64) { e / 2 % 2 == 1 }

  predicate MayUser(e: U64) { e / 4 % 2 == 1 }

  function Base(e: U64): nat { e / 0x1000 % 0x100_0000_0000 }

  /** The entries for `v` in tables of the four levels that lie in the frame `f`. */
  function Pml4e(mem: seq<Frame>, f: nat, v: U64): U64 { Entry(mem, f, v / 0x80_0000_0000 % 512) }

  function Pdpte(mem: seq<Frame>, f: nat, v: U64): U64 { Entry(mem, f, v / 0x4000_0000 % 512) }

  function Pde(mem: seq<Frame>, f: nat, v: U64): U64 { Entry(mem, f, v / 0x20_0000 % 512) }

  function Pte(mem: seq<Frame>, f: nat, v: U64): U64 { Entry(mem, f, v / 0x1000 % 512) }

  /** An access to `v` with the root table in the frame `root`. */
  function Translate(mem: seq<Frame>, root: nat, v: U64): Access {
    var a := Pml4e(mem, root, v);
    var b := Pdpte(mem, Base(a), v);
    var c := Pde(mem, Base(b), v);
    var d := Pte(mem, Base(c), v);
    if !IsPresent(a) then Fault else if IsLarge(a) then Large
    else if !IsPresent(b) then Fault else if IsLarge(b) then Large
    else if !IsPresent(c) then Fault else if IsLarge(c) then Large
    else if !IsPresent(d) then Fault
    else Small(Base(d), MayWrite(a) && MayWrite(b) && MayWrite(c) && MayWrite(d),
               MayUser(a) && MayUser(b) && MayUser(c) && MayUser(d))
  }

  /** What the tables there are on the way of `v` permit: writing, and user mode. */
  function Way(mem: seq<Frame>, root: nat, v: U64): Rights {
    var a := Pml4e(mem, root, v);
    var b := Pdpte(mem, Base(a), v);
    var c := Pde(mem, Base(b), v);
    var to1 := IsTable(a);
    var to2 := to1 && IsTable(b);
    var to3 := to2 && IsTable(c);
    Rights((to1 ==> MayWrite(a)) && (to2 ==> MayWrite(b)) && (to3 ==> MayWrite(c)),
           (to1 ==> MayUser(a)) && (to2 ==> MayUser(b)) && (to3 ==> MayUser(c)))
  }

  /** What a walk yields, for an access. */
  function AccessOf(t: Translation): Access {
    match t
    case Unmapped => Fault
    case HugePage(_, _) => Large
    case Page(e, rights) => Small(Base(e), rights.write, rights.user)
  }

  lemma {:induction false} EntryRead(e: U64)
    ensures Present(e) == IsPresent(e) && Huge(e) == IsLarge(e) && FrameOf(e) == Base(e)
    ensures RightsOf(e) == Rights(MayWrite(e), MayUser(e))
  {
    EntryBits(e);
  }

  /** The model's walk and the manual's meet the same. */
  lemma {:induction false} WalkTranslates(mem: seq<Frame>, root: nat, v: U64)
    ensures AccessOf(WalkFrom(mem, root, 0, v)) == Translate(mem, root, v)
  {
    IndexValues(v);
    var a := Pml4e(mem, root, v);
    var b := Pdpte(mem, Base(a), v);
    var c := Pde(mem, Base(b), v);
    var d := Pte(mem, Base(c), v);
    EntryRead(a);
    EntryRead(b);
    EntryRead(c);
    EntryRead(d);
    var at3 := if Present(d) then Page(d, RightsOf(d)) else Unmapped;
    assert WalkFrom(mem, Base(c), 3, v) == at3;
    var at2 := if !Present(c) then Unmapped else if Huge(c) then HugePage(c, RightsOf(c)) else Narrowed(at3, RightsOf(c));
    assert WalkFrom(mem, Base(b), 2, v) == at2;
    var at1 := if !Present(b) then Unmapped else if Huge(b) then HugePage(b, RightsOf(b)) else Narrowed(at2, RightsOf(b));
    assert WalkFrom(mem, Base(a), 1, v) == at1;
  }

  /** And so do what they say of the way. */
  lemma {:induction false} WayGranted(mem: seq<Frame>, root: nat, v: U64)
    ensures GrantedFrom(mem, root, 0, v) == Way(mem, root, v)
  {
    IndexValues(v);
    var a := Pml4e(mem, root, v);
    var b := Pdpte(mem, Base(a), v);
    var c := Pde(mem, Base(b), v);
    EntryRead(a);
    EntryRead(b);
    EntryRead(c);
    var at2 := if LeadsOn(c) then RightsOf(c) else ALL_RIGHTS;
    assert GrantedFrom(mem, Base(c), 3, v) == ALL_RIGHTS;
    assert GrantedFrom(mem, Base(b), 2, v) == at2;
    var at1 := if LeadsOn(b) then Both(RightsOf(b), at2) else ALL_RIGHTS;
    assert GrantedFrom(mem, Base(a), 1, v) == at1;
  }

  /** What an access to a page meets after map_virtual_memory(.., physical_address, flags), given what
      the tables on the way permit. */
  function Asked(physicalAddress: U64, flags: U64, way: Rights): Access {
    if physicalAddress == 0 then Fault
    else Small(physicalAddress / 0x1000, flags / 2 % 2 == 1 && way.write, flags / 4 % 2 == 1 && way.user)
  }

  /** From the tables in `mem` to those in `mem'`: every access to the page of `v` meets what was asked
      for, and every other one meets what it met. */
  ghost predicate MapsOnly(mem: seq<Frame>, mem': seq<Frame>, root: nat, v: U64, physicalAddress: U64, flags: U64) {
    forall a: U64 {:trigger Translate(mem', root, a)} :: Translate(mem', root, a) ==
      if a / 0x1000 % 0x10_0000_0000 == v / 0x1000 % 0x10_0000_0000 then Asked(physicalAddress, flags, Way(mem, root, v))
      else Translate(mem, root, a)
  }

  lemma {:induction false} MappingAsked(physicalAddress: U64, flags: U64, granted: Rights)
    requires physicalAddress / 0x1000 < MAX_FRAMES && PdeAddr(flags) == 0
    ensures AccessOf(Mapping(physicalAddress, flags, granted)) == Asked(physicalAddress, flags, granted)
  {
    LeafEntryMeaning(physicalAddress, flags);
    LeafRights(physicalAddress, flags);
    EntryRead(LeafEntry(physicalAddress, flags));
    EntryRead(flags);
  }

  /** A change of the flat map at one page is that change for the processor. */
  lemma {:induction false} FlatMapsOnly(s: State, s': State, root: nat, v: U64, physicalAddress: U64, flags: U64)
    requires Sound(s, root) && Sound(s', root) && physicalAddress / 0x1000 < MAX_FRAMES && PdeAddr(flags) == 0
    requires s'.flat == s.flat[PageOf(v) := Mapping(physicalAddress, flags, s.grants[PageOf(v)])]
    ensures MapsOnly(s.mem, s'.mem, root, v, physicalAddress, flags)
  {
    WayGranted(s.mem, root, v);
    MappingAsked(physicalAddress, flags, s.grants[PageOf(v)]);
    forall a: U64
      ensures Translate(s'.mem, root, a) ==
        if a / 0x1000 % 0x10_0000_0000 == v / 0x1000 % 0x10_0000_0000 then Asked(physicalAddress, flags, Way(s.mem, root, v))
        else Translate(s.mem, root, a)
    {
      WalkTranslates(s.mem, root, a);
      WalkTranslates(s'.mem, root, a);
    }
  }

  /** A page mapped with bit 1 set in its flags and bit 2 clear, over tables that withhold nothing, can
      be written and is closed to user mode; with bit 2 set and bit 1 clear it is the other way round. */
  lemma {:induction false} WritableOrUser(mem: seq<Frame>, mem': seq<Frame>, root: nat, v: U64, physicalAddress: U64, flags: U64)
    requires MapsOnly(mem, mem', root, v, physicalAddress, flags) && physicalAddress > 0
    requires Way(mem, root, v) == Rights(true, true)
    ensures flags / 2 % 2 == 1 && flags / 4 % 2 == 0 ==> Translate(mem', root, v) == Small(physicalAddress / 0x1000, true, false)
    ensures flags / 2 % 2 == 0 && flags / 4 % 2 == 1 ==> Translate(mem', root, v) == Small(physicalAddress / 0x1000, false, true)
  {
    assert Translate(mem', root, v) == Asked(physicalAddress, flags, Way(mem, root, v));
  }
}
