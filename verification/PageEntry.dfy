/** The entry and index macros of page_map.h (4-level paging, Intel SDM volume 3A,
    section 4.5), and what they compute. */
module PageEntry {
  import opened Bits

  const PAGE_PRESENT := 0x1
  const PAGE_RW := 0x2
  const PAGE_USER := 0x4
  const PAGE_PS := 0x80
  const PAGE_ADDR_MASK := 0x000F_FFFF_FFFF_F000

  /** `(a >> 39) & 0x1ff`, and likewise at 30, 21 and 12. */
  function Pml4Index(a: U64): nat { BitAnd(a / 0x80_0000_0000, 0x1ff) }

  function PdptIndex(a: U64): nat { BitAnd(a / 0x4000_0000, 0x1ff) }

  function PdIndex(a: U64): nat { BitAnd(a / 0x20_0000, 0x1ff) }

  function PtIndex(a: U64): nat { BitAnd(a / 0x1000, 0x1ff) }

  function PdeAddr(e: U64): nat { BitAnd(e, PAGE_ADDR_MASK) }

  function PdeFlags(e: U64): nat { BitAnd(e, TWO64 - 1 - PAGE_ADDR_MASK) }

  function PagePhysAddr(a: U64): nat { BitAnd(a, TWO64 - 0x1000) }

  function PageAlign(a: U64): nat { a - a % 0x1000 }

  predicate Present(e: U64) { BitAnd(e, PAGE_PRESENT) != 0 }

  predicate Huge(e: U64) { BitAnd(e, PAGE_PS) != 0 }

  /** The frame whose address an entry carries. */
  function FrameOf(e: U64): nat { PdeAddr(e) / 0x1000 }

  /** What an entry lets a program do with all that lies behind it (section 4.6): write to it, and
      reach it from user mode at all. */
  datatype Rights = Rights(write: bool, user: bool) {
    predicate Covers(r: Rights) { (r.write ==> write) && (r.user ==> user) }
  }

  const ALL_RIGHTS := Rights(true, true)

  /** What is permitted by both of two entries. */
  function Both(a: Rights, b: Rights): Rights { Rights(a.write && b.write, a.user && b.user) }

  function RightsOf(e: U64): Rights { Rights(BitAnd(e, PAGE_RW) != 0, BitAnd(e, PAGE_USER) != 0) }

  /** `target | PAGE_PRESENT | PAGE_RW | PAGE_USER` */
  function TableEntry(target: nat): nat {
    BitOr(BitOr(BitOr(target, PAGE_PRESENT), PAGE_RW), PAGE_USER)
  }

  /** `PAGE_PHYS_ADDR(physical_address) | PAGE_PRESENT | flags` */
  function LeafEntry(physicalAddress: U64, flags: U64): nat {
    BitOr(BitOr(PagePhysAddr(physicalAddress), PAGE_PRESENT), flags)
  }

  lemma {:induction false} NineBits(x: nat)
    ensures BitAnd(x, 0x1ff) == x % 512
  {
    Powers();
    AndOnes(x, 9);
  }

  lemma {:induction false} IndexValues(a: U64)
    ensures Pml4Index(a) == a / 0x80_0000_0000 % 512
    ensures PdptIndex(a) == a / 0x4000_0000 % 512
    ensures PdIndex(a) == a / 0x20_0000 % 512
    ensures PtIndex(a) == a / 0x1000 % 512
  {
    NineBits(a / 0x80_0000_0000);
    NineBits(a / 0x4000_0000);
    NineBits(a / 0x20_0000);
    NineBits(a / 0x1000);
  }

  /** The page a virtual address lies in, of the 2^36 pages the four indices tell apart. */
  function PageOf(a: U64): nat { a / 0x1000 % 0x10_0000_0000 }

  /** The four indices recombine to the page number, so they tell any two pages apart. */
  lemma {:induction false} IndicesRecombine(a: U64)
    ensures PageOf(a) == ((Pml4Index(a) * 512 + PdptIndex(a)) * 512 + PdIndex(a)) * 512 + PtIndex(a)
    ensures Pml4Index(a) < 512 && PdptIndex(a) < 512 && PdIndex(a) < 512 && PtIndex(a) < 512
  {
    IndexValues(a);
    var page := a / 0x1000;
    assert a / 0x20_0000 == page / 512;
    assert a / 0x4000_0000 == page / 512 / 512;
    assert a / 0x80_0000_0000 == page / 512 / 512 / 512;
    FourDigits(page);
  }

  lemma {:induction false} FourDigits(page: nat)
    ensures page % 0x10_0000_0000 == ((page / 512 / 512 / 512 % 512 * 512 + page / 512 / 512 % 512) * 512
                                      + page / 512 % 512) * 512 + page % 512
  {
    OneDigit(page, 0x800_0000);
    OneDigit(page / 512, 0x4_0000);
    OneDigit(page / 512 / 512, 512);
  }

  /** The lowest digit of a number in base 512, and those above it. */
  lemma {:induction false} OneDigit(x: nat, d: nat)
    requires d == 0x800_0000 || d == 0x4_0000 || d == 512
    ensures x % (512 * d) == x / 512 % d * 512 + x % 512
  {
    DivModUnique(x, 512 * d, x / 512 / d, x / 512 % d * 512 + x % 512);
  }

  lemma {:induction false} MaskOfAddress(a: U64)
    ensures PdeAddr(a) == a / 0x1000 % 0x100_0000_0000 * 0x1000
  {
    Powers();
    AndField(a, 12, 40, PAGE_ADDR_MASK);
  }

  lemma SmallMod(a: U64)
    ensures a / 0x1000 % 0x10_0000_0000_0000 == a / 0x1000
    ensures a / 0x1000 * 0x1000 == PageAlign(a)
  {
  }

  lemma {:induction false} PhysAddrRoundsDown(a: U64)
    ensures PagePhysAddr(a) == a / 0x1000 * 0x1000 == PageAlign(a)
  {
    Powers();
    AndField(a, 12, 52, TWO64 - 0x1000);
    SmallMod(a);
  }

  lemma {:induction false} OrIsU64(a: U64, b: U64)
    ensures BitOr(a, b) < TWO64
  {
    Powers();
    OrBound(a, b, 64);
  }

  /** A frame address leaves the low twelve bits to the flags. */
  lemma {:induction false} AddressLowBits(f: nat)
    requires f < MAX_FRAMES
    ensures BitAnd(f * 0x1000, PAGE_PRESENT) == 0
    ensures BitAnd(f * 0x1000, PAGE_PS) == 0
    ensures PdeAddr(f * 0x1000) == f * 0x1000
    ensures PdeFlags(f * 0x1000) == 0
  {
    LowMasks(f * 0x1000, f);
    AddressMask(f * 0x1000, f);
    FlagsComplement(f);
  }

  lemma {:induction false} LowMasks(a: nat, f: nat)
    requires a == f * 0x1000
    ensures BitAnd(a, PAGE_PRESENT) == 0 && BitAnd(a, PAGE_PS) == 0
  {
    AndOne(a);
    BitSeven(a);
    LowBitsZero(f);
  }

  lemma {:induction false} AddressMask(a: U64, f: nat)
    requires a == f * 0x1000 && f < MAX_FRAMES
    ensures PdeAddr(a) == a
  {
    MaskOfAddress(a);
    FrameNumber(a, f);
  }

  lemma {:induction false} FrameNumber(a: nat, f: nat)
    requires a == f * 0x1000 && f < MAX_FRAMES
    ensures a / 0x1000 % 0x100_0000_0000 * 0x1000 == a
  {
    LowBitsZero(f);
  }

  lemma {:induction false} LowBitsZero(f: nat)
    ensures f * 0x1000 % 2 == 0 && f * 0x1000 / 128 % 2 == 0 && f * 0x1000 / 0x1000 == f
  {
    assert f * 0x1000 == 2 * (f * 0x800);
    TimesOver(32 * f, 128);
    TimesOver(f, 0x1000);
  }

  lemma {:induction false} TimesOver(h: nat, d: nat)
    requires d > 0
    ensures h * d / d == h
  {
    DivModUnique(h * d, d, h, 0);
  }

  lemma {:induction false} BitSeven(a: nat)
    ensures BitAnd(a, 0x80) == a / 128 % 2 * 128
  {
    Powers();
    AndField(a, 7, 1, 0x80);
  }

  lemma {:induction false} HighField(f: nat)
    requires f < MAX_FRAMES
    ensures BitAnd(f, 0xFFF * MAX_FRAMES) == 0
  {
    Powers();
    AboveField(f, 40, 12, 0xFFF * MAX_FRAMES);
  }

  /** A number has no bit in a field above it. */
  lemma {:induction false} AboveField(f: nat, k: nat, n: nat, mask: nat)
    requires mask == (Pow2(n) - 1) * Pow2(k) && f < Pow2(k)
    ensures BitAnd(f, mask) == 0
  {
    AndField(f, k, n, mask);
    NothingAbove(f, Pow2(k), Pow2(n));
  }

  lemma {:induction false} NothingAbove(f: nat, p: nat, q: nat)
    requires f < p && q > 0
    ensures f / p % q * p == 0
  {
    DivModUnique(f, p, 0, f);
    DivModUnique(0, q, 0, 0);
  }

  /** The flag mask has no bit in common with a frame address. */
  lemma {:induction false} FlagsComplement(f: nat)
    requires f < MAX_FRAMES
    ensures PdeFlags(f * 0x1000) == 0
  {
    var m := TWO64 - 1 - PAGE_ADDR_MASK;
    Powers();
    ShlMul(f, 12);
    LowZeros(f, m, 12);
    ShrDiv(m, 12);
    assert Shr(m, 12) == 0xFFF * MAX_FRAMES;
    HighField(f);
    ShlMul(0, 12);
  }

  lemma {:induction false} LowZeros(f: nat, m: nat, k: nat)
    ensures BitAnd(Shl(f, k), m) == Shl(BitAnd(f, Shr(m, k)), k)
    decreases k
  {
    if k != 0 {
      HalfAnd(Shl(f, k), m);
      LowZeros(f, m / 2, k - 1);
    }
  }

  /** A fresh intermediate entry is present, not a huge page, and leads to the frame it was
      made from. */
  lemma {:induction false} TableEntryMeaning(f: nat)
    requires f < MAX_FRAMES
    ensures TableEntry(f * 0x1000) < TWO64
    ensures Present(TableEntry(f * 0x1000)) && !Huge(TableEntry(f * 0x1000))
    ensures FrameOf(TableEntry(f * 0x1000)) == f
  {
    var a := f * 0x1000;
    OrIsU64(a, 1);
    OrIsU64(BitOr(a, 1), 2);
    OrIsU64(BitOr(BitOr(a, 1), 2), 4);
    AddressLowBits(f);
    OrThree(a, PAGE_PRESENT);
    OrThree(a, PAGE_PS);
    OrThree(a, PAGE_ADDR_MASK);
    LowConstants();
  }

  lemma {:induction false} OrThree(a: nat, m: nat)
    ensures BitAnd(TableEntry(a), m)
         == BitOr(BitOr(BitOr(BitAnd(a, m), BitAnd(1, m)), BitAnd(2, m)), BitAnd(4, m))
  {
    AndOverOr(a, 1, m);
    AndOverOr(BitOr(a, 1), 2, m);
    AndOverOr(BitOr(BitOr(a, 1), 2), 4, m);
  }

  lemma {:induction false} LowConstants()
    ensures BitAnd(1, PAGE_PRESENT) == 1 && BitAnd(2, PAGE_PRESENT) == 0 && BitAnd(4, PAGE_PRESENT) == 0
    ensures BitAnd(1, PAGE_PS) == 0 && BitAnd(2, PAGE_PS) == 0 && BitAnd(4, PAGE_PS) == 0
    ensures BitAnd(1, PAGE_ADDR_MASK) == 0 && BitAnd(2, PAGE_ADDR_MASK) == 0 && BitAnd(4, PAGE_ADDR_MASK) == 0
    ensures BitAnd(1, TWO64 - 1 - PAGE_ADDR_MASK) == 1
  {
    MaskOfAddress(1);
    MaskOfAddress(2);
    MaskOfAddress(4);
    HalfAnd(1, TWO64 - 1 - PAGE_ADDR_MASK);
  }

  /** A leaf entry carries the frame of the physical address, PRESENT, and the caller's flags,
      provided the address is a 52-bit one and the flags stay out of the address field. */
  lemma {:induction false} LeafEntryMeaning(p: U64, flags: U64)
    requires p / 0x1000 < MAX_FRAMES
    requires PdeAddr(flags) == 0
    ensures LeafEntry(p, flags) < TWO64
    ensures Present(LeafEntry(p, flags))
    ensures FrameOf(LeafEntry(p, flags)) == p / 0x1000
    ensures PdeFlags(LeafEntry(p, flags)) == BitOr(PAGE_PRESENT, PdeFlags(flags))
  {
    var a := PagePhysAddr(p);
    PhysAddrRoundsDown(p);
    OrIsU64(a, 1);
    OrIsU64(BitOr(a, 1), flags);
    AddressLowBits(p / 0x1000);
    LowConstants();
    LeafMasked(a, flags, PAGE_PRESENT);
    LeafMasked(a, flags, PAGE_ADDR_MASK);
    LeafMasked(a, flags, TWO64 - 1 - PAGE_ADDR_MASK);
  }

  lemma {:induction false} LeafMasked(a: nat, flags: nat, m: nat)
    ensures BitAnd(BitOr(BitOr(a, 1), flags), m) == BitOr(BitOr(BitAnd(a, m), BitAnd(1, m)), BitAnd(flags, m))
  {
    AndOverOr(BitOr(a, 1), flags, m);
    AndOverOr(a, 1, m);
  }

  lemma {:induction false} BitAt(a: nat, k: nat, mask: nat, d: nat)
    requires mask == Pow2(k) && d == Pow2(k)
    ensures BitAnd(a, mask) == a / d % 2 * d
  {
    Powers();
    AndField(a, k, 1, mask);
  }

  lemma {:induction false} NoRightsBits(f: nat)
    ensures BitAnd(f * 0x1000, PAGE_RW) == 0 && BitAnd(f * 0x1000, PAGE_USER) == 0
  {
    NoWriteBit(f);
    NoUserBit(f);
  }

  lemma {:induction false} NoWriteBit(f: nat)
    ensures BitAnd(f * 0x1000, PAGE_RW) == 0
  {
    Powers();
    BitAt(f * 0x1000, 1, PAGE_RW, 2);
    TimesOver(f * 0x800, 2);
    TimesOver(f * 0x400, 2);
  }

  lemma {:induction false} NoUserBit(f: nat)
    ensures BitAnd(f * 0x1000, PAGE_USER) == 0
  {
    Powers();
    BitAt(f * 0x1000, 2, PAGE_USER, 4);
    TimesOver(f * 0x400, 4);
    TimesOver(f * 0x200, 2);
  }

  /** A fresh intermediate entry withholds nothing. */
  lemma {:induction false} TableRights(f: nat)
    requires f < MAX_FRAMES
    ensures TableEntry(f * 0x1000) < TWO64 && RightsOf(TableEntry(f * 0x1000)) == ALL_RIGHTS
  {
    TableEntryMeaning(f);
    NoRightsBits(f);
    OrThree(f * 0x1000, PAGE_RW);
    OrThree(f * 0x1000, PAGE_USER);
    assert BitAnd(1, PAGE_RW) == 0 && BitAnd(2, PAGE_RW) == 2 && BitAnd(4, PAGE_RW) == 0;
    assert BitAnd(1, PAGE_USER) == 0 && BitAnd(2, PAGE_USER) == 0 && BitAnd(4, PAGE_USER) == 4;
  }

  /** A leaf entry permits what its flags do. */
  lemma {:induction false} LeafRights(p: U64, flags: U64)
    requires p / 0x1000 < MAX_FRAMES && PdeAddr(flags) == 0
    ensures LeafEntry(p, flags) < TWO64 && RightsOf(LeafEntry(p, flags)) == RightsOf(flags)
  {
    LeafEntryMeaning(p, flags);
    PhysAddrRoundsDown(p);
    NoRightsBits(p / 0x1000);
    LeafMasked(PagePhysAddr(p), flags, PAGE_RW);
    LeafMasked(PagePhysAddr(p), flags, PAGE_USER);
    assert BitAnd(1, PAGE_RW) == 0 && BitAnd(1, PAGE_USER) == 0;
  }

  /** An entry with PRESENT alone leads on and permits neither writing nor user mode. */
  lemma {:induction false} PresentAlone(f: nat)
    requires f < MAX_FRAMES
    ensures Present(f * 0x1000 + 1) && !Huge(f * 0x1000 + 1) && RightsOf(f * 0x1000 + 1) == Rights(false, false)
  {
    var e := f * 0x1000 + 1;
    AndOne(e);
    Powers();
    BitAt(e, 1, PAGE_RW, 2);
    BitAt(e, 2, PAGE_USER, 4);
    BitSeven(e);
    DivModUnique(e, 2, f * 0x800, 1);
    DivModUnique(e, 4, f * 0x400, 1);
    DivModUnique(e, 128, f * 32, 1);
    TimesOver(f * 0x400, 2);
    TimesOver(f * 0x200, 2);
    TimesOver(f * 16, 2);
  }

  /** An entry bit by bit (section 4.5, table 4-20): bit 0 says it is present, bit 1 that writing is
      permitted, bit 2 that user mode is, bit 7 that it is a huge page; bits 12 to 51 are the frame. */
  lemma {:induction false} EntryBits(e: U64)
    ensures Present(e) <==> e % 2 == 1
    ensures RightsOf(e).write <==> e / 2 % 2 == 1
    ensures RightsOf(e).user <==> e / 4 % 2 == 1
    ensures Huge(e) <==> e / 128 % 2 == 1
    ensures FrameOf(e) == e / 0x1000 % 0x100_0000_0000
  {
    AndOne(e);
    Powers();
    BitAt(e, 1, PAGE_RW, 2);
    BitAt(e, 2, PAGE_USER, 4);
    BitSeven(e);
    MaskOfAddress(e);
    TimesOver(e / 0x1000 % 0x100_0000_0000, 0x1000);
  }
}
