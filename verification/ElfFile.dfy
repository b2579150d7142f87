/** What an ELF file asks for (System V gABI, chapter 5): its program headers, and the segments its
    PT_LOAD entries describe. */
module ElfFile {
  import opened Bits
  import opened Wrappers
  import opened ByteSeq
  import opened Layout

  const PT_LOAD := 1
  const HEADER_SIZE := 64   // sizeof(elf_header)
  const PHDR_SIZE := 56     // sizeof(elf_program_header)

  /** One past the highest page of the lower half of the address space. */
  const USER_PAGES := 0x8_0000_0000

  /** The user stack: USER_STACK_SIZE + 1 bytes below and at USER_STACK_TOP, hence five pages. */
  const STACK_PAGE := 0x7_FFFF_FFFA
  const STACK_PAGES := 5

  predicate HasMagic(file: seq<Byte>)
    requires |file| >= 4
  {
    file[..4] == [0x7f, 0x45, 0x4c, 0x46]
  }

  datatype ProgramHeader = ProgramHeader(kind: nat, dataOffset: U64, virtualBase: U64, sizeFile: U64, sizeMemory: U64)

  function EntryCount(file: seq<Byte>): nat
    requires |file| >= HEADER_SIZE
  {
    Le16(file, 56)
  }

  /** Where the i-th program header lies: `i * phdr_entry_size` past the start of the table. */
  function HeaderOffset(file: seq<Byte>, i: nat): nat
    requires |file| >= HEADER_SIZE
  {
    if i == 0 then Le64(file, 32) else HeaderOffset(file, i - 1) + Le16(file, 54)
  }

  lemma {:induction false} HeaderOffsetIs(file: seq<Byte>, i: nat)
    requires |file| >= HEADER_SIZE
    ensures HeaderOffset(file, i) == Le64(file, 32) + i * Le16(file, 54)
  {
    if i > 0 {
      HeaderOffsetIs(file, i - 1);
      assert i * Le16(file, 54) == (i - 1) * Le16(file, 54) + Le16(file, 54);
    }
  }

  function HeaderAt(file: seq<Byte>, at: nat): ProgramHeader
    requires at + PHDR_SIZE <= |file|
  {
    ProgramHeader(Le32(file, at), Le64(file, at + 8), Le64(file, at + 16), Le64(file, at + 32), Le64(file, at + 40))
  }

  /** A header is read the same on its own. */
  lemma {:induction false} HeaderAlone(file: seq<Byte>, at: nat)
    requires at + PHDR_SIZE <= |file|
    ensures HeaderAt(file[at..at + PHDR_SIZE], 0) == HeaderAt(file, at)
  {
    var alone := file[at..at + PHDR_SIZE];
    assert forall k :: 0 <= k < PHDR_SIZE ==> alone[k] == file[at + k];
  }

  function PagesOf(size: nat): nat { (size + 0x1000 - 1) / 0x1000 }

  /** The least number of pages with room for that many bytes. */
  lemma {:induction false} PagesAreLeast(size: nat, n: nat)
    ensures size <= n * 0x1000 <==> PagesOf(size) <= n
  {
  }

  /** A PT_LOAD entry that asks for something the loader can do: its bytes lie inside the file, it
      starts on a page, stays below the stack, is no larger in the file than in memory, and its
      pages are counted by an `int`. */
  predicate LoadOk(file: seq<Byte>, h: ProgramHeader) {
    h.dataOffset + h.sizeFile <= |file| && h.sizeFile <= h.sizeMemory && h.virtualBase % 0x1000 == 0 &&
    h.virtualBase / 0x1000 + PagesOf(h.sizeMemory) <= STACK_PAGE && PagesOf(h.sizeMemory) < 0x8000_0000
  }

  /** The i-th program header lies inside the file, and if it is a PT_LOAD entry it is fit to be
      loaded. */
  predicate EntryOk(file: seq<Byte>, i: nat)
    requires |file| >= HEADER_SIZE
  {
    HeaderOffset(file, i) + PHDR_SIZE <= |file| &&
    (HeaderAt(file, HeaderOffset(file, i)).kind == PT_LOAD ==> LoadOk(file, HeaderAt(file, HeaderOffset(file, i))))
  }

  ghost predicate EntriesOk(file: seq<Byte>) {
    |file| >= HEADER_SIZE && forall i {:trigger EntryOk(file, i)} :: 0 <= i < EntryCount(file) ==> EntryOk(file, i)
  }

  /** A segment as the program wants it: where it starts, how many pages it spans, and its bytes,
      the file's followed by zeros. */
  datatype Segment = Segment(page: nat, pages: nat, content: seq<Byte>)

  /** The bytes of a segment: the file's, then zeros. */
  function Padded(bytes: seq<Byte>, size: nat): (content: seq<Byte>)
    requires |bytes| <= size
  {
    bytes + seq(size - |bytes|, _ => 0)
  }

  function SegmentOf(file: seq<Byte>, h: ProgramHeader): Segment
    requires LoadOk(file, h)
  {
    Segment(h.virtualBase / 0x1000, PagesOf(h.sizeMemory),
            Padded(file[h.dataOffset..h.dataOffset + h.sizeFile], h.sizeMemory))
  }

  /** What the i-th program header asks for: a segment, or nothing if it is no PT_LOAD entry. */
  function EntryOf(file: seq<Byte>, i: nat): Option<Segment>
    requires |file| >= HEADER_SIZE && EntryOk(file, i)
  {
    var h := HeaderAt(file, HeaderOffset(file, i));
    if h.kind == PT_LOAD then Some(SegmentOf(file, h)) else None
  }

  /** What all the program headers ask for, in order. */
  ghost function Entries(file: seq<Byte>): (entries: seq<Option<Segment>>)
    requires EntriesOk(file)
    ensures DescribesAll(file, entries)
  {
    seq(EntryCount(file), i requires 0 <= i < EntryCount(file) => assert EntryOk(file, i); EntryOf(file, i))
  }

  ghost predicate DescribesAll(file: seq<Byte>, entries: seq<Option<Segment>>) {
    |file| >= HEADER_SIZE && |entries| == EntryCount(file) &&
    forall i {:trigger Describes(file, entries, i)} :: 0 <= i < |entries| ==> Describes(file, entries, i)
  }

  ghost predicate Describes(file: seq<Byte>, entries: seq<Option<Segment>>, i: nat)
    requires |file| >= HEADER_SIZE && i < |entries|
  {
    EntryOk(file, i) && entries[i] == EntryOf(file, i)
  }

  /** The segments among the first `i` entries. */
  function Segments(entries: seq<Option<Segment>>, i: nat): seq<Segment>
    requires i <= |entries|
  {
    if i == 0 then []
    else Segments(entries, i - 1) + (match entries[i - 1] case Some(s) => [s] case None => [])
  }

  /** All the segments the file asks for. */
  ghost function AllSegments(file: seq<Byte>): seq<Segment>
    requires EntriesOk(file)
  {
    Segments(Entries(file), |Entries(file)|)
  }

  predicate In(s: Segment, p: nat) { s.page <= p < s.page + s.pages }

  /** Two segments share no page; an empty one shares none with any. */
  predicate Apart(s: Segment, t: Segment) {
    s.pages == 0 || t.pages == 0 || s.page + s.pages <= t.page || t.page + t.pages <= s.page
  }

  lemma {:induction false} ApartExactly(s: Segment, t: Segment)
    ensures Apart(s, t) <==> forall p: nat :: In(s, p) ==> !In(t, p)
  {
    if !Apart(s, t) {
      var p := if s.page <= t.page then t.page else s.page;
      assert In(s, p) && In(t, p);
    }
  }

  /** No two segments share a page. */
  ghost predicate PageDisjoint(segments: seq<Segment>) {
    forall i, j :: 0 <= i < j < |segments| ==> Apart(segments[i], segments[j])
  }

  /** Page `p` is in none of the segments. */
  ghost predicate Outside(segments: seq<Segment>, p: nat) {
    forall k {:trigger segments[k]} :: 0 <= k < |segments| ==> !In(segments[k], p)
  }

  predicate InStack(p: nat) { STACK_PAGE <= p < STACK_PAGE + STACK_PAGES }

  lemma {:induction false} SegmentsPrefix(entries: seq<Option<Segment>>, i: nat, j: nat)
    requires i <= j <= |entries|
    ensures Segments(entries, i) <= Segments(entries, j)
    decreases j
  {
    if i < j {
      SegmentsPrefix(entries, i, j - 1);
      PrefixTrans(Segments(entries, i), Segments(entries, j - 1), Segments(entries, j));
    }
  }

  lemma {:induction false} PrefixTrans<T>(a: seq<T>, b: seq<T>, c: seq<T>)
    requires a <= b <= c
    ensures a <= c
  {
    assert a == b[..|a|] == c[..|a|];
  }

  /** The segment of an entry is among all of them, after those of the entries before it. */
  lemma {:induction false} SegmentInAll(entries: seq<Option<Segment>>, i: nat, s: Segment)
    requires i < |entries| && entries[i] == Some(s)
    ensures var all, k := Segments(entries, |entries|), |Segments(entries, i)|;
            k < |all| && all[k] == s && Segments(entries, i) == all[..k] && Segments(entries, i + 1) == all[..k + 1] == all[..k] + [s]
  {
    assert Segments(entries, i + 1) == Segments(entries, i) + [s];
    SegmentsPrefix(entries, i, |entries|);
    SegmentsPrefix(entries, i + 1, |entries|);
    var all, k := Segments(entries, |entries|), |Segments(entries, i)|;
    assert Segments(entries, i) == all[..k];
    assert Segments(entries, i + 1) == all[..k + 1];
    assert all[..k + 1][k] == all[k];
  }

  lemma {:induction false} NoMore(entries: seq<Option<Segment>>, i: nat)
    requires i < |entries| && entries[i] == None
    ensures Segments(entries, i + 1) == Segments(entries, i)
  {
  }

  lemma {:induction false} ApartOutside(segments: seq<Segment>, s: Segment, p: nat)
    requires PageDisjoint(segments + [s]) && In(s, p)
    ensures Outside(segments, p)
  {
    forall k | 0 <= k < |segments|
      ensures !In(segments[k], p)
    {
      assert Apart((segments + [s])[k], (segments + [s])[|segments|]);
    }
  }

  lemma {:induction false} OutsideMore(segments: seq<Segment>, s: Segment, p: nat)
    ensures Outside(segments + [s], p) <==> Outside(segments, p) && !In(s, p)
  {
    var more := segments + [s];
    assert more[|segments|] == s;
    if Outside(more, p) {
      forall k | 0 <= k < |segments|
        ensures !In(segments[k], p)
      {
        assert more[k] == segments[k];
      }
    }
  }

  lemma {:induction false} DisjointPrefix(segments: seq<Segment>, k: nat)
    requires PageDisjoint(segments) && k <= |segments|
    ensures PageDisjoint(segments[..k])
  {
  }

  /** What a segment's bytes are: the file's, then zeros. */
  lemma {:induction false} SegmentBytes(file: seq<Byte>, h: ProgramHeader, o: nat)
    requires LoadOk(file, h) && o < h.sizeMemory
    ensures SegmentOf(file, h).page * 0x1000 == h.virtualBase && |SegmentOf(file, h).content| == h.sizeMemory
    ensures SegmentOf(file, h).content[o] == if o < h.sizeFile then file[h.dataOffset + o] else 0
  {
  }

  // ---- The packed structures of elf.h ----

  datatype ElfHeader = ElfHeader(magic: U32, bitness: U8, endianness: U8, headerVersion: U8, abi: U8, unused: U64,
                                 kind: U16, isa: U16, elfVersion: U32, entry: U64, phdrTableOffset: U64,
                                 shdrTableOffset: U64, flags: U32, headerSize: U16, phdrEntrySize: U16,
                                 phdrEntryCount: U16, shdrEntrySize: U16, shdrEntryCount: U16,
                                 shdrStringTableIndex: U16) {
    function Fields(): seq<Field> {
      [Field(magic, 4), Field(bitness, 1), Field(endianness, 1), Field(headerVersion, 1), Field(abi, 1),
       Field(unused, 8), Field(kind, 2), Field(isa, 2), Field(elfVersion, 4), Field(entry, 8),
       Field(phdrTableOffset, 8), Field(shdrTableOffset, 8), Field(flags, 4), Field(headerSize, 2),
       Field(phdrEntrySize, 2), Field(phdrEntryCount, 2), Field(shdrEntrySize, 2), Field(shdrEntryCount, 2),
       Field(shdrStringTableIndex, 2)]
    }
  }

  datatype ElfProgramHeader = ElfProgramHeader(kind: U32, flags: U32, dataOffset: U64, virtualBase: U64, physicalBase: U64,
                                               sizeFile: U64, sizeMemory: U64, alignment: U64) {
    function Fields(): seq<Field> {
      [Field(kind, 4), Field(flags, 4), Field(dataOffset, 8), Field(virtualBase, 8), Field(physicalBase, 8),
       Field(sizeFile, 8), Field(sizeMemory, 8), Field(alignment, 8)]
    }
  }

  /** The fields the loader uses. */
  function Asks(p: ElfProgramHeader): ProgramHeader {
    ProgramHeader(p.kind, p.dataOffset, p.virtualBase, p.sizeFile, p.sizeMemory)
  }

  /** Where the fields of a program header start, from their widths. */
  lemma {:induction false} ProgramHeaderStarts(p: ElfProgramHeader)
    ensures var f := p.Fields();
            Start(f, 0) == 0 && Start(f, 2) == 8 && Start(f, 3) == 16 && Start(f, 5) == 32 && Start(f, 6) == 40 &&
            Start(f, 8) == PHDR_SIZE
  {
    var f := p.Fields();
    assert Start(f, 2) == Start(f, 1) + 4 == 8;
    assert Start(f, 4) == Start(f, 3) + 8 == 24;
    assert Start(f, 6) == Start(f, 5) + 8 == 40;
  }

  /** The fields of a program header, wherever they lie, are what the loader reads there. */
  lemma {:induction false} ProgramHeaderReads(file: seq<Byte>, at: nat, p: ElfProgramHeader)
    requires LiesAt(file, at, p.Fields())
    ensures at + PHDR_SIZE <= |file|
    ensures HeaderAt(file, at) == Asks(p)
  {
    var f := p.Fields();
    ProgramHeaderStarts(p);
    LaidLength(f);
    Reads32(file, at, f, 0, at);
    Reads64(file, at, f, 2, at + 8);
    Reads64(file, at, f, 3, at + 16);
    Reads64(file, at, f, 5, at + 32);
    Reads64(file, at, f, 6, at + 40);
    NoTurn(p.kind);
  }

  lemma {:induction false} ElfHeaderFront(h: ElfHeader)
    ensures var f := h.Fields();
            |f| == 19 && Start(f, 0) == 0 && Start(f, 9) == 24 && Start(f, 10) == 32 &&
            f[0] == Field(h.magic, 4) && f[9] == Field(h.entry, 8) && f[10] == Field(h.phdrTableOffset, 8)
  {
    var f := h.Fields();
    assert Start(f, 2) == Start(f, 1) + 1 == 5;
    assert Start(f, 4) == Start(f, 3) + 1 == 7;
    assert Start(f, 6) == Start(f, 5) + 8 == 16;
    assert Start(f, 8) == Start(f, 7) + 2 == 20;
  }

  lemma {:induction false} ElfHeaderBack(h: ElfHeader)
    ensures var f := h.Fields();
            |f| == 19 && Start(f, 14) == 54 && Start(f, 15) == 56 && Start(f, 19) == HEADER_SIZE &&
            f[14] == Field(h.phdrEntrySize, 2) && f[15] == Field(h.phdrEntryCount, 2)
  {
    var f := h.Fields();
    ElfHeaderFront(h);
    assert Start(f, 12) == Start(f, 11) + 8 == 48;
    assert Start(f, 14) == Start(f, 13) + 2 == 54;
    assert Start(f, 16) == Start(f, 15) + 2 == 58;
    assert Start(f, 18) == Start(f, 17) + 2 == 62;
  }

  /** The fields of the file's header are what the loader reads: the magic "\x7fELF", the entry point,
      and where the program headers lie. */
  lemma {:induction false} ElfHeaderReads(file: seq<Byte>, h: ElfHeader)
    requires LiesAt(file, 0, h.Fields())
    ensures |file| >= HEADER_SIZE
    ensures HasMagic(file) <==> h.magic == 0x464C_457F
    ensures file[24..32] == Little(h.entry, 8)
    ensures EntryCount(file) == h.phdrEntryCount
    ensures forall i: nat {:trigger HeaderOffset(file, i)} :: HeaderOffset(file, i) == h.phdrTableOffset + Offset(i, h.phdrEntrySize)
  {
    ElfHeaderFront(h);
    ElfHeaderBack(h);
    LaidLength(h.Fields());
    FieldsRead(file, h.Fields(), h);
    forall i: nat
      ensures HeaderOffset(file, i) == h.phdrTableOffset + Offset(i, h.phdrEntrySize)
    {
      HeaderOffsetIs(file, i);
      OffsetIs(i, h.phdrEntrySize);
    }
  }

  lemma {:induction false} FieldsRead(file: seq<Byte>, f: seq<Field>, h: ElfHeader)
    requires LiesAt(file, 0, f) && |f| == 19 && |file| >= HEADER_SIZE
    requires Start(f, 0) == 0 && Start(f, 9) == 24 && Start(f, 10) == 32 && Start(f, 14) == 54 && Start(f, 15) == 56
    requires f[0] == Field(h.magic, 4) && f[9] == Field(h.entry, 8) && f[10] == Field(h.phdrTableOffset, 8)
    requires f[14] == Field(h.phdrEntrySize, 2) && f[15] == Field(h.phdrEntryCount, 2)
    ensures HasMagic(file) <==> h.magic == 0x464C_457F
    ensures file[24..32] == Little(h.entry, 8)
    ensures Le64(file, 32) == h.phdrTableOffset && Le16(file, 54) == h.phdrEntrySize && Le16(file, 56) == h.phdrEntryCount
  {
    FieldLies(file, 0, f, 0);
    MagicBytes(file, h.magic);
    FieldLies(file, 0, f, 9);
    Reads64(file, 0, f, 10, 32);
    Reads16(file, 0, f, 14, 54);
    Reads16(file, 0, f, 15, 56);
  }

  lemma {:induction false} MagicBytes(file: seq<Byte>, magic: U32)
    requires |file| >= 4 && file[0..4] == Little(magic, 4)
    ensures HasMagic(file) <==> magic == 0x464C_457F
  {
    FourBytes(0x464C_457F);
    assert file[0..4] == file[..4];
    Le32Reads(file, 0, magic);
    NoTurn(magic);
    if HasMagic(file) {
      Le32Reads(file, 0, 0x464C_457F);
    }
  }

  /** The i-th program header, given by its fields. */
  lemma {:induction false} LaidHeader(file: seq<Byte>, i: nat, h: ElfHeader, p: ElfProgramHeader)
    requires LiesAt(file, 0, h.Fields()) && LiesAt(file, h.phdrTableOffset + Offset(i, h.phdrEntrySize), p.Fields())
    ensures |file| >= HEADER_SIZE && EntryCount(file) == h.phdrEntryCount
    ensures HeaderOffset(file, i) + PHDR_SIZE <= |file| && HeaderAt(file, HeaderOffset(file, i)) == Asks(p)
    ensures EntryOk(file, i) ==> p.kind == PT_LOAD ==> p.dataOffset + p.sizeFile <= |file|
  {
    ElfHeaderReads(file, h);
    ProgramHeaderReads(file, HeaderOffset(file, i), p);
  }

  /** What a PT_LOAD entry asks for, from the bytes of its program header. */
  lemma {:induction false} LaidEntry(file: seq<Byte>, i: nat, h: ElfHeader, p: ElfProgramHeader)
    requires LiesAt(file, 0, h.Fields()) && LiesAt(file, h.phdrTableOffset + Offset(i, h.phdrEntrySize), p.Fields())
    requires p.kind == 1
    ensures |file| >= HEADER_SIZE
    ensures EntryOk(file, i) <==>
            p.dataOffset + p.sizeFile <= |file| && p.sizeFile <= p.sizeMemory && p.virtualBase % 0x1000 == 0 &&
            p.virtualBase + p.sizeMemory <= 0x7FFF_FFFF_A000 && p.sizeMemory <= 0x7FF_FFFF_F000
    ensures EntryOk(file, i) ==> EntryOf(file, i).Some?
    ensures EntryOk(file, i) ==>
              var s := EntryOf(file, i).value;
              s.page * 0x1000 == p.virtualBase && (forall n: nat :: p.sizeMemory <= n * 0x1000 <==> s.pages <= n) &&
              s.content == file[p.dataOffset..p.dataOffset + p.sizeFile] + seq(p.sizeMemory - p.sizeFile, _ => 0)
  {
    LaidHeader(file, i, h, p);
    PagesAreLeast(p.sizeMemory, 0x7FFF_FFFF);
    if p.virtualBase % 0x1000 == 0 {
      BelowStack(p.virtualBase, p.sizeMemory);
    }
    forall n: nat
      ensures p.sizeMemory <= n * 0x1000 <==> PagesOf(p.sizeMemory) <= n
    {
      PagesAreLeast(p.sizeMemory, n);
    }
  }

  lemma {:induction false} BelowStack(base: nat, size: nat)
    requires base % 0x1000 == 0
    ensures base / 0x1000 + PagesOf(size) <= STACK_PAGE <==> base + size <= 0x7FFF_FFFF_A000
    ensures base / 0x1000 + PagesOf(size) <= USER_PAGES <==> base + size <= 0x8000_0000_0000
  {
  }
}
