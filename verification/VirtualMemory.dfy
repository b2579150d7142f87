/** Bytes behind virtual addresses: loads and single stores, and the memset and memcpy loops over
    pages that lead to consecutive frames. */
module VirtualMemory {
  import opened Bits
  import opened Wrappers
  import opened FrameBits
  import opened PageEntry
  import opened PageTree
  import opened ByteSeq
  import opened MemoryState
  import opened Mmu
  import opened PageMap
  import opened FrameOwnership

  /** The 4096 bytes of a frame; a table reads as its entries, least significant byte first. */
  function BytesOf(frame: Frame): (bytes: seq<Byte>)
    ensures |bytes| == 0x1000
  {
    match frame
    case Bytes(b) => if |b| == 0x1000 then b else seq(0x1000, _ => 0)
    case Table(es) => seq(0x1000, i requires 0 <= i < 0x1000 => TableByte(es, i))
  }

  function TableByte(entries: seq<U64>, i: nat): Byte {
    if i / 8 < |entries| then (entries[i / 8] / Pow2(8 * (i % 8)) % 256) else 0
  }

  /** The k-th byte of the frames from `base` on. */
  function PhysByte(mem: seq<Frame>, base: nat, k: nat): Byte {
    if base + k / 0x1000 < |mem| then BytesOf(mem[base + k / 0x1000])[k % 0x1000] else 0
  }

  /** The pages from `page` on lead to the frames from `base` on, one by one. */
  ghost predicate Backed(flat: imap<nat, Translation>, page: nat, n: nat, base: nat) {
    forall j {:trigger BackedAt(flat, page, base, j)} :: 0 <= j < n ==> BackedAt(flat, page, base, j)
  }

  ghost predicate BackedAt(flat: imap<nat, Translation>, page: nat, base: nat, j: int) {
    0 <= j && page + j in flat && flat[page + j].Page? && FrameOf(flat[page + j].entry) == base + j
  }

  // ---- Reading ----

  /** What a load from `v` reads; nothing where it faults. Huge pages are not read. */
  function ByteAt(mem: seq<Frame>, root: nat, v: U64): Option<Byte> {
    var t := WalkFrom(mem, root, 0, v);
    if t.Page? && FrameOf(t.entry) < |mem| then Some(BytesOf(mem[FrameOf(t.entry)])[v % 0x1000]) else None
  }

  /** A load reads the byte the processor's translation leads to, at the offset in its page. */
  lemma {:induction false} ByteTranslated(mem: seq<Frame>, root: nat, v: U64)
    ensures ByteAt(mem, root, v).Some? <==> Translate(mem, root, v).Small? && Translate(mem, root, v).frame < |mem|
    ensures ByteAt(mem, root, v).Some? ==> ByteAt(mem, root, v).value == BytesOf(mem[Translate(mem, root, v).frame])[v % 0x1000]
  {
    var t := WalkFrom(mem, root, 0, v);
    WalkTranslates(mem, root, v);
    if t.Page? {
      EntryRead(t.entry);
    }
  }

  /** A page table read as bytes is its entries, eight bytes each. */
  lemma {:induction false} TableAsBytes(entries: seq<U64>, i: nat)
    requires |entries| == 512 && i < 512
    ensures BytesOf(Table(entries))[8 * i..8 * i + 8] == Little(entries[i], 8)
  {
    var bytes := BytesOf(Table(entries))[8 * i..8 * i + 8];
    forall j | 0 <= j < 8
      ensures bytes[j] == Little(entries[i], 8)[j]
    {
      LittleByte(entries[i], 8, j);
      DivModUnique(8 * i + j, 8, i, j);
    }
  }

  /** The `n` bytes from `v` on; an address that would fault reads as 0. */
  function Read(mem: seq<Frame>, root: nat, v: U64, n: nat): (bytes: seq<Byte>)
    ensures |bytes| == n
  {
    seq<Byte>(n, k requires 0 <= k < n => Load(mem, root, v + k))
  }

  function Load(mem: seq<Frame>, root: nat, v: nat): Byte {
    if v < TWO64 then (match ByteAt(mem, root, v) case Some(b) => b case None => 0) else 0
  }

  /** The byte at `v` is `b`, and its page owns its frame. */
  ghost predicate ShowsByte(s: State, v: nat, b: Byte) {
    v < TWO64 && OwnedPage(s, PageOf(v)) && FrameOf(s.flat[PageOf(v)].entry) < |s.mem| &&
    BytesOf(s.mem[FrameOf(s.flat[PageOf(v)].entry)])[v % 0x1000] == b
  }

  /** `data` lies at `at`, in pages that own their frames. */
  ghost predicate Shows(s: State, at: nat, data: seq<Byte>) {
    forall k {:trigger ShowsAt(s, at, data, k)} :: 0 <= k < |data| ==> ShowsAt(s, at, data, k)
  }

  ghost predicate ShowsAt(s: State, at: nat, data: seq<Byte>, k: nat)
    requires k < |data|
  {
    ShowsByte(s, at + k, data[k])
  }

  /** The page of the k-th byte from `at` on. */
  function PageAfter(at: nat, k: nat): nat { (at + k) / 0x1000 % 0x10_0000_0000 }

  /** One of the `len` bytes from `at` on lies in one of the `n` pages from `page` on. */
  ghost predicate Meets(at: nat, len: nat, page: nat, n: nat) {
    exists k: nat {:trigger PageAfter(at, k)} :: k < len && page <= PageAfter(at, k) < page + n
  }

  lemma {:induction false} LoadShown(s: State, root: nat, v: nat, b: Byte)
    requires Sound(s, root) && ShowsByte(s, v, b)
    ensures ByteAt(s.mem, root, v) == Some(b) && Load(s.mem, root, v) == b
  {
    assert WalkFrom(s.mem, root, 0, v) == s.flat[PageOf(v)];
  }

  /** Bytes that lie in memory are what is read there. */
  lemma {:induction false} ReadShown(s: State, root: nat, at: nat, data: seq<Byte>, o: nat, n: nat)
    requires Sound(s, root) && Shows(s, at, data) && o + n <= |data| && at + o < TWO64
    ensures Read(s.mem, root, at + o, n) == data[o..o + n]
  {
    var bytes, part := Read(s.mem, root, at + o, n), data[o..o + n];
    forall k | 0 <= k < n
      ensures bytes[k] == part[k]
    {
      LoadData(s, root, at, data, o + k);
    }
  }

  lemma {:induction false} LoadData(s: State, root: nat, at: nat, data: seq<Byte>, k: nat)
    requires Sound(s, root) && Shows(s, at, data) && k < |data|
    ensures Load(s.mem, root, at + k) == data[k]
  {
    assert ShowsAt(s, at, data, k);
    LoadShown(s, root, at + k, data[k]);
  }

  /** The `n` bytes at `v`, which is where `data` lies. */
  method ReadBytes(pm: PageMap, v: U64, n: nat, ghost data: seq<Byte>) returns (bytes: seq<Byte>)
    requires pm.Valid() && Shows(pm.Now(), v, data) && |data| == n
    ensures bytes == data
  {
    ReadShown(pm.Now(), pm.pml4, v, data, 0, n);
    assert data[0..0 + n] == data;
    bytes := Read(pm.memory, pm.pml4, v, n);
  }

  /** Part of what lies in memory lies there. */
  lemma {:induction false} ShowsPart(s: State, at: nat, data: seq<Byte>, o: nat, n: nat)
    requires Shows(s, at, data) && o + n <= |data|
    ensures Shows(s, at + o, data[o..o + n])
  {
    var start, part := at + o, data[o..o + n];
    forall k | 0 <= k < n
      ensures ShowsAt(s, start, part, k)
    {
      assert ShowsAt(s, at, data, o + k) && part[k] == data[o + k];
    }
  }

  lemma {:induction false} PartMeets(at: nat, len: nat, o: nat, n: nat, page: nat, pages: nat)
    requires !Meets(at, len, page, pages) && o + n <= len
    ensures !Meets(at + o, n, page, pages)
  {
    var start := at + o;
    forall k: nat | k < n
      ensures !(page <= PageAfter(start, k) < page + pages)
    {
      assert PageAfter(start, k) == PageAfter(at, o + k);
    }
  }

  /** What lies in memory stays there when only other pages are mapped. */
  lemma {:induction false} ShowsKept(s: State, s': State, at: nat, data: seq<Byte>, page: nat, n: nat)
    requires Shows(s, at, data) && Undisturbed(s, s') && OnlyMaps(s, s', page, n) && !Meets(at, |data|, page, n)
    ensures Shows(s', at, data)
  {
    forall k | 0 <= k < |data|
      ensures ShowsAt(s', at, data, k)
    {
      assert ShowsAt(s, at, data, k) && !(page <= PageAfter(at, k) < page + n);
      assert SameAt(s, s', PageOf(at + k));
      OwnerKept(s, s', PageOf(at + k));
    }
  }

  /** None of the `len` bytes from `at` on lies in the frames [base, base + n). */
  ghost predicate Spared(flat: imap<nat, Translation>, at: nat, len: nat, base: nat, n: nat) {
    forall k: nat {:trigger PageAfter(at, k)} :: k < len ==>
      PageAfter(at, k) in flat && flat[PageAfter(at, k)].Page? && !(base <= FrameOf(flat[PageAfter(at, k)].entry) < base + n)
  }

  /** Frames that were clear hold nothing of what lay in memory. */
  lemma {:induction false} ClearRunSpares(s: State, at: nat, data: seq<Byte>, base: nat, n: nat)
    requires Shows(s, at, data) && ClearRun(s.bits, base, n)
    ensures Spared(s.flat, at, |data|, base, n)
  {
    forall k: nat | k < |data|
      ensures OwnedPage(s, PageAfter(at, k)) && !(base <= FrameOf(s.flat[PageAfter(at, k)].entry) < base + n)
    {
      assert ShowsAt(s, at, data, k);
    }
  }

  lemma {:induction false} SparedKept(s: State, s': State, at: nat, len: nat, base: nat, m: nat, page: nat, n: nat)
    requires Spared(s.flat, at, len, base, m) && OnlyMaps(s, s', page, n) && !Meets(at, len, page, n)
    ensures Spared(s'.flat, at, len, base, m)
  {
    forall k: nat | k < len
      ensures PageAfter(at, k) in s'.flat && s'.flat[PageAfter(at, k)] == s.flat[PageAfter(at, k)]
    {
      assert !(page <= PageAfter(at, k) < page + n) && SameAt(s, s', PageAfter(at, k));
    }
  }

  /** Writing only the frames that spare it leaves it in memory. */
  lemma {:induction false} ShowsAround(s: State, mem: seq<Frame>, at: nat, data: seq<Byte>, base: nat, n: nat)
    requires Shows(s, at, data) && Spared(s.flat, at, |data|, base, n) && |mem| == |s.mem|
    requires forall f :: 0 <= f < |mem| && !(base <= f < base + n) ==> mem[f] == s.mem[f]
    ensures Shows(s.(mem := mem), at, data)
  {
    forall k | 0 <= k < |data|
      ensures ShowsAt(s.(mem := mem), at, data, k)
    {
      assert ShowsAt(s, at, data, k);
      assert PageAfter(at, k) == PageOf(at + k);
    }
  }

  // ---- Writing ----

  /** None of the frames [base, base + n) holds a page table. */
  ghost predicate DataFrames(size: nat, tables: map<Node, nat>, base: nat, n: nat) {
    base + n <= size && forall f :: base <= f < base + n ==> f !in tables.Values
  }

  /** Memory after byte `o` of `frame` is set. */
  function Stored(mem: seq<Frame>, frame: nat, o: nat, value: Byte): seq<Frame>
    requires frame < |mem| && o < 0x1000
  {
    mem[frame := Bytes(BytesOf(mem[frame])[o := value])]
  }

  lemma {:induction false} StoredBytes(mem: seq<Frame>, base: nat, n: nat, k: nat, value: Byte)
    requires base + n <= |mem| && k < n * 0x1000
    ensures k / 0x1000 < n && |Stored(mem, base + k / 0x1000, k % 0x1000, value)| == |mem|
    ensures forall i: nat :: i < n * 0x1000 ==>
              PhysByte(Stored(mem, base + k / 0x1000, k % 0x1000, value), base, i) ==
              if i == k then value else PhysByte(mem, base, i)
    ensures forall f :: 0 <= f < |mem| && !(base <= f < base + n) ==>
              Stored(mem, base + k / 0x1000, k % 0x1000, value)[f] == mem[f]
  {
    forall i: nat | i < n * 0x1000
      ensures PhysByte(Stored(mem, base + k / 0x1000, k % 0x1000, value), base, i) ==
              if i == k then value else PhysByte(mem, base, i)
    {
      SameByte(i, k);
    }
  }

  /** A byte stored through the page tables. */
  method StoreByte(pm: PageMap, v: U64, value: Byte, ghost page: nat, ghost n: nat, ghost base: nat, ghost k: nat)
    requires pm.Valid() && Backed(pm.flat, page, n, base) && DataFrames(|pm.memory|, pm.tables, base, n)
    requires k < n * 0x1000 && v == page * 0x1000 + k && page + n <= 0x8_0000_0000
    modifies pm`memory
    ensures pm.Valid() && |pm.memory| == old(|pm.memory|)
    ensures forall f :: 0 <= f < |pm.memory| && !(base <= f < base + n) ==> pm.memory[f] == old(pm.memory)[f]
    ensures forall i: nat :: i < n * 0x1000 ==>
              PhysByte(pm.memory, base, i) == if i == k then value else old(PhysByte(pm.memory, base, i))
  {
    StoreTarget(pm.Now(), pm.pml4, v, page, n, base, k);
    var frame := FrameOf(WalkFrom(pm.memory, pm.pml4, 0, v).entry);
    StoredBytes(pm.memory, base, n, k, value);
    DataWriteKeepsAll(pm.Now(), pm.pml4, frame, Bytes(BytesOf(pm.memory[frame])[k % 0x1000 := value]));
    pm.memory := Stored(pm.memory, frame, v % 0x1000, value);
  }

  /** The walk of an address of a backed range ends at the frame behind it, which holds no table. */
  lemma {:induction false} StoreTarget(s: State, root: nat, v: U64, page: nat, n: nat, base: nat, k: nat)
    requires Sound(s, root) && Backed(s.flat, page, n, base) && DataFrames(|s.mem|, s.tables, base, n)
    requires k < n * 0x1000 && v == page * 0x1000 + k && page + n <= 0x8_0000_0000
    ensures WalkFrom(s.mem, root, 0, v).Page?
    ensures FrameOf(WalkFrom(s.mem, root, 0, v).entry) == base + k / 0x1000 < |s.mem| && v % 0x1000 == k % 0x1000
    ensures base + k / 0x1000 !in s.tables.Values
  {
    PageSplit(page, k, n);
    assert BackedAt(s.flat, page, base, k / 0x1000);
    assert WalkFrom(s.mem, root, 0, v) == s.flat[PageOf(v)];
  }

  /** memset with 0. */
  method SetZero(pm: PageMap, v: U64, count: nat, ghost page: nat, ghost n: nat, ghost base: nat)
    requires pm.Valid() && Backed(pm.flat, page, n, base) && DataFrames(|pm.memory|, pm.tables, base, n)
    requires count <= n * 0x1000 && v == page * 0x1000 && page + n <= 0x8_0000_0000
    modifies pm`memory
    ensures pm.Valid() && |pm.memory| == old(|pm.memory|)
    ensures forall f :: 0 <= f < |pm.memory| && !(base <= f < base + n) ==> pm.memory[f] == old(pm.memory)[f]
    ensures forall i: nat :: i < count ==> PhysByte(pm.memory, base, i) == 0
  {
    for k := 0 to count
      invariant pm.Valid() && |pm.memory| == old(|pm.memory|)
      invariant forall f :: 0 <= f < |pm.memory| && !(base <= f < base + n) ==> pm.memory[f] == old(pm.memory)[f]
      invariant forall i: nat :: i < k ==> PhysByte(pm.memory, base, i) == 0
    {
      StoreByte(pm, v + k, 0, page, n, base, k);
    }
  }

  /** memcpy between virtual addresses; `source` is what lies at `src`. */
  method CopyIn(pm: PageMap, v: U64, src: U64, count: nat, ghost source: seq<Byte>, ghost page: nat, ghost n: nat, ghost base: nat)
    requires pm.Valid() && Backed(pm.flat, page, n, base) && DataFrames(|pm.memory|, pm.tables, base, n)
    requires count == |source| <= n * 0x1000 && v == page * 0x1000 && page + n <= 0x8_0000_0000
    requires Shows(pm.Now(), src, source) && Spared(pm.flat, src, count, base, n)
    modifies pm`memory
    ensures pm.Valid() && |pm.memory| == old(|pm.memory|)
    ensures forall f :: 0 <= f < |pm.memory| && !(base <= f < base + n) ==> pm.memory[f] == old(pm.memory)[f]
    ensures forall i: nat :: i < n * 0x1000 ==>
              PhysByte(pm.memory, base, i) == if i < count then source[i] else old(PhysByte(pm.memory, base, i))
  {
    for k := 0 to count
      invariant pm.Valid() && |pm.memory| == old(|pm.memory|)
      invariant forall f :: 0 <= f < |pm.memory| && !(base <= f < base + n) ==> pm.memory[f] == old(pm.memory)[f]
      invariant forall i: nat :: i < n * 0x1000 ==>
                  PhysByte(pm.memory, base, i) == if i < k then source[i] else old(PhysByte(pm.memory, base, i))
    {
      ShowsAround(old(pm.Now()), pm.memory, src, source, base, n);
      LoadData(pm.Now(), pm.pml4, src, source, k);
      StoreByte(pm, v + k, Load(pm.memory, pm.pml4, src + k), page, n, base, k);
    }
  }

  lemma PageSplit(page: nat, k: nat, n: nat)
    requires k < n * 0x1000 && page + n <= 0x8_0000_0000
    ensures page * 0x1000 + k < TWO64 && k / 0x1000 < n
    ensures PageOf(page * 0x1000 + k) == page + k / 0x1000 && (page * 0x1000 + k) % 0x1000 == k % 0x1000
  {
  }

  lemma SameByte(i: nat, k: nat)
    ensures i / 0x1000 == k / 0x1000 && i % 0x1000 == k % 0x1000 ==> i == k
  {
  }
}
