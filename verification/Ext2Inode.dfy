/** Finding an inode: group descriptors and inode tables, read one block at a time, behave as two
    flat arrays. */
module Ext2Inode {
  import opened Bits
  import opened ByteSeq
  import opened Layout
  import opened Gpt
  import opened Ext2Tree
  import opened Ext2
  import opened Ext2File

  const DESCRIPTOR := 32     // sizeof(ext2_block_group_descriptor)
  const INODE := 124         // sizeof(ext2_inode)

  datatype Superblock = Superblock(shift: Shift, inodesPerGroup: U32, versionMajor: U32, inodeSize: U16) {
    function InodeSize(): nat { if versionMajor >= 1 then inodeSize else 128 }

    predicate Valid() { inodesPerGroup > 0 }
  }

  /** An inode's number, counted from zero: `inode - 1` in 32 bits. */
  function Ordinal(inode: U32): U32 { if inode == 0 then 0xFFFF_FFFF else inode - 1 }

  function Group(sb: Superblock, inode: U32): U32
    requires sb.Valid()
  {
    Ordinal(inode) / sb.inodesPerGroup
  }

  function Index(sb: Superblock, inode: U32): U32
    requires sb.Valid()
  {
    Ordinal(inode) % sb.inodesPerGroup
  }

  function TableStart(size: nat): nat { if size == 1024 then 2 else 1 }

  /** The block of the descriptor table that group `g` is looked up in. */
  function DescriptorBlock(g: U32, size: nat): nat
    requires size > 0
  {
    TableStart(size) + g * 32 % 0x1_0000_0000 / size
  }

  function DescriptorAt(g: U32, size: nat): nat
    requires size >= 1024
  {
    g % (size / 32)
  }

  /** Where inode number `index` of a table starts: `index * inode_size` in 32-bit arithmetic. */
  function Place(index: U32, inodeSize: nat): U32 { Wrap32(Offset(index, inodeSize)) }

  /** The block of the table it is in, and the byte in that block. */
  function InodeBlock(index: U32, inodeSize: nat, size: nat): nat
    requires size > 0
  {
    Place(index, inodeSize) / size
  }

  function InodeOffset(index: U32, inodeSize: nat, size: nat): nat
    requires size > 0
  {
    Place(index, inodeSize) % size
  }

  // ---- Addressing is exact ----

  lemma {:induction false} ModCancel(a: nat, d: nat, k: nat)
    requires d > 0
    ensures (a + k * d) % d == a % d && (a + k * d) / d == a / d + k
  {
    assert a + k * d == (a / d + k) * d + a % d by { assert (a / d + k) * d == a / d * d + k * d; }
    DivModUnique(a + k * d, d, a / d + k, a % d);
  }

  /** Splitting a multiple of `u` at a multiple of `u` splits the multiplier. */
  lemma {:induction false} SplitMultiple(u: nat, n: nat, m: nat)
    requires u > 0 && m > 0
    ensures (n * u) / (m * u) == n / m && (n * u) % (m * u) == n % m * u
  {
    Product(m, u);
    var q, r := n / m, n % m;
    assert n == q * m + r;
    assert n * u == (q * m) * u + r * u;
    assert (q * m) * u == q * (m * u);
    MulOrder(m - r, u);
    assert m * u - r * u == (m - r) * u;
    Product(r, u);
    DivModUnique(n * u, m * u, q, r * u);
  }

  /** With `size` = 32 * m dividing 2^32, only the low 27 bits of a group number are used. */
  lemma {:induction false} DescriptorSplit(g: U32, size: nat, m: nat, k: nat)
    requires size == 32 * m && m >= 32 && k * m == 0x800_0000
    ensures DescriptorBlock(g, size) == TableStart(size) + g % 0x800_0000 / m
    ensures DescriptorAt(g, size) == g % 0x800_0000 % m
  {
    var r, q := g % 0x800_0000, g / 0x800_0000;
    SplitMultiple(32, g, 0x800_0000);
    assert g * 32 % 0x1_0000_0000 == r * 32;
    SplitMultiple(32, r, m);
    assert q * (k * m) == (q * k) * m;
    Product(q, k);
    ModCancel(r, m, q * k);
  }

  /** The descriptor of group g is the g-th of the table: block and position recombine to
      `start * block_size + 32 * g` exactly when `32 * g` fits 32 bits; and a descriptor always
      lies inside its block. */
  lemma {:induction false} DescriptorAddress(v: Volume, g: U32)
    ensures var size := v.BlockSize();
            && (Offset(DescriptorBlock(g, size), size) + 32 * DescriptorAt(g, size) == Offset(TableStart(size), size) + 32 * g
                <==> g < 0x800_0000)
            && 32 * DescriptorAt(g, size) + 32 <= size
  {
    var k := WrapPoint(v);
    DescriptorPlace(g, v.BlockSize(), 16 * v.SectorsPerBlock(), k);
    FromStart(TableStart(v.BlockSize()), DescriptorBlock(g, v.BlockSize()), DescriptorAt(g, v.BlockSize()), v.BlockSize(), g % 0x800_0000);
    LowBits(g);
  }

  lemma {:induction false} FromStart(start: nat, block: nat, at: nat, size: nat, low: nat)
    requires block >= start && Offset(block - start, size) + 32 * at == 32 * low
    ensures Offset(block, size) + 32 * at == Offset(start, size) + 32 * low
  {
    OffsetAdd(start, block - start, size);
  }

  lemma LowBits(g: nat)
    ensures g % 0x800_0000 == g <==> g < 0x800_0000
  {
  }

  lemma {:induction false} DescriptorPlace(g: U32, size: nat, m: nat, k: nat)
    requires size == 32 * m && m >= 32 && Offset(k, size) == 0x1_0000_0000
    ensures DescriptorBlock(g, size) >= TableStart(size)
    ensures Offset(DescriptorBlock(g, size) - TableStart(size), size) + 32 * DescriptorAt(g, size) == 32 * (g % 0x800_0000)
    ensures 32 * DescriptorAt(g, size) + 32 <= size
  {
    OffsetIs(k, size);
    assert k * (32 * m) == 32 * (k * m);
    DescriptorSplit(g, size, m, k);
    Recombine(g % 0x800_0000, m);
  }

  lemma {:induction false} Recombine(r: nat, m: nat)
    requires m > 0
    ensures Offset(r / m, 32 * m) + 32 * (r % m) == 32 * r
  {
    OffsetIs(r / m, 32 * m);
    assert r / m * (32 * m) == 32 * (r / m * m);
  }

  /** Inode sizes that divide the block size. */
  predicate Divides(inodeSize: nat, size: nat) {
    128 <= inodeSize <= size && size % inodeSize == 0
  }

  /** All powers of two from 128 to the block size are among them. */
  lemma {:induction false} PowersDivide(v: Volume, i: nat)
    requires i <= v.shift + 3
    ensures Divides(Pow2(i) * 128, v.BlockSize())
  {
    BlockSizeIs(v);
    PowersAdd(i, v.shift + 3 - i);
    assert Pow2(v.shift + 3) == 2 * Pow2(v.shift + 2) == 4 * Pow2(v.shift + 1) == 8 * Pow2(v.shift);
    Multiple(Pow2(v.shift + 3 - i), Pow2(i), 128, v.BlockSize());
  }

  lemma {:induction false} Multiple(m: nat, p: nat, u: nat, size: nat)
    requires m * p * u == size && m > 0 && p > 0 && u > 0
    ensures u <= p * u <= size && size % (p * u) == 0
  {
    assert m * p * u == m * (p * u);
    MulOrder(p, u);
    MulOrder(m, p * u);
    DivModUnique(size, p * u, m, 0);
  }

  lemma {:induction false} PowersAdd(a: nat, b: nat)
    ensures Pow2(b) * Pow2(a) == Pow2(a + b)
    decreases b
  {
    if b > 0 {
      PowersAdd(a, b - 1);
      TwiceProduct(Pow2(b), Pow2(b - 1), Pow2(a));
    }
  }

  lemma TwiceProduct(p: nat, half: nat, q: nat)
    requires p == 2 * half
    ensures p * q == 2 * (half * q)
  {
  }

  /** Block and byte of inode number `index` recombine to `index * inode_size` exactly when that
      fits 32 bits; and the inode lies whole inside its block, even when it does not. */
  lemma {:induction false} InodeAddress(v: Volume, index: U32, inodeSize: nat)
    requires Divides(inodeSize, v.BlockSize())
    ensures Offset(InodeBlock(index, inodeSize, v.BlockSize()), v.BlockSize()) + InodeOffset(index, inodeSize, v.BlockSize())
         == Offset(index, inodeSize)
        <==> Offset(index, inodeSize) < 0x1_0000_0000
    ensures InodeOffset(index, inodeSize, v.BlockSize()) + inodeSize <= v.BlockSize()
  {
    PlaceInBlock(Place(index, inodeSize), v.BlockSize());
    var k := WrapPoint(v);
    WholeUnits(Offset(index, inodeSize), index, inodeSize, v.BlockSize(), k);
  }

  lemma {:induction false} PlaceInBlock(p: nat, size: nat)
    requires size > 0
    ensures Offset(p / size, size) + p % size == p
  {
    OffsetIs(p / size, size);
  }

  /** Wrapped at a whole number of blocks, a multiple of a unit that divides the block size still
      does not straddle two blocks. */
  lemma {:induction false} WholeUnits(p: nat, index: nat, unit: nat, size: nat, k: nat)
    requires p == Offset(index, unit) && Divides(unit, size) && Offset(k, size) == 0x1_0000_0000
    ensures Wrap32(p) % size + unit <= size
  {
    var m := size / unit;
    assert size == m * unit;
    OffsetIs(index, unit);
    OffsetIs(k, size);
    Wrap32IsMod(p);
    assert k * (m * unit) == (k * m) * unit;
    PositiveProduct(k, m, unit);
    SplitMultiple(unit, index, k * m);
    Unsplit(index % (k * m), unit, size);
  }

  lemma {:induction false} PositiveProduct(k: nat, m: nat, unit: nat)
    requires (k * m) * unit > 0
    ensures k * m > 0
  {
    Product(k, m);
  }

  /** A unit that divides the block size never straddles two blocks. */
  lemma {:induction false} Unsplit(index: nat, unit: nat, size: nat)
    requires 0 < unit <= size && size % unit == 0
    ensures index * unit >= 0 && index * unit % size + unit <= size
  {
    var m := size / unit;
    assert size == m * unit;
    SplitMultiple(unit, index, m);
    var r := index % m;
    assert m * unit - r * unit == (m - r) * unit;
    MulOrder(m - r, unit);
    Product(index, unit);
  }

  /** Distinct inodes of a group occupy disjoint bytes. */
  lemma {:induction false} InodesDisjoint(v: Volume, i: U32, j: U32, inodeSize: nat)
    requires Divides(inodeSize, v.BlockSize()) && i < j && Offset(j, inodeSize) < 0x1_0000_0000
    ensures InodeBlock(i, inodeSize, v.BlockSize()) == InodeBlock(j, inodeSize, v.BlockSize()) ==>
              InodeOffset(i, inodeSize, v.BlockSize()) + inodeSize <= InodeOffset(j, inodeSize, v.BlockSize())
  {
    OffsetAdd(i, j - i, inodeSize);
    OffsetMono(1, j - i, inodeSize);
    InodeAddress(v, i, inodeSize);
    InodeAddress(v, j, inodeSize);
  }

  /** An inode number is determined by its group and its place in the group. */
  lemma NumberFromGroup(sb: Superblock, i: U32, j: U32)
    requires sb.Valid()
    ensures Group(sb, i) * sb.inodesPerGroup + Index(sb, i) == Ordinal(i)
    ensures Group(sb, i) == Group(sb, j) && Index(sb, i) == Index(sb, j) ==> i == j
  {
  }

  // ---- ext2_get_inode ----

  /** `n` blocks in a row. */
  function Run(first: nat, n: nat): seq<nat> { seq(n, k requires 0 <= k < n => first + k) }

  /** A table that fills consecutive blocks, as one flat array. */
  function Flat(store: Store, first: nat, n: nat): seq<Byte> { Concat(store, Run(first, n)) }

  ghost predicate HasTable(store: Store, first: nat, n: nat, size: nat, flat: seq<Byte>) {
    AllIn(store, Run(first, n), size) && flat == Flat(store, first, n)
  }

  /** A range inside one block is that range of the flat table. */
  lemma {:induction false} FlatRange(store: Store, first: nat, n: nat, size: nat, flat: seq<Byte>, block: nat, at: nat, bytes: nat)
    requires HasTable(store, first, n, size, flat)
    requires Offset(block, size) + at + bytes <= |flat| && at + bytes <= size && bytes > 0
    ensures block < n && first + block in store && |store[first + block]| == size
    ensures flat[Offset(block, size) + at..Offset(block, size) + at + bytes] == store[first + block][at..at + bytes]
  {
    ConcatLength(store, Run(first, n), size);
    if n <= block {
      OffsetMono(n, block, size);
    }
    RangeInBlock(store, Run(first, n), size, block, at, bytes);
    assert Run(first, n)[block] == first + block;
  }

  /** The fields of an on-disk inode that reading its file needs. */
  function ParseInode(bytes: seq<Byte>): Inode
    requires |bytes| == INODE
  {
    Inode(seq(DIRECT, i requires 0 <= i < DIRECT => Le32(bytes, 40 + 4 * i)),
          Le32(bytes, 88), Le32(bytes, 92), Le32(bytes, 96), Le32(bytes, 28), Le32(bytes, 4))
  }

  lemma {:induction false} DescriptorRelative(v: Volume, g: U32)
    ensures var size := v.BlockSize();
            && DescriptorBlock(g, size) >= TableStart(size)
            && Offset(DescriptorBlock(g, size) - TableStart(size), size) + 32 * DescriptorAt(g, size) == 32 * LowGroup(g)
            && 32 * DescriptorAt(g, size) + 32 <= size
  {
    var k := WrapPoint(v);
    DescriptorPlace(g, v.BlockSize(), 16 * v.SectorsPerBlock(), k);
  }

  /** The group whose descriptor is read for group `g`: itself below 2^27. */
  function LowGroup(g: U32): nat { g % 0x800_0000 }

  /** ext2_get_inode: with both tables seen as flat arrays, the inode is read from the group's
      inode table, which starts at the block named by the group's descriptor, at
      `index * inode_size`; both places are computed in 32 bits. */
  method GetInode(v: Volume, sb: Superblock, inode: U32, ghost store: Store,
                  ghost descriptors: seq<Byte>, ghost n: nat, ghost inodes: seq<Byte>, ghost table: nat, ghost t: nat)
    returns (r: Inode)
    requires v.Serves(store) && sb.Valid() && sb.shift == v.shift
    requires HasTable(store, TableStart(v.BlockSize()), n, v.BlockSize(), descriptors)
    requires 32 * LowGroup(Group(sb, inode)) + 32 <= |descriptors|
    requires table == Le32(descriptors[32 * LowGroup(Group(sb, inode))..32 * LowGroup(Group(sb, inode)) + 32], 8)
    requires HasTable(store, table, t, v.BlockSize(), inodes) && Divides(sb.InodeSize(), v.BlockSize())
    requires Place(Index(sb, inode), sb.InodeSize()) + INODE <= |inodes|
    ensures r == ParseInode(inodes[Place(Index(sb, inode), sb.InodeSize())..Place(Index(sb, inode), sb.InodeSize()) + INODE])
  {
    var desc := ReadDescriptor(v, Group(sb, inode), store, descriptors, n);
    r := ReadInode(v, Index(sb, inode), sb.InodeSize(), store, inodes, Le32(desc, 8), t);
  }

  /** The first half: the group's descriptor. */
  method ReadDescriptor(v: Volume, g: U32, ghost store: Store, ghost descriptors: seq<Byte>, ghost n: nat) returns (desc: seq<Byte>)
    requires v.Serves(store) && 32 * LowGroup(g) + 32 <= |descriptors|
    requires HasTable(store, TableStart(v.BlockSize()), n, v.BlockSize(), descriptors)
    ensures desc == descriptors[32 * LowGroup(g)..32 * LowGroup(g) + 32]
  {
    var size := v.BlockSize();
    var b, d := DescriptorBlock(g, size), DescriptorAt(g, size);
    DescriptorRelative(v, g);
    FlatRange(store, TableStart(size), n, size, descriptors, b - TableStart(size), 32 * d, DESCRIPTOR);
    var bgdt := ReadBlock(v, b, true, store);
    desc := bgdt[32 * d..32 * d + 32];
  }

  /** The second half: the inode from the table that starts at block `table`. */
  method ReadInode(v: Volume, index: U32, inodeSize: nat, ghost store: Store, ghost inodes: seq<Byte>, table: nat, ghost t: nat)
    returns (r: Inode)
    requires v.Serves(store) && HasTable(store, table, t, v.BlockSize(), inodes) && Divides(inodeSize, v.BlockSize())
    requires Place(index, inodeSize) + INODE <= |inodes|
    ensures r == ParseInode(inodes[Place(index, inodeSize)..Place(index, inodeSize) + INODE])
  {
    var size := v.BlockSize();
    InodeAddress(v, index, inodeSize);
    PlaceInBlock(Place(index, inodeSize), size);
    var block, offset := InodeBlock(index, inodeSize, size), InodeOffset(index, inodeSize, size);
    FlatRange(store, table, t, size, inodes, block, offset, INODE);
    var buf := ReadBlock(v, table + block, true, store);
    r := ParseInode(buf[offset..offset + INODE]);
  }

  // ---- The packed structures of ext2.h, and which entry an inode is ----

  datatype DiskInode = DiskInode(typePermissions: U16, uidLow: U16, sizeLow: U32, lastAccess: U32, creation: U32,
                                 lastModification: U32, deletion: U32, gidLow: U16, hardLinks: U16, sectorsUsed: U32,
                                 flags: U32, reserved0: U32, direct: seq<U32>, singly: U32, doubly: U32, triply: U32,
                                 generation: U32, extendedAttributes: U32, sizeHigh: U32, fragmentAddress: U32,
                                 fragmentNumber: U8, fragmentSize: U8, reserved1: U16, uidHigh: U16, gidHigh: U16) {
    function Front(): seq<Field> {
      [Field(typePermissions, 2), Field(uidLow, 2), Field(sizeLow, 4), Field(lastAccess, 4), Field(creation, 4),
       Field(lastModification, 4), Field(deletion, 4), Field(gidLow, 2), Field(hardLinks, 2), Field(sectorsUsed, 4),
       Field(flags, 4), Field(reserved0, 4)]
    }

    function Back(): seq<Field> {
      [Field(singly, 4), Field(doubly, 4), Field(triply, 4), Field(generation, 4), Field(extendedAttributes, 4),
       Field(sizeHigh, 4), Field(fragmentAddress, 4), Field(fragmentNumber, 1), Field(fragmentSize, 1),
       Field(reserved1, 2), Field(uidHigh, 2), Field(gidHigh, 2)]
    }

    function Fields(): seq<Field> { Front() + Words(direct) + Back() }
  }

  /** Fields of four bytes. */
  function Words(ns: seq<U32>): (fields: seq<Field>)
    ensures |fields| == |ns|
  {
    seq(|ns|, k requires 0 <= k < |ns| => Field(ns[k], 4))
  }

  /** Where the fields start. */
  lemma {:induction false} FrontStarts(d: DiskInode)
    ensures var f := d.Fields();
            |f| == 24 + |d.direct| && Start(f, 2) == 4 && Start(f, 9) == 28 && Start(f, 12) == 40 &&
            f[2] == Field(d.sizeLow, 4) && f[9] == Field(d.sectorsUsed, 4)
  {
    var f := d.Fields();
    FrontOf(f, d);
    assert Start(f, 2) == Start(f, 1) + 2 == 4;
    assert Start(f, 4) == Start(f, 3) + 4 == 12;
    assert Start(f, 6) == Start(f, 5) + 4 == 20;
    assert Start(f, 8) == Start(f, 7) + 2 == 26;
    assert Start(f, 10) == Start(f, 9) + 4 == 32;
    assert Start(f, 12) == Start(f, 11) + 4 == 40;
  }

  lemma FrontOf(f: seq<Field>, d: DiskInode)
    requires f == d.Fields()
    ensures |f| == 24 + |d.direct| && f[..12] == d.Front()
    ensures forall k :: 0 <= k < 12 ==> f[k] == d.Front()[k]
  {
  }

  lemma MiddleOf(f: seq<Field>, d: DiskInode)
    requires f == d.Fields() && |d.direct| == DIRECT
    ensures |f| == 36
    ensures forall k :: 0 <= k < 12 ==> f[12 + k] == Field(d.direct[k], 4)
    ensures forall k :: 0 <= k < 12 ==> f[24 + k] == d.Back()[k]
  {
  }

  lemma {:induction false} BackStarts(d: DiskInode, f: seq<Field>)
    requires f == d.Fields() && |d.direct| == DIRECT
    ensures |f| == 36 && Start(f, 36) == INODE
  {
    MiddleOf(f, d);
    MiddleStarts(d, f, 15);
    assert Start(f, 28) == Start(f, 27) + 4 == 104;
    assert Start(f, 30) == Start(f, 29) + 4 == 112;
    assert Start(f, 32) == Start(f, 31) + 1 == 117;
    assert Start(f, 34) == Start(f, 33) + 2 == 120;
  }

  lemma {:induction false} MiddleStarts(d: DiskInode, f: seq<Field>, k: nat)
    requires f == d.Fields() && |d.direct| == DIRECT && k <= 15
    ensures |f| == 36 && Start(f, 12 + k) == 40 + 4 * k
    decreases k
  {
    MiddleOf(f, d);
    if k == 0 {
      FrontStarts(d);
    } else {
      MiddleStarts(d, f, k - 1);
      assert f[11 + k].width == 4;
    }
  }

  /** An inode given by its fields is read as what reading its file needs of them. */
  lemma {:induction false} InodeReads(bytes: seq<Byte>, d: DiskInode)
    requires |d.direct| == DIRECT && bytes == Laid(d.Fields())
    ensures |bytes| == INODE
    ensures ParseInode(bytes) == Inode(d.direct, d.singly, d.doubly, d.triply, d.sectorsUsed, d.sizeLow)
  {
    var f := d.Fields();
    BackStarts(d, f);
    LaidLength(f);
    assert bytes[0..|bytes|] == bytes;
    SizesRead(bytes, d, f);
    IndirectRead(bytes, d, f);
    forall k | 0 <= k < DIRECT
      ensures Le32(bytes, 40 + 4 * k) == d.direct[k]
    {
      DirectRead(bytes, d, f, k);
    }
  }

  lemma {:induction false} SizesRead(bytes: seq<Byte>, d: DiskInode, f: seq<Field>)
    requires f == d.Fields() && LiesAt(bytes, 0, f) && |bytes| == INODE
    ensures Le32(bytes, 4) == d.sizeLow && Le32(bytes, 28) == d.sectorsUsed
  {
    FrontStarts(d);
    ReadsWord(bytes, f, 2, 4, d.sizeLow);
    ReadsWord(bytes, f, 9, 28, d.sectorsUsed);
  }

  lemma {:induction false} DirectRead(bytes: seq<Byte>, d: DiskInode, f: seq<Field>, k: nat)
    requires f == d.Fields() && |d.direct| == DIRECT && LiesAt(bytes, 0, f) && |bytes| == INODE && k < DIRECT
    ensures Le32(bytes, 40 + 4 * k) == d.direct[k]
  {
    MiddleOf(f, d);
    MiddleStarts(d, f, k);
    ReadsWord(bytes, f, 12 + k, 40 + 4 * k, d.direct[k]);
  }

  lemma {:induction false} IndirectRead(bytes: seq<Byte>, d: DiskInode, f: seq<Field>)
    requires f == d.Fields() && |d.direct| == DIRECT && LiesAt(bytes, 0, f) && |bytes| == INODE
    ensures Le32(bytes, 88) == d.singly && Le32(bytes, 92) == d.doubly && Le32(bytes, 96) == d.triply
  {
    MiddleOf(f, d);
    MiddleStarts(d, f, 12);
    MiddleStarts(d, f, 13);
    MiddleStarts(d, f, 14);
    assert f[24] == d.Back()[0] && f[25] == d.Back()[1] && f[26] == d.Back()[2];
    ReadsWord(bytes, f, 24, 88, d.singly);
    ReadsWord(bytes, f, 25, 92, d.doubly);
    ReadsWord(bytes, f, 26, 96, d.triply);
  }

  lemma {:induction false} ReadsWord(bytes: seq<Byte>, f: seq<Field>, k: nat, start: nat, value: U32)
    requires LiesAt(bytes, 0, f) && k < |f| && f[k] == Field(value, 4) && Start(f, k) == start
    ensures start + 4 <= |bytes| && Le32(bytes, start) == value
  {
    Reads32(bytes, 0, f, k, start);
    NoTurn(value);
  }

  datatype GroupDescriptor = GroupDescriptor(blockBitmap: U32, inodeBitmap: U32, inodeTable: U32, unallocatedBlocks: U16,
                                             unallocatedInodes: U16, directories: U16, padding: nat) {
    function Fields(): seq<Field> {
      [Field(blockBitmap, 4), Field(inodeBitmap, 4), Field(inodeTable, 4), Field(unallocatedBlocks, 2),
       Field(unallocatedInodes, 2), Field(directories, 2), Field(padding, 14)]
    }
  }

  /** The block of the inode table, where GetInode looks for it in a group's descriptor. */
  lemma {:induction false} DescriptorReads(bytes: seq<Byte>, d: GroupDescriptor)
    requires bytes == Laid(d.Fields())
    ensures |bytes| == DESCRIPTOR && Le32(bytes, 8) == d.inodeTable
  {
    var f := d.Fields();
    assert Start(f, 2) == Start(f, 1) + 4 == 8;
    assert Start(f, 4) == Start(f, 3) + 2 == 14;
    assert Start(f, 6) == Start(f, 5) + 2 == 18;
    LaidLength(f);
    assert bytes[0..|bytes|] == bytes;
    ReadsWord(bytes, f, 2, 8, d.inodeTable);
  }

  /** The descriptors start in the block after the one the superblock, at byte 1024, is in. */
  lemma {:induction false} TableAfterSuperblock(v: Volume)
    ensures TableStart(v.BlockSize()) == 1024 / v.BlockSize() + 1
  {
    var size := v.BlockSize();
    if size == 1024 {
      DivModUnique(1024, size, 1, 0);
    } else {
      DivModUnique(1024, size, 0, 1024);
    }
  }

  /** Inode number i, from 1 on, is entry i - 1 of the tables of all groups, one after the other. */
  lemma {:induction false} InodeIsEntry(sb: Superblock, tables: seq<seq<Byte>>, inode: U32, size: nat)
    requires sb.inodesPerGroup > 0 && inode >= 1 && size == (if sb.versionMajor == 0 then 128 else sb.inodeSize)
    requires Uniform(tables, Offset(sb.inodesPerGroup, size)) && Group(sb, inode) < |tables|
    ensures sb.InodeSize() == size && Offset(Index(sb, inode), size) + size <= |tables[Group(sb, inode)]|
    ensures LiesIn(Join(tables), Offset(inode - 1, size),
                   tables[Group(sb, inode)][Offset(Index(sb, inode), size)..Offset(Index(sb, inode), size) + size])
  {
    var g, k, n := Group(sb, inode), Index(sb, inode), sb.inodesPerGroup;
    NumberFromGroup(sb, inode, inode);
    OffsetMono(k + 1, n, size);
    JoinRange(tables, Offset(n, size), g, Offset(k, size), size);
    OffsetTwice(g, n, size);
    OffsetAdd(g * n, k, size);
  }

  lemma {:induction false} OffsetTwice(g: nat, n: nat, size: nat)
    ensures g * n >= 0 && Offset(g, Offset(n, size)) == Offset(g * n, size)
    decreases g
  {
    Product(g, n);
    if g > 0 {
      OffsetTwice(g - 1, n, size);
      assert g * n == (g - 1) * n + n;
      OffsetAdd((g - 1) * n, n, size);
    }
  }
}
