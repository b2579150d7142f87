/** FAT32 cluster chains on the bytes of a disk: Microsoft FAT32 File System Specification 1.03,
    section "FAT Data Structure". */
module FatChain {
  import opened Bits
  import opened ByteSeq
  import opened Gpt

  /** Cluster numbers from here on end a chain. */
  const END_OF_CHAIN := 0x0FFF_FFF7

  /** `e & 0x0FFFFFFF` keeps the low 28 bits. */
  function Masked(e: U32): (r: U32)
    ensures r == e % 0x1000_0000
  {
    MaskKeepsLow28(e);
    BitAnd(e, 0x0FFF_FFFF)
  }

  lemma {:induction false} MaskKeepsLow28(e: nat)
    ensures BitAnd(e, 0x0FFF_FFFF) == e % 0x1000_0000
  {
    AndOnes(e, 28);
    Powers();
    assert Pow2(28) == 0x1000_0000;
  }

  /** Where in its sector a cluster's entry is. */
  function EntryOffset(cluster: U32): (r: nat)
    ensures r + 4 <= 512
  {
    EntryFits(cluster);
    Wrap32(cluster * 4) % 512
  }

  lemma {:induction false} EntryFits(cluster: U32)
    ensures Wrap32(cluster * 4) % 512 + 4 <= 512
  {
    var u := cluster % 0x4000_0000;
    Wrap32IsMod(cluster * 4);
    DivModUnique(cluster * 4, 0x1_0000_0000, cluster / 0x4000_0000, 4 * u);
    FourSteps(u);
  }

  lemma {:induction false} FourSteps(u: nat)
    requires u < 0x4000_0000
    ensures 4 * u % 512 + 4 <= 512
  {
    DivModUnique(4 * u, 512, u / 128, 4 * (u % 128));
  }

  datatype BootSector = BootSector(reservedSectors: U16, fats: U8, sectorsPerFat16: U16, sectorsPerFat32: U32,
                                   sectorsPerCluster: U8)

  /** A FAT volume seen as what its clusters hold and which cluster follows which. */
  datatype View = View(size: nat, next: U32 -> U32, content: U32 -> seq<Byte>) {
    function Contents(cs: seq<U32>): (r: seq<seq<Byte>>)
      ensures |r| == |cs| && forall k :: 0 <= k < |cs| ==> r[k] == content(cs[k])
    {
      seq(|cs|, k requires 0 <= k < |cs| => content(cs[k]))
    }

    /** The contents of clusters, one after the other. */
    function Data(cs: seq<U32>): seq<Byte> { Join(Contents(cs)) }

    /** The clusters that `want` bytes from cluster `c` on take up: as many as are needed, fewer
        if the chain ends before. A chain that runs in a circle goes on for ever. */
    function Chain(c: U32, want: nat): seq<U32>
      requires size > 0
      decreases want
    {
      if want == 0 || c >= END_OF_CHAIN then []
      else [c] + Chain(next(c), want - Min(want, size))
    }

    /** Every cluster of the list lies on the disk. */
    ghost predicate Full(cs: seq<U32>) { Uniform(Contents(cs), size) }
  }

  /** How many of the clusters can be read before the first that cannot. */
  function Reach(readable: U32 -> bool, cs: seq<U32>): (n: nat)
    ensures n <= |cs|
  {
    if cs == [] || !readable(cs[0]) then 0 else 1 + Reach(readable, cs[1..])
  }

  /** Those clusters. */
  function Reached(readable: U32 -> bool, cs: seq<U32>): seq<U32> { cs[..Reach(readable, cs)] }

  datatype Volume = Volume(partition: Partition, bpb: BootSector) {
    function FatSize(): U32 {
      if bpb.sectorsPerFat16 == 0 then bpb.sectorsPerFat32 else bpb.sectorsPerFat16
    }

    /** `reserved_sectors + fats * fat_size` in 32-bit arithmetic, as everywhere below. */
    function FirstDataSector(): U32 { Wrap32(bpb.reservedSectors + Offset(bpb.fats, FatSize())) }

    /** `(cluster - 2) * sectors_per_cluster + first_data_sector` */
    function FirstSector(cluster: U32): U32 {
      Wrap32(Offset(Wrap32(cluster - 2), bpb.sectorsPerCluster) + FirstDataSector())
    }

    function ClusterBytes(): nat { bpb.sectorsPerCluster * 512 }

    /** Where on the disk a sector of the partition is. */
    function OnDisk(sector: U32): U64 { AddU64(partition.startSector, sector) }

    function FatSector(cluster: U32): U32 { Wrap32(bpb.reservedSectors + Wrap32(cluster * 4) / 512) }

    /** The successor of a cluster according to the FAT: the low 28 bits of its entry. */
    function Next(bytes: seq<Byte>, cluster: U32): U32 {
      var s := OnDisk(FatSector(cluster));
      if 512 * (s + 1) <= |bytes| then Masked(Le32(Sectors(bytes, s, 1), EntryOffset(cluster))) else 0
    }

    predicate EntryReadable(bytes: seq<Byte>, bad: set<nat>, cluster: U32) {
      Within(bytes, bad, OnDisk(FatSector(cluster)), 1)
    }

    predicate Readable(bytes: seq<Byte>, bad: set<nat>, cluster: U32) {
      Within(bytes, bad, OnDisk(FirstSector(cluster)), bpb.sectorsPerCluster)
    }

    /** A cluster's contents. */
    function Content(bytes: seq<Byte>, cluster: U32): seq<Byte> {
      var s := OnDisk(FirstSector(cluster));
      if 512 * (s + bpb.sectorsPerCluster) <= |bytes| then Sectors(bytes, s, bpb.sectorsPerCluster) else []
    }

    function ViewOf(bytes: seq<Byte>): View {
      View(ClusterBytes(), (c: U32) => Next(bytes, c), (c: U32) => Content(bytes, c))
    }

    function ReadableOn(bytes: seq<Byte>, bad: set<nat>): U32 -> bool { (c: U32) => Readable(bytes, bad, c) }
  }

  lemma {:induction false} ReachIs(readable: U32 -> bool, cs: seq<U32>)
    ensures forall k :: 0 <= k < Reach(readable, cs) ==> readable(cs[k])
    ensures Reach(readable, cs) < |cs| ==> !readable(cs[Reach(readable, cs)])
  {
    if cs != [] && readable(cs[0]) {
      ReachIs(readable, cs[1..]);
      forall k | 0 <= k < Reach(readable, cs)
        ensures readable(cs[k])
      {
        if k > 0 {
          assert cs[k] == cs[1..][k - 1];
        }
      }
    }
  }

  lemma {:induction false} DataLength(w: View, cs: seq<U32>)
    requires w.Full(cs)
    ensures |w.Data(cs)| == Offset(|cs|, w.size)
  {
    JoinLength(w.Contents(cs), w.size);
  }

  lemma {:induction false} DataAppend(w: View, done: seq<U32>, c: U32)
    requires w.Full(done) && |w.content(c)| == w.size
    ensures w.Full(done + [c]) && w.Data(done + [c]) == w.Data(done) + w.content(c)
    ensures |w.Data(done + [c])| == Offset(|done + [c]|, w.size)
  {
    assert w.Contents(done + [c]) == w.Contents(done) + [w.content(c)];
    JoinAppend(w.Contents(done), w.content(c));
    DataLength(w, done + [c]);
  }

  // ---- What a read of fewer bytes sees ----

  /** The clusters of a shorter read are the first ones of a longer read; if they are fewer, they
      hold all the bytes wanted. */
  lemma {:induction false} ShorterChain(w: View, c: U32, want: nat, more: nat)
    requires w.size > 0 && want <= more
    ensures w.Chain(c, want) <= w.Chain(c, more)
    ensures w.Chain(c, want) != w.Chain(c, more) ==> want <= Offset(|w.Chain(c, want)|, w.size)
    decreases want
  {
    if want > 0 && c < END_OF_CHAIN {
      var m, n := want - Min(want, w.size), more - Min(more, w.size);
      ShorterChain(w, w.next(c), m, n);
      var a, b := w.Chain(w.next(c), m), w.Chain(w.next(c), n);
      assert w.Chain(c, want) == [c] + a && w.Chain(c, more) == [c] + b;
    }
  }

  /** Hence a read returns the first min(want, chain length * cluster size) bytes of the chain,
      however much of the chain is looked at. */
  lemma {:induction false} ReadLength(w: View, c: U32, want: nat, more: nat)
    requires w.size > 0 && want <= more
    ensures Min(want, Offset(|w.Chain(c, want)|, w.size)) == Min(want, Offset(|w.Chain(c, more)|, w.size))
  {
    ShorterChain(w, c, want, more);
    OffsetMono(|w.Chain(c, want)|, |w.Chain(c, more)|, w.size);
  }

  /** A chain ends at the first number that names no cluster. */
  lemma {:induction false} ChainEnds(w: View, c: U32, want: nat)
    requires w.size > 0
    ensures w.Chain(c, want) == [] <==> want == 0 || c >= 0x0FFF_FFF7
    ensures w.Chain(c, want) != [] ==> w.Chain(c, want) == [c] + w.Chain(w.next(c), if want <= w.size then 0 else want - w.size)
  {
  }

  /** No cluster is needed that would not receive at least one byte. */
  lemma {:induction false} ChainIsNeeded(w: View, c: U32, want: nat, k: nat)
    requires w.size > 0 && k < |w.Chain(c, want)|
    ensures Offset(k, w.size) < want
    decreases k
  {
    if k > 0 {
      ChainIsNeeded(w, w.next(c), want - Min(want, w.size), k - 1);
    }
  }

  // ---- Where things are on the disk ----

  /** The sectors of one copy of the FAT: FAT32 volumes leave the 16-bit field at zero. */
  function FatSectors(bpb: BootSector): nat {
    if bpb.sectorsPerFat16 > 0 then bpb.sectorsPerFat16 else bpb.sectorsPerFat32
  }

  /** A volume as it lies on the disk, from the first byte of its partition on: the reserved sectors, the
      copies of the FAT, the clusters. Its sectors are counted in 32 bits, and those of the disk in 64. */
  ghost predicate LaidOut(v: Volume, bytes: seq<Byte>, reserved: seq<Byte>, copies: seq<seq<Byte>>, clusters: seq<seq<Byte>>) {
    && |reserved| == 512 * v.bpb.reservedSectors
    && |copies| == v.bpb.fats && Uniform(copies, 512 * FatSectors(v.bpb))
    && Uniform(clusters, 512 * v.bpb.sectorsPerCluster)
    && LiesIn(bytes, 512 * v.partition.startSector, reserved + Join(copies) + Join(clusters))
    && SectorsIn(v.bpb, |clusters|) < 0x1_0000_0000 && v.partition.startSector + SectorsIn(v.bpb, |clusters|) < TWO64
  }

  /** The sectors of a volume with that many clusters. */
  function SectorsIn(bpb: BootSector, clusters: nat): nat {
    bpb.reservedSectors + Offset(bpb.fats, FatSectors(bpb)) + Offset(clusters, bpb.sectorsPerCluster)
  }

  lemma {:induction false} OffsetInSectors(i: nat, n: nat)
    ensures Offset(i, 512 * n) == 512 * Offset(i, n)
  {
    if i > 0 {
      OffsetInSectors(i - 1, n);
    }
  }

  lemma {:induction false} PartLies(bytes: seq<Byte>, at: nat, a: seq<Byte>, b: seq<Byte>, c: seq<Byte>)
    requires LiesIn(bytes, at, a + b + c)
    ensures LiesIn(bytes, at + |a|, b) && LiesIn(bytes, at + |a| + |b|, c)
  {
    SubSlice(bytes, at, at + |a + b + c|, |a|, |b|);
    SubSlice(bytes, at, at + |a + b + c|, |a| + |b|, |c|);
    assert (a + b + c)[|a|..|a| + |b|] == b;
    assert (a + b + c)[|a| + |b|..|a| + |b| + |c|] == c;
  }

  /** Where on the disk a cluster of the volume starts. */
  lemma {:induction false} FirstSectorIs(v: Volume, clusters: nat, c: U32)
    requires SectorsIn(v.bpb, clusters) < 0x1_0000_0000 && v.partition.startSector + SectorsIn(v.bpb, clusters) < TWO64
    requires 2 <= c < clusters + 2
    ensures v.OnDisk(v.FirstSector(c)) == v.partition.startSector + SectorsIn(v.bpb, c - 2)
    ensures SectorsIn(v.bpb, c - 2) + v.bpb.sectorsPerCluster <= SectorsIn(v.bpb, clusters)
  {
    OffsetMono(c - 1, clusters, v.bpb.sectorsPerCluster);
  }

  /** Where the three parts start. */
  lemma {:induction false} PartsLie(v: Volume, bytes: seq<Byte>, reserved: seq<Byte>, copies: seq<seq<Byte>>, clusters: seq<seq<Byte>>)
    requires LaidOut(v, bytes, reserved, copies, clusters)
    ensures LiesIn(bytes, 512 * (v.partition.startSector + v.bpb.reservedSectors), Join(copies))
    ensures LiesIn(bytes, 512 * (v.partition.startSector + SectorsIn(v.bpb, 0)), Join(clusters))
  {
    PartLies(bytes, 512 * v.partition.startSector, reserved, Join(copies), Join(clusters));
    JoinLength(copies, 512 * FatSectors(v.bpb));
    OffsetInSectors(|copies|, FatSectors(v.bpb));
  }

  /** Cluster c, from 2 on, holds the (c - 2)-th piece of the data area. */
  lemma {:induction false} ContentIs(v: Volume, bytes: seq<Byte>, reserved: seq<Byte>, copies: seq<seq<Byte>>,
                                     clusters: seq<seq<Byte>>, c: U32)
    requires LaidOut(v, bytes, reserved, copies, clusters) && 2 <= c < |clusters| + 2
    ensures v.Content(bytes, c) == clusters[c - 2]
  {
    var n: nat, s: nat := v.bpb.sectorsPerCluster, v.OnDisk(v.FirstSector(c));
    PartsLie(v, bytes, reserved, copies, clusters);
    FirstSectorIs(v, |clusters|, c);
    OffsetInSectors(c - 2, n);
    PieceLies(bytes, 512 * (v.partition.startSector + SectorsIn(v.bpb, 0)), clusters, 512 * n, c - 2);
    SectorsAre(bytes, s, n, clusters[c - 2]);
  }

  lemma SectorsAre(bytes: seq<Byte>, s: nat, n: nat, part: seq<Byte>)
    requires LiesIn(bytes, 512 * s, part) && |part| == 512 * n
    ensures 512 * (s + n) <= |bytes| && Sectors(bytes, s, n) == part
  {
  }

  /** A piece of equal pieces that lie one after the other. */
  lemma {:induction false} PieceLies(bytes: seq<Byte>, at: nat, pieces: seq<seq<Byte>>, size: nat, k: nat)
    requires LiesIn(bytes, at, Join(pieces)) && Uniform(pieces, size) && k < |pieces|
    ensures LiesIn(bytes, at + Offset(k, size), pieces[k])
  {
    JoinRange(pieces, size, k, 0, size);
    SubSlice(bytes, at, at + |Join(pieces)|, Offset(k, size), size);
    assert pieces[k][0..size] == pieces[k];
  }

  /** What follows cluster c is the number in bytes 4c to 4c + 3 of the first copy of the FAT, modulo
      2^28. */
  lemma {:induction false} NextIs(v: Volume, bytes: seq<Byte>, reserved: seq<Byte>, copies: seq<seq<Byte>>,
                                  clusters: seq<seq<Byte>>, c: U32, e: U32)
    requires LaidOut(v, bytes, reserved, copies, clusters) && |copies| > 0
    requires 4 * c + 4 <= |copies[0]| && 4 * c < 0x1_0000_0000 && copies[0][4 * c..4 * c + 4] == Little(e, 4)
    ensures v.Next(bytes, c) == e % 0x1000_0000
  {
    PartsLie(v, bytes, reserved, copies, clusters);
    PieceLies(bytes, 512 * (v.partition.startSector + v.bpb.reservedSectors), copies, 512 * FatSectors(v.bpb), 0);
    OffsetMono(1, |copies|, FatSectors(v.bpb));
    NextInCopy(v, bytes, copies[0], FatSectors(v.bpb), c, e);
  }

  lemma {:induction false} NextInCopy(v: Volume, bytes: seq<Byte>, copy: seq<Byte>, fat: nat, c: U32, e: U32)
    requires LiesIn(bytes, 512 * (v.partition.startSector + v.bpb.reservedSectors), copy) && |copy| == 512 * fat
    requires v.bpb.reservedSectors + fat < 0x1_0000_0000 && v.partition.startSector + v.bpb.reservedSectors + fat < TWO64
    requires 4 * c + 4 <= |copy| && 4 * c < 0x1_0000_0000 && copy[4 * c..4 * c + 4] == Little(e, 4)
    ensures v.Next(bytes, c) == e % 0x1000_0000
  {
    var s, t := c / 128, c % 128;
    EntryPlace(v, fat, s, t, c);
    var sector := copy[512 * s..512 * s + 512];
    SectorLies(bytes, 512 * (v.partition.startSector + v.bpb.reservedSectors), copy, s);
    SubSlice(copy, 512 * s, 512 * s + 512, 4 * t, 4);
    assert sector[4 * t..4 * t + 4] == Little(e, 4);
    NextReads(v, bytes, c, sector, e);
  }

  /** A cluster on the volume can be read exactly if each of its sectors can, and so with the sector of
      its FAT entry. */
  lemma {:induction false} ReadableIs(v: Volume, bytes: seq<Byte>, bad: set<nat>, reserved: seq<Byte>, copies: seq<seq<Byte>>,
                                      clusters: seq<seq<Byte>>, c: U32)
    requires LaidOut(v, bytes, reserved, copies, clusters) && v.bpb.sectorsPerCluster > 0
    ensures 2 <= c < |clusters| + 2 ==>
              (v.Readable(bytes, bad, c) <==>
               forall s :: 0 <= s - v.partition.startSector - SectorsIn(v.bpb, c - 2) < v.bpb.sectorsPerCluster ==>
                 SectorReadable(bytes, bad, s))
    ensures 4 * c + 4 <= 512 * FatSectors(v.bpb) && 4 * c < 0x1_0000_0000 && |copies| > 0 ==>
              (v.EntryReadable(bytes, bad, c) <==>
               SectorReadable(bytes, bad, v.partition.startSector + v.bpb.reservedSectors + c / 128))
  {
    if 2 <= c < |clusters| + 2 {
      FirstSectorIs(v, |clusters|, c);
      ReadableSectors(bytes, bad, v.OnDisk(v.FirstSector(c)), v.bpb.sectorsPerCluster);
    }
    if 4 * c + 4 <= 512 * FatSectors(v.bpb) && 4 * c < 0x1_0000_0000 && |copies| > 0 {
      OffsetMono(1, |copies|, FatSectors(v.bpb));
      EntryPlace(v, FatSectors(v.bpb), c / 128, c % 128, c);
      ReadableSectors(bytes, bad, v.OnDisk(v.FatSector(c)), 1);
      assert SectorReadable(bytes, bad, v.OnDisk(v.FatSector(c))) <==> Within(bytes, bad, v.OnDisk(v.FatSector(c)), 1);
    }
  }

  lemma {:induction false} SectorLies(bytes: seq<Byte>, at: nat, part: seq<Byte>, s: nat)
    requires LiesIn(bytes, at, part) && 512 * s + 512 <= |part|
    ensures LiesIn(bytes, at + 512 * s, part[512 * s..512 * s + 512])
  {
    SubSlice(bytes, at, at + |part|, 512 * s, 512);
  }

  /** Entry c is the t-th of sector s of the FAT. */
  lemma {:induction false} EntryPlace(v: Volume, fat: nat, s: nat, t: nat, c: U32)
    requires s == c / 128 && t == c % 128 && 4 * c + 4 <= 512 * fat && 4 * c < 0x1_0000_0000
    requires v.bpb.reservedSectors + fat < 0x1_0000_0000 && v.partition.startSector + v.bpb.reservedSectors + fat < TWO64
    ensures s < fat && v.OnDisk(v.FatSector(c)) == v.partition.startSector + v.bpb.reservedSectors + s && EntryOffset(c) == 4 * t
  {
    DivModUnique(4 * c, 512, s, 4 * t);
  }

  lemma {:induction false} NextReads(v: Volume, bytes: seq<Byte>, c: U32, sector: seq<Byte>, e: U32)
    requires LiesIn(bytes, 512 * v.OnDisk(v.FatSector(c)), sector) && |sector| == 512
    requires sector[EntryOffset(c)..EntryOffset(c) + 4] == Little(e, 4)
    ensures v.Next(bytes, c) == e % 0x1000_0000
  {
    SectorsAre(bytes, v.OnDisk(v.FatSector(c)), 1, sector);
    Le32Reads(sector, EntryOffset(c), e);
    NoTurn(e);
  }
}
