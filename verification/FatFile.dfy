/** Open files of a FAT32 volume: reading, writing, and reading back. */
module FatFile {
  import opened Bits
  import opened ByteSeq
  import opened Gpt
  import opened FatChain
  import opened FatWrite
  import opened Fat

  /** What a write leaves: the disk, the count returned, and the size in the directory entry. */
  datatype Outcome = Outcome(bytes: seq<Byte>, written: nat, entrySize: nat)

  /** Writing the first `want` bytes of `inbuf` to the chain at `start`: its clusters are written up to the
      first that cannot be, and only if there is none such are they counted and is the size recorded. */
  ghost function WriteOf(v: Volume, bytes: seq<Byte>, bad: set<nat>, start: U32, inbuf: seq<Byte>, want: nat, entrySize: nat): Outcome
    requires v.ClusterBytes() > 0 && Min(want, v.ClusterBytes()) <= |inbuf|
  {
    var cs := v.ViewOf(bytes).Chain(start, want);
    var done := Reached(v.ReadableOn(bytes, bad), cs);
    if done == cs then Outcome(Written(v, bytes, cs, inbuf, want), Min(want, Offset(|cs|, v.ClusterBytes())), want)
    else Outcome(Written(v, bytes, done, inbuf, want), 0, entrySize)
  }

  /** The loop of fat32_write on the disk as it is. */
  method WriteData(v: Volume, start: U32, inbuf: seq<Byte>, want: nat, ghost entrySize: nat) returns (ok: bool, written: nat)
    requires v.ClusterBytes() > 0 && Min(want, v.ClusterBytes()) <= |inbuf|
    requires Writable(v, v.partition.disk.bytes, v.partition.disk.bad, v.ViewOf(v.partition.disk.bytes).Chain(start, want))
    modifies v.partition.disk
    ensures Outcome(v.partition.disk.bytes, written, if ok then want else entrySize)
         == WriteOf(v, old(v.partition.disk.bytes), v.partition.disk.bad, start, inbuf, want, entrySize)
  {
    ghost var bytes, bad := v.partition.disk.bytes, v.partition.disk.bad;
    ViewShows(v, bytes, bad);
    ok, written := WriteChain(v, start, inbuf, want, v.ViewOf(bytes), v.ReadableOn(bytes, bad));
  }

  class File {
    const volume: Volume
    const firstClusterLo: U16
    const firstClusterUp: U16
    const directory: bool
    const size: U32
    var seek: U32
    /** The size in the driver's copy of the directory entry. */
    var entrySize: U32

    /** Nothing in the driver moves the seek position of a FAT file. */
    ghost predicate Valid()
      reads this
    {
      seek == 0 && volume.ClusterBytes() > 0
    }

    /** The halves of the first cluster's number that the directory entry keeps. */
    function First(): U32 {
      firstClusterLo + firstClusterUp * 0x1_0000
    }

    ghost function View(): View
      reads volume.partition.disk
    {
      volume.ViewOf(volume.partition.disk.bytes)
    }

    ghost function Readable(): U32 -> bool
      reads volume.partition.disk
    {
      volume.ReadableOn(volume.partition.disk.bytes, volume.partition.disk.bad)
    }

    /** fat_open_fat_file */
    constructor (volume: Volume, lo: U16, up: U16, directory: bool, size: U32)
      requires volume.ClusterBytes() > 0
      ensures Valid() && this.volume == volume && firstClusterLo == lo && firstClusterUp == up
      ensures this.directory == directory && this.size == size && entrySize == size
    {
      this.volume, firstClusterLo, firstClusterUp, this.directory, this.size := volume, lo, up, directory, size;
      seek, entrySize := 0, size;
    }

    /** fat32_read_file: the first bytes of the chain, or 0 if one of the clusters they take up
        cannot be read. */
    method ReadFile(buffer: array<Byte>, request: U64) returns (written: nat)
      requires Valid() && Min(request, size) <= buffer.Length
      requires EntriesReadable(volume, volume.partition.disk.bytes, volume.partition.disk.bad, View().Chain(First(), Min(request, size)))
      modifies buffer
      ensures var want := Min(request, size);
              var cs := View().Chain(First(), want);
              if Reach(Readable(), cs) == |cs|
              then ReadSoFar(View(), cs, old(buffer[..]), buffer[..], written, want)
              else written == 0
    {
      var want := if request > size - seek then size - seek else request;
      ViewShows(volume, volume.partition.disk.bytes, volume.partition.disk.bad);
      written := ReadChain(volume, First(), want, buffer, View(), Readable());
    }

    /** fat32_write: the clusters that can be written before the first that cannot; only if there
        is none such is the directory entry's size set, and the open file's never is. */
    method Write(inbuf: seq<Byte>, request: U64) returns (written: nat)
      requires Valid() && Min(Min(request, size), volume.ClusterBytes()) <= |inbuf|
      requires Writable(volume, volume.partition.disk.bytes, volume.partition.disk.bad, View().Chain(First(), Min(request, size)))
      modifies volume.partition.disk, this`entrySize
      ensures Valid()
      ensures directory ==> written == 0 && volume.partition.disk.bytes == old(volume.partition.disk.bytes) && entrySize == old(entrySize)
      ensures !directory ==>
                Outcome(volume.partition.disk.bytes, written, entrySize) ==
                WriteOf(volume, old(volume.partition.disk.bytes), volume.partition.disk.bad, First(), inbuf, Min(request, size), old(entrySize))
    {
      if directory {
        return 0;
      }
      var want := if request > size - seek then size - seek else request;
      var ok;
      ok, written := WriteData(volume, First(), inbuf, want, entrySize);
      if ok {
        entrySize := want + seek;
      }
    }
  }

  // ---- Reading back ----

  lemma {:induction false} JoinFirst(pieces: seq<seq<Byte>>)
    requires pieces != []
    ensures Join(pieces) == pieces[0] + Join(pieces[1..])
  {
    var n := |pieces| - 1;
    if n > 0 {
      JoinFirst(pieces[..n]);
      assert pieces[..n][1..] == pieces[1..][..n - 1];
    } else {
      assert pieces[..n] == [] && pieces[1..] == [];
    }
  }

  lemma {:induction false} ReplaceFirst(before: seq<seq<Byte>>, after: seq<seq<Byte>>, data: seq<Byte>)
    requires before != [] && |after| == |before| && |data| <= |before[0]|
    requires after[0] == data + before[0][|data|..] && after[1..] == before[1..]
    ensures |data| <= |Join(before)| && Join(after) == data + Join(before)[|data|..]
  {
    JoinFirst(before);
    JoinFirst(after);
    assert (before[0] + Join(before[1..]))[|data|..] == before[0][|data|..] + Join(before[1..]);
  }

  /** After a write that fits in the first cluster the file consists of the bytes written and then
      what it held before, over its whole chain. */
  lemma {:induction false} FileAfterWrite(v: Volume, bytes: seq<Byte>, cs: seq<U32>, inbuf: seq<Byte>, want: nat)
    requires Sound(v) && cs != [] && AllInData(v, cs) && Distinct(cs) && v.ViewOf(bytes).Full(cs)
    requires want <= v.ClusterBytes() && want <= |inbuf|
    ensures |v.ViewOf(bytes).Data(cs)| >= want
    ensures v.ViewOf(Written(v, bytes, [cs[0]], inbuf, want)).Data(cs) == inbuf[..want] + v.ViewOf(bytes).Data(cs)[want..]
  {
    var after := Written(v, bytes, [cs[0]], inbuf, want);
    var old', new' := v.ViewOf(bytes).Contents(cs), v.ViewOf(after).Contents(cs);
    assert |old'[0]| == v.ClusterBytes();
    WrittenContents(v, bytes, [cs[0]], inbuf, want, 0);
    forall k | 1 <= k < |cs|
      ensures new'[k] == old'[k]
    {
      WrittenKeepsOthers(v, bytes, [cs[0]], inbuf, want, cs[k]);
    }
    assert new'[1..] == old'[1..];
    ReplaceFirst(old', new', inbuf[..want]);
  }

  /** What a write of at most one cluster followed by a read of the same open file returns: the
      bytes written, then the old rest. */
  lemma {:induction false} ReadAfterWrite(v: Volume, bytes: seq<Byte>, start: U32, inbuf: seq<Byte>, want: nat, more: nat)
    requires Sound(v) && 0 < want <= more && want <= v.ClusterBytes() && want <= |inbuf| && start < END_OF_CHAIN
    requires var cs := v.ViewOf(bytes).Chain(start, more);
             AllInData(v, cs) && AllInFat(v, cs) && Distinct(cs) && v.ViewOf(bytes).Full(cs)
    ensures v.ViewOf(bytes).Chain(start, want) == [start]
    ensures var after := Written(v, bytes, [start], inbuf, want);
            var cs := v.ViewOf(bytes).Chain(start, more);
            && v.ViewOf(after).Chain(start, more) == cs
            && |v.ViewOf(bytes).Data(cs)| >= want
            && v.ViewOf(after).Data(cs) == inbuf[..want] + v.ViewOf(bytes).Data(cs)[want..]
  {
    var cs := v.ViewOf(bytes).Chain(start, more);
    assert cs[0] == start;
    WrittenKeepsChain(v, bytes, [start], inbuf, want, start, more);
    FileAfterWrite(v, bytes, cs, inbuf, want);
  }

  /** Every cluster of the chain, and its entry in the FAT, can be read. */
  ghost predicate ChainReadable(v: Volume, bytes: seq<Byte>, bad: set<nat>, cs: seq<U32>) {
    EntriesReadable(v, bytes, bad, cs) && forall k :: 0 <= k < |cs| ==> v.Readable(bytes, bad, cs[k])
  }

  /** The clusters of a chain as a write followed by a read of the same file needs them. */
  ghost predicate Usable(v: Volume, bytes: seq<Byte>, bad: set<nat>, cs: seq<U32>) {
    && Sound(v) && AllInData(v, cs) && AllInFat(v, cs) && Distinct(cs)
    && v.ViewOf(bytes).Full(cs) && ChainReadable(v, bytes, bad, cs)
  }

  lemma {:induction false} AllReached(v: Volume, bytes: seq<Byte>, bad: set<nat>, cs: seq<U32>)
    requires ChainReadable(v, bytes, bad, cs)
    ensures Reach(v.ReadableOn(bytes, bad), cs) == |cs|
  {
    ReachIs(v.ReadableOn(bytes, bad), cs);
  }

  lemma {:induction false} ReachedAll(v: Volume, bytes: seq<Byte>, bad: set<nat>, cs: seq<U32>)
    requires ChainReadable(v, bytes, bad, cs)
    ensures Reached(v.ReadableOn(bytes, bad), cs) == cs
  {
    AllReached(v, bytes, bad, cs);
    assert cs[..|cs|] == cs;
  }

  /** What can be read depends on the size of the disk alone. */
  lemma {:induction false} StaysReadable(v: Volume, bytes: seq<Byte>, bad: set<nat>, cs: seq<U32>, after: seq<Byte>)
    requires ChainReadable(v, bytes, bad, cs) && |after| == |bytes|
    ensures ChainReadable(v, after, bad, cs)
  {
    forall k | 0 <= k < |cs|
      ensures v.Readable(after, bad, cs[k]) && v.EntryReadable(after, bad, cs[k])
    {
      assert v.Readable(bytes, bad, cs[k]) && v.EntryReadable(bytes, bad, cs[k]);
    }
  }

  /** A write of at most one cluster, then a read through the same open file: the bytes written, then the
      old rest, as far as the read asks for it. */
  method WriteThenRead(f: File, inbuf: seq<Byte>, request: U64, buffer: array<Byte>, more: U64) returns (written: nat, read: nat)
    requires f.Valid() && !f.directory && f.First() < END_OF_CHAIN
    requires 0 < request <= more && request <= f.volume.ClusterBytes() && request <= |inbuf| && request <= f.size
    requires Min(more, f.size) <= buffer.Length
    requires Usable(f.volume, f.volume.partition.disk.bytes, f.volume.partition.disk.bad, f.View().Chain(f.First(), Min(more, f.size)))
    modifies f.volume.partition.disk, f`entrySize, buffer
    ensures written == request && f.entrySize == request
    ensures var before := old(f.View()).Data(old(f.View()).Chain(f.First(), Min(more, f.size)));
            request <= |before| && read == Min(Min(more, f.size), |before|) &&
            buffer[..read] == (inbuf[..request] + before[request..])[..read]
  {
    ghost var v, bytes, bad := f.volume, f.volume.partition.disk.bytes, f.volume.partition.disk.bad;
    written := WriteFirst(f, inbuf, request, Min(more, f.size));
    ghost var cs := v.ViewOf(bytes).Chain(f.First(), Min(more, f.size));
    ReadAfterWrite(v, bytes, f.First(), inbuf, request, Min(more, f.size));
    ghost var after := Written(v, bytes, [f.First()], inbuf, request);
    StaysReadable(v, bytes, bad, cs, after);
    AllReached(v, after, bad, cs);
    read := f.ReadFile(buffer, more);
    DataLength(v.ViewOf(bytes), cs);
  }

  /** The write: its chain is the first cluster. */
  method WriteFirst(f: File, inbuf: seq<Byte>, request: U64, ghost more: nat) returns (written: nat)
    requires f.Valid() && !f.directory && f.First() < END_OF_CHAIN
    requires 0 < request <= more && request <= f.volume.ClusterBytes() && request <= |inbuf| && request <= f.size
    requires Usable(f.volume, f.volume.partition.disk.bytes, f.volume.partition.disk.bad, f.View().Chain(f.First(), more))
    modifies f.volume.partition.disk, f`entrySize
    ensures f.Valid() && written == request && f.entrySize == request
    ensures f.volume.partition.disk.bytes == Written(f.volume, old(f.volume.partition.disk.bytes), [f.First()], inbuf, request)
  {
    ghost var v, bytes, bad := f.volume, f.volume.partition.disk.bytes, f.volume.partition.disk.bad;
    ghost var cs := v.ViewOf(bytes).Chain(f.First(), more);
    ReadAfterWrite(v, bytes, f.First(), inbuf, request, more);
    assert cs[0] == f.First();
    ghost var one := [f.First()];
    assert v.ViewOf(bytes).Chain(f.First(), request) == one;
    assert ChainReadable(v, bytes, bad, one) by {
      assert v.Readable(bytes, bad, cs[0]) && v.EntryReadable(bytes, bad, cs[0]);
    }
    assert Offset(1, v.ClusterBytes()) == v.ClusterBytes();
    ReachedAll(v, bytes, bad, one);
    written := f.Write(inbuf, request);
  }

  lemma {:induction false} FirstCluster(f: File)
    ensures Little(f.First(), 4) == Little(f.firstClusterLo, 2) + Little(f.firstClusterUp, 2)
  {
    var n, lo, up := f.First(), f.firstClusterLo, f.firstClusterUp;
    FourBytes(n);
    HalvesApart(n, lo, up);
    assert Little(lo / 256, 1) == [lo / 256 % 256] && Little(up / 256, 1) == [up / 256 % 256];
  }

  lemma {:induction false} HalvesApart(n: nat, lo: U16, up: U16)
    requires n == lo + up * 0x1_0000
    ensures n % 256 == lo % 256 && n / 256 % 256 == lo / 256 && n / 256 / 256 == up
  {
    DivModUnique(n, 256, lo / 256 + 256 * up, lo % 256);
    DivModUnique(n / 256, 256, up, lo / 256);
  }
}
