/** Reading and writing files of a FAT32 volume, cluster by cluster. */
module Fat {
  import opened Bits
  import opened ByteSeq
  import opened Gpt
  import opened FatChain
  import opened FatWrite

  /** fat32_next_cluster: 28 bits of the cluster's entry, or of whatever the sector buffer held if
      the FAT could not be read. */
  method NextCluster(v: Volume, cluster: U32) returns (next: U32)
    ensures next < 0x1000_0000
    ensures v.EntryReadable(v.partition.disk.bytes, v.partition.disk.bad, cluster) ==>
              next == v.Next(v.partition.disk.bytes, cluster)
  {
    var stale := new Byte[512];
    var readSuccess, fatTable := ReadPartition(v.partition, v.FatSector(cluster), 1);
    if !readSuccess {
      fatTable := stale[..];
    }
    next := Masked(Le32(fatTable, EntryOffset(cluster)));
  }

  /** The disk is as the view says: what cluster `c` holds, whether it can be read, and, if the
      FAT can be read there, what follows it. */
  ghost predicate ShowsCluster(v: Volume, bytes: seq<Byte>, bad: set<nat>, w: View, readable: U32 -> bool, c: U32) {
    && w.content(c) == v.Content(bytes, c) && readable(c) == v.Readable(bytes, bad, c)
    && w.next(c) == v.Next(bytes, c)
  }

  ghost predicate Shows(v: Volume, bytes: seq<Byte>, bad: set<nat>, w: View, readable: U32 -> bool) {
    && w.size == v.ClusterBytes()
    && (forall c: U32 {:trigger ShowsCluster(v, bytes, bad, w, readable, c)} :: ShowsCluster(v, bytes, bad, w, readable, c))
  }

  lemma ViewShows(v: Volume, bytes: seq<Byte>, bad: set<nat>)
    ensures Shows(v, bytes, bad, v.ViewOf(bytes), v.ReadableOn(bytes, bad))
  {
  }

  /** The FAT can be read wherever a chain needs it. */
  ghost predicate EntriesReadable(v: Volume, bytes: seq<Byte>, bad: set<nat>, cs: seq<U32>) {
    forall k :: 0 <= k < |cs| ==> v.EntryReadable(bytes, bad, cs[k])
  }

  method LoadCluster(v: Volume, cluster: U32, ghost w: View, ghost readable: U32 -> bool) returns (ok: bool, data: seq<Byte>)
    requires Shows(v, v.partition.disk.bytes, v.partition.disk.bad, w, readable)
    ensures ok == readable(cluster)
    ensures ok ==> data == w.content(cluster) && |data| == w.size
  {
    assert ShowsCluster(v, v.partition.disk.bytes, v.partition.disk.bad, w, readable, cluster);
    ok, data := ReadPartition(v.partition, v.FirstSector(cluster), v.bpb.sectorsPerCluster);
  }

  method Follow(v: Volume, ghost cs: seq<U32>, ghost k: nat, cluster: U32, ghost w: View, ghost readable: U32 -> bool) returns (next: U32)
    requires Shows(v, v.partition.disk.bytes, v.partition.disk.bad, w, readable)
    requires EntriesReadable(v, v.partition.disk.bytes, v.partition.disk.bad, cs) && k < |cs| && cs[k] == cluster
    ensures next == w.next(cluster)
  {
    assert ShowsCluster(v, v.partition.disk.bytes, v.partition.disk.bad, w, readable, cluster);
    next := NextCluster(v, cluster);
  }

  // ---- Reading ----

  /** The first `written` of the `want` bytes asked for are in the buffer, those of the clusters
      `done`, and nothing after them changed. */
  ghost predicate ReadSoFar(w: View, done: seq<U32>, origin: seq<Byte>, buffer: seq<Byte>, written: nat, want: nat) {
    && w.Full(done)
    && written == Min(want, Offset(|done|, w.size)) <= |w.Data(done)|
    && TailKept(origin, buffer, written) && buffer[..written] == w.Data(done)[..written]
  }

  lemma {:induction false} ReadStep(w: View, done: seq<U32>, c: U32, origin: seq<Byte>, before: seq<Byte>, after: seq<Byte>,
                                    written: nat, n: nat, want: nat)
    requires ReadSoFar(w, done, origin, before, written, want) && written < want
    requires |w.content(c)| == w.size && n == Min(want - written, w.size)
    requires written + n <= |before| && after == before[..written] + w.content(c)[..n] + before[written + n..]
    ensures ReadSoFar(w, done + [c], origin, after, written + n, want)
  {
    DataLength(w, done);
    PieceAppended(w.Data(done), w.content(c), before, after, n);
    TailKeptTrans(origin, before, after, written, written + n);
    DataAppend(w, done, c);
  }

  /** Where a loop over a chain stands: the clusters `done` are behind it, `cluster` is next. */
  ghost predicate Walking(w: View, readable: U32 -> bool, cs: seq<U32>, done: seq<U32>, cluster: U32, written: nat, want: nat) {
    && w.size > 0 && written <= want
    && done + w.Chain(cluster, want - written) == cs
    && written == Min(want, Offset(|done|, w.size)) && |done| <= Reach(readable, cs)
  }

  lemma {:induction false} WalkMeets(w: View, readable: U32 -> bool, cs: seq<U32>, done: seq<U32>, cluster: U32, written: nat, want: nat)
    requires Walking(w, readable, cs, done, cluster, written, want)
    ensures written <= want && cs[..|done|] == done
    ensures cluster < END_OF_CHAIN && written < want ==> |done| < |cs| && cs[|done|] == cluster
    ensures cluster < END_OF_CHAIN && written < want && !readable(cluster) ==> Reach(readable, cs) == |done|
    ensures cluster >= END_OF_CHAIN || written == want ==> done == cs && Reach(readable, cs) == |cs| && Reached(readable, cs) == cs
    ensures cluster < END_OF_CHAIN && written < want && !readable(cluster) ==> Reached(readable, cs) == done
  {
    ReachIs(readable, cs);
    assert cs[..|cs|] == cs;
  }

  lemma {:induction false} WalkStep(w: View, readable: U32 -> bool, cs: seq<U32>, done: seq<U32>, cluster: U32, written: nat, want: nat)
    requires Walking(w, readable, cs, done, cluster, written, want)
    requires cluster < END_OF_CHAIN && written < want && readable(cluster)
    ensures Walking(w, readable, cs, done + [cluster], w.next(cluster), written + Min(want - written, w.size), want)
  {
    ReachIs(readable, cs);
    var rest := w.Chain(w.next(cluster), want - written - Min(want - written, w.size));
    assert done + ([cluster] + rest) == (done + [cluster]) + rest;
    assert cs[|done|] == cluster;
  }

  /** The loop of fat32_read_file, from the file's first cluster on. */
  method ReadChain(v: Volume, start: U32, want: nat, buffer: array<Byte>, ghost w: View, ghost readable: U32 -> bool)
    returns (written: nat)
    requires w.size > 0 && want <= buffer.Length
    requires Shows(v, v.partition.disk.bytes, v.partition.disk.bad, w, readable)
    requires EntriesReadable(v, v.partition.disk.bytes, v.partition.disk.bad, w.Chain(start, want))
    modifies buffer
    ensures if Reach(readable, w.Chain(start, want)) == |w.Chain(start, want)|
            then ReadSoFar(w, w.Chain(start, want), old(buffer[..]), buffer[..], written, want)
            else written == 0
  {
    var cluster: U32 := start;
    ghost var bytes, bad := v.partition.disk.bytes, v.partition.disk.bad;
    ghost var cs := w.Chain(start, want);
    ghost var done: seq<U32> := [];
    ghost var origin := buffer[..];
    written := 0;
    while cluster < END_OF_CHAIN && written < want
      invariant written <= want && v.partition.disk.bytes == bytes
      invariant Walking(w, readable, cs, done, cluster, written, want)
      invariant ReadSoFar(w, done, origin, buffer[..], written, want)
      decreases want - written
    {
      var readSuccess, readSoFar;
      readSuccess, readSoFar, cluster, done := ReadRound(v, cluster, buffer, written, want, w, readable, cs, done, origin);
      if !readSuccess {
        return 0;
      }
      written := readSoFar;
    }
    WalkMeets(w, readable, cs, done, cluster, written, want);
  }

  /** One round of the loop: a cluster is read, and its successor looked up. */
  method ReadRound(v: Volume, cluster: U32, buffer: array<Byte>, written: nat, want: nat, ghost w: View, ghost readable: U32 -> bool,
                   ghost cs: seq<U32>, ghost done: seq<U32>, ghost origin: seq<Byte>)
    returns (ok: bool, written': nat, next: U32, ghost done': seq<U32>)
    requires Shows(v, v.partition.disk.bytes, v.partition.disk.bad, w, readable)
    requires EntriesReadable(v, v.partition.disk.bytes, v.partition.disk.bad, cs)
    requires Walking(w, readable, cs, done, cluster, written, want) && ReadSoFar(w, done, origin, buffer[..], written, want)
    requires cluster < END_OF_CHAIN && written < want <= buffer.Length
    modifies buffer
    ensures !ok ==> Reach(readable, cs) < |cs|
    ensures ok ==> written < written' <= want
    ensures ok ==> Walking(w, readable, cs, done', next, written', want)
    ensures ok ==> ReadSoFar(w, done', origin, buffer[..], written', want)
  {
    written', next, done' := written, cluster, done + [cluster];
    WalkMeets(w, readable, cs, done, cluster, written, want);
    var readBuf;
    ok, readBuf := LoadCluster(v, cluster, w, readable);
    if ok {
      var bytesPerCluster := v.bpb.sectorsPerCluster * 512;
      var readSize := if want - written < bytesPerCluster then want - written else bytesPerCluster;
      ReceiveCluster(w, done, cluster, readBuf, origin, buffer, written, readSize, want);
      WalkStep(w, readable, cs, done, cluster, written, want);
      next := Follow(v, cs, |done|, cluster, w, readable);
      written' := written + readSize;
    }
  }

  /** memcpy of what was read of one cluster. */
  method ReceiveCluster(ghost w: View, ghost done: seq<U32>, ghost c: U32, readBuf: seq<Byte>, ghost origin: seq<Byte>,
                        buffer: array<Byte>, written: nat, n: nat, ghost want: nat)
    requires ReadSoFar(w, done, origin, buffer[..], written, want) && written < want <= buffer.Length
    requires readBuf == w.content(c) && |readBuf| == w.size && n == Min(want - written, w.size)
    modifies buffer
    ensures ReadSoFar(w, done + [c], origin, buffer[..], written + n, want)
  {
    ghost var before := buffer[..];
    forall k | 0 <= k < n {
      buffer[written + k] := readBuf[k];
    }
    assert buffer[..] == before[..written] + readBuf[..n] + before[written + n..];
    ReadStep(w, done, c, origin, before, buffer[..], written, n, want);
  }

  // ---- Writing ----

  lemma {:induction false} WrittenAppend(v: Volume, bytes: seq<Byte>, done: seq<U32>, c: U32, inbuf: seq<Byte>, want: nat)
    requires Min(want, v.ClusterBytes()) <= |inbuf|
    ensures Written(v, bytes, done + [c], inbuf, want)
         == Put(v, Written(v, bytes, done, inbuf, want), c, inbuf[..Width(v, |done|, want)])
  {
    assert (done + [c])[..|done|] == done;
  }

  /** The preconditions of a write: its chain lies in the data region and its entries in the FAT. */
  ghost predicate Writable(v: Volume, bytes: seq<Byte>, bad: set<nat>, cs: seq<U32>) {
    Sound(v) && AllInData(v, cs) && AllInFat(v, cs) && EntriesReadable(v, bytes, bad, cs)
  }

  /** gpt_write_partition_offset at the start of a cluster. */
  method StoreCluster(v: Volume, cluster: U32, inbuf: seq<Byte>, writeSize: nat) returns (ok: bool)
    requires writeSize <= |inbuf| && writeSize <= v.ClusterBytes()
    modifies v.partition.disk
    ensures ok == v.Readable(old(v.partition.disk.bytes), v.partition.disk.bad, cluster)
    ensures v.partition.disk.bytes
         == if ok then Put(v, old(v.partition.disk.bytes), cluster, inbuf[..writeSize]) else old(v.partition.disk.bytes)
  {
    ok := WritePartitionOffset(v.partition, v.FirstSector(cluster), 0, v.bpb.sectorsPerCluster, inbuf, writeSize);
  }

  method StoreNext(v: Volume, cluster: U32, inbuf: seq<Byte>, writeSize: nat, ghost want: nat, ghost w: View, ghost readable: U32 -> bool,
                   ghost done: seq<U32>, ghost origin: seq<Byte>)
    returns (ok: bool)
    requires Shows(v, origin, v.partition.disk.bad, w, readable)
    requires Min(want, v.ClusterBytes()) <= |inbuf| && writeSize == Width(v, |done|, want) <= |inbuf|
    requires v.partition.disk.bytes == Written(v, origin, done, inbuf, want)
    modifies v.partition.disk
    ensures ok == readable(cluster)
    ensures v.partition.disk.bytes == Written(v, origin, if ok then done + [cluster] else done, inbuf, want)
  {
    assert ShowsCluster(v, origin, v.partition.disk.bad, w, readable, cluster);
    WrittenAppend(v, origin, done, cluster, inbuf, want);
    ok := StoreCluster(v, cluster, inbuf, writeSize);
  }

  /** The FAT, as it was before the write, still says what follows a cluster. */
  method FollowWritten(v: Volume, ghost cs: seq<U32>, ghost k: nat, cluster: U32, ghost origin: seq<Byte>, ghost inbuf: seq<Byte>,
                       ghost want: nat, ghost w: View, ghost readable: U32 -> bool)
    returns (next: U32)
    requires Shows(v, origin, v.partition.disk.bad, w, readable)
    requires Writable(v, origin, v.partition.disk.bad, cs) && k < |cs| && cs[k] == cluster
    requires Min(want, v.ClusterBytes()) <= |inbuf|
    requires v.partition.disk.bytes == Written(v, origin, cs[..k + 1], inbuf, want)
    ensures next == w.next(cluster)
  {
    assert ShowsCluster(v, origin, v.partition.disk.bad, w, readable, cluster);
    assert AllInData(v, cs[..k + 1]);
    WrittenKeepsFat(v, origin, cs[..k + 1], inbuf, want, cluster);
    assert v.EntryReadable(origin, v.partition.disk.bad, cs[k]);
    next := NextCluster(v, cluster);
  }

  /** One round of the loop of fat32_write. */
  method WriteRound(v: Volume, cluster: U32, inbuf: seq<Byte>, written: nat, want: nat, ghost w: View, ghost readable: U32 -> bool,
                    ghost cs: seq<U32>, ghost done: seq<U32>, ghost origin: seq<Byte>)
    returns (ok: bool, written': nat, next: U32, ghost done': seq<U32>)
    requires Shows(v, origin, v.partition.disk.bad, w, readable) && Writable(v, origin, v.partition.disk.bad, cs)
    requires Walking(w, readable, cs, done, cluster, written, want) && Min(want, v.ClusterBytes()) <= |inbuf|
    requires cluster < END_OF_CHAIN && written < want
    requires v.partition.disk.bytes == Written(v, origin, done, inbuf, want)
    modifies v.partition.disk
    ensures !ok ==> Reached(readable, cs) != cs && v.partition.disk.bytes == Written(v, origin, Reached(readable, cs), inbuf, want)
    ensures ok ==> written < written' <= want
    ensures ok ==> Walking(w, readable, cs, done', next, written', want)
    ensures ok ==> v.partition.disk.bytes == Written(v, origin, done', inbuf, want)
  {
    written', next, done' := written, cluster, done + [cluster];
    var bytesPerCluster := v.bpb.sectorsPerCluster * 512;
    WalkMeets(w, readable, cs, done, cluster, written, want);
    var writeSize := if want - written < bytesPerCluster then want - written else bytesPerCluster;
    ok := StoreNext(v, cluster, inbuf, writeSize, want, w, readable, done, origin);
    if ok {
      WalkStep(w, readable, cs, done, cluster, written, want);
      assert cs[..|done| + 1] == done + [cluster];
      next := FollowWritten(v, cs, |done|, cluster, origin, inbuf, want, w, readable);
      written' := written + writeSize;
    }
  }

  /** The loop of fat32_write, from the file's first cluster on. */
  method WriteChain(v: Volume, start: U32, inbuf: seq<Byte>, want: nat, ghost w: View, ghost readable: U32 -> bool)
    returns (ok: bool, written: nat)
    requires w.size > 0 && Min(want, v.ClusterBytes()) <= |inbuf|
    requires Shows(v, v.partition.disk.bytes, v.partition.disk.bad, w, readable)
    requires Writable(v, v.partition.disk.bytes, v.partition.disk.bad, w.Chain(start, want))
    modifies v.partition.disk
    ensures ok == (Reached(readable, w.Chain(start, want)) == w.Chain(start, want))
    ensures v.partition.disk.bytes == Written(v, old(v.partition.disk.bytes), Reached(readable, w.Chain(start, want)), inbuf, want)
    ensures written == if ok then Min(want, Offset(|w.Chain(start, want)|, w.size)) else 0
  {
    var cluster: U32 := start;
    ghost var origin := v.partition.disk.bytes;
    ghost var cs := w.Chain(start, want);
    ghost var done: seq<U32> := [];
    written := 0;
    while cluster < END_OF_CHAIN && written < want
      invariant written <= want && v.partition.disk.bytes == Written(v, origin, done, inbuf, want)
      invariant Walking(w, readable, cs, done, cluster, written, want)
      decreases want - written
    {
      ok, written, cluster, done := WriteRound(v, cluster, inbuf, written, want, w, readable, cs, done, origin);
      if !ok {
        return false, 0;
      }
    }
    WalkMeets(w, readable, cs, done, cluster, written, want);
    ok := true;
  }
}
