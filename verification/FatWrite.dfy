/** What writing to the clusters of a file does to the disk: to those clusters, and to nothing
    else. */
module FatWrite {
  import opened Bits
  import opened ByteSeq
  import opened Gpt
  import opened FatChain

  /** The volume's sector arithmetic does not wrap. */
  ghost predicate Sound(v: Volume) {
    v.bpb.sectorsPerCluster > 0 && v.bpb.reservedSectors + Offset(v.bpb.fats, v.FatSize()) < 0x1_0000_0000 &&
    v.partition.startSector + 0x1_0000_0000 <= TWO64
  }

  /** A cluster of the data region. */
  ghost predicate InData(v: Volume, c: U32) {
    2 <= c && Offset(c - 2, v.bpb.sectorsPerCluster) + v.FirstDataSector() + v.bpb.sectorsPerCluster <= 0x1_0000_0000
  }

  /** A cluster whose entry is in front of the data region. */
  ghost predicate InFat(v: Volume, c: U32) {
    v.FatSector(c) < v.FirstDataSector()
  }

  lemma ClusterPlace(v: Volume, c: U32)
    requires Sound(v) && InData(v, c)
    ensures v.OnDisk(v.FirstSector(c)) == v.partition.startSector + v.FirstDataSector() + Offset(c - 2, v.bpb.sectorsPerCluster)
  {
  }

  /** Sectors s .. s + n and t .. t + m have none in common. */
  predicate Apart(s: nat, n: nat, t: nat, m: nat) { s + n <= t || t + m <= s }

  lemma {:induction false} ClustersApart(v: Volume, c: U32, d: U32)
    requires Sound(v) && InData(v, c) && InData(v, d) && c != d
    ensures Apart(v.OnDisk(v.FirstSector(c)), v.bpb.sectorsPerCluster, v.OnDisk(v.FirstSector(d)), v.bpb.sectorsPerCluster)
  {
    ClusterPlace(v, c);
    ClusterPlace(v, d);
    if c < d {
      OffsetMono(c - 1, d - 2, v.bpb.sectorsPerCluster);
    } else {
      OffsetMono(d - 1, c - 2, v.bpb.sectorsPerCluster);
    }
  }

  lemma {:induction false} FatApart(v: Volume, c: U32, d: U32)
    requires Sound(v) && InData(v, c) && InFat(v, d)
    ensures Apart(v.OnDisk(v.FirstSector(c)), v.bpb.sectorsPerCluster, v.OnDisk(v.FatSector(d)), 1)
  {
    ClusterPlace(v, c);
  }

  /** `data` written from the start of cluster `c` on. */
  function Put(v: Volume, bytes: seq<Byte>, c: U32, data: seq<Byte>): (r: seq<Byte>)
    ensures |r| == |bytes|
  {
    var at := 512 * (v.OnDisk(v.FirstSector(c)) as nat);
    if at + |data| <= |bytes| then Overwrite(bytes, at, data) else bytes
  }

  lemma OverwriteApart(bytes: seq<Byte>, at: nat, data: seq<Byte>, i: nat, j: nat)
    requires at + |data| <= |bytes| && i <= j <= |bytes| && (j <= at || at + |data| <= i)
    ensures Overwrite(bytes, at, data)[i..j] == bytes[i..j]
  {
  }

  lemma OverwriteStart(bytes: seq<Byte>, at: nat, data: seq<Byte>, size: nat)
    requires |data| <= size && at + size <= |bytes|
    ensures Overwrite(bytes, at, data)[at..at + size] == data + bytes[at..at + size][|data|..]
  {
  }

  lemma {:induction false} PutHere(v: Volume, bytes: seq<Byte>, c: U32, data: seq<Byte>)
    requires v.bpb.sectorsPerCluster > 0 && |v.Content(bytes, c)| == v.ClusterBytes() && |data| <= v.ClusterBytes()
    ensures v.Content(Put(v, bytes, c, data), c) == data + v.Content(bytes, c)[|data|..]
  {
    OverwriteStart(bytes, 512 * (v.OnDisk(v.FirstSector(c)) as nat), data, v.ClusterBytes());
  }

  lemma {:induction false} PutElsewhere(v: Volume, bytes: seq<Byte>, c: U32, data: seq<Byte>, d: U32)
    requires Sound(v) && InData(v, c) && InData(v, d) && c != d && |data| <= v.ClusterBytes()
    ensures v.Content(Put(v, bytes, c, data), d) == v.Content(bytes, d)
  {
    ClustersApart(v, c, d);
    var at, s := 512 * (v.OnDisk(v.FirstSector(c)) as nat), v.OnDisk(v.FirstSector(d)) as nat;
    if at + |data| <= |bytes| && 512 * (s + v.bpb.sectorsPerCluster) <= |bytes| {
      OverwriteApart(bytes, at, data, 512 * s, 512 * (s + v.bpb.sectorsPerCluster));
    }
  }

  lemma {:induction false} PutKeepsFat(v: Volume, bytes: seq<Byte>, c: U32, data: seq<Byte>, d: U32)
    requires Sound(v) && InData(v, c) && InFat(v, d) && |data| <= v.ClusterBytes()
    ensures v.Next(Put(v, bytes, c, data), d) == v.Next(bytes, d)
  {
    FatApart(v, c, d);
    var at, s := 512 * (v.OnDisk(v.FirstSector(c)) as nat), v.OnDisk(v.FatSector(d)) as nat;
    if at + |data| <= |bytes| && 512 * (s + 1) <= |bytes| {
      OverwriteApart(bytes, at, data, 512 * s, 512 * (s + 1));
    }
  }

  // ---- A whole write ----

  /** How many of `want` bytes fall to cluster number `k` of a file. */
  function Width(v: Volume, k: nat, want: nat): (w: nat)
    ensures w <= v.ClusterBytes()
  {
    if Offset(k, v.ClusterBytes()) <= want then Min(want - Offset(k, v.ClusterBytes()), v.ClusterBytes()) else 0
  }

  /** The disk after writing `want` bytes: every cluster receives bytes from the start of the
      buffer, not from where the last one ended. */
  function Written(v: Volume, bytes: seq<Byte>, cs: seq<U32>, inbuf: seq<Byte>, want: nat): (r: seq<Byte>)
    requires Min(want, v.ClusterBytes()) <= |inbuf|
    ensures |r| == |bytes|
  {
    if cs == [] then bytes
    else
      var n := |cs| - 1;
      Put(v, Written(v, bytes, cs[..n], inbuf, want), cs[n], inbuf[..Width(v, n, want)])
  }

  ghost predicate AllInData(v: Volume, cs: seq<U32>) { forall k :: 0 <= k < |cs| ==> InData(v, cs[k]) }

  ghost predicate AllInFat(v: Volume, cs: seq<U32>) { forall k :: 0 <= k < |cs| ==> InFat(v, cs[k]) }

  /** No FAT entry changes. */
  lemma {:induction false} WrittenKeepsFat(v: Volume, bytes: seq<Byte>, cs: seq<U32>, inbuf: seq<Byte>, want: nat, d: U32)
    requires Sound(v) && AllInData(v, cs) && InFat(v, d) && Min(want, v.ClusterBytes()) <= |inbuf|
    ensures v.Next(Written(v, bytes, cs, inbuf, want), d) == v.Next(bytes, d)
  {
    if cs != [] {
      var n := |cs| - 1;
      WrittenKeepsFat(v, bytes, cs[..n], inbuf, want, d);
      PutKeepsFat(v, Written(v, bytes, cs[..n], inbuf, want), cs[n], inbuf[..Width(v, n, want)], d);
    }
  }

  /** No byte of any other cluster changes. */
  lemma {:induction false} WrittenKeepsOthers(v: Volume, bytes: seq<Byte>, cs: seq<U32>, inbuf: seq<Byte>, want: nat, d: U32)
    requires Sound(v) && AllInData(v, cs) && InData(v, d) && d !in cs && Min(want, v.ClusterBytes()) <= |inbuf|
    ensures v.Content(Written(v, bytes, cs, inbuf, want), d) == v.Content(bytes, d)
  {
    if cs != [] {
      var n := |cs| - 1;
      WrittenKeepsOthers(v, bytes, cs[..n], inbuf, want, d);
      PutElsewhere(v, Written(v, bytes, cs[..n], inbuf, want), cs[n], inbuf[..Width(v, n, want)], d);
    }
  }

  /** A chain is determined by what follows its own clusters. */
  lemma {:induction false} SameChain(w: View, w': View, e: U32, more: nat)
    requires w.size == w'.size > 0
    requires forall k :: 0 <= k < |w.Chain(e, more)| ==> w'.next(w.Chain(e, more)[k]) == w.next(w.Chain(e, more)[k])
    ensures w'.Chain(e, more) == w.Chain(e, more)
    decreases more
  {
    if more > 0 && e < END_OF_CHAIN {
      var chain, rest := w.Chain(e, more), w.Chain(w.next(e), more - Min(more, w.size));
      assert chain == [e] + rest;
      assert chain[0] == e;
      assert forall k :: 0 <= k < |rest| ==> rest[k] == chain[k + 1];
      SameChain(w, w', w.next(e), more - Min(more, w.size));
    }
  }

  /** Chains stay as they are. */
  lemma {:induction false} WrittenKeepsChain(v: Volume, bytes: seq<Byte>, cs: seq<U32>, inbuf: seq<Byte>, want: nat, e: U32, more: nat)
    requires Sound(v) && AllInData(v, cs) && AllInFat(v, v.ViewOf(bytes).Chain(e, more)) && Min(want, v.ClusterBytes()) <= |inbuf|
    ensures v.ViewOf(Written(v, bytes, cs, inbuf, want)).Chain(e, more) == v.ViewOf(bytes).Chain(e, more)
  {
    var w, w' := v.ViewOf(bytes), v.ViewOf(Written(v, bytes, cs, inbuf, want));
    var chain := w.Chain(e, more);
    forall k | 0 <= k < |chain|
      ensures w'.next(chain[k]) == w.next(chain[k])
    {
      WrittenKeepsFat(v, bytes, cs, inbuf, want, chain[k]);
    }
    SameChain(w, w', e, more);
  }

  lemma {:induction false} WrittenKeepsData(v: Volume, bytes: seq<Byte>, cs: seq<U32>, inbuf: seq<Byte>, want: nat, ds: seq<U32>)
    requires Sound(v) && AllInData(v, cs) && AllInData(v, ds) && Min(want, v.ClusterBytes()) <= |inbuf|
    requires forall k :: 0 <= k < |ds| ==> ds[k] !in cs
    ensures v.ViewOf(Written(v, bytes, cs, inbuf, want)).Data(ds) == v.ViewOf(bytes).Data(ds)
  {
    forall k | 0 <= k < |ds|
      ensures v.Content(Written(v, bytes, cs, inbuf, want), ds[k]) == v.Content(bytes, ds[k])
    {
      WrittenKeepsOthers(v, bytes, cs, inbuf, want, ds[k]);
    }
    assert v.ViewOf(Written(v, bytes, cs, inbuf, want)).Contents(ds) == v.ViewOf(bytes).Contents(ds);
  }

  /** Any file whose chain has no cluster in common with the one written reads as before. */
  lemma {:induction false} OtherFilesReadAsBefore(v: Volume, bytes: seq<Byte>, cs: seq<U32>, inbuf: seq<Byte>, want: nat, e: U32, more: nat)
    requires Sound(v) && AllInData(v, cs) && Min(want, v.ClusterBytes()) <= |inbuf|
    requires AllInFat(v, v.ViewOf(bytes).Chain(e, more)) && AllInData(v, v.ViewOf(bytes).Chain(e, more))
    requires forall k :: 0 <= k < |v.ViewOf(bytes).Chain(e, more)| ==> v.ViewOf(bytes).Chain(e, more)[k] !in cs
    ensures var after := Written(v, bytes, cs, inbuf, want);
            v.ViewOf(after).Data(v.ViewOf(after).Chain(e, more)) == v.ViewOf(bytes).Data(v.ViewOf(bytes).Chain(e, more))
  {
    WrittenKeepsChain(v, bytes, cs, inbuf, want, e, more);
    WrittenKeepsData(v, bytes, cs, inbuf, want, v.ViewOf(bytes).Chain(e, more));
  }

  ghost predicate Distinct(cs: seq<U32>) {
    forall i, j :: 0 <= i < j < |cs| ==> cs[i] != cs[j]
  }

  /** Each cluster written holds the start of the buffer, then what it held before. */
  lemma {:induction false} WrittenContents(v: Volume, bytes: seq<Byte>, cs: seq<U32>, inbuf: seq<Byte>, want: nat, k: nat)
    requires Sound(v) && AllInData(v, cs) && Distinct(cs) && k < |cs| && Min(want, v.ClusterBytes()) <= |inbuf|
    requires |v.Content(bytes, cs[k])| == v.ClusterBytes()
    ensures v.Content(Written(v, bytes, cs, inbuf, want), cs[k])
         == inbuf[..Width(v, k, want)] + v.Content(bytes, cs[k])[Width(v, k, want)..]
    decreases |cs|
  {
    var n := |cs| - 1;
    if k < n {
      WrittenContents(v, bytes, cs[..n], inbuf, want, k);
      WrittenThen(v, bytes, cs, inbuf, want, k);
    } else {
      WrittenHere(v, bytes, cs, inbuf, want);
    }
  }

  /** The last cluster written changes none before it. */
  lemma {:induction false} WrittenThen(v: Volume, bytes: seq<Byte>, cs: seq<U32>, inbuf: seq<Byte>, want: nat, k: nat)
    requires Sound(v) && AllInData(v, cs) && Distinct(cs) && k + 1 < |cs| && Min(want, v.ClusterBytes()) <= |inbuf|
    ensures v.Content(Written(v, bytes, cs, inbuf, want), cs[k]) == v.Content(Written(v, bytes, cs[..|cs| - 1], inbuf, want), cs[k])
  {
    var n := |cs| - 1;
    WrittenLast(v, bytes, cs, inbuf, want);
    PutElsewhere(v, Written(v, bytes, cs[..n], inbuf, want), cs[n], inbuf[..Width(v, n, want)], cs[k]);
  }

  lemma {:induction false} WrittenHere(v: Volume, bytes: seq<Byte>, cs: seq<U32>, inbuf: seq<Byte>, want: nat)
    requires Sound(v) && AllInData(v, cs) && Distinct(cs) && cs != [] && Min(want, v.ClusterBytes()) <= |inbuf|
    requires |v.Content(bytes, cs[|cs| - 1])| == v.ClusterBytes()
    ensures v.Content(Written(v, bytes, cs, inbuf, want), cs[|cs| - 1])
         == inbuf[..Width(v, |cs| - 1, want)] + v.Content(bytes, cs[|cs| - 1])[Width(v, |cs| - 1, want)..]
  {
    var n := |cs| - 1;
    WrittenLast(v, bytes, cs, inbuf, want);
    WrittenKeepsOthers(v, bytes, cs[..n], inbuf, want, cs[n]);
    PutHere(v, Written(v, bytes, cs[..n], inbuf, want), cs[n], inbuf[..Width(v, n, want)]);
  }

  lemma {:induction false} WrittenLast(v: Volume, bytes: seq<Byte>, cs: seq<U32>, inbuf: seq<Byte>, want: nat)
    requires cs != [] && Min(want, v.ClusterBytes()) <= |inbuf|
    ensures var n := |cs| - 1;
            Width(v, n, want) <= |inbuf| &&
            Written(v, bytes, cs, inbuf, want) == Put(v, Written(v, bytes, cs[..n], inbuf, want), cs[n], inbuf[..Width(v, n, want)])
  {
  }

  /** A write that fits in one cluster reads back as the bytes written, then the old rest. */
  lemma {:induction false} OneClusterReadsBack(v: Volume, bytes: seq<Byte>, c: U32, inbuf: seq<Byte>, want: nat)
    requires Sound(v) && InData(v, c) && |v.Content(bytes, c)| == v.ClusterBytes() && want <= v.ClusterBytes() && want <= |inbuf|
    ensures |v.ViewOf(bytes).Data([c])| == v.ClusterBytes()
    ensures v.ViewOf(Written(v, bytes, [c], inbuf, want)).Data([c]) == inbuf[..want] + v.ViewOf(bytes).Data([c])[want..]
  {
    WrittenContents(v, bytes, [c], inbuf, want, 0);
    DataOfOne(v, bytes, c);
    DataOfOne(v, Written(v, bytes, [c], inbuf, want), c);
  }

  lemma {:induction false} DataOfOne(v: Volume, bytes: seq<Byte>, c: U32)
    ensures v.ViewOf(bytes).Data([c]) == v.Content(bytes, c)
  {
    assert v.ViewOf(bytes).Contents([c]) == [] + [v.Content(bytes, c)];
    JoinAppend([], v.Content(bytes, c));
  }

  // ---- When a longer write reads back ----

  lemma {:induction false} WrittenIsFull(v: Volume, bytes: seq<Byte>, cs: seq<U32>, after: seq<Byte>)
    requires v.ViewOf(bytes).Full(cs) && |after| == |bytes|
    ensures v.ViewOf(after).Full(cs)
  {
    forall k | 0 <= k < |cs|
      ensures |v.Content(after, cs[k])| == v.ClusterBytes()
    {
      assert |v.ViewOf(bytes).Contents(cs)[k]| == v.ClusterBytes();
    }
  }

  /** Whatever its place in the file, byte `j` of a written cluster is byte `j` of the buffer. */
  lemma {:induction false} WrittenPiece(v: Volume, bytes: seq<Byte>, cs: seq<U32>, inbuf: seq<Byte>, want: nat, k: nat, j: nat)
    requires Sound(v) && AllInData(v, cs) && Distinct(cs) && k < |cs| && want <= |inbuf|
    requires v.ViewOf(bytes).Full(cs)
    requires j < v.ClusterBytes() && Offset(k, v.ClusterBytes()) + j < want
    ensures var pieces := v.ViewOf(Written(v, bytes, cs, inbuf, want)).Contents(cs);
            j < |pieces[k]| && pieces[k][j] == inbuf[j]
  {
    assert |v.ViewOf(bytes).Contents(cs)[k]| == v.ClusterBytes();
    WrittenContents(v, bytes, cs, inbuf, want, k);
    var w := Width(v, k, want);
    assert j < w;
    FrontByte(inbuf, w, v.Content(bytes, cs[k])[w..], j);
  }

  lemma FrontByte(a: seq<Byte>, w: nat, b: seq<Byte>, j: nat)
    requires j < w <= |a|
    ensures (a[..w] + b)[j] == a[j]
  {
  }

  /** The first `want` bytes repeat every `size` bytes. */
  predicate Periodic(inbuf: seq<Byte>, want: nat, size: nat)
    requires want <= |inbuf|
  {
    forall i :: size <= i < want ==> inbuf[i] == inbuf[i - size]
  }

  /** `i % size` */
  function Low(i: nat, size: nat): (r: nat)
    requires size > 0
    ensures r <= i && r < size
  {
    if i < size then i else Low(i - size, size)
  }

  lemma {:induction false} LowAt(k: nat, j: nat, size: nat)
    requires j < size
    ensures Low(Offset(k, size) + j, size) == j
  {
    if k > 0 {
      LowAt(k - 1, j, size);
    }
  }

  lemma {:induction false} Locate(i: nat, size: nat) returns (k: nat, j: nat)
    requires size > 0
    ensures i == Offset(k, size) + j && j < size
    decreases i
  {
    if i < size {
      return 0, i;
    }
    k, j := Locate(i - size, size);
    k := k + 1;
  }

  lemma {:induction false} PeriodLow(inbuf: seq<Byte>, want: nat, size: nat, i: nat)
    requires size > 0 && i < want <= |inbuf| && Periodic(inbuf, want, size)
    ensures inbuf[i] == inbuf[Low(i, size)]
    decreases i
  {
    if i >= size {
      PeriodLow(inbuf, want, size, i - size);
    }
  }

  /** Data whose byte `i` is byte `i % size` of a buffer equals the buffer exactly when that
      repeats. */
  lemma {:induction false} RepeatedExactly(data: seq<Byte>, inbuf: seq<Byte>, want: nat, size: nat)
    requires size > 0 && want <= |inbuf| && want <= |data|
    requires forall i :: 0 <= i < want ==> data[i] == inbuf[Low(i, size)]
    ensures data[..want] == inbuf[..want] <==> Periodic(inbuf, want, size)
  {
    if Periodic(inbuf, want, size) {
      forall i | 0 <= i < want
        ensures data[i] == inbuf[i]
      {
        PeriodLow(inbuf, want, size, i);
      }
    }
    if data[..want] == inbuf[..want] {
      assert forall i :: 0 <= i < want ==> data[i] == data[..want][i] == inbuf[..want][i] == inbuf[i];
    }
  }

  /** Wherever a piece is written, it starts like the buffer. */
  ghost predicate StartAlike(pieces: seq<seq<Byte>>, inbuf: seq<Byte>, want: nat, size: nat)
    requires want <= |inbuf| && Uniform(pieces, size)
  {
    forall k, j :: 0 <= k < |pieces| && 0 <= j < size && Offset(k, size) + j < want ==> pieces[k][j] == inbuf[j]
  }

  lemma {:induction false} PiecesRepeat(pieces: seq<seq<Byte>>, inbuf: seq<Byte>, want: nat, size: nat, i: nat)
    requires size > 0 && i < want <= |inbuf| && want <= Offset(|pieces|, size)
    requires Uniform(pieces, size) && StartAlike(pieces, inbuf, want, size)
    ensures i < |Join(pieces)| && Join(pieces)[i] == inbuf[Low(i, size)]
  {
    var k, j := Locate(i, size);
    LowAt(k, j, size);
    if k >= |pieces| {
      OffsetMono(|pieces|, k, size);
    }
    JoinAt(pieces, size, k, j);
  }

  /** A write over several clusters reads back exactly when the bytes written repeat from cluster
      to cluster; a write of at most one cluster always does. */
  lemma {:induction false} ReadsBackExactly(v: Volume, bytes: seq<Byte>, cs: seq<U32>, inbuf: seq<Byte>, want: nat)
    requires Sound(v) && AllInData(v, cs) && Distinct(cs)
    requires v.ViewOf(bytes).Full(cs)
    requires want <= |inbuf| && want <= Offset(|cs|, v.ClusterBytes())
    ensures var data := v.ViewOf(Written(v, bytes, cs, inbuf, want)).Data(cs);
            |data| >= want && (data[..want] == inbuf[..want] <==> Periodic(inbuf, want, v.ClusterBytes()))
    ensures want <= v.ClusterBytes() ==> Periodic(inbuf, want, v.ClusterBytes())
  {
    var size, after := v.ClusterBytes(), Written(v, bytes, cs, inbuf, want);
    WrittenIsFull(v, bytes, cs, after);
    DataLength(v.ViewOf(after), cs);
    WrittenStartAlike(v, bytes, cs, inbuf, want);
    forall i | 0 <= i < want
      ensures v.ViewOf(after).Data(cs)[i] == inbuf[Low(i, size)]
    {
      PiecesRepeat(v.ViewOf(after).Contents(cs), inbuf, want, size, i);
    }
    RepeatedExactly(v.ViewOf(after).Data(cs), inbuf, want, size);
  }

  lemma {:induction false} WrittenStartAlike(v: Volume, bytes: seq<Byte>, cs: seq<U32>, inbuf: seq<Byte>, want: nat)
    requires Sound(v) && AllInData(v, cs) && Distinct(cs) && want <= |inbuf|
    requires v.ViewOf(bytes).Full(cs)
    ensures v.ViewOf(Written(v, bytes, cs, inbuf, want)).Full(cs)
    ensures StartAlike(v.ViewOf(Written(v, bytes, cs, inbuf, want)).Contents(cs), inbuf, want, v.ClusterBytes())
  {
    var after := Written(v, bytes, cs, inbuf, want);
    WrittenIsFull(v, bytes, cs, after);
    forall k, j | 0 <= k < |cs| && 0 <= j < v.ClusterBytes() && Offset(k, v.ClusterBytes()) + j < want
      ensures v.ViewOf(after).Contents(cs)[k][j] == inbuf[j]
    {
      WrittenPiece(v, bytes, cs, inbuf, want, k, j);
    }
  }

  /** Four sectors: a boot sector, a FAT that chains cluster 2 to cluster 3 and ends there, and
      the two clusters. */
  function TwoClusterDisk(): seq<Byte> {
    seq(2048, i => if i == 520 then 3 else if 524 <= i < 527 then 255 else if i == 527 then 15 else 0)
  }

  lemma {:induction false} TwoClusterChain(v: Volume, bytes: seq<Byte>)
    requires v.bpb == BootSector(1, 1, 1, 0, 1) && v.partition.startSector == 0 && bytes == TwoClusterDisk()
    ensures v.ViewOf(bytes).Chain(2, 1024) == [2, 3]
  {
    assert v.FatSector(2) == 1 && EntryOffset(2) == 8;
    var fat := Sectors(bytes, 1, 1);
    assert fat[8] == 3 && fat[9] == 0 && fat[10] == 0 && fat[11] == 0;
    assert Le32(fat, 8) == 3;
    assert v.Next(bytes, 2) == 3;
    var w := v.ViewOf(bytes);
    assert w.Chain(w.next(3), 0) == [];
    assert w.Chain(3, 512) == [3] + [];
  }

  lemma {:induction false} TwoClusterPlaces(v: Volume, bytes: seq<Byte>)
    requires v.bpb == BootSector(1, 1, 1, 0, 1) && v.partition.startSector == 0 && |bytes| == 2048
    ensures Sound(v) && AllInData(v, [2, 3]) && AllInFat(v, [2, 3]) && v.ViewOf(bytes).Full([2, 3])
  {
    assert Offset(1, 1) == 1 && Offset(0, 1) == 0;
    assert v.FirstDataSector() == 2 && v.FirstSector(2) == 2 && v.FirstSector(3) == 3;
    assert v.FatSector(2) == 1 && v.FatSector(3) == 1;
  }

  /** Writing 512 ones and 512 twos to that file leaves 1024 ones. */
  lemma {:induction false} TwoClustersDiffer(v: Volume, bytes: seq<Byte>, inbuf: seq<Byte>)
    requires v.bpb == BootSector(1, 1, 1, 0, 1) && v.partition.startSector == 0 && bytes == TwoClusterDisk()
    requires inbuf == seq(1024, i => if i < 512 then 1 else 2)
    ensures v.ViewOf(bytes).Chain(2, 1024) == [2, 3]
    ensures var data := v.ViewOf(Written(v, bytes, [2, 3], inbuf, 1024)).Data([2, 3]);
            |data| == 1024 && data != inbuf && data[512] == 1 && inbuf[512] == 2
  {
    TwoClusterChain(v, bytes);
    TwoClusterPlaces(v, bytes);
    var after := Written(v, bytes, [2, 3], inbuf, 1024);
    WrittenStartAlike(v, bytes, [2, 3], inbuf, 1024);
    DataLength(v.ViewOf(after), [2, 3]);
    TwoPieces();
    PiecesRepeat(v.ViewOf(after).Contents([2, 3]), inbuf, 1024, 512, 512);
    assert Low(512, 512) == Low(0, 512) == 0;
  }

  lemma TwoPieces()
    ensures Offset(2, 512) == 1024
  {
    assert Offset(1, 512) == 512;
  }
}
