/** Reads in chunks from an ext2 file, and why the callers' buffers are large enough. */
module Ext2File {
  import opened Bits
  import opened ByteSeq
  import opened Gpt
  import opened Ext2Tree
  import opened Ext2

  // ---- The buffer callers allocate ----

  /** `sectors_used * 512` in 32-bit arithmetic. */
  function Allocation(sectors: nat): nat { sectors * 512 % 0x1_0000_0000 }

  lemma Product(a: nat, b: nat)
    ensures a * b >= 0
  {
  }

  lemma {:induction false} QuotientFits(sectors: nat, s: nat, k: nat)
    requires s > 0
    ensures k * s <= sectors <==> k <= sectors / s
  {
    var q := sectors / s;
    assert sectors == q * s + sectors % s;
    if k <= q {
      Product(q - k, s);
      assert q * s == k * s + (q - k) * s;
    } else {
      Product(k - q - 1, s);
      assert k * s == q * s + s + (k - q - 1) * s;
    }
  }

  /** The budget is the number of whole blocks the sectors hold: no smaller one would do. */
  lemma {:induction false} BudgetIsExact(v: Volume, sectors: nat, k: nat)
    ensures Offset(k, v.BlockSize()) <= sectors * 512 <==> k <= Budget(v, sectors)
  {
    var s := v.SectorsPerBlock();
    OffsetIs(k, 512 * s);
    QuotientFits(sectors, s, k);
    Regroup(k, 512, s);
    Commute(s, k);
  }

  lemma Commute(x: nat, y: nat)
    ensures x * y == y * x
  {
  }

  lemma {:induction false} PowSum(a: nat, b: nat)
    ensures Pow2(a) * Pow2(b) == Pow2(a + b)
  {
    if a > 0 {
      PowSum(a - 1, b);
      Twice(Pow2(a - 1), Pow2(b));
    }
  }

  lemma Twice(x: nat, y: nat)
    ensures (2 * x) * y == 2 * (x * y)
  {
  }

  lemma {:induction false} ShlPow(m: nat, a: nat, b: nat)
    ensures Pow2(b) * Shl(m, a) == m * Pow2(a + b)
  {
    ShlMul(m, a);
    PowSum(a, b);
    Regroup(Pow2(b), m, Pow2(a));
  }

  lemma Regroup(x: nat, y: nat, z: nat)
    ensures x * (y * z) == y * (z * x)
  {
  }

  lemma {:induction false} Pow22(n: nat)
    requires n == 22
    ensures 1024 * Pow2(n) == 0x1_0000_0000
  {
    Powers();
    assert Pow2(n) == 2 * Pow2(n - 1);
  }

  /** 2^32 bytes are a whole number of blocks. */
  lemma {:induction false} WrapPoint(v: Volume) returns (k: nat)
    ensures Offset(k, v.BlockSize()) == 0x1_0000_0000
  {
    var b: nat := 22 - v.shift;
    k := Pow2(b);
    ShlPow(1024, v.shift, b);
    OffsetIs(k, v.BlockSize());
    Pow22(v.shift + b);
  }

  lemma Wraps(n: nat)
    ensures n * 512 % 0x1_0000_0000 < 0x1_0000_0000
    ensures n < 0x80_0000 ==> n * 512 % 0x1_0000_0000 == n * 512
  {
  }

  /** The buffer callers allocate holds every block the budget allows exactly when the file uses
      fewer than 2^23 sectors; from there on `sectors_used * 512` wraps. */
  lemma {:induction false} AllocationSuffices(v: Volume, sectors: nat)
    requires sectors < 0x1_0000_0000
    ensures Allocation(sectors) == 512 * (sectors % 0x80_0000)
    ensures Offset(Budget(v, sectors), v.BlockSize()) <= Allocation(sectors) <==> sectors < 0x80_0000
  {
    Wraps(sectors);
    DivModUnique(512 * sectors, 0x1_0000_0000, sectors / 0x80_0000, 512 * (sectors % 0x80_0000));
    BudgetIsExact(v, sectors, Budget(v, sectors));
    if sectors >= 0x80_0000 {
      var k := WrapPoint(v);
      BudgetIsExact(v, sectors, k);
      OffsetMono(k, Budget(v, sectors), v.BlockSize());
    }
  }

  /** A file never has more blocks than its budget, or than direct blocks in front of a zero. */
  lemma {:induction false} BlocksWithinBudget(store: Store, inode: Inode, budget: nat)
    requires |inode.direct| == DIRECT && (|Cut(inode.direct)| == DIRECT ==> DIRECT <= budget)
    ensures |Blocks(store, inode, budget)| <= Extent(inode, budget)
  {
    BlocksInTurn(store, inode, budget, if |Cut(inode.direct)| < DIRECT then 0 else budget - DIRECT);
  }

  /** What reading a file may write ends within the sectors it uses exactly when the direct blocks in
      front of the first zero are within its budget. */
  lemma {:induction false} WithinSectorsExactly(v: Volume, inode: Inode)
    requires |Cut(inode.direct)| == DIRECT ==> DIRECT <= Budget(v, inode.sectorsUsed)
    requires |inode.direct| == DIRECT
    ensures Offset(Extent(inode, Budget(v, inode.sectorsUsed)), v.BlockSize()) <= inode.sectorsUsed * 512 <==>
            |Cut(inode.direct)| <= Budget(v, inode.sectorsUsed)
  {
    BudgetIsExact(v, inode.sectorsUsed, Extent(inode, Budget(v, inode.sectorsUsed)));
  }

  // ---- Random access ----

  /** A range of bytes inside one block, read from the concatenation. */
  lemma {:induction false} RangeInBlock(store: Store, bs: seq<nat>, size: nat, k: nat, at: nat, n: nat)
    requires AllIn(store, bs, size) && k < |bs| && at + n <= size
    ensures Offset(k, size) + at + n <= |Concat(store, bs)|
    ensures Concat(store, bs)[Offset(k, size) + at..Offset(k, size) + at + n] == store[bs[k]][at..at + n]
  {
    ConcatLength(store, bs, size);
    JoinRange(Held(store, bs), size, k, at, n);
  }

  // ---- ext2_read_file ----

  /** What the buffer of a read holds: the bytes of the blocks present, then what heap memory held
      there before. */
  function Seen(all: seq<Byte>, stale: seq<Byte>): (r: seq<Byte>)
    requires |all| <= |stale|
    ensures |r| == |stale|
  {
    all + stale[|all|..]
  }

  /** The file's bytes as far as it has blocks. */
  function Present(v: Volume, inode: Inode, store: Store): seq<Byte> {
    Concat(store, Blocks(store, inode, Budget(v, inode.sectorsUsed)))
  }

  /** What one read of `request` bytes from `seek` of a file of `size` bytes yields. */
  function Chunk(content: seq<Byte>, size: nat, seek: nat, request: nat): seq<Byte>
    requires seek <= size && seek + Min(request, size - seek) <= |content|
  {
    content[seek..seek + Min(request, size - seek)]
  }

  lemma {:induction false} SeenOnDisk(all: seq<Byte>, stale: seq<Byte>, seek: nat, n: nat)
    requires |all| <= |stale|
    ensures seek + n <= |all| ==> Seen(all, stale)[seek..seek + n] == all[seek..seek + n]
  {
    if seek + n <= |all| {
      SubSlice(Seen(all, stale), 0, |all|, seek, n);
      SubSlice(all, 0, |all|, seek, n);
    }
  }

  /** Bytes seek .. seek + n come from the disk, whatever the heap held, exactly when the file has
      blocks for all of them. */
  lemma {:induction false} FromDiskExactly(all: seq<Byte>, seek: nat, n: nat, total: nat)
    requires |all| <= total && seek + n <= total
    ensures (n == 0 || seek + n <= |all|) <==>
            forall s, t :: |s| == |t| == total ==> Seen(all, s)[seek..seek + n] == Seen(all, t)[seek..seek + n]
    ensures seek + n <= |all| ==> forall s :: |s| == total ==> Seen(all, s)[seek..seek + n] == all[seek..seek + n]
  {
    if seek + n <= |all| {
      forall s: seq<Byte> | |s| == total
        ensures Seen(all, s)[seek..seek + n] == all[seek..seek + n]
      {
        SeenOnDisk(all, s, seek, n);
      }
    } else if n > 0 {
      var zeros: seq<Byte>, ones: seq<Byte> := seq(total, _ => 0), seq(total, _ => 1);
      assert Seen(all, zeros)[seek..seek + n][n - 1] == 0;
      assert Seen(all, ones)[seek..seek + n][n - 1] == 1;
    }
  }

  /** A file with a hole in front, of any size: it has no blocks to read, so no byte of any read
      comes from the disk. */
  lemma {:induction false} SparseFileReadsHeap(v: Volume, inode: Inode, store: Store, seek: nat, n: nat, total: nat)
    requires |inode.direct| == DIRECT && inode.direct[0] == 0 && 0 < n && seek + n <= total
    ensures SafeInode(store, inode, Budget(v, inode.sectorsUsed)) && Present(v, inode, store) == []
    ensures !forall s, t :: |s| == |t| == total ==> Seen([], s)[seek..seek + n] == Seen([], t)[seek..seek + n]
  {
    assert Cut(inode.direct) == [];
    FromDiskExactly([], seek, n, total);
  }

  class File {
    const volume: Volume
    const inode: Inode
    var seek: nat

    ghost predicate Valid()
      reads this
    {
      seek <= inode.size < 0x1_0000_0000
    }

    /** ext2_get_inode_data stays inside its pointer blocks and inside the buffer. */
    ghost predicate Loadable(store: Store)
      reads volume.partition.disk
    {
      && volume.Serves(store) && inode.sectorsUsed < 0x80_0000 && |Cut(inode.direct)| <= Budget(volume, inode.sectorsUsed)
      && SafeInode(store, inode, Budget(volume, inode.sectorsUsed))
    }

    /** ext2_open_inode */
    constructor (volume: Volume, inode: Inode)
      requires inode.size < 0x1_0000_0000
      ensures this.volume == volume && this.inode == inode && seek == 0 && Valid()
    {
      this.volume, this.inode, seek := volume, inode, 0;
    }

    /** The buffer malloc returns, and the memory behind it, after ext2_get_inode_data; `stale` is
        what they held before. */
    method Load(stale: seq<Byte>, ghost store: Store) returns (content: array<Byte>)
      requires Loadable(store) && inode.sectorsUsed * 512 <= |stale|
      ensures fresh(content) && |Present(volume, inode, store)| <= |stale|
      ensures content[..] == Seen(Present(volume, inode, store), stale)
    {
      content := new Byte[|stale|](i requires 0 <= i < |stale| => stale[i]);
      assert content[..] == stale;
      BudgetIsExact(volume, inode.sectorsUsed, Budget(volume, inode.sectorsUsed));
      OffsetMono(Extent(inode, Budget(volume, inode.sectorsUsed)), Budget(volume, inode.sectorsUsed), volume.BlockSize());
      var _, _ := GetInodeData(volume, inode, content, 0, store);
      ghost var blocks := Blocks(store, inode, Budget(volume, inode.sectorsUsed));
      ConcatLength(store, blocks, volume.BlockSize());
      assert content[..] == content[..][..Offset(|blocks|, volume.BlockSize())] + content[..][Offset(|blocks|, volume.BlockSize())..];
    }

    /** ext2_read_file: the next bytes of the file, and the seek position moves past them. Bytes
        the file has no block for are those that heap memory held. */
    method ReadFile(buffer: array<Byte>, request: U64, stale: seq<Byte>, ghost store: Store) returns (readSize: nat)
      requires Valid() && Loadable(store)
      requires inode.sectorsUsed * 512 <= |stale| && seek + Min(request, inode.size - seek) <= |stale|
      requires Min(request, inode.size - seek) <= buffer.Length
      modifies buffer, this`seek
      ensures Valid() && seek == old(seek) + readSize
      ensures readSize == Min(request, inode.size - old(seek))
      ensures |Present(volume, inode, store)| <= |stale|
      ensures buffer[..readSize] == Chunk(Seen(Present(volume, inode, store), stale), inode.size, old(seek), request)
      ensures seek <= |Present(volume, inode, store)| ==>
                buffer[..readSize] == Chunk(Present(volume, inode, store), inode.size, old(seek), request)
      ensures buffer[readSize..] == old(buffer[readSize..])
    {
      var content := Load(stale, store);
      readSize := CopyNext(content, Present(volume, inode, store), stale, request, buffer);
    }

    /** The part of it after loading: the bytes asked for are copied out, and the seek position moves. */
    method CopyNext(content: array<Byte>, ghost all: seq<Byte>, ghost stale: seq<Byte>, request: U64, buffer: array<Byte>) returns (readSize: nat)
      requires Valid() && |all| <= |stale| && content[..] == Seen(all, stale) && content != buffer
      requires seek + Min(request, inode.size - seek) <= |stale| && Min(request, inode.size - seek) <= buffer.Length
      modifies buffer, this`seek
      ensures Valid() && seek == old(seek) + readSize && readSize == Min(request, inode.size - old(seek))
      ensures buffer[..readSize] == Chunk(Seen(all, stale), inode.size, old(seek), request)
      ensures seek <= |all| ==> buffer[..readSize] == Chunk(all, inode.size, old(seek), request)
      ensures buffer[readSize..] == old(buffer[readSize..])
    {
      readSize := if request > inode.size - seek then inode.size - seek else request;
      SeenOnDisk(all, stale, seek, readSize);
      CopyOut(content, seek, readSize, buffer);
      seek := seek + readSize;
    }

    /** Any sequence of reads returns what a single read of all their bytes would, and leaves the
        file at the same place; the heap may hold something else at each of them. */
    method ReadAll(requests: seq<U64>, stales: seq<seq<Byte>>, ghost store: Store) returns (out: seq<Byte>)
      requires Valid() && Loadable(store) && |stales| == |requests|
      requires forall k :: 0 <= k < |stales| ==> inode.sectorsUsed * 512 <= |stales[k]| && inode.size <= |stales[k]|
      requires seek + Min(Sum(requests), inode.size - seek) <= |Present(volume, inode, store)|
      modifies this`seek
      ensures Valid() && seek == old(seek) + Min(Sum(requests), inode.size - old(seek))
      ensures out == Chunk(Present(volume, inode, store), inode.size, old(seek), Sum(requests))
    {
      ghost var all, end := Present(volume, inode, store), seek + Min(Sum(requests), inode.size - seek);
      out := [];
      assert requests[0..] == requests;
      for i := 0 to |requests|
        invariant Valid() && volume.Serves(store) && old(seek) <= seek <= end <= |all|
        invariant seek + Min(Sum(requests[i..]), inode.size - seek) == end
        invariant out == all[old(seek)..seek]
      {
        out := ReadNext(requests, i, stales[i], store, out, old(seek), end);
      }
    }

    /** The i-th of the reads. */
    method ReadNext(requests: seq<U64>, i: nat, stale: seq<Byte>, ghost store: Store, out: seq<Byte>, ghost start: nat, ghost end: nat)
      returns (more: seq<Byte>)
      requires Valid() && Loadable(store) && inode.sectorsUsed * 512 <= |stale| && inode.size <= |stale|
      requires i < |requests| && end <= |Present(volume, inode, store)|
      requires seek + Min(Sum(requests[i..]), inode.size - seek) == end
      requires start <= seek && out == Present(volume, inode, store)[start..seek]
      modifies this`seek
      ensures Valid() && old(seek) <= seek <= end
      ensures seek + Min(Sum(requests[i + 1..]), inode.size - seek) == end
      ensures more == Present(volume, inode, store)[start..seek]
    {
      SumStep(requests, i, seek, inode.size);
      more := ReadOn(requests[i], stale, store, out, start);
    }

    /** One more read, into a buffer of its own, after those that returned `out`. */
    method ReadOn(request: U64, stale: seq<Byte>, ghost store: Store, out: seq<Byte>, ghost start: nat) returns (more: seq<Byte>)
      requires Valid() && Loadable(store) && inode.sectorsUsed * 512 <= |stale| && inode.size <= |stale|
      requires seek + Min(request, inode.size - seek) <= |Present(volume, inode, store)|
      requires start <= seek && out == Present(volume, inode, store)[start..seek]
      modifies this`seek
      ensures Valid() && seek == old(seek) + Min(request, inode.size - old(seek))
      ensures more == Present(volume, inode, store)[start..seek]
    {
      var buffer := new Byte[Min(request, inode.size - seek)];
      var n := ReadFile(buffer, request, stale, store);
      SlicesJoin(Present(volume, inode, store), start, old(seek), seek);
      more := out + buffer[..n];
    }
  }

  /** After one more read, the reads to come still end where all of them were to end. */
  lemma {:induction false} SumStep(requests: seq<nat>, i: nat, seek: nat, size: nat)
    requires i < |requests| && seek <= size
    ensures Sum(requests[i..]) == requests[i] + Sum(requests[i + 1..])
    ensures var next := seek + Min(requests[i], size - seek);
            seek <= next <= size && next + Min(Sum(requests[i + 1..]), size - next) == seek + Min(Sum(requests[i..]), size - seek)
  {
    assert requests[i..][0] == requests[i] && requests[i..][1..] == requests[i + 1..];
  }

  lemma SlicesJoin(s: seq<Byte>, i: nat, j: nat, k: nat)
    requires i <= j <= k <= |s|
    ensures s[i..j] + s[j..k] == s[i..k]
  {
  }

  // ---- Chunked reads ----

  function Sum(requests: seq<nat>): nat {
    if requests == [] then 0 else requests[0] + Sum(requests[1..])
  }

  /** What a sequence of reads returns, one after the other. */
  function ReadRun(content: seq<Byte>, size: nat, seek: nat, requests: seq<nat>): seq<Byte>
    requires seek <= size <= |content|
    decreases |requests|
  {
    if requests == [] then []
    else
      var chunk := Chunk(content, size, seek, requests[0]);
      chunk + ReadRun(content, size, seek + |chunk|, requests[1..])
  }

  lemma ChunksJoin(content: seq<Byte>, size: nat, seek: nat, a: nat, b: nat)
    requires seek <= size <= |content|
    ensures seek + |Chunk(content, size, seek, a)| <= size
    ensures Chunk(content, size, seek, a) + Chunk(content, size, seek + |Chunk(content, size, seek, a)|, b)
         == Chunk(content, size, seek, a + b)
  {
  }

  /** Any sequence of reads returns what a single read of all their bytes would. */
  lemma {:induction false} ReadsCompose(content: seq<Byte>, size: nat, seek: nat, requests: seq<nat>)
    requires seek <= size <= |content|
    ensures ReadRun(content, size, seek, requests) == Chunk(content, size, seek, Sum(requests))
    decreases |requests|
  {
    if requests != [] {
      var first, rest := requests[0], requests[1..];
      var next := seek + |Chunk(content, size, seek, first)|;
      ReadsCompose(content, size, next, rest);
      assert ReadRun(content, size, seek, requests) == Chunk(content, size, seek, first) + Chunk(content, size, next, Sum(rest));
      ChunksJoin(content, size, seek, first, Sum(rest));
    }
  }

  /** Reads whose sizes add up to at least what is left return all of it, and the next one
      returns nothing. */
  lemma {:induction false} ReadsReachTheEnd(content: seq<Byte>, size: nat, seek: nat, requests: seq<nat>, more: nat)
    requires seek <= size <= |content| && Sum(requests) >= size - seek
    ensures ReadRun(content, size, seek, requests) == Chunk(content, size, seek, Sum(requests)) == content[seek..size]
    ensures Chunk(content, size, seek + |ReadRun(content, size, seek, requests)|, more) == []
  {
    ReadsCompose(content, size, seek, requests);
  }
}
