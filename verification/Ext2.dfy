/** Reading an ext2 file's data: the four traversals that fill the caller's buffer. Reads may fail and
    pointers may be looked for past the end of their block; what is found there is then anything.
    However that turns out, nothing is written past the budget; and when all goes well (`safe`), the
    buffer holds the file's blocks. */
module Ext2 {
  import opened Bits
  import opened ByteSeq
  import opened Gpt
  import opened Ext2Tree

  /** 1024 << shift fits 32 bits. */
  type Shift = k: nat | k <= 21

  datatype Volume = Volume(partition: Partition, shift: Shift) {
    /** 1024 << block_size_shift */
    function BlockSize(): (size: nat)
      ensures size >= 1024 && size % 512 == 0
    {
      BlockSizeMultiple(shift);
      Shl(1024, shift)
    }

    function SectorsPerBlock(): (n: nat)
      ensures 512 * n == BlockSize() && n > 0
    {
      BlockSize() / 512
    }

    /** The first sector of a block, `block * sectors_per_block` in 32-bit arithmetic, on the
        disk. */
    function StartOf(block: nat): U64 {
      AddU64(partition.startSector, block * SectorsPerBlock() % 0x1_0000_0000)
    }

    /** Block `b` can be read from a disk of these bytes and holds what `store` says. */
    ghost predicate ServesBlock(store: Store, b: nat, bytes: seq<Byte>, bad: set<nat>)
      requires b in store
    {
      b < 0x1_0000_0000 && Within(bytes, bad, StartOf(b), SectorsPerBlock()) &&
      store[b] == Sectors(bytes, StartOf(b), SectorsPerBlock())
    }

    ghost predicate ServesFrom(store: Store, bytes: seq<Byte>, bad: set<nat>) {
      forall b {:trigger ServesBlock(store, b, bytes, bad)} :: b in store ==> ServesBlock(store, b, bytes, bad)
    }

    /** The volume's blocks are as `store` says. */
    ghost predicate Serves(store: Store)
      reads partition.disk
    {
      ServesFrom(store, partition.disk.bytes, partition.disk.bad)
    }
  }

  lemma {:induction false} BlockSizeMultiple(shift: nat)
    ensures Shl(1024, shift) % 512 == 0 && Shl(1024, shift) >= 1024
  {
    if shift > 0 {
      BlockSizeMultiple(shift - 1);
      DivModUnique(Shl(1024, shift), 512, 2 * (Shl(1024, shift - 1) / 512), 0);
    }
  }

  /** A block is 2^shift times 1024 bytes. */
  lemma {:induction false} BlockSizeIs(v: Volume)
    ensures v.BlockSize() == 1024 * Pow2(v.shift)
  {
    ShlMul(1024, v.shift);
  }

  /** Block `b` of a partition that holds `blocks`, one after the other from its first byte on. */
  lemma {:induction false} BlockServed(v: Volume, bytes: seq<Byte>, bad: set<nat>, blocks: seq<seq<Byte>>, b: nat)
    requires HoldsBlocks(v, bytes, bad, blocks) && b < |blocks|
    ensures Within(bytes, bad, v.StartOf(b), v.SectorsPerBlock())
    ensures Sectors(bytes, v.StartOf(b), v.SectorsPerBlock()) == blocks[b]
  {
    var start, n, size := v.partition.startSector, v.SectorsPerBlock(), v.BlockSize();
    InSectors(b, n);
    InSectors(|blocks|, n);
    BlockInPartition(b, |blocks|, n);
    NoTurn(b * n);
    JoinLength(blocks, size);
    JoinRange(blocks, size, b, 0, size);
    SubSlice(bytes, 512 * start, 512 * start + |Join(blocks)|, Offset(b, size), size);
    assert blocks[b][0..size] == blocks[b];
  }

  lemma {:induction false} InSectors(b: nat, n: nat)
    ensures Offset(b, 512 * n) == 512 * (b * n)
  {
    OffsetIs(b, 512 * n);
  }

  lemma {:induction false} BlockInPartition(b: nat, count: nat, n: nat)
    requires b < count && n > 0
    ensures b * n + n <= count * n && b < count * n
  {
    assert count * n == b * n + (count - b) * n;
    MulOrder(count - b, n);
    assert b * n >= b;
  }

  /** The partition's first bytes are the blocks, on sectors that can be read; its sectors are counted
      in 32 bits, and those of the disk in 64. */
  ghost predicate HoldsBlocks(v: Volume, bytes: seq<Byte>, bad: set<nat>, blocks: seq<seq<Byte>>) {
    var first, sectors := v.partition.startSector, |blocks| * v.SectorsPerBlock();
    && Uniform(blocks, v.BlockSize()) && sectors <= 0x1_0000_0000 && first + sectors <= TWO64
    && LiesIn(bytes, 512 * first, Join(blocks)) && forall s :: s in bad ==> !(first <= s < first + sectors)
  }

  /** Such a partition serves exactly its blocks. */
  lemma {:induction false} PartitionServes(v: Volume, bytes: seq<Byte>, bad: set<nat>, blocks: seq<seq<Byte>>, store: Store)
    requires HoldsBlocks(v, bytes, bad, blocks) && forall b :: b in store ==> b < |blocks|
    ensures v.ServesFrom(store, bytes, bad) <==> forall b :: b in store ==> store[b] == blocks[b]
  {
    forall b | b in store
      ensures v.ServesBlock(store, b, bytes, bad) <==> store[b] == blocks[b]
    {
      BlockServed(v, bytes, bad, blocks, b);
      BlockInPartition(b, |blocks|, v.SectorsPerBlock());
    }
    if v.ServesFrom(store, bytes, bad) {
      forall b | b in store
        ensures store[b] == blocks[b]
      {
        assert v.ServesBlock(store, b, bytes, bad);
      }
    }
  }

  /** gpt_read_partition of a whole block; anything if it fails, which the callers never look at. */
  method ReadBlock(v: Volume, b: nat, ghost safe: bool, ghost store: Store) returns (data: seq<Byte>)
    requires safe ==> v.Serves(store) && b in store
    ensures |data| == v.BlockSize()
    ensures safe ==> data == store[b]
  {
    if safe {
      assert v.ServesBlock(store, b, v.partition.disk.bytes, v.partition.disk.bad);
    }
    var ok;
    ok, data := ReadPartition(v.partition, b * v.SectorsPerBlock() % 0x1_0000_0000, v.SectorsPerBlock());
    if !ok {
      data := *;
      if |data| != v.BlockSize() {
        data := seq(v.BlockSize(), _ => 0);
      }
    }
  }

  /** Pointer `j` of a block; past its end, whatever lies there. */
  method PointerAt(ps: seq<nat>, j: nat) returns (p: nat)
    ensures j < |ps| ==> p == ps[j]
  {
    if j < |ps| {
      p := ps[j];
    } else {
      p :| 0 <= p < 0x1_0000_0000;
    }
  }

  function Held(store: Store, bs: seq<nat>): (r: seq<seq<Byte>>)
    ensures |r| == |bs| && forall k :: 0 <= k < |bs| && bs[k] in store ==> r[k] == store[bs[k]]
  {
    seq(|bs|, k requires 0 <= k < |bs| => if bs[k] in store then store[bs[k]] else [])
  }

  /** The contents of a list of blocks, one after the other. */
  function Concat(store: Store, bs: seq<nat>): seq<Byte> { Join(Held(store, bs)) }

  ghost predicate AllIn(store: Store, bs: seq<nat>, size: nat) {
    forall k :: 0 <= k < |bs| ==> bs[k] in store && |store[bs[k]]| == size
  }

  lemma {:induction false} ConcatLength(store: Store, bs: seq<nat>, size: nat)
    requires AllIn(store, bs, size)
    ensures Uniform(Held(store, bs), size)
    ensures |Concat(store, bs)| == Offset(|bs|, size)
  {
    JoinLength(Held(store, bs), size);
  }

  lemma {:induction false} ConcatAppend(store: Store, bs: seq<nat>, b: nat)
    requires b in store
    ensures Concat(store, bs + [b]) == Concat(store, bs) + store[b]
  {
    assert Held(store, bs + [b]) == Held(store, bs) + [store[b]];
    JoinAppend(Held(store, bs), store[b]);
  }

  /** The first blocks of the buffer hold the blocks read so far. */
  ghost predicate Filled(buffer: seq<Byte>, store: Store, done: seq<nat>, size: nat) {
    AllIn(store, done, size) && Offset(|done|, size) <= |buffer| && buffer[..Offset(|done|, size)] == Concat(store, done)
  }

  /** One data block, read into place `i` of the buffer. */
  method ReadInto(v: Volume, b: nat, buffer: array<Byte>, i: nat, ghost safe: bool, ghost store: Store, ghost done: seq<nat>)
    requires Offset(i + 1, v.BlockSize()) <= buffer.Length
    requires safe ==> v.Serves(store) && b in store && i == |done| && Filled(buffer[..], store, done, v.BlockSize())
    modifies buffer
    ensures TailKept(old(buffer[..]), buffer[..], Offset(i + 1, v.BlockSize()))
    ensures safe ==> v.Serves(store) && Filled(buffer[..], store, done + [b], v.BlockSize())
  {
    var size := v.BlockSize();
    var at := Offset(i, size);
    var content := ReadBlock(v, b, safe, store);
    ghost var before := buffer[..];
    forall k | 0 <= k < size {
      buffer[at + k] := content[k];
    }
    assert buffer[..] == before[..at] + content + before[at + size..];
    SplicedParts(before, buffer[..], at, content);
    if safe {
      FillStep(before, buffer[..], store, done, b, size);
    }
  }

  /** The buffer after one more block: as before, then the block, then as before. */
  ghost predicate Spliced(before: seq<Byte>, after: seq<Byte>, at: nat, block: seq<Byte>) {
    at + |block| <= |before| && after == before[..at] + block + before[at + |block|..]
  }

  lemma SplicedParts(before: seq<Byte>, after: seq<Byte>, at: nat, block: seq<Byte>)
    requires Spliced(before, after, at, block)
    ensures |after| == |before| && after[..at + |block|] == before[..at] + block
    ensures TailKept(before, after, at + |block|)
  {
  }

  lemma {:induction false} FillStep(before: seq<Byte>, after: seq<Byte>, store: Store, done: seq<nat>, b: nat, size: nat)
    requires Filled(before, store, done, size) && b in store && |store[b]| == size
    requires Spliced(before, after, Offset(|done|, size), store[b])
    ensures Filled(after, store, done + [b], size)
    ensures TailKept(before, after, Offset(|done| + 1, size))
  {
    SplicedParts(before, after, Offset(|done|, size), store[b]);
    ConcatAppend(store, done, b);
    assert |done + [b]| == |done| + 1;
  }

  /** What reading on from pointer `j` of a list adds. */
  function Rest(store: Store, level: nat, ps: seq<nat>, j: nat, budget: nat): seq<nat>
    requires j <= |ps|
  {
    Take(LeavesOf(store, level, Cut(ps[j..])), budget)
  }

  /** Where a traversal stands: `i` blocks are in the buffer, `remaining` more may follow. */
  ghost predicate At(buffer: seq<Byte>, store: Store, size: nat, done: seq<nat>, i: nat, remaining: nat) {
    i == |done| && Offset(i + remaining, size) <= |buffer| && Filled(buffer, store, done, size)
  }

  /** From `before` to `after`, a traversal that had read `i` blocks and had `remaining` to go went on
      to i' and remaining', and wrote nothing past those it read. */
  ghost predicate Advanced(before: seq<Byte>, after: seq<Byte>, size: nat, i: nat, remaining: nat, i': nat, remaining': nat) {
    i <= i' && i' + remaining' == i + remaining && TailKept(before, after, Offset(i', size))
  }

  lemma {:induction false} AdvancedTrans(a: seq<Byte>, b: seq<Byte>, c: seq<Byte>, size: nat, i: nat, r: nat, i': nat, r': nat, i'': nat, r'': nat)
    requires Advanced(a, b, size, i, r, i', r') && Advanced(b, c, size, i', r', i'', r'')
    ensures Advanced(a, c, size, i, r, i'', r'')
  {
    OffsetMono(i', i'', size);
    TailKeptTrans(a, b, c, Offset(i', size), Offset(i'', size));
  }

  /** What one pointer leads to: a data block, or another pointer block. `beyond` is how many pointers
      past the end of a block can be looked at before the access faults. */
  method ReadChild(v: Volume, level: nat, block: nat, buffer: array<Byte>, i: nat, remaining: nat, beyond: nat,
                   ghost safe: bool, ghost store: Store, ghost size: nat, ghost done: seq<nat>)
    returns (fault: bool, i': nat, remaining': nat, ghost done': seq<nat>)
    requires size == v.BlockSize() && remaining > 0 && Offset(i + remaining, size) <= buffer.Length
    requires safe ==> v.Serves(store) && Safe(store, level, block, remaining) && At(buffer[..], store, size, done, i, remaining)
    modifies buffer
    ensures Advanced(old(buffer[..]), buffer[..], size, i, remaining, i', remaining')
    ensures safe ==> !fault && v.Serves(store) && At(buffer[..], store, size, done', i', remaining')
    ensures safe ==> done' == done + Take(Leaves(store, level, block), remaining)
    decreases level, 1
  {
    OffsetMono(i + 1, i + remaining, size);
    if level == 0 {
      ReadInto(v, block, buffer, i, safe, store, done);
      return false, i + 1, remaining - 1, done + [block];
    } else {
      fault, i', remaining', done' := ReadIndirect(v, level, block, buffer, i, remaining, beyond, safe, store, size, done);
    }
  }

  /** Inside the loop over a list: the next pointer is number `j`, `total` blocks are read or may
      still be, `goal` is what the buffer will hold when the list has been read, and nothing
      after the blocks read differs from `origin`. */
  ghost predicate Halfway(store: Store, level: nat, ps: seq<nat>, j: nat, buffer: seq<Byte>, size: nat, done: seq<nat>,
                          i: nat, remaining: nat, origin: seq<Byte>, goal: seq<nat>, total: nat)
  {
    && j <= |ps| && SafeList(store, level, ps[j..], remaining)
    && i + remaining == total && At(buffer, store, size, done, i, remaining)
    && done + Rest(store, level, ps, j, remaining) == goal
    && TailKept(origin, buffer, Offset(i, size))
  }

  lemma {:induction false} HalfwayMeets(store: Store, level: nat, ps: seq<nat>, j: nat, buffer: seq<Byte>, size: nat, done: seq<nat>,
                                        i: nat, remaining: nat, origin: seq<Byte>, goal: seq<nat>, total: nat)
    requires Halfway(store, level, ps, j, buffer, size, done, i, remaining, origin, goal, total)
    ensures remaining > 0 ==> j < |ps|
    ensures remaining == 0 || ps[j] == 0 ==> done == goal
    ensures At(buffer, store, size, done, i, remaining) && i + remaining == total
    ensures TailKept(origin, buffer, Offset(i, size))
  {
    if remaining > 0 {
      SafeStep(store, level, ps, j, remaining);
    }
  }

  lemma {:induction false} HalfwayStep(store: Store, level: nat, ps: seq<nat>, j: nat, before: seq<Byte>, after: seq<Byte>, size: nat,
                                       done: seq<nat>, done': seq<nat>, i: nat, i': nat, remaining: nat, remaining': nat,
                                       origin: seq<Byte>, goal: seq<nat>, total: nat)
    requires remaining > 0 && j < |ps| && ps[j] != 0
    requires Halfway(store, level, ps, j, before, size, done, i, remaining, origin, goal, total)
    requires done' == done + Take(Leaves(store, level, ps[j]), remaining)
    requires i <= i' && i' + remaining' == i + remaining && At(after, store, size, done', i', remaining')
    requires TailKept(before, after, Offset(i', size))
    ensures Halfway(store, level, ps, j + 1, after, size, done', i', remaining', origin, goal, total)
  {
    RestStep(store, level, ps, j, done, remaining);
    SafeStep(store, level, ps, j, remaining);
    OffsetMono(i, i', size);
    TailKeptTrans(origin, before, after, Offset(i, size), Offset(i', size));
  }

  lemma {:induction false} RestStep(store: Store, level: nat, ps: seq<nat>, j: nat, done: seq<nat>, remaining: nat)
    requires j < |ps| && ps[j] != 0
    ensures done + Rest(store, level, ps, j, remaining)
         == (done + Take(Leaves(store, level, ps[j]), remaining))
            + Rest(store, level, ps, j + 1, Left(store, level, ps[j], remaining))
  {
    var part := Take(Leaves(store, level, ps[j]), remaining);
    ListStep(store, level, ps, j, remaining);
    Associate(done, part, Rest(store, level, ps, j + 1, remaining - |part|));
  }

  /** The loop over a list of pointers; it goes on until a zero pointer or until nothing remains
      to be read. */
  method ReadList(v: Volume, level: nat, ps: seq<nat>, buffer: array<Byte>, i: nat, remaining: nat, beyond: nat,
                  ghost safe: bool, ghost store: Store, ghost size: nat, ghost done: seq<nat>)
    returns (fault: bool, i': nat, remaining': nat, ghost done': seq<nat>)
    requires size == v.BlockSize() && Offset(i + remaining, size) <= buffer.Length
    requires safe ==> v.Serves(store) && SafeList(store, level, ps[0..], remaining) && At(buffer[..], store, size, done, i, remaining)
    modifies buffer
    ensures Advanced(old(buffer[..]), buffer[..], size, i, remaining, i', remaining')
    ensures safe ==> !fault && v.Serves(store) && At(buffer[..], store, size, done', i', remaining')
    ensures safe ==> done' == done + Rest(store, level, ps, 0, remaining)
    decreases level, 3
  {
    var j := 0;
    fault, i', remaining', done' := false, i, remaining, done;
    OffsetMono(i, i + remaining, size);
    ghost var origin, goal, total := buffer[..], done + Rest(store, level, ps, 0, remaining), i + remaining;
    while remaining' > 0
      invariant Advanced(origin, buffer[..], size, i, remaining, i', remaining') && j <= |ps| + beyond && !fault
      invariant safe ==> v.Serves(store) && Halfway(store, level, ps, j, buffer[..], size, done', i', remaining', origin, goal, total)
      decreases |ps| + beyond - j
    {
      if safe {
        HalfwayMeets(store, level, ps, j, buffer[..], size, done', i', remaining', origin, goal, total);
      }
      if j == |ps| + beyond {
        fault := true;
        return;
      }
      var p := PointerAt(ps, j);
      if p == 0 {
        break;
      }
      fault, i', remaining', done' := ReadNext(v, level, ps, j, p, buffer, i', remaining', beyond, safe, store, size, done', origin, goal, total,
                                               i, remaining);
      if fault {
        return;
      }
      j := j + 1;
    }
    if safe {
      HalfwayMeets(store, level, ps, j, buffer[..], size, done', i', remaining', origin, goal, total);
    }
  }

  /** One nonzero pointer of a list: what it leads to, then the list goes on. */
  method ReadNext(v: Volume, level: nat, ps: seq<nat>, j: nat, p: nat, buffer: array<Byte>, i: nat, remaining: nat, beyond: nat,
                  ghost safe: bool, ghost store: Store, ghost size: nat, ghost done: seq<nat>,
                  ghost origin: seq<Byte>, ghost goal: seq<nat>, ghost total: nat, ghost i0: nat, ghost remaining0: nat)
    returns (fault: bool, i': nat, remaining': nat, ghost done': seq<nat>)
    requires size == v.BlockSize() && remaining > 0 && Offset(i0 + remaining0, size) <= buffer.Length
    requires Advanced(origin, buffer[..], size, i0, remaining0, i, remaining)
    requires safe ==> v.Serves(store) && j < |ps| && p == ps[j] != 0
    requires safe ==> Halfway(store, level, ps, j, buffer[..], size, done, i, remaining, origin, goal, total)
    modifies buffer
    ensures Advanced(origin, buffer[..], size, i0, remaining0, i', remaining')
    ensures safe ==> !fault && v.Serves(store)
    ensures safe ==> Halfway(store, level, ps, j + 1, buffer[..], size, done', i', remaining', origin, goal, total)
    decreases level, 2
  {
    ghost var before := buffer[..];
    if safe {
      SafeStep(store, level, ps, j, remaining);
    }
    fault, i', remaining', done' := ReadChild(v, level, p, buffer, i, remaining, beyond, safe, store, size, done);
    AdvancedTrans(origin, before, buffer[..], size, i0, remaining0, i, remaining, i', remaining');
    if safe {
      HalfwayStep(store, level, ps, j, before, buffer[..], size, done, done', i, i', remaining, remaining', origin, goal, total);
    }
  }

  /** A pointer block; the source writes this once for each of its three levels, one inside the
      other. */
  method ReadIndirect(v: Volume, level: nat, block: nat, buffer: array<Byte>, i: nat, remaining: nat, beyond: nat,
                      ghost safe: bool, ghost store: Store, ghost size: nat, ghost done: seq<nat>)
    returns (fault: bool, i': nat, remaining': nat, ghost done': seq<nat>)
    requires size == v.BlockSize() && level >= 1 && Offset(i + remaining, size) <= buffer.Length
    requires safe ==> v.Serves(store) && Safe(store, level, block, remaining) && At(buffer[..], store, size, done, i, remaining)
    modifies buffer
    ensures Advanced(old(buffer[..]), buffer[..], size, i, remaining, i', remaining')
    ensures safe ==> !fault && v.Serves(store) && At(buffer[..], store, size, done', i', remaining')
    ensures safe ==> done' == done + Take(Leaves(store, level, block), remaining)
    decreases level, 0
  {
    var content := ReadBlock(v, block, safe, store);
    var ps := Pointers(content);
    if safe {
      Unfold(store, level, block, remaining);
    }
    fault, i', remaining', done' := ReadList(v, level - 1, ps, buffer, i, remaining, beyond, safe, store, size, done);
  }

  // ---- The whole file ----

  /** One direct block, that of pointer `i`. */
  method ReadOne(v: Volume, direct: seq<nat>, buffer: array<Byte>, i: nat,
                 ghost safe: bool, ghost store: Store, ghost size: nat, ghost origin: seq<Byte>, ghost d: seq<nat>)
    returns (i': nat)
    requires size == v.BlockSize() && d == Cut(direct) && Offset(|d|, size) <= buffer.Length
    requires i < |direct| && i < |d| && d[i] == direct[i] && TailKept(origin, buffer[..], Offset(i, size))
    requires safe ==> v.Serves(store) && direct[i] in store && Filled(buffer[..], store, d[..i], size)
    modifies buffer
    ensures i' == i + 1 && TailKept(origin, buffer[..], Offset(i', size))
    ensures safe ==> v.Serves(store) && Filled(buffer[..], store, d[..i'], size)
  {
    i' := i + 1;
    OffsetMono(i, i', size);
    OffsetMono(i', |d|, size);
    assert d[..i] + [direct[i]] == d[..i'];
    ghost var before := buffer[..];
    ReadInto(v, direct[i], buffer, i, safe, store, d[..i]);
    TailKeptTrans(origin, before, buffer[..], Offset(i, size), Offset(i', size));
  }

  /** Pointer `i`, with those before it in the cut list: either it ends the list or it is next. */
  lemma {:induction false} CutAt(ps: seq<nat>, i: nat)
    requires i < |ps| && i <= |Cut(ps)|
    ensures ps[i] == 0 ==> i == |Cut(ps)| && Cut(ps)[..i] == Cut(ps)
    ensures ps[i] != 0 ==> i < |Cut(ps)| && Cut(ps)[i] == ps[i]
  {
    CutPrefix(ps);
  }

  /** The loop over the twelve direct pointers: the blocks before the first zero are read, whatever
      the budget; a zero ends the file, and otherwise 12 is taken off the budget, in 64 bits. */
  method ReadDirect(v: Volume, inode: Inode, buffer: array<Byte>, budget: U64, ghost safe: bool, ghost store: Store, ghost size: nat)
    returns (i: nat, remaining: U64)
    requires size == v.BlockSize() && |inode.direct| == DIRECT && Offset(|Cut(inode.direct)|, size) <= buffer.Length
    requires safe ==> v.Serves(store) && forall k :: 0 <= k < |Cut(inode.direct)| ==> Cut(inode.direct)[k] in store
    modifies buffer
    ensures i == |Cut(inode.direct)| && remaining == if i < DIRECT then 0 else SubU64(budget, DIRECT)
    ensures TailKept(old(buffer[..]), buffer[..], Offset(i, size))
    ensures safe ==> v.Serves(store) && Filled(buffer[..], store, Cut(inode.direct), size)
  {
    i, remaining := 0, budget;
    ghost var origin, d := buffer[..], Cut(inode.direct);
    assert d[..0] == [];
    while i < DIRECT
      invariant i <= |d| && remaining == SubU64(budget, i)
      invariant TailKept(origin, buffer[..], Offset(i, size))
      invariant safe ==> v.Serves(store) && Filled(buffer[..], store, d[..i], size)
    {
      CutAt(inode.direct, i);
      if inode.direct[i] == 0 {
        remaining := 0;
        break;
      }
      i := ReadOne(v, inode.direct, buffer, i, safe, store, size, origin, d);
      remaining := SubU64(remaining, 1);
    }
    assert d[..i] == d;
  }

  /** One of the three trees, entered whenever blocks remain to be read. */
  method ReadRoot(v: Volume, level: nat, block: nat, buffer: array<Byte>, i: nat, remaining: nat, beyond: nat,
                  ghost safe: bool, ghost store: Store, ghost size: nat, ghost done: seq<nat>)
    returns (fault: bool, i': nat, remaining': nat, ghost done': seq<nat>)
    requires size == v.BlockSize() && level >= 1 && Offset(i + remaining, size) <= buffer.Length
    requires safe ==> v.Serves(store) && SafeRoot(store, level, block, remaining) && At(buffer[..], store, size, done, i, remaining)
    modifies buffer
    ensures Advanced(old(buffer[..]), buffer[..], size, i, remaining, i', remaining')
    ensures safe ==> !fault && v.Serves(store) && At(buffer[..], store, size, done', i', remaining')
    ensures safe ==> done' == done + Take(Leaves(store, level, block), remaining) && remaining' == Left(store, level, block, remaining)
  {
    fault, i', remaining', done' := false, i, remaining, done;
    OffsetMono(i, i + remaining, size);
    if remaining > 0 {
      fault, i', remaining', done' := ReadIndirect(v, level, block, buffer, i, remaining, beyond, safe, store, size, done);
    }
  }

  /** Each tree is safe to read with what the ones before it left over. */
  lemma RootsSafe(store: Store, inode: Inode, budget: nat, left0: nat)
    requires SafeInode(store, inode, budget) && left0 == if |Cut(inode.direct)| < DIRECT then 0 else budget - DIRECT
    ensures SafeRoot(store, 1, inode.singly, left0)
    ensures SafeRoot(store, 2, inode.doubly, Left(store, 1, inode.singly, left0))
    ensures SafeRoot(store, 3, inode.triply, Left(store, 2, inode.doubly, Left(store, 1, inode.singly, left0)))
  {
  }

  /** The file is its direct blocks and what is read from each tree in turn. */
  lemma {:induction false} BlocksInTurn(store: Store, inode: Inode, budget: nat, left0: nat)
    requires |Cut(inode.direct)| <= DIRECT && left0 == if |Cut(inode.direct)| < DIRECT || budget <= DIRECT then 0 else budget - DIRECT
    ensures Blocks(store, inode, budget)
         == Cut(inode.direct) + Take(Leaves(store, 1, inode.singly), left0)
            + Take(Leaves(store, 2, inode.doubly), Left(store, 1, inode.singly, left0))
            + Take(Leaves(store, 3, inode.triply), Left(store, 2, inode.doubly, Left(store, 1, inode.singly, left0)))
  {
    TakeThree(Cut(inode.direct), Leaves(store, 1, inode.singly), Leaves(store, 2, inode.doubly), Leaves(store, 3, inode.triply), left0);
  }

  lemma {:induction false} TakeThree(d: seq<nat>, a: seq<nat>, b: seq<nat>, c: seq<nat>, n: nat)
    ensures d + Take(a + b + c, n)
         == d + Take(a, n) + Take(b, n - |Take(a, n)|) + Take(c, n - |Take(a, n)| - |Take(b, n - |Take(a, n)|)|)
    ensures n == 0 ==> d + Take(a + b + c, n) == d
  {
    TakeAppend(a + b, c, n);
    TakeAppend(a, b, n);
  }

  /** The three trees, one after the other. */
  method ReadTrees(v: Volume, inode: Inode, buffer: array<Byte>, i0: nat, remaining0: nat, beyond: nat,
                   ghost safe: bool, ghost store: Store, ghost size: nat, ghost budget: nat)
    returns (fault: bool)
    requires size == v.BlockSize() && Offset(i0 + remaining0, size) <= buffer.Length
    requires i0 == |Cut(inode.direct)| && remaining0 == if i0 < DIRECT then 0 else budget - DIRECT
    requires safe ==> v.Serves(store) && SafeInode(store, inode, budget) && At(buffer[..], store, size, Cut(inode.direct), i0, remaining0)
    modifies buffer
    ensures TailKept(old(buffer[..]), buffer[..], Offset(i0 + remaining0, size))
    ensures safe ==> !fault && v.Serves(store) && Filled(buffer[..], store, Blocks(store, inode, budget), size)
    ensures safe ==> TailKept(old(buffer[..]), buffer[..], Offset(|Blocks(store, inode, budget)|, size))
  {
    ghost var origin, done := buffer[..], Cut(inode.direct);
    if safe {
      RootsSafe(store, inode, budget, remaining0);
      BlocksInTurn(store, inode, budget, remaining0);
    }
    var i, remaining;
    fault, i, remaining, done := ReadRoot(v, 1, inode.singly, buffer, i0, remaining0, beyond, safe, store, size, done);
    OffsetMono(i, i0 + remaining0, size);
    if fault {
      TailKeptTrans(origin, buffer[..], buffer[..], Offset(i, size), Offset(i0 + remaining0, size));
      return;
    }
    fault := ReadDeeper(v, inode, buffer, i, remaining, beyond, safe, store, size, done, origin, i0, remaining0);
  }

  /** The last two of them. */
  method ReadDeeper(v: Volume, inode: Inode, buffer: array<Byte>, i1: nat, remaining1: nat, beyond: nat,
                    ghost safe: bool, ghost store: Store, ghost size: nat, ghost done: seq<nat>,
                    ghost origin: seq<Byte>, ghost i0: nat, ghost remaining0: nat)
    returns (fault: bool)
    requires size == v.BlockSize() && Offset(i0 + remaining0, size) <= buffer.Length
    requires Advanced(origin, buffer[..], size, i0, remaining0, i1, remaining1)
    requires safe ==> v.Serves(store) && At(buffer[..], store, size, done, i1, remaining1)
    requires safe ==> SafeRoot(store, 2, inode.doubly, remaining1) && SafeRoot(store, 3, inode.triply, Left(store, 2, inode.doubly, remaining1))
    modifies buffer
    ensures TailKept(origin, buffer[..], Offset(i0 + remaining0, size))
    ensures safe ==> !fault && v.Serves(store)
    ensures safe ==>
              var all := done + Take(Leaves(store, 2, inode.doubly), remaining1)
                         + Take(Leaves(store, 3, inode.triply), Left(store, 2, inode.doubly, remaining1));
              Filled(buffer[..], store, all, size) && TailKept(origin, buffer[..], Offset(|all|, size))
  {
    ghost var before := buffer[..];
    ghost var done' := done;
    var i, remaining;
    fault, i, remaining, done' := ReadRoot(v, 2, inode.doubly, buffer, i1, remaining1, beyond, safe, store, size, done);
    AdvancedTrans(origin, before, buffer[..], size, i0, remaining0, i1, remaining1, i, remaining);
    if !fault {
      ghost var i2, remaining2 := i, remaining;
      before := buffer[..];
      fault, i, remaining, done' := ReadRoot(v, 3, inode.triply, buffer, i, remaining, beyond, safe, store, size, done');
      AdvancedTrans(origin, before, buffer[..], size, i0, remaining0, i2, remaining2, i, remaining);
    }
    OffsetMono(i, i0 + remaining0, size);
    TailKeptTrans(origin, buffer[..], buffer[..], Offset(i, size), Offset(i0 + remaining0, size));
  }

  /** How far ext2_get_inode_data may write, in blocks: the leading direct blocks are read whatever
      the budget. */
  function Extent(inode: Inode, budget: nat): nat {
    if |Cut(inode.direct)| < DIRECT then |Cut(inode.direct)| else budget
  }

  /** The four traversals within a budget. */
  method ReadBlocks(v: Volume, inode: Inode, buffer: array<Byte>, budget: U64, beyond: nat,
                    ghost safe: bool, ghost store: Store, ghost size: nat)
    returns (fault: bool)
    requires size == v.BlockSize() && |inode.direct| == DIRECT && (|Cut(inode.direct)| == DIRECT ==> DIRECT <= budget)
    requires Offset(Extent(inode, budget), size) <= buffer.Length
    requires safe ==> v.Serves(store) && SafeInode(store, inode, budget)
    modifies buffer
    ensures TailKept(old(buffer[..]), buffer[..], Offset(Extent(inode, budget), size))
    ensures safe ==> !fault && v.Serves(store) && Filled(buffer[..], store, Blocks(store, inode, budget), size)
    ensures safe ==> TailKept(old(buffer[..]), buffer[..], Offset(|Blocks(store, inode, budget)|, size))
  {
    ghost var origin := buffer[..];
    OffsetMono(|Cut(inode.direct)|, Extent(inode, budget), size);
    var i, remaining := ReadDirect(v, inode, buffer, budget, safe, store, size);
    ghost var before := buffer[..];
    fault := ReadTrees(v, inode, buffer, i, remaining, beyond, safe, store, size, budget);
    TailKeptTrans(origin, before, buffer[..], Offset(i, size), Offset(Extent(inode, budget), size));
    if safe {
      BlocksStart(store, inode, budget);
      OffsetMono(i, |Blocks(store, inode, budget)|, size);
      TailKeptTrans(origin, before, buffer[..], Offset(i, size), Offset(|Blocks(store, inode, budget)|, size));
    }
  }

  lemma BlocksStart(store: Store, inode: Inode, budget: nat)
    ensures |Cut(inode.direct)| <= |Blocks(store, inode, budget)|
  {
  }

  /** The blocks that the sectors used make up. */
  function Budget(v: Volume, sectors: nat): nat { sectors / v.SectorsPerBlock() }

  /** ext2_get_inode_data. Whatever the disk and the memory behind the pointer blocks hold, nothing
      past the budget is written, provided the direct blocks, if they go on to the trees, are within
      it; and when the blocks can be read and the traversal stays inside its pointer blocks, the
      buffer receives the file's blocks in order and nothing else in it changes. */
  method GetInodeData(v: Volume, inode: Inode, buffer: array<Byte>, beyond: nat, ghost store: Store) returns (fault: bool, bytes: nat)
    requires |inode.direct| == DIRECT && inode.sectorsUsed < TWO64
    requires |Cut(inode.direct)| == DIRECT ==> DIRECT <= Budget(v, inode.sectorsUsed)
    requires Offset(Extent(inode, Budget(v, inode.sectorsUsed)), v.BlockSize()) <= buffer.Length
    modifies buffer
    ensures TailKept(old(buffer[..]), buffer[..], Offset(Extent(inode, Budget(v, inode.sectorsUsed)), v.BlockSize()))
    ensures old(v.Serves(store)) && SafeInode(store, inode, Budget(v, inode.sectorsUsed)) ==>
              && !fault && v.Serves(store) && Filled(buffer[..], store, Blocks(store, inode, Budget(v, inode.sectorsUsed)), v.BlockSize())
              && TailKept(old(buffer[..]), buffer[..], Offset(|Blocks(store, inode, Budget(v, inode.sectorsUsed))|, v.BlockSize()))
    ensures bytes == Budget(v, inode.sectorsUsed) * v.BlockSize() % 0x1_0000_0000
  {
    var budget := inode.sectorsUsed / v.SectorsPerBlock();
    fault := ReadBlocks(v, inode, buffer, budget, beyond, v.Serves(store) && SafeInode(store, inode, budget), store, v.BlockSize());
    bytes := budget * v.BlockSize() % 0x1_0000_0000;
  }
}
