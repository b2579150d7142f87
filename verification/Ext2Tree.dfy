/** The block tree of an ext2 inode: which data blocks a file consists of, in order, and when
    reading it stays inside its pointer blocks. */
module Ext2Tree {
  import opened Bits
  import opened ByteSeq

  const DIRECT := 12

  /** The readable blocks of a volume, by number. */
  type Store = map<nat, seq<Byte>>

  datatype Inode = Inode(direct: seq<nat>, singly: nat, doubly: nat, triply: nat, sectorsUsed: nat, size: nat)

  /** A block read as a list of 32-bit block numbers. */
  function Pointers(content: seq<Byte>): (ps: seq<nat>)
    ensures |ps| == |content| / 4
  {
    seq(|content| / 4, j requires 0 <= j < |content| / 4 => Le32(content, 4 * j))
  }

  /** Numbers of four bytes each, one after the other. */
  function Packed(ps: seq<nat>): (content: seq<Byte>)
    ensures |content| == 4 * |ps|
  {
    if ps == [] then [] else Little(ps[0], 4) + Packed(ps[1..])
  }

  lemma {:induction false} PackedAt(ps: seq<nat>, j: nat)
    requires j < |ps|
    ensures Packed(ps)[4 * j..4 * j + 4] == Little(ps[j], 4)
  {
    var first, rest := Little(ps[0], 4), Packed(ps[1..]);
    if j == 0 {
      assert (first + rest)[0..4] == first;
    } else {
      PackedAt(ps[1..], j - 1);
      assert (first + rest)[4 * j..4 * j + 4] == rest[4 * (j - 1)..4 * (j - 1) + 4];
    }
  }

  /** A block that consists of the bytes of some numbers has those for its pointers; and it consists
      of the bytes of its pointers. */
  lemma {:induction false} PointersOfPacked(ps: seq<U32>)
    ensures Pointers(Packed(ps)) == ps
  {
    var read := Pointers(Packed(ps));
    forall j | 0 <= j < |ps|
      ensures read[j] == ps[j]
    {
      PackedAt(ps, j);
      Le32Reads(Packed(ps), 4 * j, ps[j]);
      NoTurn(ps[j]);
    }
  }

  lemma {:induction false} PointerBytes(content: seq<Byte>, j: nat)
    requires 4 * j + 4 <= |content|
    ensures Little(Pointers(content)[j], 4) == content[4 * j..4 * j + 4]
  {
    Le32Writes(content, 4 * j);
  }

  /** A pointer list ends at its first zero. */
  function Cut(ps: seq<nat>): (c: seq<nat>)
    ensures |c| <= |ps|
  {
    if ps == [] || ps[0] == 0 then [] else [ps[0]] + Cut(ps[1..])
  }

  function Take<T>(s: seq<T>, n: nat): (t: seq<T>)
    ensures |t| == if |s| <= n then |s| else n
  {
    if |s| <= n then s else s[..n]
  }

  /** The data blocks under block `b`, `level` pointer blocks above them. */
  function Leaves(store: Store, level: nat, b: nat): seq<nat>
    decreases level, 0, |store|
  {
    if level == 0 then [b]
    else if b !in store then []
    else LeavesOf(store, level - 1, Cut(Pointers(store[b])))
  }

  function LeavesOf(store: Store, level: nat, bs: seq<nat>): seq<nat>
    decreases level, 1, |bs|
  {
    if bs == [] then [] else Leaves(store, level, bs[0]) + LeavesOf(store, level, bs[1..])
  }

  /** Reading at most `budget` data blocks under `b` touches readable blocks only and never looks
      past the end of a pointer block. */
  ghost predicate Safe(store: Store, level: nat, b: nat, budget: nat)
    decreases level, 0, |store|
  {
    b in store && (level == 0 || SafeList(store, level - 1, Pointers(store[b]), budget))
  }

  ghost predicate SafeList(store: Store, level: nat, ps: seq<nat>, budget: nat)
    decreases level, 1, |ps|
  {
    if budget == 0 then true
    else if ps == [] then false
    else if ps[0] == 0 then true
    else
      Safe(store, level, ps[0], budget) &&
      SafeList(store, level, ps[1..], budget - |Take(Leaves(store, level, ps[0]), budget)|)
  }

  /** The data blocks of a file of at most `budget` blocks: the direct ones and, when none of
      those is zero, what the three trees add. */
  function Blocks(store: Store, inode: Inode, budget: nat): seq<nat> {
    var d := Cut(inode.direct);
    if |d| < DIRECT then d
    else d + Trees(store, inode, if budget <= DIRECT then 0 else budget - DIRECT)
  }

  /** What the three trees hold, cut at a budget. */
  function Trees(store: Store, inode: Inode, budget: nat): seq<nat> {
    Take(Leaves(store, 1, inode.singly) + Leaves(store, 2, inode.doubly) + Leaves(store, 3, inode.triply), budget)
  }

  /** What is left of a budget after the tree under `b`. */
  function Left(store: Store, level: nat, b: nat, budget: nat): nat {
    budget - |Take(Leaves(store, level, b), budget)|
  }

  ghost predicate SafeRoot(store: Store, level: nat, b: nat, budget: nat) {
    budget > 0 ==> Safe(store, level, b, budget)
  }

  ghost predicate SafeInode(store: Store, inode: Inode, budget: nat) {
    var d := Cut(inode.direct);
    && |inode.direct| == DIRECT && (forall k :: 0 <= k < |d| ==> d[k] in store)
    && (|d| == DIRECT ==> DIRECT <= budget && SafeTrees(store, inode, budget - DIRECT))
  }

  /** Each tree is read safely with what those before it leave of the budget. */
  ghost predicate SafeTrees(store: Store, inode: Inode, left0: nat) {
    var left1 := Left(store, 1, inode.singly, left0);
    var left2 := Left(store, 2, inode.doubly, left1);
    SafeRoot(store, 1, inode.singly, left0) && SafeRoot(store, 2, inode.doubly, left1) && SafeRoot(store, 3, inode.triply, left2)
  }

  lemma TakeAppend<T>(a: seq<T>, b: seq<T>, n: nat)
    ensures Take(a + b, n) == Take(a, n) + Take(b, n - |Take(a, n)|)
  {
  }

  lemma {:induction false} CutStep(ps: seq<nat>, j: nat)
    requires j < |ps| && ps[j] != 0
    ensures Cut(ps[j..]) == [ps[j]] + Cut(ps[j + 1..])
  {
    assert ps[j..][1..] == ps[j + 1..];
  }

  lemma {:induction false} LeavesStep(store: Store, level: nat, ps: seq<nat>, j: nat)
    requires j < |ps| && ps[j] != 0
    ensures LeavesOf(store, level, Cut(ps[j..])) == Leaves(store, level, ps[j]) + LeavesOf(store, level, Cut(ps[j + 1..]))
  {
    CutStep(ps, j);
    assert ([ps[j]] + Cut(ps[j + 1..]))[1..] == Cut(ps[j + 1..]);
  }

  /** Reading one pointer of a list and then the rest reads what reading the list does. */
  lemma {:induction false} ListStep(store: Store, level: nat, ps: seq<nat>, j: nat, budget: nat)
    requires j < |ps| && ps[j] != 0
    ensures Take(LeavesOf(store, level, Cut(ps[j..])), budget)
         == Take(Leaves(store, level, ps[j]), budget)
            + Take(LeavesOf(store, level, Cut(ps[j + 1..])), budget - |Take(Leaves(store, level, ps[j]), budget)|)
  {
    LeavesStep(store, level, ps, j);
    TakeAppend(Leaves(store, level, ps[j]), LeavesOf(store, level, Cut(ps[j + 1..])), budget);
  }

  lemma {:induction false} SafeStep(store: Store, level: nat, ps: seq<nat>, j: nat, budget: nat)
    requires j <= |ps| && SafeList(store, level, ps[j..], budget) && budget > 0
    ensures j < |ps|
    ensures ps[j] != 0 ==>
              Safe(store, level, ps[j], budget) &&
              SafeList(store, level, ps[j + 1..], budget - |Take(Leaves(store, level, ps[j]), budget)|)
  {
    if j < |ps| {
      assert ps[j..][1..] == ps[j + 1..];
    }
  }

  /** A pointer block is read as the list of its pointers. */
  lemma {:induction false} Unfold(store: Store, level: nat, b: nat, budget: nat)
    requires level > 0 && Safe(store, level, b, budget)
    ensures b in store && SafeList(store, level - 1, Pointers(store[b])[0..], budget)
    ensures Leaves(store, level, b) == LeavesOf(store, level - 1, Cut(Pointers(store[b])[0..]))
  {
    assert Pointers(store[b])[0..] == Pointers(store[b]);
  }

  // ---- How far the reader gets ----

  lemma {:induction false} CutPrefix(ps: seq<nat>)
    ensures Cut(ps) == ps[..|Cut(ps)|]
    ensures forall k :: 0 <= k < |Cut(ps)| ==> ps[k] != 0
    ensures |Cut(ps)| < |ps| ==> ps[|Cut(ps)|] == 0
  {
    if ps != [] && ps[0] != 0 {
      CutPrefix(ps[1..]);
    }
  }

  lemma {:induction false} LeavesOfData(store: Store, bs: seq<nat>)
    ensures LeavesOf(store, 0, bs) == bs
  {
    if bs != [] {
      LeavesOfData(store, bs[1..]);
    }
  }

  /** A list of data blocks is read safely exactly when a zero ends it inside its block or the
      budget does not outlast the block. */
  lemma {:induction false} DataListSafeExactly(store: Store, ps: seq<nat>, budget: nat)
    requires forall k :: 0 <= k < |Cut(ps)| ==> Cut(ps)[k] in store
    ensures SafeList(store, 0, ps, budget) <==> |Cut(ps)| < |ps| || budget <= |ps|
    decreases |ps|
  {
    if budget > 0 && ps != [] && ps[0] != 0 {
      assert Cut(ps)[0] == ps[0];
      assert ps[0] in store;
      forall k | 0 <= k < |Cut(ps[1..])|
        ensures Cut(ps[1..])[k] in store
      {
        assert Cut(ps[1..])[k] == Cut(ps)[k + 1];
      }
      DataListSafeExactly(store, ps[1..], budget - 1);
    }
  }

  /** The singly indirect block: when it is full and the file goes on, the reader runs past its
      end; in every other case it does not. */
  lemma {:induction false} SinglySafeExactly(store: Store, b: nat, budget: nat)
    requires b in store && forall k :: 0 <= k < |Cut(Pointers(store[b]))| ==> Cut(Pointers(store[b]))[k] in store
    ensures Safe(store, 1, b, budget) <==>
              |Cut(Pointers(store[b]))| < |Pointers(store[b])| || budget <= |Pointers(store[b])|
  {
    DataListSafeExactly(store, Pointers(store[b]), budget);
  }

  /** Hence the doubly indirect tree is only ever reached past a hole in the singly indirect
      block: a file without holes is read correctly up to 12 + |pointers| - 1 blocks, or
      12 + |pointers| if its budget ends there. */
  lemma {:induction false} DoublyReachedOnlyPastAHole(store: Store, inode: Inode, budget: nat)
    requires SafeInode(store, inode, budget) && |Cut(inode.direct)| == DIRECT && budget > DIRECT
    requires forall k :: 0 <= k < |Cut(Pointers(store[inode.singly]))| ==> Cut(Pointers(store[inode.singly]))[k] in store
    requires Left(store, 1, inode.singly, budget - DIRECT) > 0
    ensures |Cut(Pointers(store[inode.singly]))| < |Pointers(store[inode.singly])|
  {
    SinglySafeExactly(store, inode.singly, budget - DIRECT);
    LeavesOfData(store, Cut(Pointers(store[inode.singly])));
  }

  /** Random access agrees with the reader: block k of the file is the k-th direct pointer or the
      (k - 12)-th pointer of the singly indirect block. */
  lemma {:induction false} BlockMap(store: Store, inode: Inode, budget: nat, k: nat)
    requires SafeInode(store, inode, budget) && k < |Blocks(store, inode, budget)|
    requires k < DIRECT || (inode.singly in store && k - DIRECT < |Cut(Pointers(store[inode.singly]))|)
    ensures Blocks(store, inode, budget)[k] ==
            if k < DIRECT then inode.direct[k] else Pointers(store[inode.singly])[k - DIRECT]
    ensures k >= DIRECT ==>
              4 * (k - 12) + 4 <= |store[inode.singly]| &&
              store[inode.singly][4 * (k - 12)..4 * (k - 12) + 4] == Little(Blocks(store, inode, budget)[k], 4)
  {
    if k < DIRECT {
      DirectMap(store, inode, budget, k);
    } else {
      TreeMap(store, inode, budget, k);
      PointerBytes(store[inode.singly], k - DIRECT);
    }
  }

  lemma {:induction false} TreeMap(store: Store, inode: Inode, budget: nat, k: nat)
    requires |inode.direct| == DIRECT && (|Cut(inode.direct)| == DIRECT ==> DIRECT <= budget)
    requires DIRECT <= k < |Blocks(store, inode, budget)|
    requires inode.singly in store && k - DIRECT < |Cut(Pointers(store[inode.singly]))|
    ensures Blocks(store, inode, budget)[k] == Pointers(store[inode.singly])[k - DIRECT]
  {
    BlocksSplit(store, inode, budget);
    IndexPast(Cut(inode.direct), Trees(store, inode, budget - DIRECT), k);
    SinglyMap(store, inode, budget - DIRECT, k - DIRECT);
  }

  lemma BlocksSplit(store: Store, inode: Inode, budget: nat)
    requires |inode.direct| == DIRECT && (|Cut(inode.direct)| == DIRECT ==> DIRECT <= budget)
    requires DIRECT < |Blocks(store, inode, budget)|
    ensures |Cut(inode.direct)| == DIRECT <= budget && Blocks(store, inode, budget) == Cut(inode.direct) + Trees(store, inode, budget - DIRECT)
  {
  }

  lemma IndexPast(a: seq<nat>, b: seq<nat>, k: nat)
    requires |a| <= k < |a + b|
    ensures (a + b)[k] == b[k - |a|]
  {
  }

  lemma {:induction false} DirectMap(store: Store, inode: Inode, budget: nat, k: nat)
    requires |inode.direct| == DIRECT && k < DIRECT && k < |Blocks(store, inode, budget)|
    ensures Blocks(store, inode, budget)[k] == inode.direct[k]
  {
    CutPrefix(inode.direct);
    BlocksBegin(store, inode, budget, k);
  }

  lemma {:induction false} BlocksBegin(store: Store, inode: Inode, budget: nat, k: nat)
    requires |Cut(inode.direct)| <= DIRECT && k < DIRECT && k < |Blocks(store, inode, budget)|
    ensures k < |Cut(inode.direct)| && Blocks(store, inode, budget)[k] == Cut(inode.direct)[k]
  {
  }

  lemma {:induction false} SinglyMap(store: Store, inode: Inode, budget: nat, k: nat)
    requires inode.singly in store && k < |Cut(Pointers(store[inode.singly]))|
    requires k < |Trees(store, inode, budget)|
    ensures Trees(store, inode, budget)[k] == Pointers(store[inode.singly])[k]
  {
    var ps := Pointers(store[inode.singly]);
    CutPrefix(ps);
    LeavesOfData(store, Cut(ps));
    var more := Leaves(store, 2, inode.doubly) + Leaves(store, 3, inode.triply);
    Associate(Leaves(store, 1, inode.singly), Leaves(store, 2, inode.doubly), Leaves(store, 3, inode.triply));
    TakeFirst(Leaves(store, 1, inode.singly), more, budget, k);
  }

  lemma Associate(a: seq<nat>, b: seq<nat>, c: seq<nat>)
    ensures (a + b) + c == a + (b + c)
  {
  }

  lemma TakeFirst(a: seq<nat>, b: seq<nat>, n: nat, k: nat)
    requires k < |a| && k < |Take(a + b, n)|
    ensures Take(a + b, n)[k] == a[k]
  {
  }

  // ---- When reading is safe, at every level ----

  /** Block `b`, the pointer blocks under it and all its data blocks can be read. */
  ghost predicate Readable(store: Store, level: nat, b: nat)
    decreases level, 0, |store|
  {
    b in store && (level == 0 || AllReadable(store, level - 1, Cut(Pointers(store[b]))))
  }

  ghost predicate AllReadable(store: Store, level: nat, bs: seq<nat>)
    decreases level, 1, |bs|
  {
    bs == [] || (Readable(store, level, bs[0]) && AllReadable(store, level, bs[1..]))
  }

  /** Where the data blocks of the full pointer blocks under `b` end, counted in data blocks, when
      `before` of them come before those of `b`. */
  function FullEnds(store: Store, level: nat, b: nat, before: nat): set<nat>
    decreases level, 0, |store|
  {
    if level == 0 || b !in store then {}
    else
      var ps := Pointers(store[b]);
      ListEnds(store, level - 1, Cut(ps), before) +
      (if |Cut(ps)| == |ps| then {before + |LeavesOf(store, level - 1, Cut(ps))|} else {})
  }

  function ListEnds(store: Store, level: nat, bs: seq<nat>, before: nat): set<nat>
    decreases level, 1, |bs|
  {
    if bs == [] then {}
    else FullEnds(store, level, bs[0], before) + ListEnds(store, level, bs[1..], before + |Leaves(store, level, bs[0])|)
  }

  ghost predicate NoneBelow(ends: set<nat>, n: nat) { forall e :: e in ends ==> n <= e }

  lemma {:induction false} EndsFrom(store: Store, level: nat, b: nat, before: nat)
    ensures NoneBelow(FullEnds(store, level, b, before), before)
    decreases level, 0, |store|
  {
    if level > 0 && b in store {
      ListEndsFrom(store, level - 1, Cut(Pointers(store[b])), before);
    }
  }

  lemma {:induction false} ListEndsFrom(store: Store, level: nat, bs: seq<nat>, before: nat)
    ensures NoneBelow(ListEnds(store, level, bs, before), before)
    decreases level, 1, |bs|
  {
    if bs != [] {
      EndsFrom(store, level, bs[0], before);
      ListEndsFrom(store, level, bs[1..], before + |Leaves(store, level, bs[0])|);
    }
  }

  /** A readable tree of any depth is read safely exactly when no full pointer block in it has its
      data blocks end before the budget does. */
  lemma {:induction false} SafeExactly(store: Store, level: nat, b: nat, budget: nat, before: nat)
    requires Readable(store, level, b)
    ensures Safe(store, level, b, budget) <==> NoneBelow(FullEnds(store, level, b, before), before + budget)
    decreases level, 0, |store|
  {
    if level > 0 {
      ListSafeExactly(store, level - 1, Pointers(store[b]), budget, before);
    }
  }

  lemma {:induction false} ListSafeExactly(store: Store, level: nat, ps: seq<nat>, budget: nat, before: nat)
    requires AllReadable(store, level, Cut(ps))
    ensures SafeList(store, level, ps, budget) <==>
            NoneBelow(ListEnds(store, level, Cut(ps), before), before + budget) &&
            (|Cut(ps)| == |ps| ==> budget <= |LeavesOf(store, level, Cut(ps))|)
    decreases level, 1, |ps|
  {
    if budget == 0 {
      ListEndsFrom(store, level, Cut(ps), before);
    } else if ps != [] && ps[0] != 0 {
      var l := |Leaves(store, level, ps[0])|;
      var rest := if l <= budget then budget - l else 0;
      assert Cut(ps)[0] == ps[0] && Cut(ps)[1..] == Cut(ps[1..]);
      SafeExactly(store, level, ps[0], budget, before);
      ListSafeExactly(store, level, ps[1..], rest, before + l);
      ListEndsFrom(store, level, Cut(ps[1..]), before + l);
    }
  }

  /** The same for the three trees of an inode, which follow its direct blocks. */
  function InodeEnds(store: Store, inode: Inode): set<nat> {
    FullEnds(store, 1, inode.singly, DIRECT) +
    FullEnds(store, 2, inode.doubly, DIRECT + |Leaves(store, 1, inode.singly)|) +
    FullEnds(store, 3, inode.triply, DIRECT + |Leaves(store, 1, inode.singly)| + |Leaves(store, 2, inode.doubly)|)
  }

  /** The direct blocks can be read, and so can each tree that the file gets to. */
  ghost predicate ReadableInode(store: Store, inode: Inode, budget: nat) {
    var d := Cut(inode.direct);
    var first, second := DIRECT + |Leaves(store, 1, inode.singly)|, |Leaves(store, 2, inode.doubly)|;
    && |inode.direct| == DIRECT && (forall k :: 0 <= k < |d| ==> d[k] in store)
    && (|d| == DIRECT && DIRECT < budget ==> Readable(store, 1, inode.singly))
    && (|d| == DIRECT && first < budget ==> Readable(store, 2, inode.doubly))
    && (|d| == DIRECT && first + second < budget ==> Readable(store, 3, inode.triply))
  }

  /** A tree that starts after `before` data blocks, read with what they leave of the budget. */
  lemma {:induction false} RootSafeExactly(store: Store, level: nat, b: nat, left: nat, before: nat, budget: nat)
    requires before < budget ==> Readable(store, level, b)
    requires left == if before <= budget then budget - before else 0
    ensures SafeRoot(store, level, b, left) <==> NoneBelow(FullEnds(store, level, b, before), budget)
  {
    EndsFrom(store, level, b, before);
    if before < budget {
      SafeExactly(store, level, b, left, before);
    }
  }

  /** For every inode: reading stays inside its pointer blocks exactly when, if the file
      goes on to its trees, its direct blocks are within the budget and no full pointer block ends before the budget does. */
  lemma {:induction false} InodeSafeExactly(store: Store, inode: Inode, budget: nat)
    requires ReadableInode(store, inode, budget)
    ensures SafeInode(store, inode, budget) <==>
            (|Cut(inode.direct)| == DIRECT ==> DIRECT <= budget && NoneBelow(InodeEnds(store, inode), budget))
  {
    if |Cut(inode.direct)| == DIRECT <= budget {
      var left0 := budget - DIRECT;
      var left1 := Left(store, 1, inode.singly, left0);
      var left2 := Left(store, 2, inode.doubly, left1);
      var first, second := DIRECT + |Leaves(store, 1, inode.singly)|, |Leaves(store, 2, inode.doubly)|;
      RootSafeExactly(store, 1, inode.singly, left0, DIRECT, budget);
      RootSafeExactly(store, 2, inode.doubly, left1, first, budget);
      RootSafeExactly(store, 3, inode.triply, left2, first + second, budget);
    }
  }

  /** A block of 1024 bytes whose 256 pointers are all 1. */
  function BlockOfOnes(): seq<Byte> { seq(1024, i => if i % 4 == 0 then 1 else 0) }

  lemma {:induction false} CutOfNonzero(ps: seq<nat>)
    requires forall k :: 0 <= k < |ps| ==> ps[k] != 0
    ensures Cut(ps) == ps
  {
    if ps != [] {
      CutOfNonzero(ps[1..]);
    }
  }

  lemma {:induction false} OnesAreFull()
    ensures var ps := Pointers(BlockOfOnes()); |ps| == 256 && Cut(ps) == ps && forall k :: 0 <= k < 256 ==> ps[k] == 1
  {
    var ps := Pointers(BlockOfOnes());
    forall k | 0 <= k < 256
      ensures ps[k] == 1
    {
      OnesPointer(BlockOfOnes(), k);
    }
    CutOfNonzero(ps);
  }

  lemma {:induction false} OnesPointer(block: seq<Byte>, k: nat)
    requires block == BlockOfOnes() && k < 256
    ensures Le32(block, 4 * k) == 1
  {
    assert block[4 * k] == 1 && block[4 * k + 1] == 0 && block[4 * k + 2] == 0 && block[4 * k + 3] == 0;
  }

  /** A file whose direct pointers and singly indirect block are full is read safely exactly up to
      the block that fills them. */
  lemma {:induction false} FullFileSafeExactly(store: Store, inode: Inode, budget: nat)
    requires |inode.direct| == DIRECT == |Cut(inode.direct)| <= budget && inode.singly in store
    requires forall k :: 0 <= k < DIRECT ==> Cut(inode.direct)[k] in store
    requires Cut(Pointers(store[inode.singly])) == Pointers(store[inode.singly])
    requires forall k :: 0 <= k < |Pointers(store[inode.singly])| ==> Pointers(store[inode.singly])[k] in store
    ensures SafeInode(store, inode, budget) <==> budget <= DIRECT + |Pointers(store[inode.singly])|
  {
    var left := budget - DIRECT;
    SinglySafeExactly(store, inode.singly, left);
    LeavesOfData(store, Pointers(store[inode.singly]));
    if left <= |Pointers(store[inode.singly])| {
      NothingLeft(store, inode, left);
    } else {
      assert !SafeRoot(store, 1, inode.singly, left);
    }
    assert SafeInode(store, inode, budget) <==> SafeTrees(store, inode, left);
  }

  /** A budget that ends with the first tree leaves nothing to read of the others. */
  lemma {:induction false} NothingLeft(store: Store, inode: Inode, left: nat)
    requires left <= |Leaves(store, 1, inode.singly)| && SafeRoot(store, 1, inode.singly, left)
    ensures SafeTrees(store, inode, left)
  {
    assert Left(store, 1, inode.singly, left) == 0;
  }

  /** With twelve direct blocks and a full singly indirect block of 1024 bytes, a budget of 269
      blocks makes the reader run past that block's end, and one of 268 does not. */
  lemma {:induction false} FullBlockOverrun(store: Store, inode: Inode)
    requires store == map[1 := BlockOfOnes()]
    requires inode.direct == seq(DIRECT, _ => 1) && inode.singly == 1
    ensures !SafeInode(store, inode, 269) && SafeInode(store, inode, 268)
  {
    OnesAreFull();
    CutOfNonzero(inode.direct);
    FullFileSafeExactly(store, inode, 269);
    FullFileSafeExactly(store, inode, 268);
  }
}
