/** The state of memory: its frames, which of them are taken, the tree of page tables among them and
    what that makes of virtual addresses; and what changes when tables are added. */
module MemoryState {
  import opened Bits
  import opened FrameBits
  import opened PageEntry
  import opened PageTree
  import opened PageCost

  /** `tables` says where every page table lies, `flat` what the walk of each page yields, and
      `grants` what the intermediate entries on its way permit. */
  datatype State = State(mem: seq<Frame>, bits: seq<bool>, tables: map<Node, nat>,
                         flat: imap<nat, Translation>, grants: imap<nat, Rights>)

  /** `flat` tells what the walk of every address yields. */
  ghost predicate Refines(mem: seq<Frame>, root: nat, flat: imap<nat, Translation>) {
    (forall p: nat :: p in flat) && forall v {:trigger WalkFrom(mem, root, 0, v)} ::
      WalkFrom(mem, root, 0, v) == flat[PageOf(v)]
  }

  /** `grants` tells what is permitted on the way of every address. */
  ghost predicate Permits(mem: seq<Frame>, root: nat, grants: imap<nat, Rights>) {
    (forall p: nat :: p in grants) && forall v {:trigger GrantedFrom(mem, root, 0, v)} ::
      GrantedFrom(mem, root, 0, v) == grants[PageOf(v)]
  }

  /** The tables form a tree in taken frames, and `flat` and `grants` are what it yields. */
  ghost predicate Sound(s: State, root: nat) {
    && |s.mem| == |s.bits|
    && IsTree(s.mem, root, s.tables) && TablesTaken(s.bits, s.tables)
    && Refines(s.mem, root, s.flat) && Permits(s.mem, root, s.grants)
  }

  /** Every table lies in a taken frame. */
  ghost predicate TablesTaken(bits: seq<bool>, tables: map<Node, nat>) {
    forall n {:trigger InTaken(bits, tables, n)} :: InTaken(bits, tables, n)
  }

  ghost predicate InTaken(bits: seq<bool>, tables: map<Node, nat>, n: Node) {
    n in tables ==> tables[n] < |bits| && bits[tables[n]]
  }

  /** No table is in a clear frame. */
  lemma {:induction false} ClearHoldsNone(bits: seq<bool>, tables: map<Node, nat>, f: nat)
    requires TablesTaken(bits, tables) && f < |bits| && !bits[f]
    ensures forall n :: n in tables ==> tables[n] != f
    ensures f !in tables.Values
  {
    forall n | n in tables
      ensures tables[n] != f
    {
      assert InTaken(bits, tables, n);
    }
  }

  /** Taking more frames leaves every table in a taken one. */
  lemma {:induction false} TakenStays(bits: seq<bool>, tables: map<Node, nat>, bits': seq<bool>)
    requires TablesTaken(bits, tables) && |bits'| == |bits| && forall f :: 0 <= f < |bits| && bits[f] ==> bits'[f]
    ensures TablesTaken(bits', tables)
  {
    forall n
      ensures InTaken(bits', tables, n)
    {
      assert InTaken(bits, tables, n);
    }
  }

  lemma {:induction false} TableFrameTaken(bits: seq<bool>, tables: map<Node, nat>, f: nat)
    requires TablesTaken(bits, tables) && f in tables.Values
    ensures f < |bits| && bits[f]
  {
    var n :| n in tables && tables[n] == f;
    assert InTaken(bits, tables, n);
  }

  // ---- Growing ----

  /** From one state to a later one: the tables stay where they are, each new one took what was then
      the least clear frame, nothing else was taken, taken frames that hold no table were not
      written, and nothing is granted or withheld on the way of any page that was not before. */
  ghost predicate Grown(s: State, s': State) {
    && |s.mem| == |s'.mem| == |s.bits| == |s'.bits| && s'.grants == s.grants
    && (forall n {:trigger TableKept(s, s', n)} :: TableKept(s, s', n))
    && (forall f {:trigger FrameKept(s, s', f)} :: 0 <= f < |s.bits| ==> FrameKept(s, s', f))
    && Took(s.bits, s.tables.Keys, s'.bits, s'.tables.Keys)
  }

  /** A table is where it was; a new one is in a frame that was clear. */
  ghost predicate TableKept(s: State, s': State, n: Node) {
    && (n in s.tables ==> n in s'.tables && s'.tables[n] == s.tables[n])
    && (n in s'.tables && n !in s.tables ==> s'.tables[n] < |s.bits| && !s.bits[s'.tables[n]])
  }

  /** A frame is taken if it was or if a table is in it now, and is as it was if it was taken and
      no table is in it. */
  ghost predicate FrameKept(s: State, s': State, f: nat)
    requires f < |s.bits| && |s.mem| == |s'.mem| == |s.bits| == |s'.bits|
  {
    && (s'.bits[f] <==> s.bits[f] || f in s'.tables.Values)
    && (s.bits[f] && f !in s'.tables.Values ==> s'.mem[f] == s.mem[f])
  }

  /** Each new table took what was then the least clear frame. */
  ghost predicate Took(bits: seq<bool>, nodes: set<Node>, bits': seq<bool>, nodes': set<Node>) {
    nodes <= nodes' && bits' == TakeLowest(bits, |Lacking(nodes', nodes)|)
  }

  lemma {:induction false} TookTrans(bits: seq<bool>, nodes: set<Node>, bits': seq<bool>, nodes': set<Node>,
                                     bits'': seq<bool>, nodes'': set<Node>)
    requires Took(bits, nodes, bits', nodes') && Took(bits', nodes', bits'', nodes'')
    ensures Took(bits, nodes, bits'', nodes'')
  {
    assert Lacking(nodes'', nodes) == Lacking(nodes', nodes) + Lacking(nodes'', nodes');
    assert Lacking(nodes', nodes) !! Lacking(nodes'', nodes');
    TakeLowestAdd(bits, |Lacking(nodes', nodes)|, |Lacking(nodes'', nodes')|);
  }

  lemma {:induction false} TookOne(bits: seq<bool>, nodes: set<Node>, n: Node, k: nat)
    requires LeastClear(bits, k) && n !in nodes
    ensures Took(bits, nodes, bits[k := true], nodes + {n})
  {
    assert Lacking(nodes + {n}, nodes) == {n};
    TakeOne(bits, k);
  }

  lemma {:induction false} TookNone(bits: seq<bool>, nodes: set<Node>)
    ensures Took(bits, nodes, bits, nodes)
  {
    assert Lacking(nodes, nodes) == {};
  }

  /** The tables of a page took the least clear frames there were. */
  lemma {:induction false} PathTook(bits: seq<bool>, nodes: set<Node>, bits': seq<bool>, nodes': set<Node>, v: U64)
    requires Took(bits, nodes, bits', nodes') && nodes' == WithPath(nodes, v)
    ensures bits' == TakeLowest(bits, Missing(nodes, v))
  {
    assert Lacking(nodes + NodesOf(v), nodes) == Lacking(NodesOf(v), nodes);
  }

  /** A frame for a page, then frames for its tables: all of them the least clear ones. */
  lemma {:induction false} FramesUsed(bits: seq<bool>, frame: nat, nodes: set<Node>, v: U64, bits': seq<bool>, nodes': set<Node>)
    requires LeastClear(bits, frame) && bits' == TakeLowest(bits[frame := true], Missing(nodes, v)) && nodes' == WithPath(nodes, v)
    ensures UsedFrames(bits, nodes, v, bits', nodes')
  {
    TakeOne(bits, frame);
    TakeLowestAdd(bits, 1, Missing(nodes, v));
  }

  lemma {:induction false} GrownRefl(s: State)
    requires |s.mem| == |s.bits| && TablesTaken(s.bits, s.tables)
    ensures Grown(s, s)
  {
    TookNone(s.bits, s.tables.Keys);
    forall f | 0 <= f < |s.bits|
      ensures FrameKept(s, s, f)
    {
      if f in s.tables.Values {
        TableFrameTaken(s.bits, s.tables, f);
      }
    }
  }

  /** Growing leaves every table in a taken frame. */
  lemma {:induction false} GrownTaken(s: State, s': State)
    requires Grown(s, s') && TablesTaken(s.bits, s.tables)
    ensures TablesTaken(s'.bits, s'.tables)
  {
    forall n | n in s'.tables
      ensures InTaken(s'.bits, s'.tables, n)
    {
      assert TableKept(s, s', n) && InTaken(s.bits, s.tables, n);
      assert s'.tables[n] in s'.tables.Values && FrameKept(s, s', s'.tables[n]);
    }
  }

  lemma {:induction false} GrownTrans(s: State, s': State, s'': State)
    requires Grown(s, s') && Grown(s', s'')
    ensures Grown(s, s'')
  {
    TookTrans(s.bits, s.tables.Keys, s'.bits, s'.tables.Keys, s''.bits, s''.tables.Keys);
    forall n
      ensures TableKept(s, s'', n)
    {
      assert TableKept(s, s', n) && TableKept(s', s'', n);
      if n in s''.tables && n !in s'.tables {
        assert FrameKept(s, s', s''.tables[n]);
      }
    }
    forall f | 0 <= f < |s.bits|
      ensures FrameKept(s, s'', f)
    {
      assert FrameKept(s, s', f) && FrameKept(s', s'', f);
      if f in s'.tables.Values {
        var n :| n in s'.tables && s'.tables[n] == f;
        assert TableKept(s', s'', n) && s''.tables[n] == f;
      }
    }
  }

  /** A taken frame that held no table does not come to hold one. */
  lemma {:induction false} NotNewTable(s: State, s': State, f: nat)
    requires Grown(s, s') && f < |s.bits| && s.bits[f] && f !in s.tables.Values
    ensures s'.bits[f] && f !in s'.tables.Values && s'.mem[f] == s.mem[f]
  {
    assert FrameKept(s, s', f);
    forall n | n in s'.tables
      ensures s'.tables[n] != f
    {
      assert TableKept(s, s', n);
      assert n in s.tables ==> s.tables[n] in s.tables.Values;
    }
  }

  // ---- The three kinds of writes ----

  /** A new, empty table in frame `child` under slot `i` of `n`. */
  ghost function Hung(s: State, root: nat, n: Node, i: nat, child: nat): State
    requires CanHang(s.mem, root, s.tables, n, i, child) && child < |s.bits|
  {
    s.(mem := WithTable(s.mem, s.tables[n], i, child), bits := s.bits[child := true], tables := s.tables[Child(n, i) := child])
  }

  lemma {:induction false} HungSound(s: State, root: nat, n: Node, i: nat, child: nat)
    requires Sound(s, root) && LeastClear(s.bits, child)
    requires CanHang(s.mem, root, s.tables, n, i, child) && Child(n, i) !in s.tables
    ensures Grown(s, Hung(s, root, n, i, child)) && Sound(Hung(s, root, n, i, child), root)
  {
    var s' := Hung(s, root, n, i, child);
    HungGrown(s, root, n, i, child);
    GrownTaken(s, s');
    NewTableKeepsTree(s.mem, root, s.tables, n, i, child);
    forall v
      ensures WalkFrom(s'.mem, root, 0, v) == s.flat[PageOf(v)] && GrantedFrom(s'.mem, root, 0, v) == s.grants[PageOf(v)]
    {
      NewTableKeepsWalks(s.mem, root, s.tables, n, i, child, v, 0);
    }
  }

  lemma {:induction false} HungGrown(s: State, root: nat, n: Node, i: nat, child: nat)
    requires |s.mem| == |s.bits| && LeastClear(s.bits, child) && TablesTaken(s.bits, s.tables)
    requires CanHang(s.mem, root, s.tables, n, i, child) && Child(n, i) !in s.tables
    ensures Grown(s, Hung(s, root, n, i, child))
  {
    var s' := Hung(s, root, n, i, child);
    assert s'.tables[Child(n, i)] == child && s'.tables[n] == s.tables[n];
    assert s'.tables.Keys == s.tables.Keys + {Child(n, i)};
    TookOne(s.bits, s.tables.Keys, Child(n, i), child);
    forall f | 0 <= f < |s.bits|
      ensures FrameKept(s, s', f)
    {
      if f in s'.tables.Values && f != child {
        assert f in s.tables.Values;
        TableFrameTaken(s.bits, s.tables, f);
      }
    }
  }

  /** What map_virtual_memory makes of a page, given what is permitted on its way. */
  function Mapping(physicalAddress: U64, flags: U64, granted: Rights): Translation
    requires physicalAddress / 0x1000 < MAX_FRAMES && PdeAddr(flags) == 0
  {
    LeafEntryMeaning(physicalAddress, flags);
    if physicalAddress == 0 then Unmapped
    else Page(LeafEntry(physicalAddress, flags), Both(granted, RightsOf(LeafEntry(physicalAddress, flags))))
  }

  /** The value map_virtual_memory stores in the last-level slot. */
  function SlotValue(physicalAddress: U64, flags: U64): U64
    requires physicalAddress / 0x1000 < MAX_FRAMES && PdeAddr(flags) == 0
  {
    LeafEntryMeaning(physicalAddress, flags);
    if physicalAddress == 0 then 0 else LeafEntry(physicalAddress, flags)
  }

  /** The last-level slot of `v` set to map it to `physicalAddress`. */
  ghost function Leafed(s: State, v: U64, physicalAddress: U64, flags: U64): State
    requires NodeFor(v, 3) in s.tables && HoldsTable(s.mem, s.tables[NodeFor(v, 3)]) && PtIndex(v) < 512 && PageOf(v) in s.grants
    requires physicalAddress / 0x1000 < MAX_FRAMES && PdeAddr(flags) == 0
  {
    s.(mem := WithEntry(s.mem, s.tables[NodeFor(v, 3)], PtIndex(v), SlotValue(physicalAddress, flags)),
       flat := s.flat[PageOf(v) := Mapping(physicalAddress, flags, s.grants[PageOf(v)])])
  }

  lemma {:induction false} LeafedSound(s: State, root: nat, v: U64, physicalAddress: U64, flags: U64)
    requires Sound(s, root) && NodeFor(v, 3) in s.tables
    requires physicalAddress / 0x1000 < MAX_FRAMES && PdeAddr(flags) == 0
    ensures HoldsTable(s.mem, s.tables[NodeFor(v, 3)]) && PtIndex(v) < 512 && LeafEntry(physicalAddress, flags) < TWO64
    ensures Sound(Leafed(s, v, physicalAddress, flags), root)
  {
    TableAt(s.mem, root, s.tables, NodeFor(v, 3));
    LeafEntryMeaning(physicalAddress, flags);
    IndexBound(v, 3);
    NodeDepth(v, 3);
    var e := SlotValue(physicalAddress, flags);
    var s' := Leafed(s, v, physicalAddress, flags);
    LeafKeepsTree(s.mem, root, s.tables, NodeFor(v, 3), PtIndex(v), e);
    assert !Present(0);
    forall w
      ensures WalkFrom(s'.mem, root, 0, w) == s'.flat[PageOf(w)] && GrantedFrom(s'.mem, root, 0, w) == s.grants[PageOf(w)]
    {
      LeafWalks(s.mem, root, s.tables, v, e, w, 0);
    }
  }

  /** Writing the frame of one table does not undo growing. */
  lemma {:induction false} TableWritten(s: State, s': State, s'': State, n: Node)
    requires Grown(s, s') && n in s'.tables
    requires s''.bits == s'.bits && s''.tables == s'.tables && s''.grants == s'.grants
    requires |s''.mem| == |s'.mem| && forall f :: 0 <= f < |s'.mem| && f != s'.tables[n] ==> s''.mem[f] == s'.mem[f]
    ensures Grown(s, s'')
  {
    forall f | 0 <= f < |s.bits|
      ensures FrameKept(s, s'', f)
    {
      assert FrameKept(s, s', f);
    }
    forall m
      ensures TableKept(s, s'', m)
    {
      assert TableKept(s, s', m);
    }
  }

  /** Writing a frame that holds no table changes neither the tree nor any walk. */
  lemma {:induction false} DataWriteKeepsAll(s: State, root: nat, f: nat, content: Frame)
    requires Sound(s, root) && f < |s.mem| && f !in s.tables.Values
    ensures Sound(s.(mem := s.mem[f := content]), root)
  {
    var mem' := s.mem[f := content];
    assert forall n :: n in s.tables ==> s.tables[n] != f;
    forall n | n in s.tables
      ensures Placed(mem', s.tables, n)
    {
      assert Placed(s.mem, s.tables, n);
    }
    forall n, i | n in s.tables && Depth(n) < 3 && 0 <= i < 512
      ensures Edge(mem', s.tables, n, i)
    {
      assert Edge(s.mem, s.tables, n, i);
    }
    forall v
      ensures WalkFrom(mem', root, 0, v) == s.flat[PageOf(v)] && GrantedFrom(mem', root, 0, v) == s.grants[PageOf(v)]
    {
      DataWriteKeepsWalk(s.mem, root, s.tables, f, content, v, 0);
    }
  }

  lemma {:induction false} DataWriteKeepsWalk(mem: seq<Frame>, root: nat, tables: map<Node, nat>, f: nat, content: Frame, v: U64, depth: nat)
    requires IsTree(mem, root, tables) && f < |mem| && forall m :: m in tables ==> tables[m] != f
    requires depth <= 3 && NodeFor(v, depth) in tables
    ensures WalkFrom(mem[f := content], tables[NodeFor(v, depth)], depth, v)
         == WalkFrom(mem, tables[NodeFor(v, depth)], depth, v)
    ensures GrantedFrom(mem[f := content], tables[NodeFor(v, depth)], depth, v)
         == GrantedFrom(mem, tables[NodeFor(v, depth)], depth, v)
    decreases 3 - depth
  {
    var m, k := NodeFor(v, depth), Index(v, depth);
    NodeDepth(v, depth);
    IndexBound(v, depth);
    var e := Entry(mem, tables[m], k);
    assert Entry(mem[f := content], tables[m], k) == e;
    if depth < 3 && LeadsOn(e) {
      assert Edge(mem, tables, m, k);
      assert NodeFor(v, depth + 1) == Child(m, k);
      DataWriteKeepsWalk(mem, root, tables, f, content, v, depth + 1);
    }
  }

  // ---- Access rights ----

  /** A page is mapped with the rights asked for exactly when every intermediate entry that leads to
      a table on its way permits them: tables that are there are never opened up, and new ones
      withhold nothing. */
  lemma {:induction false} MappedAsAskedExactly(s: State, root: nat, v: U64, physicalAddress: U64, flags: U64)
    requires Sound(s, root) && 0 < physicalAddress && physicalAddress / 0x1000 < MAX_FRAMES && PdeAddr(flags) == 0
    ensures Mapping(physicalAddress, flags, s.grants[PageOf(v)]).Page?
    ensures Mapping(physicalAddress, flags, s.grants[PageOf(v)]).rights == RightsOf(flags) <==>
            forall d {:trigger Grants(s.mem, s.tables, v, d, RightsOf(flags))} :: 0 <= d < 3 ==> Grants(s.mem, s.tables, v, d, RightsOf(flags))
  {
    LeafRights(physicalAddress, flags);
    GrantedExactly(s.mem, root, s.tables, v, RightsOf(flags), 0);
    assert GrantedFrom(s.mem, root, 0, v) == s.grants[PageOf(v)];
  }

  /** The flat maps a memory holds. */
  lemma {:induction false} WalkTable(mem: seq<Frame>, root: nat) returns (flat: imap<nat, Translation>, grants: imap<nat, Rights>)
    ensures Refines(mem, root, flat) && Permits(mem, root, grants)
  {
    flat := imap p: nat | true :: WalkFrom(mem, root, 0, AddressOf(p));
    grants := imap p: nat | true :: GrantedFrom(mem, root, 0, AddressOf(p));
    forall v
      ensures WalkFrom(mem, root, 0, v) == flat[PageOf(v)] && GrantedFrom(mem, root, 0, v) == grants[PageOf(v)]
    {
      AddressOfPage(v);
      SamePageSameWalk(mem, root, v, AddressOf(PageOf(v)), 0);
    }
  }
}
