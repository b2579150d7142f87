/** How many frames mapping pages takes for tables: the tables the walks of a page, or of a range of
    pages, need and lack. */
module PageCost {
  import opened Bits
  import opened FrameBits
  import opened PageEntry
  import opened PageTree

  /** The tables below the root that a walk of `v` needs. */
  function NodesOf(v: U64): set<Node> { set d | 1 <= d <= 3 :: NodeFor(v, d) }

  lemma {:induction false} NodesAre(v: U64)
    ensures NodesOf(v) == {NodeFor(v, 1), NodeFor(v, 2), NodeFor(v, 3)}
  {
    forall d | 1 <= d <= 3
      ensures NodeFor(v, d) in {NodeFor(v, 1), NodeFor(v, 2), NodeFor(v, 3)}
    {
      assert d == 1 || d == 2 || d == 3;
    }
  }

  /** The tables once `v` is mapped. */
  function WithPath(nodes: set<Node>, v: U64): set<Node> { nodes + NodesOf(v) }

  /** The tables of `need` that are not there. */
  function Lacking(need: set<Node>, nodes: set<Node>): set<Node> { set n | n in need && n !in nodes }

  /** How many frames mapping `v` takes from the allocator for tables, given those there are. */
  function Missing(nodes: set<Node>, v: U64): nat { |Lacking(NodesOf(v), nodes)| }

  function AddressOf(page: nat): U64 { page % 0x10_0000_0000 * 0x1000 }

  lemma AddressOfPage(v: U64)
    ensures PageOf(AddressOf(PageOf(v))) == PageOf(v)
  {
  }

  /** Creating a table on the path of `v` takes one off what is missing. */
  lemma {:induction false} MissingStep(nodes: set<Node>, v: U64, depth: nat)
    requires 1 <= depth <= 3
    ensures Missing(nodes + {NodeFor(v, depth)}, v)
         == Missing(nodes, v) - (if NodeFor(v, depth) in nodes then 0 else 1)
  {
    var n := NodeFor(v, depth);
    assert n in NodesOf(v);
    assert Lacking(NodesOf(v), nodes + {n}) == Lacking(NodesOf(v), nodes) - {n};
  }

  /** The tables below the root that the walks of `n` pages from `page` on need. */
  function RangeNodes(page: nat, n: nat): set<Node> {
    set p, d | page <= p < page + n && 1 <= d <= 3 :: NodeFor(AddressOf(p), d)
  }

  /** How many frames mapping them takes for tables. */
  function RangeMissing(nodes: set<Node>, page: nat, n: nat): nat { |Lacking(RangeNodes(page, n), nodes)| }

  lemma {:induction false} LackingSplit(a: set<Node>, b: set<Node>, nodes: set<Node>)
    ensures |Lacking(a + b, nodes)| == |Lacking(a, nodes)| + |Lacking(b, nodes + a)|
  {
    assert Lacking(a + b, nodes) == Lacking(a, nodes) + Lacking(b, nodes + a);
    assert Lacking(a, nodes) !! Lacking(b, nodes + a);
  }

  lemma {:induction false} RangeNodesSplit(page: nat, m: nat, n: nat)
    ensures RangeNodes(page, m + n) == RangeNodes(page, m) + RangeNodes(page + m, n)
  {
    forall node | node in RangeNodes(page, m + n)
      ensures node in RangeNodes(page, m) || node in RangeNodes(page + m, n)
    {
      var p, d :| page <= p < page + m + n && 1 <= d <= 3 && node == NodeFor(AddressOf(p), d);
      assert p < page + m || page + m <= p;
    }
  }

  lemma {:induction false} RangeNodesOne(page: nat)
    ensures RangeNodes(page, 1) == NodesOf(AddressOf(page))
  {
    forall node | node in NodesOf(AddressOf(page))
      ensures node in RangeNodes(page, 1)
    {
      var d :| 1 <= d <= 3 && node == NodeFor(AddressOf(page), d);
    }
  }

  /** One page at the start of a range, then the rest. */
  lemma {:induction false} RangeMissingFirst(nodes: set<Node>, page: nat, n: nat)
    ensures RangeMissing(nodes, page, n + 1)
         == Missing(nodes, AddressOf(page)) + RangeMissing(WithPath(nodes, AddressOf(page)), page + 1, n)
  {
    RangeNodesSplit(page, 1, n);
    RangeNodesOne(page);
    LackingSplit(NodesOf(AddressOf(page)), RangeNodes(page + 1, n), nodes);
  }

  /** There is a clear frame for each of `n` pages from `page` on and for each table they lack. */
  ghost predicate Affords(bits: seq<bool>, nodes: set<Node>, page: nat, n: nat) {
    CountClear(bits) >= n + RangeMissing(nodes, page, n)
  }

  /** There is a clear frame for the page of `v` and for each table it lacks. */
  ghost predicate HasFrames(bits: seq<bool>, nodes: set<Node>, v: U64) {
    CountClear(bits) >= 1 + Missing(nodes, v)
  }

  /** Those frames were taken, the least clear ones, and the tables are there. */
  ghost predicate UsedFrames(bits: seq<bool>, nodes: set<Node>, v: U64, bits': seq<bool>, nodes': set<Node>) {
    bits' == TakeLowest(bits, 1 + Missing(nodes, v)) && nodes' == WithPath(nodes, v)
  }

  /** Mapping the first of them leaves enough for the others. */
  lemma {:induction false} AffordsFirst(bits: seq<bool>, nodes: set<Node>, page: nat, n: nat, v: U64)
    requires Affords(bits, nodes, page, n + 1) && v == AddressOf(page)
    ensures HasFrames(bits, nodes, v)
  {
    RangeMissingFirst(nodes, page, n);
  }

  lemma {:induction false} AffordsRest(bits: seq<bool>, nodes: set<Node>, page: nat, n: nat, v: U64, bits': seq<bool>, nodes': set<Node>)
    requires Affords(bits, nodes, page, n + 1) && v == AddressOf(page) && UsedFrames(bits, nodes, v, bits', nodes')
    ensures Affords(bits', nodes', page + 1, n)
  {
    RangeMissingFirst(nodes, page, n);
    TakeLowestCount(bits, 1 + Missing(nodes, v));
  }

  lemma {:induction false} PathIs(nodes: set<Node>, v: U64)
    ensures WithPath(nodes, v) == nodes + {NodeFor(v, 1)} + {NodeFor(v, 2)} + {NodeFor(v, 3)}
  {
    NodesAre(v);
  }

  /** A path has three tables below the root. */
  lemma {:induction false} MissingBound(nodes: set<Node>, v: U64)
    ensures Missing(nodes, v) <= 3
  {
    NodesAre(v);
    SubsetCount(Lacking(NodesOf(v), nodes), NodesOf(v));
  }

  /** Four frames a page always suffice, though rarely that many are needed. */
  lemma {:induction false} FourAPageSuffice(bits: seq<bool>, nodes: set<Node>, page: nat, n: nat)
    requires CountClear(bits) >= 4 * n
    ensures Affords(bits, nodes, page, n)
  {
    RangeMissingBound(nodes, page, n);
  }

  lemma {:induction false} RangeMissingBound(nodes: set<Node>, page: nat, n: nat)
    ensures RangeMissing(nodes, page, n) <= 3 * n
    decreases n
  {
    if n == 0 {
      assert Lacking(RangeNodes(page, n), nodes) == {};
    } else {
      RangeMissingFirst(nodes, page, n - 1);
      MissingBound(nodes, AddressOf(page));
      RangeMissingBound(WithPath(nodes, AddressOf(page)), page + 1, n - 1);
    }
  }

  lemma {:induction false} NoneMissing(nodes: set<Node>, v: U64)
    ensures Missing(WithPath(nodes, v), v) == 0
  {
    assert Lacking(NodesOf(v), WithPath(nodes, v)) == {};
  }
}
