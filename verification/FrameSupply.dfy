/** Which frames loading a program takes, segment by segment, and when there are enough. */
module FrameSupply {
  import opened Bits
  import opened FrameBits
  import opened PageEntry
  import opened PageTree
  import opened PageCost
  import opened ElfFile

  /** What decides which frames the next segment gets: the state of the frames, and the tables
      there are. */
  datatype Supply = Supply(bits: seq<bool>, nodes: set<Node>)

  /** The least start of `count` clear frames in a row, from `i` on; past the end if there is none. */
  function RunFrom(bits: seq<bool>, count: nat, i: nat): (k: nat)
    requires i <= |bits| + 1
    ensures i <= k <= |bits| + 1 && (k <= |bits| ==> ClearRun(bits, k, count))
    ensures forall s :: i <= s < k ==> !ClearRun(bits, s, count)
    decreases |bits| + 1 - i
  {
    if i > |bits| || ClearRun(bits, i, count) then i else RunFrom(bits, count, i + 1)
  }

  function FirstRun(bits: seq<bool>, count: nat): (k: nat)
    ensures k <= |bits| ==> LeastRun(bits, k, count)
    ensures k > |bits| ==> !RunExists(bits, count)
  {
    RunFrom(bits, count, 0)
  }

  lemma {:induction false} FirstRunIs(bits: seq<bool>, count: nat, k: nat)
    requires LeastRun(bits, k, count)
    ensures FirstRun(bits, count) == k
  {
    assert RunExists(bits, count);
  }

  /** There is a clear frame for each table that `n` pages from `page` on lack. */
  ghost predicate HasTables(bits: seq<bool>, nodes: set<Node>, page: nat, n: nat) {
    CountClear(bits) >= RangeMissing(nodes, page, n)
  }

  /** A segment of that many pages can be mapped: there is a run of frames for it, and a frame for
      each table it lacks besides. */
  ghost predicate Suffices(s: Supply, page: nat, pages: nat) {
    RunExists(s.bits, pages) && Affords(s.bits, s.nodes, page, pages)
  }

  /** What is left: the least fitting run went to its pages, the least clear frames then to the
      missing tables. */
  ghost function Spent(s: Supply, page: nat, pages: nat): Supply {
    Supply(TakeLowest(Marked(s.bits, FirstRun(s.bits, pages), pages, true), RangeMissing(s.nodes, page, pages)),
           s.nodes + RangeNodes(page, pages))
  }

  /** What is left after several segments. */
  ghost function SpentAll(s: Supply, segments: seq<Segment>): Supply {
    if segments == [] then s
    else
      var last := segments[|segments| - 1];
      Spent(SpentAll(s, segments[..|segments| - 1]), last.page, last.pages)
  }

  /** There are frames for each segment in turn. */
  ghost predicate SufficesFor(s: Supply, segments: seq<Segment>) {
    forall k {:trigger SufficesAt(s, segments, k)} :: 0 <= k < |segments| ==> SufficesAt(s, segments, k)
  }

  ghost predicate SufficesAt(s: Supply, segments: seq<Segment>, k: nat)
    requires k < |segments|
  {
    Suffices(SpentAll(s, segments[..k]), segments[k].page, segments[k].pages)
  }

  lemma {:induction false} SpentOneMore(s: Supply, segments: seq<Segment>, segment: Segment)
    ensures SpentAll(s, segments + [segment]) == Spent(SpentAll(s, segments), segment.page, segment.pages)
  {
    assert (segments + [segment])[..|segments|] == segments;
  }

  /** The tables take no more after the first page than the rest need. */
  lemma {:induction false} TablesFirst(bits: seq<bool>, nodes: set<Node>, page: nat, n: nat, bits': seq<bool>, nodes': set<Node>)
    requires HasTables(bits, nodes, page, n) && n > 0
    ensures CountClear(bits) >= Missing(nodes, AddressOf(page))
    ensures bits' == TakeLowest(bits, Missing(nodes, AddressOf(page))) && nodes' == WithPath(nodes, AddressOf(page)) ==>
              HasTables(bits', nodes', page + 1, n - 1)
  {
    RangeMissingFirst(nodes, page, n - 1);
    TakeLowestCount(bits, Missing(nodes, AddressOf(page)));
  }

  lemma {:induction false} TablesAfterRun(bits: seq<bool>, nodes: set<Node>, page: nat, n: nat, start: nat)
    requires Affords(bits, nodes, page, n) && ClearRun(bits, start, n)
    ensures HasTables(Marked(bits, start, n, true), nodes, page, n)
  {
    CountRun(bits, start, n);
  }

  // ---- One clear run is enough ----

  function TotalPages(segments: seq<Segment>): nat {
    if segments == [] then 0 else TotalPages(segments[..|segments| - 1]) + segments[|segments| - 1].pages
  }

  /** Taking the least clear frames takes a clear run from its start on, if at all. */
  lemma {:induction false} LowestTakesFront(bits: seq<bool>, m: nat, a: nat, e: nat)
    requires a + m <= e <= |bits| && ClearRun(bits, a, e - a)
    ensures ClearRun(TakeLowest(bits, m), a + m, e - a - m)
    decreases m
  {
    if m > 0 {
      var k := FirstClear(bits);
      assert !bits[a] && k <= a;
      assert ClearRun(bits[k := true], a + 1, e - a - 1);
      LowestTakesFront(bits[k := true], m - 1, a + 1, e);
    }
  }

  lemma {:induction false} SegmentTakesFront(s: Supply, page: nat, pages: nat, a: nat, e: nat)
    requires a + 4 * pages <= e <= |s.bits| && ClearRun(s.bits, a, e - a)
    ensures Suffices(s, page, pages)
    ensures ClearRun(Spent(s, page, pages).bits, a + 4 * pages, e - a - 4 * pages) && |Spent(s, page, pages).bits| == |s.bits|
  {
    assert ClearRun(s.bits, a, pages);
    var k, m := FirstRun(s.bits, pages), RangeMissing(s.nodes, page, pages);
    assert RunExists(s.bits, pages) && k <= a;
    var marked := Marked(s.bits, k, pages, true);
    RangeMissingBound(s.nodes, page, pages);
    assert ClearRun(marked, a + pages, e - a - pages);
    LowestTakesFront(marked, m, a + pages, e);
    RunCount(s.bits, a, 4 * pages);
  }

  lemma {:induction false} RunCount(bits: seq<bool>, a: nat, n: nat)
    requires ClearRun(bits, a, n)
    ensures CountClear(bits) >= n
  {
    CountRun(bits, a, n);
  }

  /** One clear run with four frames for each page of the segments and of the stack is enough for
      all of them. */
  lemma {:induction false} RunSuffices(s: Supply, segments: seq<Segment>, a: nat, e: nat)
    requires a + 4 * (TotalPages(segments) + STACK_PAGES) <= e <= |s.bits| && ClearRun(s.bits, a, e - a)
    ensures SufficesFor(s, segments)
    ensures Affords(SpentAll(s, segments).bits, SpentAll(s, segments).nodes, STACK_PAGE, STACK_PAGES)
  {
    SegmentsTakeFront(s, segments, a, e);
    var t := SpentAll(s, segments);
    RunCount(t.bits, a + 4 * TotalPages(segments), 4 * STACK_PAGES);
    FourAPageSuffice(t.bits, t.nodes, STACK_PAGE, STACK_PAGES);
  }

  lemma {:induction false} SegmentsTakeFront(s: Supply, segments: seq<Segment>, a: nat, e: nat)
    requires a + 4 * TotalPages(segments) <= e <= |s.bits| && ClearRun(s.bits, a, e - a)
    ensures SufficesFor(s, segments)
    ensures |SpentAll(s, segments).bits| == |s.bits|
    ensures ClearRun(SpentAll(s, segments).bits, a + 4 * TotalPages(segments), e - a - 4 * TotalPages(segments))
    decreases |segments|
  {
    if segments != [] {
      var n := |segments| - 1;
      var before, last := segments[..n], segments[n];
      SegmentsTakeFront(s, before, a, e);
      SegmentTakesFront(SpentAll(s, before), last.page, last.pages, a + 4 * TotalPages(before), e);
      SufficesMore(s, segments, n);
    }
  }

  lemma {:induction false} SufficesMore(s: Supply, segments: seq<Segment>, n: nat)
    requires n + 1 == |segments| && SufficesFor(s, segments[..n]) && SufficesAt(s, segments, n)
    ensures SufficesFor(s, segments)
  {
    forall k | 0 <= k < |segments|
      ensures SufficesAt(s, segments, k)
    {
      if k < n {
        assert SufficesAt(s, segments[..n], k) && segments[..n][..k] == segments[..k];
      }
    }
  }
}
