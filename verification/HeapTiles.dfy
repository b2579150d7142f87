/** The kernel heap seen as a row of tiles: what splitting, combining, expanding, allocating and
    freeing do to the row, and what follows for whole runs. */
module HeapTiles {
  import opened Bits

  const HEADER := 32          // sizeof(heap_segment_header)

  /** A segment: its header's address, the bytes behind the header, and whether it is free. */
  datatype Tile = Tile(addr: nat, size: nat, free: bool) {
    function End(): nat { addr + HEADER + size }

    /** The address malloc hands out for this segment. */
    function Block(): nat { addr + HEADER }
  }

  ghost predicate SizesOk(ts: seq<Tile>) {
    forall i :: 0 <= i < |ts| ==> ts[i].size > 0 && ts[i].size % 16 == 0
  }

  ghost predicate Abutting(ts: seq<Tile>) {
    forall i :: 0 <= i < |ts| - 1 ==> ts[i + 1].addr == ts[i].End()
  }

  /** The segments tile [start, end) exactly. */
  ghost predicate Tiled(ts: seq<Tile>, start: nat, end: nat) {
    && |ts| > 0 && ts[0].addr == start && ts[|ts| - 1].End() == end
    && SizesOk(ts) && Abutting(ts)
  }

  /** No two neighbours are both free. */
  ghost predicate Coalesced(ts: seq<Tile>) {
    forall i :: 0 <= i < |ts| - 1 ==> !(ts[i].free && ts[i + 1].free)
  }

  ghost predicate WellFormed(ts: seq<Tile>, start: nat, end: nat) {
    Tiled(ts, start, end) && Coalesced(ts) && start % 16 == 0
  }

  // ---- The operations on rows ----

  /** heapseg_split: the first part gets `first`, unless what is left is too small to stand alone. */
  function Split(ts: seq<Tile>, k: nat, first: nat): seq<Tile>
    requires k < |ts|
  {
    if first < 16 || ts[k].size - first - HEADER < 16 then ts
    else ts[..k] + Halves(ts[k], first) + ts[k + 1..]
  }

  function Halves(t: Tile, first: nat): seq<Tile>
    requires first + HEADER <= t.size
  {
    [Tile(t.addr, first, t.free), Tile(t.addr + HEADER + first, t.size - first - HEADER, t.free)]
  }

  /** heapseg_combine_fwd: swallow the next segment if it is free. */
  function CombineFwd(ts: seq<Tile>, k: nat): seq<Tile>
    requires k < |ts|
  {
    if k + 1 < |ts| && ts[k + 1].free
    then ts[..k] + [Tile(ts[k].addr, ts[k].size + ts[k + 1].size + HEADER, ts[k].free)] + ts[k + 2..]
    else ts
  }

  /** heapseg_combine_bwd: let the previous segment, if it is free, swallow this one. */
  function CombineBwd(ts: seq<Tile>, k: nat): seq<Tile>
    requires k < |ts|
  {
    if k > 0 && ts[k - 1].free then CombineFwd(ts, k - 1) else ts
  }

  function Marked(ts: seq<Tile>, k: nat, free: bool): seq<Tile>
    requires k < |ts|
  {
    ts[k := ts[k].(free := free)]
  }

  function Round16(n: nat): nat { if n % 0x10 > 0 then n - n % 0x10 + 0x10 else n }

  function RoundPage(n: nat): nat { if n % 0x1000 > 0 then n - n % 0x1000 + 0x1000 else n }

  /** expand_heap: `amount`, rounded up to whole pages, is appended and merged with a free tail. */
  function Expand(ts: seq<Tile>, amount: nat): seq<Tile>
    requires |ts| > 0 && amount > 0
  {
    var grown := ts + [Tile(ts[|ts| - 1].End(), RoundPage(amount) - HEADER, true)];
    CombineBwd(grown, |ts|)
  }

  predicate Fits(t: Tile, n: nat) { t.free && t.size >= n }

  /** The first segment that is free and large enough, |ts| if there is none. */
  function FirstFit(ts: seq<Tile>, n: nat): (k: nat)
    ensures k <= |ts|
    ensures k < |ts| ==> Fits(ts[k], n)
    ensures forall j :: 0 <= j < k ==> !Fits(ts[j], n)
  {
    if ts == [] then 0 else if Fits(ts[0], n) then 0 else 1 + FirstFit(ts[1..], n)
  }

  predicate HasFit(ts: seq<Tile>, n: nat) { FirstFit(ts, n) < |ts| }

  /** Segment `k` cut to `n` bytes if that leaves a segment, and taken. */
  function Take(ts: seq<Tile>, k: nat, n: nat): seq<Tile>
    requires k < |ts|
  {
    Marked(Split(ts, k, n), k, false)
  }

  /** The row malloc allocates from: the row itself if something fits, else expanded once or,
      when the first expansion falls short by its header, twice. */
  function Enlarged(ts: seq<Tile>, n: nat): seq<Tile>
    requires |ts| > 0 && n > 0
  {
    if HasFit(ts, n) then ts
    else
      var once := Expand(ts, n);
      if HasFit(once, n) || once == [] then once else Expand(once, n)
  }

  /** free, of the block behind segment `k`. */
  function Release(ts: seq<Tile>, k: nat): seq<Tile>
    requires k < |ts|
  {
    CombineBwd(CombineFwd(Marked(ts, k, true), k), k)
  }

  // ---- Elementary facts ----

  lemma {:induction false} Ascending(ts: seq<Tile>, i: nat, j: nat)
    requires Abutting(ts) && SizesOk(ts) && i < j < |ts|
    ensures ts[i].End() <= ts[j].addr
    decreases j - i
  {
    if i + 1 < j {
      Ascending(ts, i, j - 1);
    }
  }

  /** Headers and blocks of different segments never overlap. */
  lemma {:induction false} SegmentsDisjoint(ts: seq<Tile>, start: nat, end: nat, i: nat, j: nat)
    requires Tiled(ts, start, end) && i < |ts| && j < |ts| && i != j
    ensures ts[i].End() <= ts[j].addr || ts[j].End() <= ts[i].addr
    ensures start <= ts[i].addr && ts[i].End() <= end
  {
    if i < j {
      Ascending(ts, i, j);
    } else {
      Ascending(ts, j, i);
    }
    if i > 0 {
      Ascending(ts, 0, i);
    }
    if i < |ts| - 1 {
      Ascending(ts, i, |ts| - 1);
    }
  }

  lemma {:induction false} Aligned(ts: seq<Tile>, start: nat, end: nat, i: nat)
    requires Tiled(ts, start, end) && start % 16 == 0 && i < |ts|
    ensures ts[i].addr % 16 == 0
    decreases i
  {
    if i > 0 {
      Aligned(ts, start, end, i - 1);
      SumAligned(ts[i - 1].addr, HEADER + ts[i - 1].size);
    }
  }

  lemma {:induction false} SumAligned(a: nat, b: nat)
    requires a % 16 == 0 && b % 16 == 0
    ensures (a + b) % 16 == 0
  {
    DivModUnique(a + b, 16, a / 16 + b / 16, 0);
  }

  // ---- Each operation keeps the row in order ----

  /** A stretch of segments from `start` to `end`, possibly none. */
  ghost predicate Row(ts: seq<Tile>, start: nat, end: nat) {
    if ts == [] then start == end else Tiled(ts, start, end)
  }

  lemma RowCut(ts: seq<Tile>, start: nat, end: nat, k: nat)
    requires Row(ts, start, end) && k <= |ts|
    ensures var mid := if k < |ts| then ts[k].addr else end;
            Row(ts[..k], start, mid) && Row(ts[k..], mid, end)
  {
  }

  lemma {:induction false} RowJoin(a: seq<Tile>, b: seq<Tile>, start: nat, mid: nat, end: nat)
    requires Row(a, start, mid) && Row(b, mid, end)
    ensures Row(a + b, start, end)
  {
    assert a == [] ==> a + b == b;
    assert b == [] ==> a + b == a;
  }

  /** Replacing a stretch by another of the same extent keeps the row. */
  lemma {:induction false} Splice(ts: seq<Tile>, start: nat, end: nat, i: nat, j: nat, mid: seq<Tile>)
    requires Tiled(ts, start, end) && i < j <= |ts|
    requires Tiled(mid, ts[i].addr, ts[j - 1].End())
    ensures Tiled(ts[..i] + mid + ts[j..], start, end)
  {
    RowCut(ts, start, end, i);
    RowCut(ts, start, end, j);
    RowJoin(ts[..i], mid, start, ts[i].addr, ts[j - 1].End());
    RowJoin(ts[..i] + mid, ts[j..], start, ts[j - 1].End(), end);
  }

  lemma {:induction false} HalvesTiled(t: Tile, first: nat)
    requires t.size % 16 == 0 && first % 16 == 0 && 0 < first && first + HEADER < t.size
    ensures Tiled(Halves(t, first), t.addr, t.End())
  {
    assert (t.size - first - HEADER) % 16 == 0;
  }

  lemma {:induction false} SplitTiled(ts: seq<Tile>, start: nat, end: nat, k: nat, first: nat)
    requires Tiled(ts, start, end) && k < |ts| && first % 16 == 0
    ensures Tiled(Split(ts, k, first), start, end)
  {
    if first >= 16 && ts[k].size - first - HEADER >= 16 {
      HalvesTiled(ts[k], first);
      Splice(ts, start, end, k, k + 1, Halves(ts[k], first));
    }
  }

  lemma {:induction false} CombineFwdTiled(ts: seq<Tile>, start: nat, end: nat, k: nat)
    requires Tiled(ts, start, end) && k < |ts|
    ensures Tiled(CombineFwd(ts, k), start, end)
  {
    if k + 1 < |ts| && ts[k + 1].free {
      var t := Tile(ts[k].addr, ts[k].size + ts[k + 1].size + HEADER, ts[k].free);
      assert Tiled([t], ts[k].addr, ts[k + 1].End());
      Splice(ts, start, end, k, k + 2, [t]);
    }
  }

  lemma MarkedTiled(ts: seq<Tile>, start: nat, end: nat, k: nat, free: bool)
    requires Tiled(ts, start, end) && k < |ts|
    ensures Tiled(Marked(ts, k, free), start, end)
  {
  }

  /** The tile an expansion adds is large enough and aligned. */
  lemma {:induction false} PageMultiple(amount: nat)
    requires amount > 0
    ensures RoundPage(amount) >= 0x1000 && (RoundPage(amount) - HEADER) % 16 == 0
  {
    var pages := if amount % 0x1000 > 0 then amount / 0x1000 + 1 else amount / 0x1000;
    DivModUnique(pages * 0x1000 - HEADER, 16, pages * 256 - 2, 0);
  }

  lemma {:induction false} ExpandTiled(ts: seq<Tile>, start: nat, end: nat, amount: nat)
    requires Tiled(ts, start, end) && amount > 0
    ensures Tiled(Expand(ts, amount), start, end + RoundPage(amount))
  {
    var tail := Tile(end, RoundPage(amount) - HEADER, true);
    var grown := ts + [tail];
    PageMultiple(amount);
    assert Tiled([tail], end, end + RoundPage(amount));
    RowJoin(ts, [tail], start, end, end + RoundPage(amount));
    if ts[|ts| - 1].free {
      CombineFwdTiled(grown, start, end + RoundPage(amount), |ts| - 1);
    }
  }

  lemma {:induction false} ExpandWellFormed(ts: seq<Tile>, start: nat, end: nat, amount: nat)
    requires WellFormed(ts, start, end) && amount > 0
    ensures WellFormed(Expand(ts, amount), start, end + RoundPage(amount))
  {
    ExpandTiled(ts, start, end, amount);
  }

  lemma {:induction false} TakeWellFormed(ts: seq<Tile>, start: nat, end: nat, k: nat, n: nat)
    requires WellFormed(ts, start, end) && k < |ts| && ts[k].free && n % 16 == 0
    ensures WellFormed(Take(ts, k, n), start, end)
  {
    SplitTiled(ts, start, end, k, n);
    MarkedTiled(Split(ts, k, n), start, end, k, false);
    assert forall i :: 0 <= i < |ts| - 1 ==> !(ts[i].free && ts[i + 1].free);
  }

  lemma {:induction false} ReleaseTiled(ts: seq<Tile>, start: nat, end: nat, k: nat)
    requires Tiled(ts, start, end) && k < |ts|
    ensures Tiled(Release(ts, k), start, end)
  {
    var marked := Marked(ts, k, true);
    MarkedTiled(ts, start, end, k, true);
    CombineFwdTiled(marked, start, end, k);
    var merged := CombineFwd(marked, k);
    if k > 0 && merged[k - 1].free {
      CombineFwdTiled(merged, start, end, k - 1);
    }
  }

  lemma {:induction false} ReleaseCoalesced(ts: seq<Tile>, k: nat)
    requires Coalesced(ts) && k < |ts|
    ensures Coalesced(Release(ts, k))
  {
    var merged := CombineFwd(Marked(ts, k, true), k);
    forall i | 0 <= i < |merged| - 1 && i != k - 1
      ensures !(merged[i].free && merged[i + 1].free)
    {
      MergedApart(ts, k, i);
    }
    BackwardCoalesced(merged, k);
  }

  /** Freed and combined forward, the segment is not followed by a free one, and nothing else changes. */
  lemma {:induction false} MergedApart(ts: seq<Tile>, k: nat, i: nat)
    requires Coalesced(ts) && k < |ts| && i != k - 1
    requires i + 1 < |CombineFwd(Marked(ts, k, true), k)|
    ensures var merged := CombineFwd(Marked(ts, k, true), k); !(merged[i].free && merged[i + 1].free)
  {
    var merged := CombineFwd(Marked(ts, k, true), k);
    if i < k {
      assert merged[i] == ts[i] && merged[i + 1] == ts[i + 1];
      assert !(ts[i].free && ts[i + 1].free);
    } else if |merged| == |ts| {
      assert merged[i + 1] == ts[i + 1] && (i > k ==> merged[i] == ts[i]);
      assert !(ts[i].free && ts[i + 1].free);
    } else {
      assert merged[i + 1] == ts[i + 2] && (i > k ==> merged[i] == ts[i + 1]);
      assert !(ts[i + 1].free && ts[i + 2].free);
    }
  }

  lemma {:induction false} BackwardCoalesced(ts: seq<Tile>, k: nat)
    requires k < |ts| && ts[k].free && forall i :: 0 <= i < |ts| - 1 && i != k - 1 ==> !(ts[i].free && ts[i + 1].free)
    ensures Coalesced(CombineBwd(ts, k))
  {
    var us := CombineBwd(ts, k);
    forall i | 0 <= i < |us| - 1
      ensures !(us[i].free && us[i + 1].free)
    {
      if |us| == |ts| {
        assert us == ts;
      } else {
        var j := if i < k - 1 then i else i + 1;
        assert us[i + 1].free == ts[j + 1].free && (i != k - 1 ==> us[i].free == ts[j].free);
        assert j != k - 1 ==> !(ts[j].free && ts[j + 1].free);
      }
    }
  }

  lemma {:induction false} ReleaseWellFormed(ts: seq<Tile>, start: nat, end: nat, k: nat)
    requires WellFormed(ts, start, end) && k < |ts|
    ensures WellFormed(Release(ts, k), start, end)
  {
    ReleaseTiled(ts, start, end, k);
    ReleaseCoalesced(ts, k);
  }
}
