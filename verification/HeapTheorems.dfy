/** What the heap's operations guarantee to its callers, over single calls and whole runs. */
module HeapTheorems {
  import opened HeapTiles

  /** The segments in use. */
  ghost function Live(ts: seq<Tile>): set<Tile> { set t | t in ts && !t.free }

  function EndOf(ts: seq<Tile>): nat
    requires |ts| > 0
  {
    ts[|ts| - 1].End()
  }

  /** How often malloc expands the heap for `n` bytes. */
  function Expansions(ts: seq<Tile>, n: nat): (e: nat)
    requires |ts| > 0 && n > 0
    ensures e <= 2
  {
    if HasFit(ts, n) then 0
    else if HasFit(Expand(ts, n), n) || Expand(ts, n) == [] then 1
    else 2
  }

  /** By how many bytes. */
  function EnlargedBy(ts: seq<Tile>, n: nat): nat
    requires |ts| > 0 && n > 0
  {
    if Expansions(ts, n) == 0 then 0 else if Expansions(ts, n) == 1 then RoundPage(n) else 2 * RoundPage(n)
  }

  lemma {:induction false} FitFound(ts: seq<Tile>, n: nat, j: nat)
    requires j < |ts| && Fits(ts[j], n)
    ensures HasFit(ts, n)
    decreases j
  {
    if j > 0 && !Fits(ts[0], n) {
      FitFound(ts[1..], n, j - 1);
    }
  }

  /** The tail an expansion leaves: free, and as large as the request unless it lost a header. */
  lemma ExpandTail(ts: seq<Tile>, start: nat, end: nat, n: nat)
    requires Tiled(ts, start, end) && n > 0
    ensures var once := Expand(ts, n);
            |once| > 0 && once[|once| - 1].free &&
            (ts[|ts| - 1].free ==> once[|once| - 1].size >= n) &&
            (!ts[|ts| - 1].free ==> once[|once| - 1].size >= n - HEADER)
  {
  }

  /** Two expansions always suffice: the second merges with the free tail of the first. */
  lemma {:induction false} EnlargedHasFit(ts: seq<Tile>, start: nat, end: nat, n: nat)
    requires WellFormed(ts, start, end) && n > 0
    ensures var g := Enlarged(ts, n);
            WellFormed(g, start, end + EnlargedBy(ts, n)) && HasFit(g, n)
  {
    if !HasFit(ts, n) {
      ExpandTail(ts, start, end, n);
      ExpandWellFormed(ts, start, end, n);
      var once := Expand(ts, n);
      if !HasFit(once, n) {
        var end' := end + RoundPage(n);
        ExpandTail(once, start, end', n);
        ExpandWellFormed(once, start, end', n);
        FitFound(Expand(once, n), n, |Expand(once, n)| - 1);
      }
    }
  }

  /** Expanding once and asking again is what the larger request would have led to anyway. */
  lemma {:induction false} EnlargedAfterExpand(ts: seq<Tile>, start: nat, end: nat, n: nat)
    requires WellFormed(ts, start, end) && n > 0 && !HasFit(ts, n)
    ensures |Expand(ts, n)| > 0
    ensures Enlarged(Expand(ts, n), n) == Enlarged(ts, n)
    ensures Expansions(ts, n) == 1 + Expansions(Expand(ts, n), n)
    ensures EnlargedBy(ts, n) == RoundPage(n) + EnlargedBy(Expand(ts, n), n)
  {
    ExpandTail(ts, start, end, n);
    EnlargedHasFit(ts, start, end, n);
  }

  /** The row after malloc of `n` rounded bytes, and the address it returns. */
  function Allocated(ts: seq<Tile>, n: nat): seq<Tile>
    requires |ts| > 0 && n > 0
  {
    var g := Enlarged(ts, n);
    if HasFit(g, n) then Take(g, FirstFit(g, n), n) else g
  }

  function Address(ts: seq<Tile>, n: nat): nat
    requires |ts| > 0 && n > 0
  {
    var g := Enlarged(ts, n);
    if HasFit(g, n) then g[FirstFit(g, n)].Block() else 0
  }

  /** By how much malloc makes the heap grow: not at all if some free segment is large enough; else by
      the request in whole pages, and by as much again if the last segment is in use and no room for a
      header is left over in those pages. */
  lemma {:induction false} GrowthExactly(ts: seq<Tile>, n: nat)
    requires |ts| > 0 && n > 0 && SizesOk(ts)
    ensures HasFit(ts, n) <==> exists j :: 0 <= j < |ts| && ts[j].free && ts[j].size >= n
    ensures HasFit(ts, n) ==> EnlargedBy(ts, n) == 0
    ensures !HasFit(ts, n) && (ts[|ts| - 1].free || 0 < n % 0x1000 <= 0x1000 - HEADER) ==> EnlargedBy(ts, n) == RoundPage(n)
    ensures !HasFit(ts, n) && !ts[|ts| - 1].free && !(0 < n % 0x1000 <= 0x1000 - HEADER) ==> EnlargedBy(ts, n) == 2 * RoundPage(n)
  {
    if j :| 0 <= j < |ts| && Fits(ts[j], n) {
      FitFound(ts, n, j);
    } else {
      var once := Expand(ts, n);
      var last := |once| - 1;
      ExpandedRow(ts, n);
      if Fits(once[last], n) {
        FitFound(once, n, last);
      }
    }
  }

  /** Only the tail of an expanded row is new. */
  lemma ExpandedRow(ts: seq<Tile>, n: nat)
    requires |ts| > 0 && n > 0
    ensures var once, last := Expand(ts, n), ts[|ts| - 1];
            |once| > 0 &&
            once == if last.free then ts[..|ts| - 1] + [Tile(last.addr, last.size + RoundPage(n), true)]
                    else ts + [Tile(last.End(), RoundPage(n) - HEADER, true)]
  {
  }

  lemma {:induction false} AllocatedAfterExpand(ts: seq<Tile>, start: nat, end: nat, n: nat)
    requires WellFormed(ts, start, end) && n > 0 && !HasFit(ts, n)
    ensures |Expand(ts, n)| > 0
    ensures Allocated(Expand(ts, n), n) == Allocated(ts, n) && Address(Expand(ts, n), n) == Address(ts, n)
    ensures Expansions(ts, n) == 1 + Expansions(Expand(ts, n), n)
    ensures EnlargedBy(ts, n) == RoundPage(n) + EnlargedBy(Expand(ts, n), n)
  {
    EnlargedAfterExpand(ts, start, end, n);
  }

  lemma {:induction false} AllocatedAtOnce(ts: seq<Tile>, start: nat, end: nat, n: nat)
    requires WellFormed(ts, start, end) && n > 0 && n % 16 == 0 && HasFit(ts, n)
    ensures Allocated(ts, n) == Take(ts, FirstFit(ts, n), n) && Address(ts, n) == ts[FirstFit(ts, n)].Block()
    ensures EnlargedBy(ts, n) == 0 && WellFormed(Allocated(ts, n), start, end)
  {
    TakeWellFormed(ts, start, end, FirstFit(ts, n), n);
  }

  lemma {:induction false} FirstFitIs(ts: seq<Tile>, n: nat, k: nat)
    requires k < |ts| && Fits(ts[k], n) && forall j :: 0 <= j < k ==> !Fits(ts[j], n)
    ensures FirstFit(ts, n) == k
  {
    FitFound(ts, n, k);
  }

  lemma NoFit(ts: seq<Tile>, n: nat)
    requires forall j :: 0 <= j < |ts| ==> !Fits(ts[j], n)
    ensures !HasFit(ts, n)
  {
  }

  /** Expanding touches no segment in use. */
  lemma {:induction false} ExpandKeepsLive(ts: seq<Tile>, amount: nat)
    requires |ts| > 0 && amount > 0
    ensures Live(Expand(ts, amount)) == Live(ts)
  {
    var tail := Tile(EndOf(ts), RoundPage(amount) - HEADER, true);
    var n := |ts| - 1;
    assert ts == ts[..n] + [ts[n]];
    if ts[n].free {
      assert Expand(ts, amount) == ts[..n] + [Tile(ts[n].addr, ts[n].size + tail.size + HEADER, true)];
    }
  }

  lemma {:induction false} EnlargedKeepsLive(ts: seq<Tile>, start: nat, end: nat, n: nat)
    requires WellFormed(ts, start, end) && n > 0
    ensures |Enlarged(ts, n)| > 0 && Live(Enlarged(ts, n)) == Live(ts)
  {
    EnlargedHasFit(ts, start, end, n);
    if !HasFit(ts, n) {
      ExpandKeepsLive(ts, n);
      var once := Expand(ts, n);
      if !HasFit(once, n) && once != [] {
        ExpandKeepsLive(once, n);
      }
    }
  }

  lemma TakeShape(ts: seq<Tile>, k: nat, n: nat)
    requires k < |ts| && ts[k].free && ts[k].size >= n
    ensures Take(ts, k, n) ==
              if n >= 16 && ts[k].size - n - HEADER >= 16
              then ts[..k] + [Tile(ts[k].addr, n, false)]
                   + [Tile(ts[k].addr + HEADER + n, ts[k].size - n - HEADER, true)] + ts[k + 1..]
              else ts[..k] + [Tile(ts[k].addr, ts[k].size, false)] + ts[k + 1..]
  {
  }

  lemma {:induction false} TakeAddsOne(ts: seq<Tile>, start: nat, end: nat, k: nat, n: nat)
    requires WellFormed(ts, start, end) && k < |ts| && ts[k].free && ts[k].size >= n
    ensures var after := Take(ts, k, n);
            k < |after| && Live(after) == Live(ts) + {after[k]} && after[k] !in Live(ts)
  {
    TakeIsLive(ts, k, n);
    var given := Take(ts, k, n)[k];
    forall j | 0 <= j < |ts| && !ts[j].free
      ensures ts[j] != given
    {
      SegmentsDisjoint(ts, start, end, j, k);
    }
  }

  lemma {:induction false} TakeIsLive(ts: seq<Tile>, k: nat, n: nat)
    requires k < |ts| && ts[k].free && ts[k].size >= n
    ensures k < |Take(ts, k, n)| && Take(ts, k, n)[k].addr == ts[k].addr
    ensures Live(Take(ts, k, n)) == Live(ts) + {Take(ts, k, n)[k]}
  {
    TakeShape(ts, k, n);
    assert ts == ts[..k] + [ts[k]] + ts[k + 1..];
    if n >= 16 && ts[k].size - n - HEADER >= 16 {
      var given, rest := Tile(ts[k].addr, n, false), Tile(ts[k].addr + HEADER + n, ts[k].size - n - HEADER, true);
      assert ts[..k] + [given] + [rest] + ts[k + 1..] == ts[..k] + [given, rest] + ts[k + 1..];
      LiveReplaced(ts[..k], ts[k], ts[k + 1..], [given, rest]);
    } else {
      LiveReplaced(ts[..k], ts[k], ts[k + 1..], [Tile(ts[k].addr, ts[k].size, false)]);
    }
  }

  /** A free segment replaced by one in use and perhaps a free one. */
  lemma {:induction false} LiveReplaced(front: seq<Tile>, t: Tile, back: seq<Tile>, parts: seq<Tile>)
    requires t.free && 1 <= |parts| <= 2 && !parts[0].free && (|parts| == 2 ==> parts[1].free)
    ensures Live(front + parts + back) == Live(front + [t] + back) + {parts[0]}
  {
    LiveAppend(front + parts, back);
    LiveAppend(front, parts);
    LiveAppend(front + [t], back);
    LiveAppend(front, [t]);
    assert Live(parts) == {parts[0]} && Live([t]) == {};
  }

  lemma LiveAppend(a: seq<Tile>, b: seq<Tile>)
    ensures Live(a + b) == Live(a) + Live(b)
  {
  }

  lemma {:induction false} FirstFitIsLowest(ts: seq<Tile>, start: nat, end: nat, n: nat, j: nat)
    requires Tiled(ts, start, end) && j < |ts| && Fits(ts[j], n)
    ensures FirstFit(ts, n) < |ts| && ts[FirstFit(ts, n)].addr <= ts[j].addr
  {
    FitFound(ts, n, j);
    if FirstFit(ts, n) < j {
      Ascending(ts, FirstFit(ts, n), j);
    }
  }

  lemma {:induction false} TakenSize(ts: seq<Tile>, start: nat, end: nat, k: nat, n: nat)
    requires WellFormed(ts, start, end) && k < |ts| && ts[k].free && ts[k].size >= n > 0 && n % 16 == 0
    ensures k < |Take(ts, k, n)| && n <= Take(ts, k, n)[k].size < n + 48 && !Take(ts, k, n)[k].free
    ensures Take(ts, k, n)[k].addr == ts[k].addr && Take(ts, k, n)[k].Block() % 16 == 0
  {
    TakeShape(ts, k, n);
    Aligned(ts, start, end, k);
  }

  /** What malloc hands out: a 16-byte aligned block of at least the rounded size and less than
      48 bytes more, at the lowest address that fits; every segment in use stays as it is. */
  lemma {:induction false} MallocGives(ts: seq<Tile>, start: nat, end: nat, n: nat, k: nat, after: seq<Tile>)
    requires WellFormed(ts, start, end) && n > 0 && n % 16 == 0 && HasFit(ts, n)
    requires k == FirstFit(ts, n) && after == Take(ts, k, n)
    ensures k < |after| && n <= after[k].size < n + 48 && !after[k].free && after[k].Block() % 16 == 0
    ensures Live(after) == Live(ts) + {after[k]} && after[k] !in Live(ts)
    ensures LowestFit(ts, n, k)
  {
    TakeAddsOne(ts, start, end, k, n);
    TakenSize(ts, start, end, k, n);
    AllFitsHigher(ts, start, end, n);
  }

  /** The segment a caller who asked for `size` bytes was given: its block starts at the address and is
      aligned, it is in use and has room for the size with less than 48 bytes to spare, and it is the
      only one in use that was not before. */
  ghost predicate Given(ts: seq<Tile>, after: seq<Tile>, address: nat, size: nat, k: int) {
    0 <= k < |after| && !after[k].free && after[k].addr + 32 == address && address % 16 == 0 &&
    size <= after[k].size < size + 48 && Live(after) == Live(ts) + {after[k]} && after[k] !in Live(ts)
  }

  ghost predicate Served(ts: seq<Tile>, after: seq<Tile>, address: nat, size: nat) {
    exists k {:trigger Given(ts, after, address, size, k)} :: Given(ts, after, address, size, k)
  }

  /** Whatever the row, what malloc allocates serves the request. */
  lemma {:induction false} AllocatedServes(ts: seq<Tile>, start: nat, end: nat, size: nat, n: nat)
    requires WellFormed(ts, start, end) && n > 0 && n % 16 == 0 && size <= n < size + 16
    ensures Served(ts, Allocated(ts, n), Address(ts, n), size)
  {
    var g := Enlarged(ts, n);
    EnlargedHasFit(ts, start, end, n);
    EnlargedKeepsLive(ts, start, end, n);
    TakeGives(ts, g, start, end + EnlargedBy(ts, n), size, n, FirstFit(g, n), Allocated(ts, n));
  }

  lemma {:induction false} TakeGives(ts: seq<Tile>, g: seq<Tile>, start: nat, end: nat, size: nat, n: nat, k: nat, after: seq<Tile>)
    requires WellFormed(g, start, end) && Live(g) == Live(ts) && n > 0 && n % 16 == 0 && size <= n < size + 16
    requires HasFit(g, n) && k == FirstFit(g, n) && after == Take(g, k, n)
    ensures Served(ts, after, g[k].Block(), size)
  {
    MallocGives(g, start, end, n, k, after);
    TakeWellFormed(g, start, end, k, n);
    TakenSize(g, start, end, k, n);
    SizedRight(ts, after, g[k].Block(), size, n, k);
  }

  lemma {:induction false} SizedRight(ts: seq<Tile>, after: seq<Tile>, address: nat, size: nat, n: nat, k: nat)
    requires SizesOk(after) && k < |after| && !after[k].free && n <= after[k].size < n + 48 && n % 16 == 0
    requires after[k].Block() == address && address % 16 == 0 && size <= n < size + 16
    requires Live(after) == Live(ts) + {after[k]} && after[k] !in Live(ts)
    ensures Served(ts, after, address, size)
  {
    NextSixteen(after[k].size, n);
    assert Given(ts, after, address, size, k);
  }

  lemma NextSixteen(a: nat, n: nat)
    requires a % 16 == 0 && n % 16 == 0 && a < n + 48
    ensures a <= n + 32
  {
  }

  ghost predicate LowestFit(ts: seq<Tile>, n: nat, k: nat) {
    k < |ts| && Fits(ts[k], n) && forall j :: 0 <= j < |ts| && Fits(ts[j], n) ==> ts[k].addr <= ts[j].addr
  }

  lemma {:induction false} AllFitsHigher(ts: seq<Tile>, start: nat, end: nat, n: nat)
    requires Tiled(ts, start, end) && HasFit(ts, n)
    ensures LowestFit(ts, n, FirstFit(ts, n))
  {
    forall j | 0 <= j < |ts| && Fits(ts[j], n)
      ensures ts[FirstFit(ts, n)].addr <= ts[j].addr
    {
      FirstFitIsLowest(ts, start, end, n, j);
    }
  }

  /** The block malloc hands out shares no byte, header included, with any segment in use. */
  lemma {:induction false} MallocIsDisjoint(ts: seq<Tile>, start: nat, end: nat, n: nat, t: Tile)
    requires WellFormed(ts, start, end) && n > 0 && n % 16 == 0 && HasFit(ts, n) && t in Live(ts)
    ensures var k := FirstFit(ts, n);
            var given := Take(ts, k, n)[k];
            t.End() <= given.addr || given.End() <= t.addr
  {
    var k := FirstFit(ts, n);
    TakeShape(ts, k, n);
    var j :| 0 <= j < |ts| && ts[j] == t;
    SegmentsDisjoint(ts, start, end, j, k);
  }

  /** Freeing what malloc just handed out restores the row malloc allocated from. */
  lemma {:induction false} FreeUndoesTake(ts: seq<Tile>, k: nat, n: nat)
    requires Coalesced(ts) && k < |ts| && ts[k].free && ts[k].size >= n
    ensures k < |Take(ts, k, n)| && Release(Take(ts, k, n), k) == ts
  {
    assert Alone(ts, k);
    MarkedRejoins(ts, k, n);
    NoNeighbourJoins(ts, k);
  }

  /** Neither neighbour of segment `k` is free. */
  predicate Alone(ts: seq<Tile>, k: nat)
    requires k < |ts|
  {
    (k > 0 ==> !ts[k - 1].free) && (k + 1 < |ts| ==> !ts[k + 1].free)
  }

  lemma {:induction false} MarkedRejoins(ts: seq<Tile>, k: nat, n: nat)
    requires k < |ts| && Alone(ts, k) && ts[k].free && ts[k].size >= n
    ensures k < |Take(ts, k, n)| && CombineFwd(Marked(Take(ts, k, n), k, true), k) == ts
  {
    TakeShape(ts, k, n);
    var front, t, back := ts[..k], ts[k], ts[k + 1..];
    assert ts == front + [t] + back;
    if n >= 16 && t.size - n - HEADER >= 16 {
      RestComesBack(front, Tile(t.addr, n, false), Tile(t.addr + HEADER + n, t.size - n - HEADER, true), back);
    } else {
      MarkedMiddle(front, Tile(t.addr, t.size, false), back);
      NoNeighbourJoins(ts, k);
    }
  }

  lemma {:induction false} RestComesBack(front: seq<Tile>, t: Tile, rest: Tile, back: seq<Tile>)
    requires rest.free
    ensures CombineFwd(Marked(front + [t] + [rest] + back, |front|, true), |front|)
         == front + [Tile(t.addr, t.size + rest.size + HEADER, true)] + back
  {
    assert front + [t] + [rest] + back == front + [t] + ([rest] + back);
    MarkedMiddle(front, t, [rest] + back);
    var u := Tile(t.addr, t.size, true);
    assert front + [u] + ([rest] + back) == front + [u] + [rest] + back;
    RestRejoins(front, u, rest, back);
  }

  lemma MarkedMiddle(front: seq<Tile>, t: Tile, back: seq<Tile>)
    ensures Marked(front + [t] + back, |front|, true) == front + [Tile(t.addr, t.size, true)] + back
  {
  }

  lemma {:induction false} RestRejoins(front: seq<Tile>, t: Tile, rest: Tile, back: seq<Tile>)
    requires rest.free
    ensures CombineFwd(front + [t] + [rest] + back, |front|) == front + [Tile(t.addr, t.size + rest.size + HEADER, t.free)] + back
  {
    var row := front + [t] + [rest] + back;
    assert row[|front|] == t && row[|front| + 1] == rest && row[|front| + 2..] == back && row[..|front|] == front;
  }

  lemma NoNeighbourJoins(ts: seq<Tile>, k: nat)
    requires k < |ts| && Alone(ts, k)
    ensures CombineFwd(ts, k) == ts && CombineBwd(ts, k) == ts
  {
  }

  /** free(malloc(n)): the row as it was when nothing had to be expanded, and otherwise just the
      expanded row. */
  lemma {:induction false} FreeUndoesMalloc(ts: seq<Tile>, start: nat, end: nat, n: nat)
    requires WellFormed(ts, start, end) && n > 0 && n % 16 == 0
    ensures var g := Enlarged(ts, n);
            var k := FirstFit(g, n);
            k < |g| && k < |Take(g, k, n)| && Release(Take(g, k, n), k) == g && (HasFit(ts, n) ==> g == ts)
  {
    EnlargedHasFit(ts, start, end, n);
    var g := Enlarged(ts, n);
    FreeUndoesTake(g, FirstFit(g, n), n);
  }

  /** Freeing a segment in use leaves every other one exactly as it is. */
  lemma {:induction false} ReleaseKeepsOthers(ts: seq<Tile>, start: nat, end: nat, k: nat)
    requires WellFormed(ts, start, end) && k < |ts| && !ts[k].free
    ensures Live(Release(ts, k)) == Live(ts) - {ts[k]}
  {
    var marked := Marked(ts, k, true);
    assert ts == ts[..k] + [ts[k]] + ts[k + 1..];
    assert marked == ts[..k] + [marked[k]] + ts[k + 1..];
    assert Live(marked) == Live(ts) - {ts[k]} by {
      forall t | t in Live(ts) && t != ts[k]
        ensures t in Live(marked)
      {
        assert t in ts[..k] || t in ts[k + 1..];
      }
      forall t | t in Live(marked)
        ensures t != ts[k]
      {
        var j :| 0 <= j < |marked| && marked[j] == t;
        if j != k {
          SegmentsDisjoint(ts, start, end, j, k);
        }
      }
    }
    CombineKeepsLive(marked, k);
    var merged := CombineFwd(marked, k);
    if k > 0 && merged[k - 1].free {
      CombineKeepsLive(merged, k - 1);
    }
  }

  lemma {:induction false} CombineKeepsLive(ts: seq<Tile>, k: nat)
    requires k < |ts| && ts[k].free
    ensures Live(CombineFwd(ts, k)) == Live(ts)
  {
    if k + 1 < |ts| && ts[k + 1].free {
      assert ts == ts[..k] + [ts[k]] + [ts[k + 1]] + ts[k + 2..];
    }
  }

  // ---- Whole runs ----

  /** The segment whose block is at `block`, |ts| if there is none. */
  function SegmentAt(ts: seq<Tile>, block: nat): (k: nat)
    ensures k <= |ts|
    ensures k < |ts| ==> ts[k].Block() == block
  {
    if ts == [] then 0 else if ts[0].Block() == block then 0 else 1 + SegmentAt(ts[1..], block)
  }

  /** One caller action: allocate a rounded, nonzero size, or free a block that is in use. */
  datatype Action = Malloc(n: nat) | Free(block: nat)

  predicate Allowed(ts: seq<Tile>, a: Action) {
    match a
    case Malloc(n) => n > 0 && n % 16 == 0
    case Free(block) => var k := SegmentAt(ts, block); k < |ts| && !ts[k].free
  }

  function After(ts: seq<Tile>, a: Action): seq<Tile>
    requires |ts| > 0 && Allowed(ts, a)
  {
    match a
    case Malloc(n) => Allocated(ts, n)
    case Free(block) => Release(ts, SegmentAt(ts, block))
  }

  /** The states a run of actions goes through. */
  ghost predicate IsRun(states: seq<seq<Tile>>, actions: seq<Action>) {
    |states| == |actions| + 1 &&
    forall i :: 0 <= i < |actions| ==> Step(states[i], actions[i], states[i + 1])
  }

  predicate Step(ts: seq<Tile>, a: Action, us: seq<Tile>) {
    |ts| > 0 && Allowed(ts, a) && us == After(ts, a)
  }

  lemma {:induction false} SegmentFound(ts: seq<Tile>, k: nat)
    requires k < |ts|
    ensures SegmentAt(ts, ts[k].Block()) <= k
    decreases k
  {
    if k > 0 && ts[0].Block() != ts[k].Block() {
      SegmentFound(ts[1..], k - 1);
    }
  }

  /** In a row in order, every positive multiple of 16 may be asked for, and exactly the blocks of
      segments in use may be freed. */
  lemma {:induction false} StepsExist(ts: seq<Tile>, start: nat, a: Action)
    requires Ordered(ts, start)
    ensures a.Malloc? ==> (Allowed(ts, a) <==> a.n > 0 && a.n % 16 == 0)
    ensures a.Free? ==> (Allowed(ts, a) <==> exists t :: t in Live(ts) && t.addr + 32 == a.block)
    ensures Allowed(ts, a) ==> Step(ts, a, After(ts, a))
  {
    if a.Free? && exists t :: t in Live(ts) && t.addr + 32 == a.block {
      var t :| t in Live(ts) && t.addr + 32 == a.block;
      var k :| 0 <= k < |ts| && ts[k] == t;
      SegmentFound(ts, k);
      var j := SegmentAt(ts, a.block);
      if j < k {
        Ascending(ts, j, k);
      }
    }
  }

  lemma {:induction false} MallocKeepsOrder(ts: seq<Tile>, start: nat, n: nat)
    requires |ts| > 0 && WellFormed(ts, start, EndOf(ts)) && n > 0 && n % 16 == 0
    ensures var g := Enlarged(ts, n);
            var end := EndOf(ts) + EnlargedBy(ts, n);
            HasFit(g, n) && WellFormed(Take(g, FirstFit(g, n), n), start, end)
  {
    var end := EndOf(ts) + EnlargedBy(ts, n);
    EnlargedHasFit(ts, start, EndOf(ts), n);
    TakeWellFormed(Enlarged(ts, n), start, end, FirstFit(Enlarged(ts, n), n), n);
  }

  lemma {:induction false} ActionKeepsOrder(ts: seq<Tile>, start: nat, a: Action)
    requires |ts| > 0 && WellFormed(ts, start, EndOf(ts)) && Allowed(ts, a)
    ensures |After(ts, a)| > 0 && WellFormed(After(ts, a), start, EndOf(After(ts, a)))
    ensures EndOf(After(ts, a)) >= EndOf(ts)
  {
    match a
    case Malloc(n) => MallocKeepsOrder(ts, start, n);
    case Free(block) => ReleaseWellFormed(ts, start, EndOf(ts), SegmentAt(ts, block));
  }

  ghost predicate Ordered(ts: seq<Tile>, start: nat) {
    |ts| > 0 && WellFormed(ts, start, EndOf(ts))
  }

  lemma {:induction false} StepKeepsOrder(ts: seq<Tile>, start: nat, a: Action, us: seq<Tile>)
    requires Ordered(ts, start) && Step(ts, a, us)
    ensures Ordered(us, start)
  {
    ActionKeepsOrder(ts, start, a);
  }

  /** Every state of every run tiles the heap exactly, with no two free neighbours. */
  lemma {:induction false} RunsStayInOrder(states: seq<seq<Tile>>, actions: seq<Action>, start: nat, i: nat)
    requires IsRun(states, actions) && i < |states| && Ordered(states[0], start)
    ensures Ordered(states[i], start)
    decreases i
  {
    if i > 0 {
      var before, after := states[i - 1], states[i];
      RunsStayInOrder(states, actions, start, i - 1);
      StepOf(states, actions, i - 1, before, after);
      StepKeepsOrder(before, start, actions[i - 1], after);
    }
  }

  lemma StepOf(states: seq<seq<Tile>>, actions: seq<Action>, i: nat, ts: seq<Tile>, us: seq<Tile>)
    requires IsRun(states, actions) && i < |actions| && ts == states[i] && us == states[i + 1]
    ensures Step(ts, actions[i], us)
  {
  }

  /** A step leaves every segment in use alone but the one it frees; what malloc adds was not there. */
  lemma {:induction false} StepKeepsLive(ts: seq<Tile>, start: nat, a: Action, us: seq<Tile>)
    requires Ordered(ts, start) && Step(ts, a, us)
    ensures a.Free? ==> exists t :: t in Live(ts) && t.Block() == a.block && Live(us) == Live(ts) - {t}
    ensures a.Malloc? ==> exists t :: t !in Live(ts) && t.Block() == Address(ts, a.n) && a.n <= t.size && Live(us) == Live(ts) + {t}
  {
    match a
    case Malloc(n) =>
      AllocatedServes(ts, start, EndOf(ts), n, n);
      var k :| Given(ts, us, Address(ts, n), n, k);
      assert us[k] !in Live(ts) && us[k].Block() == Address(ts, n);
    case Free(block) =>
      var k := SegmentAt(ts, block);
      ReleaseKeepsOthers(ts, start, EndOf(ts), k);
      assert ts[k] in Live(ts);
  }

  lemma {:induction false} StepKeeps(ts: seq<Tile>, start: nat, a: Action, us: seq<Tile>, t: Tile)
    requires Ordered(ts, start) && Step(ts, a, us) && t in Live(ts) && a != Free(t.Block())
    ensures t in Live(us)
  {
    StepKeepsLive(ts, start, a, us);
  }

  lemma {:induction false} InUseUntilFreed(states: seq<seq<Tile>>, actions: seq<Action>, start: nat, i: nat, j: nat, t: Tile)
    requires IsRun(states, actions) && Ordered(states[0], start) && i <= j < |states|
    requires t in Live(states[i]) && forall m :: i <= m < j ==> actions[m] != Free(t.Block())
    ensures t in Live(states[j])
    decreases j
  {
    if i < j {
      InUseUntilFreed(states, actions, start, i, j - 1, t);
      RunsStayInOrder(states, actions, start, j - 1);
      StepOf(states, actions, j - 1, states[j - 1], states[j]);
      StepKeeps(states[j - 1], start, actions[j - 1], states[j], t);
    }
  }

  /** Over any run, a segment in use stays as it is until its own block is freed, and whatever else is in
      use shares no byte with it. */
  lemma {:induction false} KeptUntilFreed(states: seq<seq<Tile>>, actions: seq<Action>, start: nat, i: nat, j: nat, t: Tile)
    requires IsRun(states, actions) && Ordered(states[0], start) && i <= j < |states|
    requires t in Live(states[i]) && forall m :: i <= m < j ==> actions[m] != Free(t.Block())
    ensures t in Live(states[j])
    ensures forall u :: u in Live(states[j]) && u != t ==> t.End() <= u.addr || u.End() <= t.addr
  {
    RunsStayInOrder(states, actions, start, j);
    InUseUntilFreed(states, actions, start, i, j, t);
    LiveApart(states[j], start, t);
  }

  lemma {:induction false} LiveApart(ts: seq<Tile>, start: nat, t: Tile)
    requires Ordered(ts, start) && t in Live(ts)
    ensures forall u :: u in Live(ts) && u != t ==> t.End() <= u.addr || u.End() <= t.addr
  {
    forall u | u in Live(ts) && u != t
      ensures t.End() <= u.addr || u.End() <= t.addr
    {
      var j :| 0 <= j < |ts| && ts[j] == t;
      var k :| 0 <= k < |ts| && ts[k] == u;
      if j < k {
        Ascending(ts, j, k);
      } else {
        Ascending(ts, k, j);
      }
    }
  }

  /** Nothing in use: a single free segment spans the whole heap. */
  lemma {:induction false} AllFreeIsOneSegment(ts: seq<Tile>, start: nat, end: nat)
    requires WellFormed(ts, start, end) && Live(ts) == {}
    ensures end - start > HEADER
    ensures ts == [Tile(start, end - start - HEADER, true)]
  {
    if |ts| > 1 {
      TwoSegmentsHaveALiveOne(ts);
    }
    assert ts[0] !in Live(ts);
  }

  lemma {:induction false} TwoSegmentsHaveALiveOne(ts: seq<Tile>)
    requires Coalesced(ts) && |ts| > 1
    ensures Live(ts) != {}
  {
    var t := if ts[0].free then ts[1] else ts[0];
    assert t in Live(ts);
  }

  lemma {:induction false} FreeStep(ts: seq<Tile>, start: nat, end: nat, a: Action, us: seq<Tile>)
    requires WellFormed(ts, start, end) && a.Free? && Step(ts, a, us)
    ensures WellFormed(us, start, end) && |Live(us)| == |Live(ts)| - 1
  {
    var k := SegmentAt(ts, a.block);
    ReleaseKeepsOthers(ts, start, end, k);
    ReleaseWellFormed(ts, start, end, k);
    assert ts[k] in Live(ts);
  }

  lemma {:induction false} RunTail(states: seq<seq<Tile>>, actions: seq<Action>)
    requires IsRun(states, actions) && actions != []
    ensures IsRun(states[1..], actions[1..])
  {
    forall i | 0 <= i < |actions[1..]|
      ensures Step(states[1..][i], actions[1..][i], states[1..][i + 1])
    {
      assert Step(states[i + 1], actions[i + 1], states[i + 2]);
    }
  }

  /** Freeing everything, in whatever order, leaves one free segment that spans the heap. */
  lemma {:induction false} FreeingAllRestoresTheHeap(states: seq<seq<Tile>>, actions: seq<Action>, start: nat, end: nat)
    requires IsRun(states, actions) && WellFormed(states[0], start, end)
    requires forall i :: 0 <= i < |actions| ==> actions[i].Free?
    requires |actions| == |Live(states[0])|
    ensures end - start > HEADER
    ensures states[|actions|] == [Tile(start, end - start - HEADER, true)]
    decreases |actions|
  {
    if actions == [] {
      AllFreeIsOneSegment(states[0], start, end);
    } else {
      var later, rest := states[1..], actions[1..];
      AfterFirstFree(states, actions, start, end);
      FreeingAllRestoresTheHeap(later, rest, start, end);
      assert later[|rest|] == states[|actions|];
    }
  }

  lemma {:induction false} AfterFirstFree(states: seq<seq<Tile>>, actions: seq<Action>, start: nat, end: nat)
    requires IsRun(states, actions) && WellFormed(states[0], start, end) && actions != []
    requires forall i :: 0 <= i < |actions| ==> actions[i].Free?
    ensures IsRun(states[1..], actions[1..]) && WellFormed(states[1], start, end)
    ensures forall i :: 0 <= i < |actions[1..]| ==> actions[1..][i].Free?
    ensures |Live(states[1])| == |Live(states[0])| - 1
  {
    assert Step(states[0], actions[0], states[1]);
    FreeStep(states[0], start, end, actions[0], states[1]);
    RunTail(states, actions);
  }
}
