/** What holds over every run of the frame allocator: the runs of frames handed out and not yet
    returned never overlap, and none of them holds frame 0. */
module AllocatorRuns {
  import opened Bits
  import opened FrameBits
  import opened MemoryMap
  import PhysAllocator

  datatype Grant = Grant(start: nat, count: nat)

  datatype State = State(bits: seq<bool>, live: set<Grant>)

  datatype Event =
    | Request(count: nat)               // request_page (count 1) and request_pages
    | Return(grant: Grant)              // free_pages of something handed out
    | Mark(start: nat, count: nat)      // lock_pages and reserve_pages of any frames
    | Unmark(start: nat, count: nat)    // free_pages and release_pages of frames nobody was handed

  predicate Holds(g: Grant, frame: nat) { g.start <= frame < g.start + g.count }

  predicate Disjoint(g: Grant, h: Grant) { g.start + g.count <= h.start || h.start + h.count <= g.start }

  ghost predicate Step(s: State, e: Event, t: State) {
    match e
    case Request(count) =>
      if exists k :: 0 <= k <= |s.bits| && ClearRun(s.bits, k, count)
      then exists k :: 0 <= k <= |s.bits| && LeastRun(s.bits, k, count) &&
                       t == Granted(s, Grant(k, count))
      else t == s
    case Return(g) =>
      g in s.live && t == State(Marked(s.bits, g.start, g.count, false), s.live - {g})
    case Mark(start, count) =>
      t == State(Marked(s.bits, start, count, true), s.live)
    case Unmark(start, count) =>
      0 < start && (forall g :: g in s.live ==> Disjoint(g, Grant(start, count))) &&
      t == State(Marked(s.bits, start, count, false), s.live)
  }

  /** An empty request marks nothing and hands out nothing. */
  function Granted(s: State, g: Grant): State {
    State(Marked(s.bits, g.start, g.count, true), if g.count == 0 then s.live else s.live + {g})
  }

  ghost predicate Invariant(s: State) {
    && |s.bits| > 0 && s.bits[0]
    && (forall g :: g in s.live ==> 0 < g.start && 0 < g.count && g.start + g.count <= |s.bits|)
    && (forall g, f: nat :: g in s.live && Holds(g, f) && f < |s.bits| ==> s.bits[f])
    && (forall g, h :: g in s.live && h in s.live && g != h ==> Disjoint(g, h))
  }

  /** The least clear frame is the least run of one. */
  lemma {:induction false} LeastClearIsRunOfOne(bits: seq<bool>, k: nat)
    ensures LeastClear(bits, k) <==> LeastRun(bits, k, 1)
  {
    forall i | 0 <= i < |bits|
      ensures ClearRun(bits, i, 1) <==> !bits[i]
    {
      assert ClearRun(bits, i, 1) ==> !bits[i];
    }
  }

  lemma {:induction false} StepKeepsInvariant(s: State, e: Event, t: State)
    requires Invariant(s) && Step(s, e, t)
    ensures Invariant(t)
    ensures e.Request? && t != s ==> forall g, h :: g in t.live - s.live && h in s.live ==> Disjoint(g, h)
  {
    match e
    case Request(count) =>
      if exists k :: 0 <= k <= |s.bits| && ClearRun(s.bits, k, count) {
        var k :| 0 <= k <= |s.bits| && LeastRun(s.bits, k, count) && t == Granted(s, Grant(k, count));
        if count > 0 {
          GrantIsFresh(s, Grant(k, count));
        }
      }
    case Return(g) =>
      forall h, f: nat | h in t.live && Holds(h, f) && f < |t.bits|
        ensures t.bits[f]
      {
        assert h in s.live && Disjoint(h, g);
      }
    case Mark(start, count) =>
    case Unmark(start, count) =>
      forall h, f: nat | h in t.live && Holds(h, f) && f < |t.bits|
        ensures t.bits[f]
      {
        assert Disjoint(h, Grant(start, count));
      }
  }

  lemma {:induction false} GrantIsFresh(s: State, g: Grant)
    requires Invariant(s) && ClearRun(s.bits, g.start, g.count) && g.count > 0
    ensures g.start > 0
    ensures forall h :: h in s.live ==> Disjoint(g, h)
  {
    forall h | h in s.live
      ensures Disjoint(g, h)
    {
      var f := if g.start <= h.start then h.start else g.start;
      assert Holds(g, f) ==> !s.bits[f];
      assert Holds(h, f) ==> s.bits[f];
    }
  }

  /** Over any run from a state that satisfies the invariant (such as the one after boot, with
      frame 0 taken and nothing handed out), every state satisfies it. */
  lemma {:induction false} RunsKeepInvariant(states: seq<State>, events: seq<Event>)
    requires |states| == |events| + 1 && Invariant(states[0])
    requires forall i :: 0 <= i < |events| ==> Step(states[i], events[i], states[i + 1])
    ensures forall i :: 0 <= i < |states| ==> Invariant(states[i])
    decreases |events|
  {
    if events != [] {
      var n := |events| - 1;
      RunsKeepInvariant(states[..n + 1], events[..n]);
      assert Invariant(states[..n + 1][n]);
      StepKeepsInvariant(states[n], events[n], states[n + 1]);
    }
  }

  /** A frame that is held is never granted again while it is held. */
  lemma {:induction false} LiveGrantsNeverShareAFrame(states: seq<State>, events: seq<Event>, i: nat, g: Grant, h: Grant, frame: nat)
    requires |states| == |events| + 1 && Invariant(states[0]) && i < |states|
    requires forall i :: 0 <= i < |events| ==> Step(states[i], events[i], states[i + 1])
    requires g in states[i].live && h in states[i].live && Holds(g, frame) && Holds(h, frame)
    ensures g == h && frame != 0
  {
    RunsKeepInvariant(states, events);
  }

  /** What a request hands out, given the flags: the least run of clear frames that is long enough. */
  ghost predicate HandedOut(bits: seq<bool>, e: Event, g: Grant) {
    e.Request? && e.count == g.count > 0 && 0 <= g.start <= |bits| && LeastRun(bits, g.start, g.count)
  }

  /** What was handed out stays live until it is returned. */
  lemma {:induction false} LiveUntilReturned(states: seq<State>, events: seq<Event>, i: nat, j: nat, g: Grant)
    requires |states| == |events| + 1 && Invariant(states[0]) && i < j <= |events|
    requires forall m :: 0 <= m < |events| ==> Step(states[m], events[m], states[m + 1])
    requires HandedOut(states[i].bits, events[i], g) && forall m :: i < m < j ==> events[m] != Return(g)
    ensures g in states[j].live && Invariant(states[j])
    decreases j
  {
    RunsKeepInvariant(states, events);
    var m := j - 1;
    assert Step(states[m], events[m], states[m + 1]);
    if m > i {
      LiveUntilReturned(states, events, i, m, g);
    } else {
      LeastRunIsOne(states[i].bits, g.start, g.count);
    }
  }

  lemma LeastRunIsOne(bits: seq<bool>, k: nat, count: nat)
    requires k <= |bits| && LeastRun(bits, k, count)
    ensures exists j :: 0 <= j <= |bits| && ClearRun(bits, j, count)
    ensures forall j :: 0 <= j <= |bits| && LeastRun(bits, j, count) ==> j == k
  {
  }

  /** Over any run, frames handed out stay taken, and are in nothing else that is handed out, until the
      very grant is returned. */
  lemma {:induction false} HandedOutOnce(states: seq<State>, events: seq<Event>, i: nat, j: nat, g: Grant)
    requires |states| == |events| + 1 && Invariant(states[0]) && i < j <= |events|
    requires forall m :: 0 <= m < |events| ==> Step(states[m], events[m], states[m + 1])
    requires HandedOut(states[i].bits, events[i], g) && forall m :: i < m < j ==> events[m] != Return(g)
    ensures 0 < g.start && g.start + g.count <= |states[j].bits|
    ensures forall f :: g.start <= f < g.start + g.count ==> states[j].bits[f]
    ensures forall h :: j < |events| && HandedOut(states[j].bits, events[j], h) ==>
              g.start + g.count <= h.start || h.start + h.count <= g.start
  {
    LiveUntilReturned(states, events, i, j, g);
    forall f | g.start <= f < g.start + g.count
      ensures states[j].bits[f]
    {
      assert Holds(g, f);
    }
    forall h | j < |events| && HandedOut(states[j].bits, events[j], h)
      ensures Disjoint(g, h)
    {
      GrantIsFresh(states[j], h);
    }
  }

  // ---- Runs of the allocator itself ----

  /** The flags read_memory_map leaves. */
  ghost predicate Booted(map_: seq<MemmapEntry>, home: U64, bits: seq<bool>) {
    |bits| == 8 * BitmapSize(map_) && forall f :: 0 <= f < |bits| ==> (bits[f] <==> TakenAtBoot(map_, home, f))
  }

  /** Once booted, with nothing handed out, the invariant holds. */
  lemma {:induction false} BootSatisfiesInvariant(map_: seq<MemmapEntry>, home: U64, bits: seq<bool>)
    requires Booted(map_, home, bits)
    ensures Invariant(State(bits, {}))
  {
    assert TakenAtBoot(map_, home, 0);
  }

  /** What callers may do: ask for an `int` of frames without running the probe off the bitmap, return
      what they were handed, mark frames there are, and clear those nobody was handed. */
  ghost predicate Allowed(s: State, e: Event) {
    match e
    case Request(count) => count < 0x8000_0000 && PhysAllocator.ProbeIsSafe(s.bits, count)
    case Return(g) => g in s.live
    case Mark(start, count) => start + count <= |s.bits|
    case Unmark(start, count) =>
      0 < start && start + count <= |s.bits| && forall g :: g in s.live ==> Disjoint(g, Grant(start, count))
  }

  /** However the run goes, each of the events is allowed when its turn comes. */
  ghost predicate CanRun(s: State, events: seq<Event>)
    decreases |events|
  {
    events == [] ||
    (Allowed(s, events[0]) && forall t {:trigger Step(s, events[0], t)} :: Step(s, events[0], t) ==> CanRun(t, events[1..]))
  }

  /** The calls behind one event. */
  method Perform(a: PhysAllocator.PhysAllocator, e: Event, ghost s: State) returns (ghost t: State)
    requires a.Valid() && s.bits == a.Bits() && Invariant(s) && Allowed(s, e)
    modifies a, a.pageBitmap, a.pageBitmap.buffer
    ensures a.Valid() && Step(s, e, t) && t.bits == a.Bits()
  {
    match e {
      case Request(count) => t := PerformRequest(a, count, s);
      case Return(g) =>
        a.FreePages(g.start * 4096, g.count);
        t := State(a.Bits(), s.live - {g});
      case Mark(start, count) =>
        a.LockPages(start * 4096, count);
        t := State(a.Bits(), s.live);
      case Unmark(start, count) =>
        a.FreePages(start * 4096, count);
        t := State(a.Bits(), s.live);
    }
  }

  /** request_page for one frame, request_pages for any other number. */
  method PerformRequest(a: PhysAllocator.PhysAllocator, count: nat, ghost s: State) returns (ghost t: State)
    requires a.Valid() && s.bits == a.Bits() && Invariant(s) && Allowed(s, Request(count))
    modifies a, a.pageBitmap, a.pageBitmap.buffer
    ensures a.Valid() && Step(s, Request(count), t) && t.bits == a.Bits()
  {
    var addr: U64;
    if count == 1 {
      OneClearExactly(s.bits);
      addr := a.RequestPage();
      LeastClearIsRunOfOne(s.bits, addr / 4096);
      assert RunExists(s.bits, 1) ==> a.Bits() == Marked(s.bits, addr / 4096, 1, true);
    } else {
      addr := a.RequestPages(count);
    }
    if RunExists(s.bits, count) {
      t := Granted(s, Grant(addr / 4096, count));
    } else {
      t := s;
    }
  }

  lemma {:induction false} OneClearExactly(bits: seq<bool>)
    ensures RunExists(bits, 1) <==> CountClear(bits) > 0
  {
    ClearExists(bits);
    if RunExists(bits, 1) {
      var s :| 0 <= s <= |bits| && ClearRun(bits, s, 1);
      assert !bits[s];
    }
    if FirstClear(bits) < |bits| {
      assert ClearRun(bits, FirstClear(bits), 1);
    }
  }

  /** Any sequence of allowed calls steps through states that satisfy the invariant: what is handed out
      never overlaps. */
  method Run(a: PhysAllocator.PhysAllocator, events: seq<Event>, ghost s: State) returns (ghost states: seq<State>)
    requires a.Valid() && s.bits == a.Bits() && Invariant(s) && CanRun(s, events)
    modifies a, a.pageBitmap, a.pageBitmap.buffer
    ensures a.Valid() && |states| == |events| + 1 && states[0] == s && states[|events|].bits == a.Bits()
    ensures forall i :: 0 <= i < |events| ==> Step(states[i], events[i], states[i + 1])
    ensures forall i :: 0 <= i <= |events| ==> Invariant(states[i])
  {
    states := [s];
    for k := 0 to |events|
      invariant a.Valid() && |states| == k + 1 && states[0] == s && states[k].bits == a.Bits()
      invariant CanRun(states[k], events[k..])
      invariant forall i :: 0 <= i < k ==> Step(states[i], events[i], states[i + 1])
      invariant forall i :: 0 <= i <= k ==> Invariant(states[i])
    {
      assert events[k..][0] == events[k] && events[k..][1..] == events[k + 1..];
      ghost var t := Perform(a, events[k], states[k]);
      StepKeepsInvariant(states[k], events[k], t);
      states := states + [t];
    }
  }

  /** So does any such sequence from boot on. */
  method BootAndRun(map_: seq<MemmapEntry>, events: seq<Event>, ghost home: U64) returns (a: PhysAllocator.PhysAllocator, ghost states: seq<State>)
    requires 8 * BitmapSize(map_) <= MAX_FRAMES && IsHome(map_, home) && FitsBitmap(map_, home)
    requires forall bits {:trigger Booted(map_, home, bits)} :: Booted(map_, home, bits) ==> CanRun(State(bits, {}), events)
    ensures a.Valid() && |states| == |events| + 1 && states[|events|].bits == a.Bits() && states[0].live == {}
    ensures forall i :: 0 <= i < |events| ==> Step(states[i], events[i], states[i + 1])
    ensures forall i :: 0 <= i <= |events| ==> Invariant(states[i])
  {
    a := new PhysAllocator.PhysAllocator.ReadMemoryMap(map_, home);
    assert Booted(map_, home, a.Bits());
    BootSatisfiesInvariant(map_, home, a.Bits());
    states := Run(a, events, State(a.Bits(), {}));
  }
}
