/** Arithmetic of allocation states: one flag a frame, true when the frame is taken. */
module FrameBits {

  /** The frames a state takes, and those it leaves. */
  function Taken(bits: seq<bool>): set<nat> { set i: nat | i < |bits| && bits[i] }

  function Clear(bits: seq<bool>): set<nat> { set i: nat | i < |bits| && !bits[i] }

  function CountTaken(bits: seq<bool>): nat { |Taken(bits)| }

  function CountClear(bits: seq<bool>): nat { |Clear(bits)| }

  lemma {:induction false} CountUpdate(bits: seq<bool>, i: nat, value: bool)
    requires i < |bits|
    ensures CountTaken(bits[i := value]) ==
            CountTaken(bits) - (if bits[i] then 1 else 0) + (if value then 1 else 0)
    ensures CountClear(bits[i := value]) ==
            CountClear(bits) - (if bits[i] then 0 else 1) + (if value then 0 else 1)
  {
    var after := bits[i := value];
    SetMove(Taken(bits), Taken(after), i);
    SetMove(Clear(bits), Clear(after), i);
  }

  /** Two sets that agree off `x` differ in size by whether they hold `x`. */
  lemma {:induction false} SetMove(s: set<nat>, t: set<nat>, x: nat)
    requires forall y :: y != x ==> (y in s <==> y in t)
    ensures |t| == |s| - (if x in s then 1 else 0) + (if x in t then 1 else 0)
  {
    assert s - {x} == t - {x};
    assert |s - {x}| == |s| - (if x in s then 1 else 0);
    assert |t - {x}| == |t| - (if x in t then 1 else 0);
  }

  /** The state after giving `count` frames from `start` on the flag `value`. */
  function Marked(bits: seq<bool>, start: nat, count: nat, value: bool): seq<bool> {
    seq(|bits|, i requires 0 <= i < |bits| => if start <= i < start + count then value else bits[i])
  }

  predicate ClearRun(bits: seq<bool>, start: nat, count: nat) {
    start + count <= |bits| && forall i :: start <= i < start + count ==> !bits[i]
  }

  /** `k` is the least clear frame. */
  predicate LeastClear(bits: seq<bool>, k: nat) {
    k < |bits| && !bits[k] && forall i :: 0 <= i < k ==> bits[i]
  }

  /** `start` is the least start of `count` consecutive clear frames. */
  predicate LeastRun(bits: seq<bool>, start: nat, count: nat) {
    ClearRun(bits, start, count) && forall s :: 0 <= s < start ==> !ClearRun(bits, s, count)
  }

  ghost predicate RunExists(bits: seq<bool>, count: nat) {
    exists s :: 0 <= s <= |bits| && ClearRun(bits, s, count)
  }

  /** The least clear frame, |bits| if there is none. */
  function FirstClear(bits: seq<bool>): (k: nat)
    ensures k <= |bits| && (k < |bits| ==> LeastClear(bits, k)) && (k == |bits| ==> forall i :: 0 <= i < |bits| ==> bits[i])
  {
    FirstClearFrom(bits, 0)
  }

  function FirstClearFrom(bits: seq<bool>, i: nat): (k: nat)
    requires i <= |bits|
    ensures i <= k <= |bits| && (k < |bits| ==> !bits[k]) && forall j :: i <= j < k ==> bits[j]
    decreases |bits| - i
  {
    if i == |bits| || !bits[i] then i else FirstClearFrom(bits, i + 1)
  }

  /** The state after `n` requests for one frame, each of which takes the least clear one. */
  function TakeLowest(bits: seq<bool>, n: nat): (r: seq<bool>)
    ensures |r| == |bits|
    decreases n
  {
    if n == 0 || FirstClear(bits) == |bits| then bits else TakeLowest(bits[FirstClear(bits) := true], n - 1)
  }

  lemma {:induction false} TakeOne(bits: seq<bool>, k: nat)
    requires LeastClear(bits, k)
    ensures TakeLowest(bits, 1) == bits[k := true]
  {
    assert FirstClear(bits) == k;
    assert TakeLowest(bits[k := true], 0) == bits[k := true];
  }

  lemma {:induction false} TakeLowestAdd(bits: seq<bool>, m: nat, n: nat)
    ensures TakeLowest(TakeLowest(bits, m), n) == TakeLowest(bits, m + n)
    decreases m
  {
    if m > 0 && FirstClear(bits) < |bits| {
      TakeLowestAdd(bits[FirstClear(bits) := true], m - 1, n);
    }
  }

  /** The frame before the least fitting run is taken, since it would start an earlier one. */
  lemma {:induction false} FrameBeforeRunTaken(bits: seq<bool>, start: nat, count: nat)
    requires LeastRun(bits, start, count) && 0 < start && 0 < count
    ensures bits[start - 1]
  {
    if !bits[start - 1] {
      assert ClearRun(bits, start - 1, count);
    }
  }

  lemma {:induction false} ClearExists(bits: seq<bool>)
    ensures FirstClear(bits) < |bits| <==> CountClear(bits) > 0
  {
    if FirstClear(bits) < |bits| {
      CountUpdate(bits, FirstClear(bits), true);
    } else {
      assert Clear(bits) == {};
    }
  }

  lemma {:induction false} TakeLowestCount(bits: seq<bool>, n: nat)
    requires n <= CountClear(bits)
    ensures CountClear(TakeLowest(bits, n)) == CountClear(bits) - n
    decreases n
  {
    if n > 0 {
      ClearExists(bits);
      CountUpdate(bits, FirstClear(bits), true);
      TakeLowestCount(bits[FirstClear(bits) := true], n - 1);
    }
  }

  lemma {:induction false} SubsetCount<T>(s: set<T>, t: set<T>)
    requires s <= t
    ensures |s| <= |t|
    decreases |s|
  {
    if s != {} {
      var x :| x in s;
      SubsetCount(s - {x}, t - {x});
    }
  }

  /** Taking a clear run takes exactly that many frames. */
  lemma {:induction false} CountRun(bits: seq<bool>, start: nat, count: nat)
    requires ClearRun(bits, start, count)
    ensures CountClear(Marked(bits, start, count, true)) == CountClear(bits) - count
    decreases count
  {
    if count == 0 {
      assert Marked(bits, start, 0, true) == bits;
    } else {
      var before := Marked(bits, start, count - 1, true);
      CountRun(bits, start, count - 1);
      CountUpdate(before, start + count - 1, true);
      assert Marked(bits, start, count, true) == before[start + count - 1 := true];
    }
  }
}
