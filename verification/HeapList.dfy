/** The heap's intrusive list: segment headers in memory, linked both ways, and the in-place
    splitting and combining of neighbours. */
module HeapList {
  import opened HeapTiles
  import opened HeapTheorems

  const NULL := 0

  /** heap_segment_header; the links are addresses of headers. */
  datatype Header = Header(size: nat, next: nat, last: nat, free: bool)

  function HeaderOf(ts: seq<Tile>, i: nat): Header
    requires i < |ts|
  {
    Header(ts[i].size,
           if i + 1 < |ts| then ts[i + 1].addr else NULL,
           if i > 0 then ts[i - 1].addr else NULL,
           ts[i].free)
  }

  /** The i-th segment's header is in memory, linked to its neighbours. */
  ghost predicate At(headers: map<nat, Header>, ts: seq<Tile>, i: nat)
    requires i < |ts|
  {
    ts[i].addr in headers && headers[ts[i].addr] == HeaderOf(ts, i)
  }

  /** Every segment's header is in memory, and `next` and `last` link each to its neighbours. */
  ghost predicate Linked(headers: map<nat, Header>, ts: seq<Tile>) {
    forall i {:trigger At(headers, ts, i)} :: 0 <= i < |ts| ==> At(headers, ts, i)
  }

  /** The segments tile [start, end), the links agree with their order, and `lastSegment` is the
      tail. */
  ghost predicate InOrder(headers: map<nat, Header>, lastSegment: nat, ts: seq<Tile>, start: nat, end: nat) {
    && 0 < start && Tiled(ts, start, end)
    && Linked(headers, ts)
    && lastSegment == ts[|ts| - 1].addr
  }

  /** Headers at addresses other than those in `except` are as before. */
  ghost predicate Untouched(headers: map<nat, Header>, headers': map<nat, Header>, except: set<nat>) {
    forall a {:trigger headers'[a]} {:trigger a in headers'} :: a in headers && a !in except ==> a in headers' && headers'[a] == headers[a]
  }

  ghost predicate Rising(ts: seq<Tile>) {
    forall i, j :: 0 <= i < j < |ts| ==> ts[i].addr < ts[j].addr
  }

  lemma {:induction false} TiledRises(ts: seq<Tile>, start: nat, end: nat)
    requires Tiled(ts, start, end)
    ensures Rising(ts)
    ensures forall i :: 0 <= i < |ts| ==> start <= ts[i].addr
  {
    forall i, j | 0 <= i < j < |ts|
      ensures ts[i].addr < ts[j].addr
    {
      Ascending(ts, i, j);
    }
    forall i | 0 <= i < |ts|
      ensures start <= ts[i].addr
    {
      if i > 0 {
        Ascending(ts, 0, i);
      }
    }
  }

  lemma {:induction false} MarkedLinked(headers: map<nat, Header>, ts: seq<Tile>, headers': map<nat, Header>, start: nat, end: nat, k: nat, free: bool)
    requires Tiled(ts, start, end) && Linked(headers, ts) && k < |ts|
    requires Untouched(headers, headers', {ts[k].addr}) && At(headers', Marked(ts, k, free), k)
    ensures Linked(headers', Marked(ts, k, free))
  {
    TiledRises(ts, start, end);
    forall i | 0 <= i < |ts|
      ensures At(headers', Marked(ts, k, free), i)
    {
      assert At(headers, ts, i);
    }
  }

  /** What combining segment `k` with the next does to every header of the row. */
  lemma CombineHeaders(ts: seq<Tile>, k: nat, i: nat)
    requires k + 1 < |ts| && ts[k + 1].free && i < |ts| - 1
    ensures |CombineFwd(ts, k)| == |ts| - 1
    ensures CombineFwd(ts, k)[i].addr == ts[if i <= k then i else i + 1].addr
    ensures HeaderOf(CombineFwd(ts, k), i) ==
              if i < k then HeaderOf(ts, i)
              else if i == k then HeaderOf(ts, k).(size := ts[k].size + ts[k + 1].size + HEADER, next := HeaderOf(ts, k + 1).next)
              else if i == k + 1 then HeaderOf(ts, k + 2).(last := ts[k].addr)
              else HeaderOf(ts, i + 1)
  {
  }

  /** The first write of heapseg_combine_fwd: the header after the next one links back to `k`. */
  ghost function Relinked(headers: map<nat, Header>, ts: seq<Tile>, k: nat): map<nat, Header>
    requires k + 1 < |ts|
  {
    if k + 2 < |ts| then headers[ts[k + 2].addr := HeaderOf(ts, k + 2).(last := ts[k].addr)] else headers
  }

  /** All the writes of heapseg_combine_fwd. */
  ghost function Swallowed(headers: map<nat, Header>, ts: seq<Tile>, k: nat): map<nat, Header>
    requires k + 1 < |ts|
  {
    Relinked(headers, ts, k)[
      ts[k].addr := HeaderOf(ts, k).(size := ts[k].size + ts[k + 1].size + HEADER, next := HeaderOf(ts, k + 1).next)]
  }

  lemma {:induction false} SwallowedAt(headers: map<nat, Header>, ts: seq<Tile>, k: nat, i: nat)
    requires Rising(ts) && Linked(headers, ts) && k + 1 < |ts| && ts[k + 1].free && i < |ts| - 1
    ensures |CombineFwd(ts, k)| == |ts| - 1 && At(Swallowed(headers, ts, k), CombineFwd(ts, k), i)
  {
    CombineHeaders(ts, k, i);
    assert At(headers, ts, if i <= k then i else i + 1);
  }

  lemma {:induction false} CombinedInOrder(headers: map<nat, Header>, last: nat, ts: seq<Tile>, start: nat, end: nat, k: nat)
    requires InOrder(headers, last, ts, start, end) && k + 1 < |ts| && ts[k + 1].free
    ensures InOrder(Swallowed(headers, ts, k), if last == ts[k + 1].addr then ts[k].addr else last, CombineFwd(ts, k), start, end)
  {
    TiledRises(ts, start, end);
    CombineFwdTiled(ts, start, end, k);
    CombineHeaders(ts, k, |ts| - 2);
    forall i | 0 <= i < |ts| - 1
      ensures At(Swallowed(headers, ts, k), CombineFwd(ts, k), i)
    {
      SwallowedAt(headers, ts, k, i);
    }
  }

  /** What splitting segment `k` does to every header of the row. */
  lemma SplitHeaders(ts: seq<Tile>, k: nat, first: nat, i: nat)
    requires k < |ts| && 16 <= first && 16 <= ts[k].size - first - HEADER && i < |ts| + 1
    ensures |Split(ts, k, first)| == |ts| + 1
    ensures Split(ts, k, first)[i].addr ==
              if i <= k then ts[i].addr else if i == k + 1 then ts[k].addr + HEADER + first else ts[i - 1].addr
    ensures HeaderOf(Split(ts, k, first), i) ==
              if i < k then HeaderOf(ts, i)
              else if i == k then HeaderOf(ts, k).(size := first, next := ts[k].addr + HEADER + first)
              else if i == k + 1 then Header(ts[k].size - first - HEADER, HeaderOf(ts, k).next, ts[k].addr, ts[k].free)
              else if i == k + 2 then HeaderOf(ts, k + 1).(last := ts[k].addr + HEADER + first)
              else HeaderOf(ts, i - 1)
  {
  }

  /** The writes of heapseg_split: the header after the segment, the new one, the segment's own. */
  ghost function Cut(headers: map<nat, Header>, ts: seq<Tile>, k: nat, first: nat): map<nat, Header>
    requires k < |ts| && HEADER <= ts[k].size - first
  {
    var mid := ts[k].addr + HEADER + first;
    var rest := Header(ts[k].size - first - HEADER, HeaderOf(ts, k).next, ts[k].addr, ts[k].free);
    var short := HeaderOf(ts, k).(size := first, next := mid);
    if k + 1 < |ts| then headers[ts[k + 1].addr := HeaderOf(ts, k + 1).(last := mid)][mid := rest][ts[k].addr := short]
    else headers[mid := rest][ts[k].addr := short]
  }

  /** No segment starts at `mid`. */
  ghost predicate NoneAt(ts: seq<Tile>, mid: nat) {
    forall j :: 0 <= j < |ts| ==> ts[j].addr != mid
  }

  lemma {:induction false} MidIsFree(ts: seq<Tile>, start: nat, end: nat, k: nat, first: nat)
    requires Tiled(ts, start, end) && k < |ts| && first + HEADER < ts[k].size
    ensures NoneAt(ts, ts[k].addr + HEADER + first)
  {
    forall j | 0 <= j < |ts|
      ensures ts[j].addr != ts[k].addr + HEADER + first
    {
      if j != k {
        SegmentsDisjoint(ts, start, end, k, j);
      }
    }
  }

  lemma {:induction false} CutAt(headers: map<nat, Header>, ts: seq<Tile>, k: nat, first: nat, i: nat)
    requires Rising(ts) && Linked(headers, ts) && k < |ts| && i < |ts| + 1
    requires 16 <= first && 16 <= ts[k].size - first - HEADER
    requires NoneAt(ts, ts[k].addr + HEADER + first)
    ensures |Split(ts, k, first)| == |ts| + 1 && At(Cut(headers, ts, k, first), Split(ts, k, first), i)
  {
    SplitHeaders(ts, k, first, i);
    if i != k + 1 {
      assert At(headers, ts, if i <= k then i else i - 1);
    }
  }

  lemma {:induction false} SplitInOrder(headers: map<nat, Header>, last: nat, ts: seq<Tile>, start: nat, end: nat, k: nat, first: nat)
    requires InOrder(headers, last, ts, start, end) && k < |ts| && first % 16 == 0
    requires 16 <= first && 16 <= ts[k].size - first - HEADER
    ensures InOrder(Cut(headers, ts, k, first), if last == ts[k].addr then ts[k].addr + HEADER + first else last,
                    Split(ts, k, first), start, end)
  {
    TiledRises(ts, start, end);
    SplitTiled(ts, start, end, k, first);
    SplitHeaders(ts, k, first, |ts|);
    MidIsFree(ts, start, end, k, first);
    forall i | 0 <= i < |ts| + 1
      ensures At(Cut(headers, ts, k, first), Split(ts, k, first), i)
    {
      CutAt(headers, ts, k, first, i);
    }
  }

  lemma {:induction false} AppendInOrder(headers: map<nat, Header>, ts: seq<Tile>, headers': map<nat, Header>, start: nat, end: nat, amount: nat)
    requires 0 < start && Tiled(ts, start, end) && Linked(headers, ts) && amount > HEADER && amount % 16 == 0
    requires Untouched(headers, headers', {ts[|ts| - 1].addr, end}) && end in headers'
    requires headers'[end] == Header(amount - HEADER, NULL, ts[|ts| - 1].addr, true)
    requires ts[|ts| - 1].addr in headers' && headers'[ts[|ts| - 1].addr] == HeaderOf(ts, |ts| - 1).(next := end)
    ensures InOrder(headers', end, ts + [Tile(end, amount - HEADER, true)], start, end + amount)
  {
    TiledRises(ts, start, end);
    var us := ts + [Tile(end, amount - HEADER, true)];
    var n := |ts| - 1;
    assert us[n] == ts[n] && us[n + 1].addr == ts[n].End();
    forall i | 0 <= i < |us|
      ensures At(headers', us, i)
    {
      if i < n {
        assert At(headers, ts, i) && us[i] == ts[i] && us[i + 1] == ts[i + 1];
      }
    }
    RowJoin(ts, us[n + 1..], start, end, end + amount);
    assert us == ts + us[n + 1..];
  }

  class SegmentList {
    var headers: map<nat, Header>   // the headers in memory, by address
    var lastSegment: nat
    ghost var tiles: seq<Tile>      // the segments in list order
    ghost const start: nat
    ghost var end: nat

    ghost predicate Valid()
      reads this
    {
      InOrder(headers, lastSegment, tiles, start, end)
    }

    /** No segments yet. */
    constructor (heapStart: nat)
      ensures start == heapStart
    {
      headers, lastSegment, tiles, start, end := map[], NULL, [], heapStart, heapStart;
    }

    /** The single free segment heap_init sets up. */
    method SetUp(heapStart: nat, sizeBytes: nat)
      requires heapStart == start && 0 < heapStart && sizeBytes > HEADER && sizeBytes % 16 == 0
      modifies this
      ensures Valid() && end == heapStart + sizeBytes
      ensures tiles == [Tile(heapStart, sizeBytes - HEADER, true)]
    {
      headers := headers[heapStart := Header(sizeBytes - HEADER, NULL, NULL, true)];
      lastSegment := heapStart;
      tiles := [Tile(heapStart, sizeBytes - HEADER, true)];
      end := heapStart + sizeBytes;
    }

    /** The header at the k-th segment's address; a link is NULL exactly at the end of the list. */
    lemma {:induction false} HeaderAt(k: nat)
      requires Valid() && k < |tiles|
      ensures tiles[k].addr in headers && headers[tiles[k].addr] == HeaderOf(tiles, k)
      ensures tiles[k].addr != NULL
      ensures HeaderOf(tiles, k).next == NULL <==> k + 1 == |tiles|
      ensures k + 1 < |tiles| ==> tiles[k].addr < tiles[k + 1].addr
    {
      TiledRises(tiles, start, end);
      assert At(headers, tiles, k);
    }

    /** `segment->free = free` */
    method SetFree(segment: nat, free: bool, ghost k: nat)
      requires Valid() && k < |tiles| && tiles[k].addr == segment
      modifies this`headers, this`lastSegment, this`tiles
      ensures Valid()
      ensures tiles == Marked(old(tiles), k, free)
    {
      HeaderAt(k);
      headers := headers[segment := headers[segment].(free := free)];
      assert At(headers, Marked(tiles, k, free), k);
      MarkedLinked(old(headers), tiles, headers, start, end, k, free);
      MarkedTiled(tiles, start, end, k, free);
      tiles := Marked(tiles, k, free);
    }

    /** The header after the segment about to be swallowed, if there is one, links back past it. */
    method Relink(segment: nat, next: nat, ghost k: nat)
      requires Valid() && k + 1 < |tiles| && tiles[k].addr == segment && tiles[k + 1].addr == next
      modifies this`headers
      ensures headers == Relinked(old(headers), tiles, k)
      ensures segment in headers && headers[segment] == HeaderOf(tiles, k)
      ensures next in headers && headers[next] == HeaderOf(tiles, k + 1)
    {
      HeaderAt(k);
      HeaderAt(k + 1);
      var afterNext := headers[next].next;
      if afterNext != NULL {
        HeaderAt(k + 2);
        headers := headers[afterNext := headers[afterNext].(last := segment)];
      }
    }

    /** heapseg_combine_fwd */
    method CombineForward(segment: nat, ghost k: nat)
      requires Valid() && k < |tiles| && tiles[k].addr == segment
      modifies this`headers, this`lastSegment, this`tiles
      ensures Valid()
      ensures tiles == CombineFwd(old(tiles), k)
    {
      HeaderAt(k);
      var next := headers[segment].next;
      if next == NULL {
        return;
      }
      HeaderAt(k + 1);
      if !headers[next].free {
        return;
      }
      CombinedInOrder(headers, lastSegment, tiles, start, end, k);
      Relink(segment, next, k);
      if next == lastSegment {
        lastSegment := segment;
      }
      headers := headers[segment := headers[segment].(size := headers[segment].size + headers[next].size + HEADER)];
      headers := headers[segment := headers[segment].(next := headers[next].next)];
      assert headers == Swallowed(old(headers), tiles, k);
      tiles := CombineFwd(tiles, k);
    }

    /** heapseg_combine_bwd */
    method CombineBackward(segment: nat, ghost k: nat)
      requires Valid() && k < |tiles| && tiles[k].addr == segment
      modifies this`headers, this`lastSegment, this`tiles
      ensures Valid()
      ensures tiles == CombineBwd(old(tiles), k)
    {
      HeaderAt(k);
      if k > 0 {
        HeaderAt(k - 1);
      }
      var last := headers[segment].last;
      if last != NULL && headers[last].free {
        CombineForward(last, k - 1);
      }
    }

    /** heapseg_split; the address of the second part, NULL if the segment was left whole. */
    method HeapsegSplit(segment: nat, firstSize: nat, ghost k: nat) returns (new_: nat)
      requires Valid() && k < |tiles| && tiles[k].addr == segment && firstSize % 16 == 0
      modifies this`headers, this`lastSegment, this`tiles
      ensures Valid()
      ensures tiles == Split(old(tiles), k, firstSize)
      ensures new_ == if tiles == old(tiles) then NULL else segment + HEADER + firstSize
    {
      if firstSize < 0x10 {
        return NULL;
      }
      HeaderAt(k);
      var splitLength: int := headers[segment].size - firstSize - HEADER;
      if splitLength < 0x10 {
        return NULL;
      }
      SplitInOrder(headers, lastSegment, tiles, start, end, k, firstSize);
      new_ := segment + firstSize + HEADER;
      var h := headers[segment];
      if h.next != NULL {
        HeaderAt(k + 1);
        headers := headers[h.next := headers[h.next].(last := new_)];
      }
      headers := headers[new_ := Header(splitLength, h.next, segment, h.free)];
      headers := headers[segment := Header(firstSize, new_, h.last, h.free)];
      if lastSegment == segment {
        lastSegment := new_;
      }
      assert headers == Cut(old(headers), tiles, k, firstSize);
      tiles := Split(tiles, k, firstSize);
    }

    /** The last part of expand_heap: a free segment of `amount` bytes, header included, at the
        old end of the heap becomes the tail. */
    method Append(new_: nat, amount: nat)
      requires Valid() && new_ == end && amount > HEADER && amount % 16 == 0
      modifies this
      ensures Valid() && end == old(end) + amount
      ensures tiles == old(tiles) + [Tile(new_, amount - HEADER, true)]
    {
      HeaderAt(|tiles| - 1);
      headers := headers[new_ := Header(amount - HEADER, NULL, lastSegment, true)];
      headers := headers[lastSegment := headers[lastSegment].(next := new_)];
      AppendInOrder(old(headers), tiles, headers, start, end, amount);
      lastSegment := new_;
      tiles := tiles + [Tile(new_, amount - HEADER, true)];
      end := end + amount;
    }

    /** The search of malloc: walks the list for the first free segment of at least `size` bytes,
        cuts it to size and takes it; NULL when there is none. */
    method TakeFirstFit(first: nat, size: nat) returns (address: nat)
      requires Valid() && first == start && size > 0 && size % 16 == 0
      modifies this`headers, this`lastSegment, this`tiles
      ensures Valid()
      ensures !HasFit(old(tiles), size) ==> address == NULL && tiles == old(tiles)
      ensures HasFit(old(tiles), size) ==>
                var k := FirstFit(old(tiles), size);
                address == old(tiles)[k].Block() && address != NULL && tiles == Take(old(tiles), k, size)
    {
      var current := first;
      ghost var k := 0;
      while true
        invariant k < |tiles| && current == tiles[k].addr && Valid() && tiles == old(tiles)
        invariant forall j :: 0 <= j < k ==> !Fits(tiles[j], size)
        decreases |tiles| - k
      {
        HeaderAt(k);
        if headers[current].free {
          if headers[current].size > size {
            FirstFitIs(tiles, size, k);
            var rest := HeapsegSplit(current, size, k);
            SetFree(current, false, k);
            return current + HEADER;
          }
          if headers[current].size == size {
            FirstFitIs(tiles, size, k);
            SetFree(current, false, k);
            return current + HEADER;
          }
        }
        if headers[current].next == NULL {
          break;
        }
        HeaderAt(k + 1);
        current := headers[current].next;
        k := k + 1;
      }
      NoFit(tiles, size);
      return NULL;
    }

    /** free: marks the segment before the block free and combines it both ways. */
    method Free(address: nat, ghost k: nat)
      requires Valid() && k < |tiles| && address == tiles[k].Block()
      modifies this`headers, this`lastSegment, this`tiles
      ensures Valid() && tiles == Release(old(tiles), k)
    {
      var segment := address - HEADER;
      SetFree(segment, true, k);
      CombineForward(segment, k);
      CombineBackward(segment, k);
    }
  }
}
