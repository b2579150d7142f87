/** Page tables as frames of memory: the hardware's four-level walk, the tree the table frames
    form, and what writing one entry does to the walk of every address. */
module PageTree {
  import opened Bits
  import opened PageEntry

  /** What a frame of physical memory holds: a page table, or plain bytes. */
  datatype Frame = Table(entries: seq<U64>) | Bytes(bytes: seq<Byte>)

  /** A table's place in the tree: the indices that lead to it. */
  datatype Node = Root | Child(parent: Node, index: nat)

  function Depth(n: Node): nat {
    match n
    case Root => 0
    case Child(p, _) => 1 + Depth(p)
  }

  /** The index an address has at each depth. */
  function Index(v: U64, depth: nat): nat
    requires depth <= 3
  {
    if depth == 0 then Pml4Index(v)
    else if depth == 1 then PdptIndex(v)
    else if depth == 2 then PdIndex(v)
    else PtIndex(v)
  }

  /** The table at `depth` that the walk of `v` goes through. */
  function NodeFor(v: U64, depth: nat): Node
    requires depth <= 3
  {
    if depth == 0 then Root else Child(NodeFor(v, depth - 1), Index(v, depth - 1))
  }

  /** What a walk ends at, and what all its entries together permit. */
  datatype Translation = Unmapped | HugePage(entry: U64, rights: Rights) | Page(entry: U64, rights: Rights)

  /** The same, behind one more entry. */
  function Narrowed(t: Translation, r: Rights): Translation {
    match t
    case Unmapped => Unmapped
    case HugePage(e, own) => HugePage(e, Both(r, own))
    case Page(e, own) => Page(e, Both(r, own))
  }

  /** An entry of the table in frame `f`; frames that hold no table read as empty. */
  function Entry(mem: seq<Frame>, f: nat, i: nat): U64 {
    if f < |mem| && mem[f].Table? && i < |mem[f].entries| then mem[f].entries[i] else 0
  }

  /** The hardware's walk, from the table in frame `f` at `depth` down. */
  function WalkFrom(mem: seq<Frame>, f: nat, depth: nat, v: U64): Translation
    requires depth <= 3
    decreases 3 - depth
  {
    var e := Entry(mem, f, Index(v, depth));
    if !Present(e) then Unmapped
    else if depth == 3 then Page(e, RightsOf(e))
    else if Huge(e) then HugePage(e, RightsOf(e))
    else Narrowed(WalkFrom(mem, FrameOf(e), depth + 1, v), RightsOf(e))
  }

  /** What the intermediate entries on the way of `v` permit, as far as there are any. */
  function GrantedFrom(mem: seq<Frame>, f: nat, depth: nat, v: U64): Rights
    requires depth <= 3
    decreases 3 - depth
  {
    var e := Entry(mem, f, Index(v, depth));
    if depth == 3 || !LeadsOn(e) then ALL_RIGHTS else Both(RightsOf(e), GrantedFrom(mem, FrameOf(e), depth + 1, v))
  }

  predicate HoldsTable(mem: seq<Frame>, f: nat) {
    f < |mem| && mem[f].Table? && |mem[f].entries| == 512
  }

  predicate LeadsOn(e: U64) { Present(e) && !Huge(e) }

  /** `tables` says where every table of the tree lies: no frame is reached twice, and the
      entries that lead on are exactly the tree's edges. */
  ghost predicate IsTree(mem: seq<Frame>, root: nat, tables: map<Node, nat>) {
    && Root in tables && tables[Root] == root
    && (forall n {:trigger Placed(mem, tables, n)} :: n in tables ==> Placed(mem, tables, n))
    && (forall n, m {:trigger SameFrame(tables, n, m)} ::
          n in tables && m in tables && SameFrame(tables, n, m) ==> n == m)
    && (forall n, i {:trigger Child(n, i) in tables} :: Child(n, i) in tables ==> n in tables && i < 512)
    && (forall n, i {:trigger Edge(mem, tables, n, i)} ::
          n in tables && Depth(n) < 3 && 0 <= i < 512 ==> Edge(mem, tables, n, i))
  }

  ghost predicate Placed(mem: seq<Frame>, tables: map<Node, nat>, n: Node)
    requires n in tables
  {
    Depth(n) <= 3 && HoldsTable(mem, tables[n])
  }

  ghost predicate SameFrame(tables: map<Node, nat>, n: Node, m: Node)
    requires n in tables && m in tables
  {
    tables[n] == tables[m]
  }

  ghost predicate Edge(mem: seq<Frame>, tables: map<Node, nat>, n: Node, i: nat)
    requires n in tables
  {
    var e := Entry(mem, tables[n], i);
    (LeadsOn(e) <==> Child(n, i) in tables) &&
    (Child(n, i) in tables ==> FrameOf(e) == tables[Child(n, i)])
  }

  /** The frame reached by following entries from the root, -1 if one of them does not lead on. */
  function Follow(mem: seq<Frame>, root: nat, n: Node): int {
    match n
    case Root => root
    case Child(p, i) =>
      var f := Follow(mem, root, p);
      if f >= 0 && i < 512 && LeadsOn(Entry(mem, f, i)) then FrameOf(Entry(mem, f, i)) else -1
  }

  lemma {:induction false} FollowFindsTables(mem: seq<Frame>, root: nat, tables: map<Node, nat>, n: Node)
    requires IsTree(mem, root, tables) && Depth(n) <= 3
    ensures Follow(mem, root, n) >= 0 <==> n in tables
    ensures n in tables ==> Follow(mem, root, n) == tables[n]
    decreases n
  {
    if n.Child? {
      FollowFindsTables(mem, root, tables, n.parent);
      if n.parent in tables && n.index < 512 {
        assert Edge(mem, tables, n.parent, n.index);
      }
    }
  }

  /** No table frame is reached along two paths. */
  lemma {:induction false} NoTableIsShared(mem: seq<Frame>, root: nat, tables: map<Node, nat>, n: Node, m: Node)
    requires IsTree(mem, root, tables) && Depth(n) <= 3 && Depth(m) <= 3
    requires Follow(mem, root, n) == Follow(mem, root, m) >= 0
    ensures n == m
  {
    FollowFindsTables(mem, root, tables, n);
    FollowFindsTables(mem, root, tables, m);
    assert SameFrame(tables, n, m);
  }

  lemma {:induction false} IndexBound(v: U64, depth: nat)
    requires depth <= 3
    ensures Index(v, depth) < 512
  {
    IndicesRecombine(v);
  }

  lemma {:induction false} NodeDepth(v: U64, depth: nat)
    requires depth <= 3
    ensures Depth(NodeFor(v, depth)) == depth
  {
    if depth > 0 {
      NodeDepth(v, depth - 1);
    }
  }

  /** Two addresses use the same slot of the same last-level table exactly when they lie in the
      same page. */
  lemma {:induction false} SlotsAreDistinct(v: U64, w: U64)
    ensures NodeFor(v, 3) == NodeFor(w, 3) && Index(v, 3) == Index(w, 3) <==> PageOf(v) == PageOf(w)
  {
    IndicesRecombine(v);
    IndicesRecombine(w);
    NodeFields(v);
    NodeFields(w);
    DigitsDiffer(Pml4Index(v), PdptIndex(v), PdIndex(v), PtIndex(v),
                 Pml4Index(w), PdptIndex(w), PdIndex(w), PtIndex(w));
  }

  lemma DigitsDiffer(a: nat, b: nat, c: nat, d: nat, a': nat, b': nat, c': nat, d': nat)
    requires b < 512 && c < 512 && d < 512 && b' < 512 && c' < 512 && d' < 512
    ensures ((a * 512 + b) * 512 + c) * 512 + d == ((a' * 512 + b') * 512 + c') * 512 + d'
       <==> a == a' && b == b' && c == c' && d == d'
  {
  }

  lemma {:induction false} NodeFields(v: U64)
    ensures NodeFor(v, 3) == Child(Child(Child(Root, Pml4Index(v)), PdptIndex(v)), PdIndex(v))
  {
    assert NodeFor(v, 1) == Child(Root, Pml4Index(v));
    assert NodeFor(v, 2) == Child(NodeFor(v, 1), PdptIndex(v));
  }

  function EmptyTable(): Frame { Table(seq(512, _ => 0)) }

  /** Memory after slot `i` of the table in frame `f` is set to `e`. */
  function WithEntry(mem: seq<Frame>, f: nat, i: nat, e: U64): seq<Frame>
    requires HoldsTable(mem, f) && i < 512
  {
    mem[f := Table(mem[f].entries[i := e])]
  }

  lemma {:induction false} TableAt(mem: seq<Frame>, root: nat, tables: map<Node, nat>, n: Node)
    requires IsTree(mem, root, tables) && n in tables
    ensures Depth(n) <= 3 && HoldsTable(mem, tables[n])
  {
    assert Placed(mem, tables, n);
  }

  /** Memory after a new, empty table in frame `child` is hung under slot `i` of frame `f`. */
  function WithTable(mem: seq<Frame>, f: nat, i: nat, child: nat): seq<Frame>
    requires HoldsTable(mem, f) && i < 512 && child < |mem| && child < MAX_FRAMES && f != child
  {
    TableEntryMeaning(child);
    WithEntry(mem[child := EmptyTable()], f, i, TableEntry(child * 0x1000))
  }

  /** A table can be hung under slot `i` of `n`: the slot is empty and no table is in `child`. */
  ghost predicate CanHang(mem: seq<Frame>, root: nat, tables: map<Node, nat>, n: Node, i: nat, child: nat) {
    && IsTree(mem, root, tables) && n in tables && Depth(n) < 3 && i < 512
    && HoldsTable(mem, tables[n]) && !Present(Entry(mem, tables[n], i))
    && child < |mem| && child < MAX_FRAMES && forall m :: m in tables ==> tables[m] != child
  }

  lemma {:induction false} NewTableKeepsTree(mem: seq<Frame>, root: nat, tables: map<Node, nat>, n: Node, i: nat, child: nat)
    requires CanHang(mem, root, tables, n, i, child)
    ensures IsTree(WithTable(mem, tables[n], i, child), root, tables[Child(n, i) := child])
  {
    var mem' := WithTable(mem, tables[n], i, child);
    var tables' := tables[Child(n, i) := child];
    TableEntryMeaning(child);
    assert Edge(mem, tables, n, i);
    assert !Present(0);
    forall m | m in tables
      ensures Placed(mem', tables', m) && (m != n ==> tables[m] != tables[n])
    {
      TableAt(mem, root, tables, m);
      assert SameFrame(tables, m, n) ==> m == n;
    }
    forall m, k | m in tables' && k in tables' && SameFrame(tables', m, k)
      ensures m == k
    {
      assert m in tables && k in tables ==> (SameFrame(tables, m, k) ==> m == k);
    }
    forall m, k | m in tables' && Depth(m) < 3 && 0 <= k < 512
      ensures Edge(mem', tables', m, k)
    {
      if m in tables {
        assert Edge(mem, tables, m, k);
      } else {
        assert Child(m, k) !in tables;
      }
    }
  }

  /** Hanging a new, empty table changes no walk, nor what is granted on the way of any address. */
  lemma {:induction false} NewTableKeepsWalks(mem: seq<Frame>, root: nat, tables: map<Node, nat>, n: Node, i: nat,
                                              child: nat, v: U64, depth: nat)
    requires CanHang(mem, root, tables, n, i, child)
    requires depth <= 3 && NodeFor(v, depth) in tables
    ensures WalkFrom(WithTable(mem, tables[n], i, child), tables[NodeFor(v, depth)], depth, v)
         == WalkFrom(mem, tables[NodeFor(v, depth)], depth, v)
    ensures GrantedFrom(WithTable(mem, tables[n], i, child), tables[NodeFor(v, depth)], depth, v)
         == GrantedFrom(mem, tables[NodeFor(v, depth)], depth, v)
    decreases 3 - depth
  {
    var mem' := WithTable(mem, tables[n], i, child);
    var m, k := NodeFor(v, depth), Index(v, depth);
    TableEntryMeaning(child);
    TableRights(child);
    NodeDepth(v, depth);
    IndexBound(v, depth);
    assert !Present(0);
    TableAt(mem, root, tables, m);
    assert SameFrame(tables, m, n) ==> m == n;
    if m == n && k == i {
      IndexBound(v, depth + 1);
      assert Entry(mem', child, Index(v, depth + 1)) == 0;
      assert WalkFrom(mem', child, depth + 1, v) == Unmapped;
      assert GrantedFrom(mem', child, depth + 1, v) == ALL_RIGHTS;
    } else {
      var e := Entry(mem, tables[m], k);
      assert Entry(mem', tables[m], k) == e;
      if depth < 3 && LeadsOn(e) {
        assert Edge(mem, tables, m, k);
        assert NodeFor(v, depth + 1) == Child(m, k);
        NewTableKeepsWalks(mem, root, tables, n, i, child, v, depth + 1);
      }
    }
  }

  /** Setting a last-level slot keeps the tree. */
  lemma {:induction false} LeafKeepsTree(mem: seq<Frame>, root: nat, tables: map<Node, nat>, n: Node, i: nat, e: U64)
    requires IsTree(mem, root, tables) && n in tables && Depth(n) == 3 && i < 512 && HoldsTable(mem, tables[n])
    ensures IsTree(WithEntry(mem, tables[n], i, e), root, tables)
  {
    var mem' := WithEntry(mem, tables[n], i, e);
    forall m | m in tables
      ensures Placed(mem', tables, m) && (m != n ==> tables[m] != tables[n])
    {
      TableAt(mem, root, tables, m);
      assert SameFrame(tables, m, n) ==> m == n;
    }
    forall m, k | m in tables && Depth(m) < 3 && 0 <= k < 512
      ensures Edge(mem', tables, m, k)
    {
      assert Edge(mem, tables, m, k);
    }
  }

  /** Setting the last-level slot of `v` changes the walk of `v`'s page and of no other, and what is
      granted on the way of none. */
  lemma {:induction false} LeafWalks(mem: seq<Frame>, root: nat, tables: map<Node, nat>, v: U64, e: U64, w: U64, depth: nat)
    requires IsTree(mem, root, tables) && NodeFor(v, 3) in tables && Index(v, 3) < 512
    requires depth <= 3 && NodeFor(w, depth) in tables && HoldsTable(mem, tables[NodeFor(v, 3)])
    ensures WalkFrom(WithEntry(mem, tables[NodeFor(v, 3)], Index(v, 3), e), tables[NodeFor(w, depth)], depth, w)
         == if PageOf(w) == PageOf(v)
            then Narrowed(if Present(e) then Page(e, RightsOf(e)) else Unmapped, GrantedFrom(mem, tables[NodeFor(w, depth)], depth, w))
            else WalkFrom(mem, tables[NodeFor(w, depth)], depth, w)
    ensures GrantedFrom(WithEntry(mem, tables[NodeFor(v, 3)], Index(v, 3), e), tables[NodeFor(w, depth)], depth, w)
         == GrantedFrom(mem, tables[NodeFor(w, depth)], depth, w)
  {
    if PageOf(w) == PageOf(v) {
      LeafHere(mem, root, tables, v, e, w, depth);
    } else {
      LeafElsewhere(mem, root, tables, v, e, w, depth);
    }
  }

  /** On the way of `w`, only the slot of `v`'s page differs, and that only at the last level. */
  lemma {:induction false} LeafEntries(mem: seq<Frame>, root: nat, tables: map<Node, nat>, v: U64, e: U64, w: U64, depth: nat)
    requires IsTree(mem, root, tables) && NodeFor(v, 3) in tables && Index(v, 3) < 512
    requires depth <= 3 && NodeFor(w, depth) in tables && HoldsTable(mem, tables[NodeFor(v, 3)])
    ensures Entry(WithEntry(mem, tables[NodeFor(v, 3)], Index(v, 3), e), tables[NodeFor(w, depth)], Index(w, depth))
         == if depth == 3 && PageOf(w) == PageOf(v) then e else Entry(mem, tables[NodeFor(w, depth)], Index(w, depth))
    ensures depth < 3 && LeadsOn(Entry(mem, tables[NodeFor(w, depth)], Index(w, depth))) ==>
              NodeFor(w, depth + 1) in tables &&
              FrameOf(Entry(mem, tables[NodeFor(w, depth)], Index(w, depth))) == tables[NodeFor(w, depth + 1)]
  {
    var m, k := NodeFor(w, depth), Index(w, depth);
    NodeDepth(v, 3);
    NodeDepth(w, depth);
    IndexBound(w, depth);
    SlotsAreDistinct(v, w);
    TableAt(mem, root, tables, m);
    assert SameFrame(tables, m, NodeFor(v, 3)) ==> m == NodeFor(v, 3);
    if depth < 3 {
      assert Edge(mem, tables, m, k);
      assert NodeFor(w, depth + 1) == Child(m, k);
    }
  }

  lemma {:induction false} LeafElsewhere(mem: seq<Frame>, root: nat, tables: map<Node, nat>, v: U64, e: U64, w: U64, depth: nat)
    requires IsTree(mem, root, tables) && NodeFor(v, 3) in tables && Index(v, 3) < 512 && PageOf(w) != PageOf(v)
    requires depth <= 3 && NodeFor(w, depth) in tables && HoldsTable(mem, tables[NodeFor(v, 3)])
    ensures WalkFrom(WithEntry(mem, tables[NodeFor(v, 3)], Index(v, 3), e), tables[NodeFor(w, depth)], depth, w)
         == WalkFrom(mem, tables[NodeFor(w, depth)], depth, w)
    ensures GrantedFrom(WithEntry(mem, tables[NodeFor(v, 3)], Index(v, 3), e), tables[NodeFor(w, depth)], depth, w)
         == GrantedFrom(mem, tables[NodeFor(w, depth)], depth, w)
    decreases 3 - depth
  {
    LeafEntries(mem, root, tables, v, e, w, depth);
    if depth < 3 && LeadsOn(Entry(mem, tables[NodeFor(w, depth)], Index(w, depth))) {
      LeafElsewhere(mem, root, tables, v, e, w, depth + 1);
    }
  }

  lemma {:induction false} LeafHere(mem: seq<Frame>, root: nat, tables: map<Node, nat>, v: U64, e: U64, w: U64, depth: nat)
    requires IsTree(mem, root, tables) && NodeFor(v, 3) in tables && Index(v, 3) < 512 && PageOf(w) == PageOf(v)
    requires depth <= 3 && NodeFor(w, depth) in tables && HoldsTable(mem, tables[NodeFor(v, 3)])
    ensures WalkFrom(WithEntry(mem, tables[NodeFor(v, 3)], Index(v, 3), e), tables[NodeFor(w, depth)], depth, w)
         == Narrowed(if Present(e) then Page(e, RightsOf(e)) else Unmapped, GrantedFrom(mem, tables[NodeFor(w, depth)], depth, w))
    ensures GrantedFrom(WithEntry(mem, tables[NodeFor(v, 3)], Index(v, 3), e), tables[NodeFor(w, depth)], depth, w)
         == GrantedFrom(mem, tables[NodeFor(w, depth)], depth, w)
    decreases 3 - depth
  {
    LeafEntries(mem, root, tables, v, e, w, depth);
    if depth < 3 {
      OwnWayLeadsOn(mem, root, tables, v, w, depth);
      LeafHere(mem, root, tables, v, e, w, depth + 1);
    }
  }

  /** The entries on the way of a page with a last-level table lead on. */
  lemma {:induction false} OwnWayLeadsOn(mem: seq<Frame>, root: nat, tables: map<Node, nat>, v: U64, w: U64, depth: nat)
    requires IsTree(mem, root, tables) && NodeFor(v, 3) in tables && PageOf(w) == PageOf(v) && depth < 3 && NodeFor(w, depth) in tables
    ensures NodeFor(w, depth + 1) in tables && LeadsOn(Entry(mem, tables[NodeFor(w, depth)], Index(w, depth)))
  {
    NodeDepth(w, depth);
    IndexBound(w, depth);
    SamePagePath(v, w, depth);
    ParentsPresent(mem, root, tables, v, depth + 1);
    assert NodeFor(w, depth + 1) == Child(NodeFor(w, depth), Index(w, depth));
    assert Edge(mem, tables, NodeFor(w, depth), Index(w, depth));
  }

  lemma {:induction false} ParentsPresent(mem: seq<Frame>, root: nat, tables: map<Node, nat>, v: U64, depth: nat)
    requires IsTree(mem, root, tables) && NodeFor(v, 3) in tables && depth <= 3
    ensures NodeFor(v, depth) in tables
    decreases 3 - depth
  {
    if depth < 3 {
      ParentsPresent(mem, root, tables, v, depth + 1);
      assert NodeFor(v, depth + 1) == Child(NodeFor(v, depth), Index(v, depth));
    }
  }

  /** The walk depends on the page alone. */
  lemma {:induction false} SamePageSameWalk(mem: seq<Frame>, f: nat, v: U64, w: U64, depth: nat)
    requires PageOf(v) == PageOf(w) && depth <= 3
    ensures WalkFrom(mem, f, depth, v) == WalkFrom(mem, f, depth, w)
    ensures GrantedFrom(mem, f, depth, v) == GrantedFrom(mem, f, depth, w)
    decreases 3 - depth
  {
    SlotsAreDistinct(v, w);
    NodeFields(v);
    NodeFields(w);
    assert Index(v, depth) == Index(w, depth);
    var e := Entry(mem, f, Index(v, depth));
    if depth < 3 && LeadsOn(e) {
      SamePageSameWalk(mem, FrameOf(e), v, w, depth + 1);
    }
  }

  /** The walk of `v` goes through the table the tree puts on its path: it ends at a huge page if
      it does from there. */
  lemma {:induction false} WalkReaches(mem: seq<Frame>, root: nat, tables: map<Node, nat>, v: U64, depth: nat)
    requires IsTree(mem, root, tables) && depth <= 3 && NodeFor(v, depth) in tables
    ensures WalkFrom(mem, root, 0, v).HugePage? <==> WalkFrom(mem, tables[NodeFor(v, depth)], depth, v).HugePage?
    decreases depth
  {
    if depth > 0 {
      var n := NodeFor(v, depth - 1);
      NodeDepth(v, depth - 1);
      assert NodeFor(v, depth) == Child(n, Index(v, depth - 1));
      WalkReaches(mem, root, tables, v, depth - 1);
      assert Edge(mem, tables, n, Index(v, depth - 1));
    }
  }

  lemma {:induction false} SamePagePath(v: U64, w: U64, depth: nat)
    requires PageOf(v) == PageOf(w) && depth < 3
    ensures NodeFor(v, depth + 1) == NodeFor(w, depth + 1)
  {
    SlotsAreDistinct(v, w);
    NodeFields(v);
    NodeFields(w);
    assert NodeFor(v, 1) == Child(Root, Pml4Index(v)) && NodeFor(w, 1) == Child(Root, Pml4Index(w));
    assert NodeFor(v, 2) == Child(NodeFor(v, 1), PdptIndex(v)) && NodeFor(w, 2) == Child(NodeFor(w, 1), PdptIndex(w));
  }

  // ---- Access rights ----

  /** If there is a table for `v` below depth `d`, the entry that leads to it permits `r`. */
  ghost predicate Grants(mem: seq<Frame>, tables: map<Node, nat>, v: U64, d: nat, r: Rights)
    requires d < 3
  {
    NodeFor(v, d + 1) in tables ==>
      NodeFor(v, d) in tables && RightsOf(Entry(mem, tables[NodeFor(v, d)], Index(v, d))).Covers(r)
  }

  /** The way of `v` permits `r` exactly when every intermediate entry on it does. */
  lemma {:induction false} GrantedExactly(mem: seq<Frame>, root: nat, tables: map<Node, nat>, v: U64, r: Rights, depth: nat)
    requires IsTree(mem, root, tables) && depth <= 3 && NodeFor(v, depth) in tables
    ensures GrantedFrom(mem, tables[NodeFor(v, depth)], depth, v).Covers(r) <==>
            forall d {:trigger Grants(mem, tables, v, d, r)} :: depth <= d < 3 ==> Grants(mem, tables, v, d, r)
    decreases 3 - depth
  {
    if depth < 3 {
      var n := NodeFor(v, depth);
      NodeDepth(v, depth);
      IndexBound(v, depth);
      assert Edge(mem, tables, n, Index(v, depth));
      assert NodeFor(v, depth + 1) == Child(n, Index(v, depth));
      if NodeFor(v, depth + 1) in tables {
        GrantedExactly(mem, root, tables, v, r, depth + 1);
        assert (forall d {:trigger Grants(mem, tables, v, d, r)} :: depth <= d < 3 ==> Grants(mem, tables, v, d, r)) <==>
               (Grants(mem, tables, v, depth, r) &&
                forall d {:trigger Grants(mem, tables, v, d, r)} :: depth + 1 <= d < 3 ==> Grants(mem, tables, v, d, r));
      } else {
        forall d | depth <= d < 3
          ensures Grants(mem, tables, v, d, r)
        {
          NoneDeeper(mem, root, tables, v, depth + 1, d + 1);
        }
      }
    }
  }

  lemma {:induction false} NoneDeeper(mem: seq<Frame>, root: nat, tables: map<Node, nat>, v: U64, depth: nat, d: nat)
    requires IsTree(mem, root, tables) && depth <= d <= 3 && NodeFor(v, depth) !in tables
    ensures NodeFor(v, d) !in tables
    decreases d
  {
    if d > depth {
      NoneDeeper(mem, root, tables, v, depth, d - 1);
      assert NodeFor(v, d) == Child(NodeFor(v, d - 1), Index(v, d - 1));
    }
  }

  /** With nothing below the root yet, nothing is withheld; an entry with PRESENT alone withholds
      everything behind it from user mode. */
  lemma {:induction false} RootSlotDecides(mem: seq<Frame>, root: nat, v: U64, f: nat)
    requires f < MAX_FRAMES
    ensures !Present(Entry(mem, root, Pml4Index(v))) ==> GrantedFrom(mem, root, 0, v) == ALL_RIGHTS
    ensures Entry(mem, root, Pml4Index(v)) == f * 0x1000 + 1 ==> GrantedFrom(mem, root, 0, v) == Rights(false, false)
  {
    PresentAlone(f);
  }
}
