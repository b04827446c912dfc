/** The first-fit allocator of mm.c: a linked list of regions kept in a fixed table. */
module Allocator {

  const NR_BLOCKS := 10240
  const MEM_FREE := 1
  const MEM_USED := 0x10

  // ----- The list of regions, as values -------------------------------------------

  datatype Region = Region(addr: nat, size: nat, kind: int)

  /** First free region of at least `size` bytes, or the length of the list. */
  function FirstFit(rs: seq<Region>, size: nat): (i: nat)
    ensures i <= |rs|
    ensures i < |rs| ==> rs[i].kind == MEM_FREE && rs[i].size >= size
    ensures forall k | 0 <= k < i :: !(rs[k].kind == MEM_FREE && rs[k].size >= size)
  {
    if rs == [] || (rs[0].kind == MEM_FREE && rs[0].size >= size) then 0 else 1 + FirstFit(rs[1..], size)
  }

  /** The end of region `i` becomes a used region of its own. */
  function Split(rs: seq<Region>, i: nat, size: nat): (ts: seq<Region>)
    requires i < |rs| && size < rs[i].size
    ensures |ts| == |rs| + 1
    ensures forall k | 0 <= k < |ts| ::
      ts[k] == (if k < i then rs[k]
                else if k == i then Region(rs[i].addr, rs[i].size - size, rs[i].kind)
                else if k == i + 1 then Region(rs[i].addr + rs[i].size - size, size, MEM_USED)
                else rs[k - 1])
  {
    rs[..i] + ([rs[i].(size := rs[i].size - size)]
               + ([Region(rs[i].addr + rs[i].size - size, size, MEM_USED)] + rs[i + 1..]))
  }

  /** mem_malloc on the list: an exact fit is taken over, a larger region gives
      up its end. The address 0 also stands for the null pointer. */
  function Allocated(rs: seq<Region>, size: nat): (seq<Region>, nat) {
    var i := FirstFit(rs, size);
    if i == |rs| then (rs, 0)
    else if rs[i].size == size then (rs[i := rs[i].(kind := MEM_USED)], rs[i].addr)
    else (Split(rs, i, size), rs[i].addr + rs[i].size - size)
  }

  /** First region that starts at `addr`, or the length of the list. */
  function FirstAt(rs: seq<Region>, addr: nat): (i: nat)
    ensures i <= |rs| && (i < |rs| ==> rs[i].addr == addr)
    ensures forall k | 0 <= k < i :: rs[k].addr != addr
  {
    if rs == [] || rs[0].addr == addr then 0 else 1 + FirstAt(rs[1..], addr)
  }

  /** mem_free on the list. */
  function Freed(rs: seq<Region>, addr: nat): seq<Region> {
    var i := FirstAt(rs, addr);
    if i == |rs| then rs else rs[i := rs[i].(kind := MEM_FREE)]
  }

  // ----- Partition ------------------------------------------------------------------

  predicate Apart(a: Region, b: Region) {
    a.addr + a.size <= b.addr || b.addr + b.size <= a.addr
  }

  /** Regions are non-empty and pairwise disjoint. */
  ghost predicate Partition(rs: seq<Region>) {
    && (forall i | 0 <= i < |rs| :: rs[i].size > 0)
    && (forall i, j | 0 <= i < j < |rs| :: Apart(rs[i], rs[j]))
  }

  predicate Contains(r: Region, x: nat) {
    r.addr <= x < r.addr + r.size
  }

  /** The byte belongs to some region of the list. */
  ghost predicate Managed(rs: seq<Region>, x: nat) {
    exists i :: 0 <= i < |rs| && Contains(rs[i], x)
  }

  function TotalSize(rs: seq<Region>): nat {
    if rs == [] then 0 else rs[0].size + TotalSize(rs[1..])
  }

  lemma {:induction false} TotalConcat(a: seq<Region>, b: seq<Region>)
    ensures TotalSize(a + b) == TotalSize(a) + TotalSize(b)
  {
    if a == [] {
      assert a + b == b;
    } else {
      assert (a + b)[1..] == a[1..] + b;
      TotalConcat(a[1..], b);
    }
  }

  lemma TotalUpdate(rs: seq<Region>, i: nat, r: Region)
    requires i < |rs| && r.size == rs[i].size
    ensures TotalSize(rs[i := r]) == TotalSize(rs)
  {
    assert rs == rs[..i] + ([rs[i]] + rs[i + 1..]);
    assert rs[i := r] == rs[..i] + ([r] + rs[i + 1..]);
    TotalConcat(rs[..i], [rs[i]] + rs[i + 1..]);
    TotalConcat(rs[..i], [r] + rs[i + 1..]);
    TotalCons(rs[i], rs[i + 1..]);
    TotalCons(r, rs[i + 1..]);
  }

  // ----- Runs -----------------------------------------------------------------------------

  /** The list, and the allocations the callers hold: address and size. */
  datatype Heap = Heap(rs: seq<Region>, live: map<nat, nat>)

  datatype Op = Malloc(size: nat) | Free(addr: nat)

  /** Callers ask for at least one byte and free only what they hold. */
  predicate Legal(h: Heap, op: Op) {
    match op
    case Malloc(size) => size > 0
    case Free(addr) => addr in h.live
  }

  function Step(h: Heap, op: Op): Heap {
    match op
    case Malloc(size) =>
      var (rs, addr) := Allocated(h.rs, size);
      Heap(rs, if FirstFit(h.rs, size) == |h.rs| then h.live else h.live[addr := size])
    case Free(addr) =>
      Heap(Freed(h.rs, addr), h.live - {addr})
  }

  /** The used regions are exactly the live allocations. */
  ghost predicate LiveOk(h: Heap) {
    && (forall i | 0 <= i < |h.rs| && h.rs[i].kind == MEM_USED :: h.rs[i].addr in h.live && h.live[h.rs[i].addr] == h.rs[i].size)
    && (forall a | a in h.live :: exists i :: 0 <= i < |h.rs| && h.rs[i] == Region(a, h.live[a], MEM_USED))
  }

  /** Regions of any other kind are the ones the memory map reserved. */
  ghost predicate ReservedOk(rs: seq<Region>, reserved: set<Region>) {
    && (forall i | 0 <= i < |rs| && rs[i].kind != MEM_FREE && rs[i].kind != MEM_USED :: rs[i] in reserved)
    && (forall r | r in reserved :: r.kind != MEM_FREE && r.kind != MEM_USED && r in rs)
  }

  ghost predicate Inv(h: Heap, start: seq<Region>, reserved: set<Region>) {
    && Partition(h.rs)
    && (forall x :: Managed(h.rs, x) <==> Managed(start, x))
    && TotalSize(h.rs) == TotalSize(start)
    && LiveOk(h)
    && ReservedOk(h.rs, reserved)
  }

  /** Different regions of a partition start at different addresses. */
  lemma StartsDiffer(rs: seq<Region>)
    requires Partition(rs)
    ensures forall i, j | 0 <= i < j < |rs| :: rs[i].addr != rs[j].addr
  {}

  /** Marking a region changes nothing about where the regions lie. */
  lemma MarkKeeps(rs: seq<Region>, i: nat, kind: int)
    requires Partition(rs) && i < |rs|
    ensures var ts := rs[i := rs[i].(kind := kind)];
      Partition(ts) && TotalSize(ts) == TotalSize(rs) && forall x :: Managed(ts, x) <==> Managed(rs, x)
  {
    var ts := rs[i := rs[i].(kind := kind)];
    TotalUpdate(rs, i, ts[i]);
    forall x
      ensures Managed(ts, x) <==> Managed(rs, x)
    {
      if Managed(ts, x) {
        var k :| 0 <= k < |ts| && Contains(ts[k], x);
        assert Contains(rs[k], x);
      }
      if Managed(rs, x) {
        var k :| 0 <= k < |rs| && Contains(rs[k], x);
        assert Contains(ts[k], x);
      }
    }
  }

  lemma SplitTotal(rs: seq<Region>, i: nat, size: nat)
    requires i < |rs| && size < rs[i].size
    ensures TotalSize(Split(rs, i, size)) == TotalSize(rs)
  {
    var front, back := rs[i].(size := rs[i].size - size), Region(rs[i].addr + rs[i].size - size, size, MEM_USED);
    CutAt(rs, i);
    SplitForm(rs, i, size);
    TwoParts(rs[..i], rs[i], front, back, rs[i + 1..]);
    hide Split, TotalSize;
  }

  lemma SplitForm(rs: seq<Region>, i: nat, size: nat)
    requires i < |rs| && size < rs[i].size
    ensures Split(rs, i, size) == rs[..i] + ([rs[i].(size := rs[i].size - size)]
                                             + ([Region(rs[i].addr + rs[i].size - size, size, MEM_USED)] + rs[i + 1..]))
  {}

  /** A region and the two it is cut into weigh the same between `a` and `b`. */
  lemma TwoParts(a: seq<Region>, r: Region, front: Region, back: Region, b: seq<Region>)
    requires front.size + back.size == r.size
    ensures TotalSize(a + ([front] + ([back] + b))) == TotalSize(a + ([r] + b))
  {
    hide TotalSize;
    TotalConcat(a, [front] + ([back] + b));
    TotalCons(front, [back] + b);
    TotalCons(back, b);
    TotalConcat(a, [r] + b);
    TotalCons(r, b);
  }

  lemma CutAt(rs: seq<Region>, i: nat)
    requires i < |rs|
    ensures rs == rs[..i] + ([rs[i]] + rs[i + 1..])
  {}

  lemma TotalCons(r: Region, rs: seq<Region>)
    ensures TotalSize([r] + rs) == r.size + TotalSize(rs)
  {
    assert ([r] + rs)[1..] == rs;
  }

  lemma SplitManages(rs: seq<Region>, i: nat, size: nat, x: nat)
    requires i < |rs| && size < rs[i].size
    ensures Managed(Split(rs, i, size), x) <==> Managed(rs, x)
  {
    var ts := Split(rs, i, size);
    hide Split;
    if Managed(ts, x) {
      var k :| 0 <= k < |ts| && Contains(ts[k], x);
      assert Contains(rs[if k <= i then k else k - 1], x);
    }
    if Managed(rs, x) {
      var k :| 0 <= k < |rs| && Contains(rs[k], x);
      assert Contains(ts[if k < i || (k == i && Contains(ts[i], x)) then k else k + 1], x);
    }
  }

  lemma SplitPartition(rs: seq<Region>, i: nat, size: nat)
    requires Partition(rs) && i < |rs| && 0 < size < rs[i].size
    ensures Partition(Split(rs, i, size))
  {
    var ts := Split(rs, i, size);
    hide Split;
    forall k, l | 0 <= k < l < |ts|
      ensures Apart(ts[k], ts[l])
    {
      var a, b := if k <= i then k else k - 1, if l <= i then l else l - 1;
      assert a != b ==> Apart(rs[a], rs[b]);
    }
  }

  /** An allocation, live or taken exactly: afterwards the list still partitions
      the same bytes, and what is used is what the callers hold. */
  lemma MallocKeeps(h: Heap, size: nat, start: seq<Region>, reserved: set<Region>)
    requires Inv(h, start, reserved) && size > 0
    ensures Inv(Step(h, Malloc(size)), start, reserved)
  {
    hide LiveOk, ReservedOk, Managed, TotalSize, Split;
    var i := FirstFit(h.rs, size);
    if i < |h.rs| {
      if h.rs[i].size == size {
        MarkKeeps(h.rs, i, MEM_USED);
        MarkLive(h, i, reserved);
      } else {
        SplitTotal(h.rs, i, size);
        SplitPartition(h.rs, i, size);
        forall x ensures Managed(Split(h.rs, i, size), x) <==> Managed(h.rs, x) {
          SplitManages(h.rs, i, size, x);
        }
        SplitLive(h, i, size);
        SplitReserved(h.rs, i, size, reserved);
      }
    }
  }

  lemma MarkLive(h: Heap, i: nat, reserved: set<Region>)
    requires Partition(h.rs) && LiveOk(h) && ReservedOk(h.rs, reserved) && i < |h.rs| && h.rs[i].kind == MEM_FREE
    ensures var ts := h.rs[i := h.rs[i].(kind := MEM_USED)];
      LiveOk(Heap(ts, h.live[h.rs[i].addr := h.rs[i].size])) && ReservedOk(ts, reserved)
  {
    var ts := h.rs[i := h.rs[i].(kind := MEM_USED)];
    var live := h.live[h.rs[i].addr := h.rs[i].size];
    StartsDiffer(h.rs);
    forall k | 0 <= k < |ts| && ts[k].kind == MEM_USED
      ensures ts[k].addr in live && live[ts[k].addr] == ts[k].size
    {
    }
    forall a | a in live
      ensures exists k :: 0 <= k < |ts| && ts[k] == Region(a, live[a], MEM_USED)
    {
      if a == h.rs[i].addr {
        assert ts[i] == Region(a, live[a], MEM_USED);
      } else {
        var k :| 0 <= k < |h.rs| && h.rs[k] == Region(a, h.live[a], MEM_USED);
        assert ts[k] == Region(a, live[a], MEM_USED);
      }
    }
    forall r | r in reserved
      ensures r in ts
    {
      var k :| 0 <= k < |h.rs| && h.rs[k] == r;
      assert ts[k] == r;
    }
  }

  lemma SplitLive(h: Heap, i: nat, size: nat)
    requires Partition(h.rs) && LiveOk(h)
    requires i < |h.rs| && h.rs[i].kind == MEM_FREE && 0 < size < h.rs[i].size
    ensures LiveOk(Heap(Split(h.rs, i, size), h.live[h.rs[i].addr + h.rs[i].size - size := size]))
  {
    var ts := Split(h.rs, i, size);
    var addr := h.rs[i].addr + h.rs[i].size - size;
    var live := h.live[addr := size];
    hide Split, Partition;
    SplitPartition(h.rs, i, size);
    StartsDiffer(ts);
    forall k | 0 <= k < |ts| && ts[k].kind == MEM_USED
      ensures ts[k].addr in live && live[ts[k].addr] == ts[k].size
    {
      if k != i + 1 {
        var j := if k < i then k else k - 1;
        assert ts[k] == h.rs[j];
        assert ts[k].addr != ts[i + 1].addr;
      }
    }
    forall a | a in live
      ensures exists k :: 0 <= k < |ts| && ts[k] == Region(a, live[a], MEM_USED)
    {
      if a == addr {
        assert ts[i + 1] == Region(a, live[a], MEM_USED);
      } else {
        var k := SplitFinds(h, i, size, a);
        assert ts[k] == Region(a, live[a], MEM_USED);
      }
    }
  }

  lemma SplitFinds(h: Heap, i: nat, size: nat, a: nat) returns (k: nat)
    requires LiveOk(h) && i < |h.rs| && h.rs[i].kind == MEM_FREE && size < h.rs[i].size && a in h.live
    ensures k < |h.rs| + 1 && Split(h.rs, i, size)[k] == Region(a, h.live[a], MEM_USED)
  {
    var j :| 0 <= j < |h.rs| && h.rs[j] == Region(a, h.live[a], MEM_USED);
    hide Split, LiveOk;
    k := if j < i then j else j + 1;
    assert Split(h.rs, i, size)[k] == h.rs[j];
  }

  lemma SplitReserved(rs: seq<Region>, i: nat, size: nat, reserved: set<Region>)
    requires ReservedOk(rs, reserved) && i < |rs| && rs[i].kind == MEM_FREE && size < rs[i].size
    ensures ReservedOk(Split(rs, i, size), reserved)
  {
    var ts := Split(rs, i, size);
    hide Split, Partition;
    forall r | r in reserved
      ensures r in ts
    {
      var k :| 0 <= k < |rs| && rs[k] == r;
      assert ts[if k < i then k else k + 1] == r;
    }
    forall k | 0 <= k < |ts| && ts[k].kind != MEM_FREE && ts[k].kind != MEM_USED
      ensures ts[k] in reserved
    {
      assert ts[k] == rs[if k < i then k else k - 1];
    }
  }

  lemma FreeKeeps(h: Heap, addr: nat, start: seq<Region>, reserved: set<Region>)
    requires Inv(h, start, reserved) && addr in h.live
    ensures Inv(Step(h, Free(addr)), start, reserved)
  {
    var j :| 0 <= j < |h.rs| && h.rs[j] == Region(addr, h.live[addr], MEM_USED);
    var i := FirstAt(h.rs, addr);
    StartsDiffer(h.rs);
    MarkKeeps(h.rs, i, MEM_FREE);
    FreeLive(h, i, reserved);
  }

  lemma FreeLive(h: Heap, i: nat, reserved: set<Region>)
    requires Partition(h.rs) && LiveOk(h) && ReservedOk(h.rs, reserved) && i < |h.rs| && h.rs[i].kind == MEM_USED
    ensures var ts := h.rs[i := h.rs[i].(kind := MEM_FREE)];
      LiveOk(Heap(ts, h.live - {h.rs[i].addr})) && ReservedOk(ts, reserved)
  {
    var ts := h.rs[i := h.rs[i].(kind := MEM_FREE)];
    var live := h.live - {h.rs[i].addr};
    StartsDiffer(h.rs);
    forall k | 0 <= k < |ts| && ts[k].kind == MEM_USED
      ensures ts[k].addr in live && live[ts[k].addr] == ts[k].size
    {
    }
    forall a | a in live
      ensures exists k :: 0 <= k < |ts| && ts[k] == Region(a, live[a], MEM_USED)
    {
      var k :| 0 <= k < |h.rs| && h.rs[k] == Region(a, h.live[a], MEM_USED);
      assert ts[k] == Region(a, live[a], MEM_USED);
    }
    forall r | r in reserved
      ensures r in ts
    {
      var k :| 0 <= k < |h.rs| && h.rs[k] == r;
      assert ts[k] == r;
    }
  }

  ghost predicate LegalRun(h: Heap, ops: seq<Op>)
    decreases |ops|
  {
    ops == [] || (Legal(h, ops[0]) && LegalRun(Step(h, ops[0]), ops[1..]))
  }

  ghost function After(h: Heap, ops: seq<Op>): Heap
    decreases |ops|
  {
    if ops == [] then h else After(Step(h, ops[0]), ops[1..])
  }

  /** Over any run of allocations and frees the list stays a partition of the
      bytes it started with, reserved regions stay as they were, and the used
      regions are exactly the allocations still held. */
  lemma {:induction false} RunKeeps(h: Heap, ops: seq<Op>, start: seq<Region>, reserved: set<Region>)
    requires Inv(h, start, reserved) && LegalRun(h, ops)
    ensures Inv(After(h, ops), start, reserved)
    decreases |ops|
  {
    hide Inv, Step;
    if ops != [] {
      match ops[0] {
        case Malloc(size) => MallocKeeps(h, size, start, reserved);
        case Free(addr) => FreeKeeps(h, addr, start, reserved);
      }
      RunKeeps(Step(h, ops[0]), ops[1..], start, reserved);
    }
  }

  /** Allocations held at the same time never overlap. */
  lemma LiveApart(h: Heap, a: nat, b: nat)
    requires Partition(h.rs) && LiveOk(h) && a in h.live && b in h.live && a != b
    ensures a + h.live[a] <= b || b + h.live[b] <= a
  {
    var i :| 0 <= i < |h.rs| && h.rs[i] == Region(a, h.live[a], MEM_USED);
    var j :| 0 <= j < |h.rs| && h.rs[j] == Region(b, h.live[b], MEM_USED);
    assert if i < j then Apart(h.rs[i], h.rs[j]) else Apart(h.rs[j], h.rs[i]);
  }

  /** The null pointer does not only mean that nothing fits: it is also the
      result when the first region that fits starts at 0 and fits exactly. */
  lemma NullMeans(rs: seq<Region>, size: nat)
    ensures Allocated(rs, size).1 == 0 <==>
      var i := FirstFit(rs, size);
      i == |rs| || (rs[i].size == size && rs[i].addr == 0)
  {}

  /** The memory below 640K, as one free region at 0, is given out whole: the
      caller gets the null pointer, and the region is used all the same. */
  lemma NullForExactFit()
    ensures var low := [Region(0, 0xA0000, MEM_FREE)];
      && Inv(Heap(low, map[]), low, {}) && Legal(Heap(low, map[]), Malloc(0xA0000))
      && Allocated(low, 0xA0000) == ([Region(0, 0xA0000, MEM_USED)], 0)
      && Step(Heap(low, map[]), Malloc(0xA0000)).live == map[0 := 0xA0000]
  {
    var low := [Region(0, 0xA0000, MEM_FREE)];
    assert FirstFit(low, 0xA0000) == 0;
    assert low[0 := Region(0, 0xA0000, MEM_USED)] == [Region(0, 0xA0000, MEM_USED)];
  }

  // ----- The table of blocks ------------------------------------------------------------

  /** struct mem_block_t; `next` is an index into the table, or -1. */
  datatype MemBlock = MemBlock(region: Region, next: int)

  /** The table index at a place in the list; -1 behind its end. */
  function IdAt(order: seq<nat>, k: nat): int {
    if k < |order| then order[k] else -1
  }

  /** Following the list from its head visits `order`, finds `regions`, and uses
      the entries below `n` once each. */
  ghost predicate ListedIn(table: seq<MemBlock>, order: seq<nat>, regions: seq<Region>, n: nat) {
    && n <= |table| && |order| == |regions| == n
    && (forall k | 0 <= k < |order| :: order[k] < n)
    && (forall k, l | 0 <= k < l < |order| :: order[k] != order[l])
    && (forall k {:trigger table[order[k]]} | 0 <= k < |order| :: table[order[k]] == MemBlock(regions[k], IdAt(order, k + 1)))
  }

  lemma FrontLinks(was: seq<MemBlock>, now: seq<MemBlock>, order: seq<nat>, regions: seq<Region>, n: nat, r: Region)
    requires ListedIn(was, order, regions, n) && n < |was|
    requires now == was[n := MemBlock(r, IdAt(order, 0))]
    ensures ListedIn(now, [n] + order, [r] + regions, n + 1)
  {
    var next := [n] + order;
    forall k | 0 <= k < |next|
      ensures now[next[k]] == MemBlock(([r] + regions)[k], IdAt(next, k + 1))
    {
      if k > 0 {
        assert was[order[k - 1]] == MemBlock(regions[k - 1], IdAt(order, k));
      }
    }
  }

  ghost function Inserted(s: seq<nat>, i: nat, x: nat): (r: seq<nat>)
    requires i < |s|
    ensures |r| == |s| + 1
    ensures forall k | 0 <= k < |r| :: r[k] == if k <= i then s[k] else if k == i + 1 then x else s[k - 1]
  {
    s[..i + 1] + [x] + s[i + 1..]
  }

  lemma InsertedDistinct(s: seq<nat>, i: nat, x: nat)
    requires i < |s| && (forall k | 0 <= k < |s| :: s[k] < x) && forall k, l | 0 <= k < l < |s| :: s[k] != s[l]
    ensures forall k, l | 0 <= k < l < |s| + 1 :: Inserted(s, i, x)[k] != Inserted(s, i, x)[l]
  {
    var r := Inserted(s, i, x);
    hide Inserted;
    forall k, l | 0 <= k < l < |r|
      ensures r[k] != r[l]
    {
      if k != i + 1 && l != i + 1 {
        assert s[if k <= i then k else k - 1] != s[if l <= i then l else l - 1];
      }
    }
  }

  /** The list after a split: the new entry follows the one that shrank. */
  lemma SplitLinks(was: seq<MemBlock>, now: seq<MemBlock>, order: seq<nat>, regions: seq<Region>, n: nat, i: nat, size: nat)
    requires ListedIn(was, order, regions, n) && n < |was| && i < n && size < regions[i].size
    requires now == was[n := MemBlock(Region(regions[i].addr + regions[i].size - size, size, MEM_USED), IdAt(order, i + 1))]
                       [order[i] := MemBlock(regions[i].(size := regions[i].size - size), n)]
    ensures ListedIn(now, Inserted(order, i, n), Split(regions, i, size), n + 1)
  {
    var next, rs := Inserted(order, i, n), Split(regions, i, size);
    InsertedDistinct(order, i, n);
    hide Inserted, Split;
    forall k | 0 <= k < |next|
      ensures now[next[k]] == MemBlock(rs[k], IdAt(next, k + 1))
    {
      if k != i && k != i + 1 {
        var q := if k < i then k else k - 1;
        assert was[order[q]] == MemBlock(regions[q], IdAt(order, q + 1));
        assert order[q] != order[i];
      }
    }
  }

  class Memory {
    const blocks: array<MemBlock>
    var head: int
    var memNr: nat
    // Table indices in list order, and the regions they hold.
    ghost var order: seq<nat>
    ghost var regions: seq<Region>

    /** The list visits the first memNr entries of the table once each. */
    ghost predicate Valid()
      reads this, blocks
    {
      && blocks.Length == NR_BLOCKS && memNr <= NR_BLOCKS
      && |order| == memNr && head == IdAt(order, 0)
      && ListedIn(blocks[..], order, regions, memNr)
    }

    constructor ()
      ensures Valid() && regions == [] && fresh(blocks)
    {
      blocks := new MemBlock[NR_BLOCKS](_ => MemBlock(Region(0, 0, 0), -1));
      head, memNr, order, regions := -1, 0, [], [];
    }

    /** One turn of mem_init's loop: an entry of the memory map goes to the front. */
    method AddRegion(r: Region)
      requires Valid() && memNr < NR_BLOCKS
      modifies this, blocks
      ensures Valid() && regions == [r] + old(regions) && memNr == old(memNr) + 1
    {
      ghost var table := blocks[..];
      blocks[memNr] := MemBlock(r, -1);
      if head == -1 {
        head := memNr;
      } else {
        blocks[memNr] := blocks[memNr].(next := head);
        head := memNr;
      }
      FrontLinks(table, blocks[..], order, regions, memNr, r);
      order := [memNr] + order;
      regions := [r] + regions;
      memNr := memNr + 1;
    }

    /** The search loop of mem_malloc, up to the first region that fits. */
    method Find(size: nat) returns (p: int, ghost i: nat)
      requires Valid()
      ensures p == IdAt(order, FirstFit(regions, size)) && i == FirstFit(regions, size)
    {
      p, i := head, 0;
      while p != -1
        invariant 0 <= i <= |order| && p == IdAt(order, i)
        invariant FirstFit(regions, size) == i + FirstFit(regions[i..], size)
        decreases |order| - i
      {
        assert blocks[..][order[i]] == MemBlock(regions[i], IdAt(order, i + 1));
        if blocks[p].region.kind == MEM_FREE && blocks[p].region.size >= size { return; }
        p := blocks[p].next;
        i := i + 1;
      }
    }

    /** mem_malloc, in all branches but the one for a split that finds no room
        left in the table. */
    method Malloc(size: nat) returns (addr: nat)
      requires Valid()
      requires memNr < NR_BLOCKS - 1
        || (var i := FirstFit(regions, size); i == |regions| || regions[i].size == size)
      modifies this, blocks
      ensures Valid() && (regions, addr) == Allocated(old(regions), size)
    {
      var p, i := Find(size);
      if p == -1 { return 0; }
      assert blocks[..][order[i]] == MemBlock(regions[i], IdAt(order, i + 1));
      hide Split, FirstFit;
      if blocks[p].region.size == size {
        Mark(p, i, MEM_USED);
        return blocks[p].region.addr;
      }
      addr := SplitOff(p, i, size);
    }

    /** p->type = kind. */
    method Mark(p: nat, ghost i: nat, kind: int)
      requires Valid() && i < |order| && p == order[i]
      modifies this`regions, blocks
      ensures Valid() && regions == old(regions)[i := old(regions)[i].(kind := kind)]
      ensures blocks[p].region == regions[i]
    {
      ghost var table := blocks[..];
      assert table[order[i]] == MemBlock(regions[i], IdAt(order, i + 1));
      blocks[p] := blocks[p].(region := blocks[p].region.(kind := kind));
      regions := regions[i := regions[i].(kind := kind)];
    }

    /** Lines 85-92: the end of a larger region goes into a new table entry. */
    method SplitOff(p: nat, ghost i: nat, size: nat) returns (addr: nat)
      requires Valid() && memNr < NR_BLOCKS && i < |order| && p == order[i] && size < blocks[p].region.size
      modifies this, blocks
      ensures Valid() && size < old(regions)[i].size && regions == Split(old(regions), i, size)
      ensures addr == old(regions)[i].addr + old(regions)[i].size - size
    {
      ghost var table := blocks[..];
      assert table[order[i]] == MemBlock(regions[i], IdAt(order, i + 1));
      var r := blocks[p].region;
      blocks[memNr] := MemBlock(Region(r.addr + r.size - size, size, MEM_USED), blocks[p].next);
      blocks[p] := MemBlock(r.(size := r.size - size), memNr);
      addr := blocks[memNr].region.addr;
      SplitLinks(table, blocks[..], order, regions, memNr, i, size);
      hide Split, ListedIn;
      order := Inserted(order, i, memNr);
      regions := Split(regions, i, size);
      memNr := memNr + 1;
    }

    /** mem_free: the first region at the address becomes free, if there is one. */
    method Free(addr: nat)
      requires Valid()
      modifies this`regions, blocks
      ensures Valid() && regions == Freed(old(regions), addr)
    {
      var p, i := Locate(addr);
      if p != -1 {
        Mark(p, i, MEM_FREE);
      }
    }

    /** The search loop of mem_free and mem_get_size. */
    method Locate(addr: nat) returns (p: int, ghost i: nat)
      requires Valid()
      ensures p == IdAt(order, FirstAt(regions, addr)) && i == FirstAt(regions, addr)
    {
      p, i := head, 0;
      while p != -1
        invariant 0 <= i <= |order| && p == IdAt(order, i)
        invariant FirstAt(regions, addr) == i + FirstAt(regions[i..], addr)
        decreases |order| - i
      {
        assert blocks[..][order[i]] == MemBlock(regions[i], IdAt(order, i + 1));
        if blocks[p].region.addr == addr { return; }
        p := blocks[p].next;
        i := i + 1;
      }
    }

    /** mem_get_size; not found is where the function falls off its end. */
    method GetSize(addr: nat) returns (found: bool, size: nat)
      requires Valid()
      ensures var i := FirstAt(regions, addr);
        found == (i < |regions|) && (found ==> size == regions[i].size)
    {
      var p, i := Locate(addr);
      if p == -1 { return false, 0; }
      assert blocks[..][order[i]] == MemBlock(regions[i], IdAt(order, i + 1));
      return true, blocks[p].region.size;
    }
  }
}
