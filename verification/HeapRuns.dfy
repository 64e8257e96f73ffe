/** Runs of kmallac and kfree. */
module HeapRuns {
  import opened Bits
  import opened Frames
  import opened HeapState
  import opened HeapOwnership

  datatype Event = Kmallac(size: u32) | Kfree(addr: u32)

  datatype Owner = Owner(heap: Heap, live: Live)

  ghost function Step(o: Owner, e: Event): Owner {
    match e
    case Kmallac(size) => var (g, a) := Malloc(o.heap, size); Owner(g, Grant(o.live, a, size))
    case Kfree(addr) => Owner(Free(o.heap, addr), Return(o.live, addr))
  }

  ghost function Run(o: Owner, events: seq<Event>): Owner
    decreases |events|
  {
    if events == [] then o else Run(Step(o, events[0]), events[1..])
  }

  ghost predicate Safe(o: Owner, e: Event) {
    match e
    case Kmallac(size) => MallocSafe(o.heap, size)
    case Kfree(addr) => FreeSafe(o.heap, o.live, addr)
  }

  /** Every event of the run meets its guard in the state it finds. */
  ghost predicate AllSafe(o: Owner, events: seq<Event>)
    decreases |events|
  {
    events == [] || (Safe(o, events[0]) && AllSafe(Step(o, events[0]), events[1..]))
  }

  /** The ownership invariant holds in every state of the run. */
  ghost predicate OwnedThroughout(o: Owner, events: seq<Event>, reserved: nat)
    decreases |events|
  {
    && Owned(o.heap, o.live, reserved)
    && (events == [] || OwnedThroughout(Step(o, events[0]), events[1..], reserved))
  }

  /** A heap nobody has asked anything of: what pmm_init and a zeroed table leave. */
  ghost function Untouched(size: BlockCount, reserved: nat, slots: nat): Heap
    requires reserved <= size
  {
    Heap(Frames(Span(0, reserved), reserved, size - reserved, size), seq(slots, _ => Extent(0, 0)))
  }

  lemma StepKeepsExactly(o: Owner, e: Event, reserved: nat)
    requires Owned(o.heap, o.live, reserved)
    ensures var p := Step(o, e);
            && (Owned(p.heap, p.live, reserved) <==> Safe(o, e))
            && p.heap.frames.size == o.heap.frames.size && |p.heap.table| == |o.heap.table|
  {
    match e
    case Kmallac(size) => MallocKeepsExactly(o.heap, o.live, reserved, size);
    case Kfree(addr) =>
      FreeKeepsExactly(o.heap, o.live, reserved, addr);
      FreeKeepsShape(o.heap, addr);
  }

  lemma FreeKeepsShape(h: Heap, addr: u32)
    ensures Free(h, addr).frames.size == h.frames.size && |Free(h, addr).table| == |h.table|
  {
    var i := Slot(h.table, addr, 0);
    if i < |h.table| { FreeSpanIs(h.frames, addr / 4096, h.table[i].blocks); }
  }

  /** Over every run, live extents, bitmap, counters and table stay in agreement exactly when
      each event met its guard. */
  lemma {:induction false} RunKeepsExactly(o: Owner, events: seq<Event>, reserved: nat)
    requires Owned(o.heap, o.live, reserved)
    ensures OwnedThroughout(o, events, reserved) <==> AllSafe(o, events)
    ensures AllSafe(o, events) ==>
              var p := Run(o, events);
              && Owned(p.heap, p.live, reserved)
              && p.heap.frames.size == o.heap.frames.size && |p.heap.table| == |o.heap.table|
    decreases |events|
  {
    if events != [] {
      StepKeepsExactly(o, events[0], reserved);
      var p := Step(o, events[0]);
      if Owned(p.heap, p.live, reserved) {
        RunKeepsExactly(p, events[1..], reserved);
      }
    }
  }

  /** No live extents: the heap is the untouched one, to the last slot and counter. */
  lemma {:induction false} OwnedByNobody(h: Heap, reserved: nat)
    requires 1 <= reserved <= h.frames.size
    ensures Owned(h, map[], reserved) <==> h == Untouched(h.frames.size, reserved, |h.table|)
  {
    var u := Untouched(h.frames.size, reserved, |h.table|);
    SpanSize(0, reserved);
    if Owned(h, map[], reserved) {
      assert h.frames.taken == u.frames.taken;
      assert forall i :: 0 <= i < |h.table| ==> h.table[i] == u.table[i];
    }
    if h == u {
      assert forall s: nat :: !Big(map[], s);
    }
  }

  /** However mallocs and frees are interleaved, once nothing is live the bitmap, both counters
      and the table are as they were before the first request. */
  lemma {:induction false} FreedRunRestores(size: BlockCount, reserved: nat, slots: nat, events: seq<Event>)
    requires 1 <= reserved <= size
    requires var o := Owner(Untouched(size, reserved, slots), map[]);
             AllSafe(o, events) && Run(o, events).live == map[]
    ensures Run(Owner(Untouched(size, reserved, slots), map[]), events).heap == Untouched(size, reserved, slots)
  {
    var h := Untouched(size, reserved, slots);
    OwnedByNobody(h, reserved);
    RunKeepsExactly(Owner(h, map[]), events, reserved);
    OwnedByNobody(Run(Owner(h, map[]), events).heap, reserved);
  }

  ghost function FreeEach(order: seq<nat>): (events: seq<Event>)
    requires forall i :: 0 <= i < |order| ==> order[i] < 0x10_0000
    ensures |events| == |order|
  {
    if order == [] then [] else [Kfree(order[0] * 4096)] + FreeEach(order[1..])
  }

  /** Freeing what is live, in any order, is safe and leaves the untouched heap. */
  lemma {:induction false} FreeAllInAnyOrder(h: Heap, live: Live, reserved: nat, order: seq<nat>)
    requires Owned(h, live, reserved)
    requires forall s :: s in order <==> s in live
    requires forall i, j :: 0 <= i < j < |order| ==> order[i] != order[j]
    ensures forall i :: 0 <= i < |order| ==> order[i] < 0x10_0000
    ensures AllSafe(Owner(h, live), FreeEach(order))
    ensures Run(Owner(h, live), FreeEach(order)) == Owner(Untouched(h.frames.size, reserved, |h.table|), map[])
    decreases |order|
  {
    assert forall i :: 0 <= i < |order| ==> order[i] in live;
    if order == [] {
      assert live == map[];
      OwnedByNobody(h, reserved);
    } else {
      var s, rest := order[0], order[1..];
      var p := FreeFirst(h, live, reserved, s);
      assert FreeEach(order)[0] == Kfree(s * 4096) && FreeEach(order)[1..] == FreeEach(rest);
      RestIsLive(live, order);
      FreeAllInAnyOrder(p.heap, p.live, reserved, rest);
    }
  }

  lemma FreeFirst(h: Heap, live: Live, reserved: nat, s: nat) returns (p: Owner)
    requires Owned(h, live, reserved) && s in live
    ensures s < 0x10_0000 && Safe(Owner(h, live), Kfree(s * 4096)) && p == Step(Owner(h, live), Kfree(s * 4096))
    ensures Owned(p.heap, p.live, reserved) && p.live == live - {s}
    ensures p.heap.frames.size == h.frames.size && |p.heap.table| == |h.table|
  {
    var addr := s * 4096;
    FreeLive(h, live, reserved, addr);
    FreeKeepsShape(h, addr);
    p := Owner(Free(h, addr), live - {s});
  }

  lemma RestIsLive(live: Live, order: seq<nat>)
    requires order != [] && forall s :: s in order <==> s in live
    requires forall i, j :: 0 <= i < j < |order| ==> order[i] != order[j]
    ensures forall s :: s in order[1..] <==> s in live - {order[0]}
  {
    forall s | s in live - {order[0]} ensures s in order[1..] {
      assert s in order;
      var i :| 0 <= i < |order| && order[i] == s;
      assert order[1..][i - 1] == s;
    }
  }

  /** A successful kmallac undone by its kfree: nothing at all has changed. */
  lemma {:induction false} MallocThenFree(h: Heap, live: Live, reserved: nat, size: u32)
    requires Owned(h, live, reserved) && MallocSafe(h, size) && Malloc(h, size).1 != 0
    ensures var (g, a) := Malloc(h, size); Free(g, a) == h
  {
    assert 0 in h.frames.taken;
    assert Malloc(h, size).1 / 4096 !in live by { MallocKeepsExactly(h, live, reserved, size); }
    if size <= 4096 {
      SmallMallocThenFree(h.frames, h.table, live, size);
    } else {
      AllocManyTakesLowest(h.frames, BlocksFor(size));
      BigMallocThenFree(h.frames, h.table, live, size);
    }
  }

  lemma SmallMallocThenFree(f: Frames, table: seq<Extent>, live: Live, size: u32)
    requires Accounted(f) && 0 in f.taken && Recorded(table, live)
    requires size <= 4096 && AllocOne(f).1 != 0 && AllocOne(f).1 / 4096 !in live
    ensures var (g, a) := Malloc(Heap(f, table), size); Free(g, a) == Heap(f, table)
  {
    var (g, a) := Malloc(Heap(f, table), size);
    AllocOneTakesLowest(f);
    assert forall i :: 0 <= i < |table| && table[i].start != 0 ==> table[i].start / 4096 in live;
    assert Slot(table, a, 0) == |table|;
    assert Free(g, a).frames.taken == f.taken;
  }

  lemma BigMallocThenFree(f: Frames, table: seq<Extent>, live: Live, size: u32)
    requires Accounted(f) && Recorded(table, live) && Slot(table, 0, 0) < |table|
    requires size > 4096 && AllocMany(f, BlocksFor(size)).1 != 0 && AllocMany(f, BlocksFor(size)).1 / 4096 !in live
    ensures var (g, a) := Malloc(Heap(f, table), size); Free(g, a) == Heap(f, table)
  {
    var n := BlocksFor(size);
    var a := AllocMany(f, n).1;
    ManyThenFree(f, n);
    assert forall i :: 0 <= i < |table| && table[i].start != 0 ==> table[i].start / 4096 in live;
    InsertThenClear(table, a, n);
  }

  lemma ManyThenFree(f: Frames, n: nat)
    requires Accounted(f) && AllocMany(f, n).1 != 0
    ensures var (g, a) := AllocMany(f, n); a % 4096 == 0 && FreeSpan(g, a / 4096, n) == f
  {
    var (g, a) := AllocMany(f, n);
    AllocManyTakesLowest(f, n);
    FreeSpanIs(g, a / 4096, n);
    assert f.taken + Span(a / 4096, n) - Span(a / 4096, n) == f.taken;
  }

  lemma InsertThenClear(table: seq<Extent>, a: u32, n: u32)
    requires Slot(table, 0, 0) < |table| && table[Slot(table, 0, 0)] == Extent(0, 0)
    requires a != 0 && forall i :: 0 <= i < |table| ==> table[i].start != a
    ensures var t := Insert(table, Extent(a, n));
            var k := Slot(t, a, 0);
            k < |t| && t[k].blocks == n && t[k := Extent(0, 0)] == table
  {
    var k := Slot(table, 0, 0);
    var t := Insert(table, Extent(a, n));
    assert t[k].start == a;
    assert t[k := Extent(0, 0)] == table;
  }
}
