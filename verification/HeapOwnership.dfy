/** Who owns which block: the live extents agree with the bitmap, the two counters and the
    table of big extents, over every run of kmallac and kfree. */
module HeapOwnership {
  import opened Bits
  import opened Frames
  import opened HeapState

  /** The extents handed out and not yet freed: first block to number of blocks. */
  type Live = map<nat, nat>

  ghost function Cover(live: Live): (r: set<nat>)
    ensures forall b :: b in r <==> exists s :: s in live && b in Span(s, live[s])
  {
    set s, b | s in live && b in Span(s, live[s]) :: b
  }

  ghost predicate Disjoint(live: Live) {
    forall s, t :: s in live && t in live && s < t ==> s + live[s] <= t
  }

  ghost predicate Within(live: Live, reserved: nat, size: nat) {
    forall s :: s in live ==> live[s] >= 1 && reserved <= s && s + live[s] <= size
  }

  /** The table holds exactly the live extents of two blocks or more, each once. */
  ghost predicate Recorded(table: seq<Extent>, live: Live) {
    Entries(table, live) && Once(table) && Listed(table, live)
  }

  /** Empty slots are empty, and the others name live extents of two blocks or more. */
  ghost predicate Entries(table: seq<Extent>, live: Live) {
    && (forall i :: 0 <= i < |table| && table[i].start == 0 ==> table[i].blocks == 0)
    && (forall i :: 0 <= i < |table| && table[i].start != 0 ==>
          && table[i].start % 4096 == 0 && table[i].start / 4096 in live
          && live[table[i].start / 4096] == table[i].blocks >= 2)
  }

  ghost predicate Once(table: seq<Extent>) {
    forall i, j :: 0 <= i < j < |table| && table[i].start != 0 ==> table[i].start != table[j].start
  }

  ghost predicate Listed(table: seq<Extent>, live: Live) {
    forall s: nat {:trigger Big(live, s)} :: Big(live, s) ==>
      s >= 1 && exists i :: 0 <= i < |table| && table[i].start == s * 4096
  }

  ghost predicate Big(live: Live, s: nat) {
    s in live && live[s] >= 2
  }

  /** The taken blocks are the reserved prefix plus the live extents, all apart. */
  ghost predicate Layout(taken: set<nat>, live: Live, reserved: nat, size: nat) {
    && (forall b: nat :: b in taken <==> b < reserved || b in Cover(live))
    && Disjoint(live)
    && Within(live, reserved, size)
  }

  /** The bitmap is laid out so, and the counters agree. */
  ghost predicate Books(f: Frames, live: Live, reserved: nat) {
    && 1 <= reserved <= f.size
    && Accounted(f)
    && Layout(f.taken, live, reserved, f.size)
  }

  ghost predicate Owned(h: Heap, live: Live, reserved: nat) {
    Books(h.frames, live, reserved) && Recorded(h.table, live)
  }

  ghost function Grant(live: Live, addr: u32, size: u32): Live {
    if addr == 0 then live else live[addr / 4096 := BlocksFor(size)]
  }

  ghost function Return(live: Live, addr: u32): Live {
    if addr % 4096 == 0 then live - {addr / 4096} else live
  }

  /** Whether a kmallac keeps the books, told from the state before it: a big request needs a
      run of free blocks and an empty slot; failing that, it marks blocks 0 .. n-1, which must
      have been taken already. */
  ghost predicate MallocSafe(h: Heap, size: u32) {
    size <= 4096 ||
    if exists s :: s >= 1 && Fits(h.frames.taken, s, BlocksFor(size), h.frames.size)
    then Slot(h.table, 0, 0) < |h.table|
    else Span(0, BlocksFor(size)) <= h.frames.taken
  }

  /** Whether a kfree keeps the books: the address is not block-aligned (ignored), is the start
      of a live extent, or is null while a slot is empty (null then names that slot). */
  ghost predicate FreeSafe(h: Heap, live: Live, addr: u32) {
    addr % 4096 != 0 || addr / 4096 in live || (addr == 0 && Slot(h.table, 0, 0) < |h.table|)
  }

  lemma CoverGrant(live: Live, s: nat, n: nat)
    requires s !in live
    ensures Cover(live[s := n]) == Cover(live) + Span(s, n)
  {
    var g := live[s := n];
    forall b | b in Cover(live) + Span(s, n) ensures b in Cover(g) {
      if b in Cover(live) {
        var t :| t in live && b in Span(t, live[t]);
        assert t in g && b in Span(t, g[t]);
      } else {
        assert s in g && b in Span(s, g[s]);
      }
    }
  }

  lemma CoverReturn(live: Live, s: nat)
    requires s in live && Disjoint(live)
    ensures Cover(live - {s}) == Cover(live) - Span(s, live[s])
  {
    var g := live - {s};
    forall b | b in Cover(live) - Span(s, live[s]) ensures b in Cover(g) {
      var t :| t in live && b in Span(t, live[t]);
      assert t in g && b in Span(t, g[t]);
    }
  }

  /** An extent granted outside everything taken leaves the live extents apart. */
  lemma LayoutGrant(taken: set<nat>, live: Live, reserved: nat, size: nat, s: nat, n: nat)
    requires Layout(taken, live, reserved, size) && reserved >= 1
    requires n >= 1 && s + n <= size && Span(s, n) !! taken
    ensures s !in live && s >= 1 && Layout(taken + Span(s, n), live[s := n], reserved, size)
  {
    assert s in Span(s, n) && s !in Span(0, reserved);
    assert forall t :: t in live ==> t in Span(t, live[t]);
    CoverGrant(live, s, n);
    forall t | t in live ensures t + live[t] <= s || s + n <= t {
      var b := if s <= t then t else s;
      assert b in Span(t, live[t]) ==> b in Cover(live);
    }
  }

  lemma LayoutReturn(taken: set<nat>, live: Live, reserved: nat, size: nat, s: nat)
    requires Layout(taken, live, reserved, size) && s in live
    ensures Span(s, live[s]) <= taken
    ensures Layout(taken - Span(s, live[s]), live - {s}, reserved, size)
  {
    CoverReturn(live, s);
    assert Span(s, live[s]) <= Cover(live);
    assert Span(s, live[s]) !! Span(0, reserved);
  }

  lemma ReleaseAccounted(f: Frames, blocks: set<nat>)
    requires Accounted(f) && blocks <= f.taken
    ensures Accounted(f.(taken := f.taken - blocks, used := Wrap(f.used - |blocks|), free := Wrap(f.free + |blocks|)))
  {
    var rest := f.taken - blocks;
    assert f.taken == rest + blocks;
    assert |f.taken| == |rest| + |blocks|;
  }

  lemma BooksReturn(f: Frames, live: Live, reserved: nat, s: nat)
    requires Books(f, live, reserved) && s in live
    ensures var n := live[s];
            var g := f.(taken := f.taken - Span(s, n), used := Wrap(f.used - n), free := Wrap(f.free + n));
            Books(g, live - {s}, reserved)
  {
    LayoutReturn(f.taken, live, reserved, f.size, s);
    ReleaseAccounted(f, Span(s, live[s]));
    SpanSize(s, live[s]);
  }

  lemma InsertRecords(table: seq<Extent>, live: Live, s: nat, n: nat)
    requires Recorded(table, live) && s !in live && 1 <= s && s * 4096 < 0x1_0000_0000 && 2 <= n < 0x1_0000_0000
    requires Slot(table, 0, 0) < |table|
    ensures Recorded(Insert(table, Extent(s * 4096, n)), live[s := n])
  {
    InsertEntries(table, live, s, n);
    hide Entries, Once;
    var k := Slot(table, 0, 0);
    var t := Insert(table, Extent(s * 4096, n));
    var g := live[s := n];
    forall x: nat | Big(g, x) ensures x >= 1 && exists i :: 0 <= i < |t| && t[i].start == x * 4096 {
      if x == s {
        assert t[k].start == x * 4096;
      } else {
        assert Big(live, x);
        var i :| 0 <= i < |table| && table[i].start == x * 4096;
        assert t[i] == table[i];
      }
    }
  }

  lemma InsertEntries(table: seq<Extent>, live: Live, s: nat, n: nat)
    requires Entries(table, live) && Once(table) && s !in live && 1 <= s
    requires s * 4096 < 0x1_0000_0000 && 2 <= n < 0x1_0000_0000 && Slot(table, 0, 0) < |table|
    ensures Entries(Insert(table, Extent(s * 4096, n)), live[s := n]) && Once(Insert(table, Extent(s * 4096, n)))
  {
    var a: u32 := s * 4096;
    assert a % 4096 == 0 && a / 4096 == s;
    forall i | 0 <= i < |table| && table[i].start != 0 ensures table[i].start / 4096 in live && table[i].start != a {}
  }

  lemma LostRecord(table: seq<Extent>, live: Live, s: nat, n: nat)
    requires Recorded(table, live) && s !in live && 1 <= s && s * 4096 < 0x1_0000_0000 && n >= 2
    ensures !Recorded(table, live[s := n])
  {
    var g := live[s := n];
    assert Big(g, s);
    forall i | 0 <= i < |table| ensures table[i].start != s * 4096 {
      assert table[i].start != 0 ==> table[i].start / 4096 in live;
    }
  }

  lemma InsertRecordsExactly(table: seq<Extent>, live: Live, s: nat, n: nat)
    requires Recorded(table, live) && s !in live && 1 <= s && s * 4096 < 0x1_0000_0000 && 2 <= n < 0x1_0000_0000
    ensures Recorded(Insert(table, Extent(s * 4096, n)), live[s := n]) <==> Slot(table, 0, 0) < |table|
  {
    if Slot(table, 0, 0) < |table| {
      InsertRecords(table, live, s, n);
    } else {
      LostRecord(table, live, s, n);
    }
  }

  lemma SmallRecords(table: seq<Extent>, live: Live, s: nat)
    requires Recorded(table, live) && s !in live
    ensures Recorded(table, live[s := 1])
  {
    var g := live[s := 1];
    forall x: nat | Big(g, x) ensures x >= 1 && exists i :: 0 <= i < |table| && table[i].start == x * 4096 {
      assert Big(live, x);
    }
  }

  /** What a kmallac leaves behind is consistent exactly when MallocSafe held before it. */
  lemma {:induction false} MallocKeepsExactly(h: Heap, live: Live, reserved: nat, size: u32)
    requires Owned(h, live, reserved)
    ensures var (g, a) := Malloc(h, size);
            Owned(g, Grant(live, a, size), reserved) <==> MallocSafe(h, size)
    ensures var (g, a) := Malloc(h, size);
            a != 0 ==> a % 4096 == 0 && a / 4096 !in live && Span(a / 4096, BlocksFor(size)) !! h.frames.taken
  {
    assert 0 in Span(0, reserved);
    if size <= 4096 {
      SmallMallocKeeps(h, live, reserved, size);
    } else {
      BigMallocKeepsExactly(h, live, reserved, size);
    }
  }

  lemma SmallMallocKeeps(h: Heap, live: Live, reserved: nat, size: u32)
    requires Owned(h, live, reserved) && size <= 4096 && 0 in h.frames.taken
    ensures var (g, a) := Malloc(h, size);
            && Owned(g, Grant(live, a, size), reserved)
            && (a != 0 ==> a % 4096 == 0 && a / 4096 !in live && Span(a / 4096, 1) !! h.frames.taken)
  {
    var (f, a) := AllocOne(h.frames);
    AllocOneTakesLowest(h.frames);
    if a != 0 {
      var s := a / 4096;
      assert Span(s, 1) == {s};
      LayoutGrant(h.frames.taken, live, reserved, f.size, s, 1);
      SmallRecords(h.table, live, s);
    }
  }

  lemma BigMallocKeepsExactly(h: Heap, live: Live, reserved: nat, size: u32)
    requires Owned(h, live, reserved) && size > 4096
    ensures var (g, a) := Malloc(h, size);
            && (Owned(g, Grant(live, a, size), reserved) <==> MallocSafe(h, size))
            && (a != 0 ==> a % 4096 == 0 && a / 4096 !in live && Span(a / 4096, BlocksFor(size)) !! h.frames.taken)
  {
    hide Books, Recorded, FirstFit, Insert, Slot;
    var n := BlocksFor(size);
    AllocManyTakesLowest(h.frames, n) by { BooksAccounted(h.frames, live, reserved); }
    if AllocMany(h.frames, n).1 == 0 {
      FailedBooksExactly(h.frames, live, reserved, n);
    } else {
      var s := AllocMany(h.frames, n).1 / 4096;
      BooksGrantMany(h.frames, live, reserved, n);
      InsertRecordsExactly(h.table, live, s, n);
    }
  }

  lemma BooksAccounted(f: Frames, live: Live, reserved: nat)
    requires Books(f, live, reserved)
    ensures Accounted(f)
  {
  }

  lemma FailedBooksExactly(f: Frames, live: Live, reserved: nat, n: nat)
    requires Books(f, live, reserved) && AllocMany(f, n).1 == 0
    ensures Books(AllocMany(f, n).0, live, reserved) <==> Span(0, n) <= f.taken
  {
    hide Layout;
    FailedManyHarmlessExactly(f, n);
  }

  lemma BooksGrantMany(f: Frames, live: Live, reserved: nat, n: nat)
    requires Books(f, live, reserved) && n >= 1 && AllocMany(f, n).1 != 0
    ensures var (g, a) := AllocMany(f, n);
            && a % 4096 == 0 && a / 4096 >= 1 && a / 4096 !in live && Span(a / 4096, n) !! f.taken
            && Books(g, live[a / 4096 := n], reserved)
  {
    AllocManyTakesLowest(f, n);
    var s := AllocMany(f, n).1 / 4096;
    assert Fits(f.taken, s, n, f.size);
    LayoutGrant(f.taken, live, reserved, f.size, s, n);
  }

  lemma RemoveRecord(table: seq<Extent>, live: Live, s: nat, k: nat)
    requires Recorded(table, live) && s in live && k < |table| && table[k].start == s * 4096 && s >= 1
    ensures live[s] == table[k].blocks
    ensures Recorded(table[k := Extent(0, 0)], live - {s})
  {
    var t := table[k := Extent(0, 0)];
    var g := live - {s};
    forall x: nat | Big(g, x) ensures x >= 1 && exists i :: 0 <= i < |t| && t[i].start == x * 4096 {
      assert Big(live, x);
      var i :| 0 <= i < |table| && table[i].start == x * 4096;
      assert i != k;
      assert t[i].start == x * 4096;
    }
  }

  lemma KeepRecord(table: seq<Extent>, live: Live, s: nat)
    requires Recorded(table, live) && s in live
    requires forall i :: 0 <= i < |table| ==> table[i].start != s * 4096
    ensures live[s] < 2 && Recorded(table, live - {s})
  {
    assert !Big(live, s);
    var g := live - {s};
    forall x: nat | Big(g, x) ensures x >= 1 && exists i :: 0 <= i < |table| && table[i].start == x * 4096 {
      assert Big(live, x);
    }
  }

  /** The table knows the size of every live extent, by an entry or, for one block, by none. */
  lemma TableKnows(table: seq<Extent>, live: Live, addr: u32)
    requires Recorded(table, live) && addr % 4096 == 0 && addr >= 4096 && addr / 4096 in live
    requires live[addr / 4096] >= 1
    ensures var k := Slot(table, addr, 0);
            && live[addr / 4096] == (if k == |table| then 1 else table[k].blocks)
            && Recorded(if k == |table| then table else table[k := Extent(0, 0)], live - {addr / 4096})
  {
    var s := addr / 4096;
    var k := Slot(table, addr, 0);
    if k == |table| { KeepRecord(table, live, s); } else { RemoveRecord(table, live, s, k); }
  }

  lemma FreeReleases(h: Heap, addr: u32, n: nat)
    requires addr % 4096 == 0
    requires var k := Slot(h.table, addr, 0); n == if k == |h.table| then 1 else h.table[k].blocks
    ensures Free(h, addr).frames ==
            h.frames.(taken := h.frames.taken - Span(addr / 4096, n), used := Wrap(h.frames.used - n),
              free := Wrap(h.frames.free + n))
  {
    FreeSpanIs(h.frames, addr / 4096, n);
    if Slot(h.table, addr, 0) == |h.table| {
      assert FreeSpan(h.frames, addr / 4096, 1) == FreeOne(h.frames, addr / 4096);
    }
  }

  /** Freeing a live extent releases exactly its blocks. */
  lemma FreeLive(h: Heap, live: Live, reserved: nat, addr: u32)
    requires Owned(h, live, reserved) && addr % 4096 == 0 && addr / 4096 in live
    ensures Owned(Free(h, addr), live - {addr / 4096}, reserved)
    ensures Free(h, addr).frames.taken == h.frames.taken - Span(addr / 4096, live[addr / 4096])
  {
    var s := addr / 4096;
    BooksReturn(h.frames, live, reserved, s);
    TableKnows(h.table, live, addr);
    FreeReleases(h, addr, live[s]);
  }

  lemma StrayFreeBreaks(f: Frames, live: Live, reserved: nat, b: nat)
    requires Books(f, live, reserved)
    ensures !Books(FreeOne(f, b), live, reserved)
  {
    var g := FreeOne(f, b);
    if b !in f.taken {
      assert g.taken == f.taken;
    }
  }

  /** What a kfree leaves behind is consistent exactly when FreeSafe held before it. */
  lemma {:induction false} FreeKeepsExactly(h: Heap, live: Live, reserved: nat, addr: u32)
    requires Owned(h, live, reserved)
    ensures Owned(Free(h, addr), Return(live, addr), reserved) <==> FreeSafe(h, live, addr)
  {
    if addr % 4096 == 0 {
      var s := addr / 4096;
      if s in live {
        FreeLive(h, live, reserved, addr);
      } else {
        assert live - {s} == live;
        var k := Slot(h.table, addr, 0);
        if k == |h.table| {
          StrayFreeBreaks(h.frames, live, reserved, s);
        } else {
          assert addr == 0;
          assert h.table[k := Extent(0, 0)] == h.table;
        }
      }
    }
  }
}
