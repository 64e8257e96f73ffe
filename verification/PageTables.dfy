/** Two-level page tables as they lie in memory, and the flat map of 2^20 pages they stand for.
    Blocks, tables and pages are numbered: page p starts at virtual address 4096 * p. */
module PageTables {
  import opened Bits
  import opened Memory

  /** The block of the i-th page table of the directory in block d. */
  ghost function Table(m: Ram, d: nat, i: nat): nat
    requires i < 1024 && 4096 * d + 4096 <= |m|
  {
    Cell(m, d, i) / 4096
  }

  /** Block d holds a directory: its tables are 1024 different blocks, none of them d. */
  ghost predicate Directory(m: Ram, d: nat) {
    && 4096 * d + 4096 <= |m|
    && (forall i :: 0 <= i < 1024 ==> Table(m, d, i) != d && 4096 * Table(m, d, i) + 4096 <= |m|)
    && (forall i, j :: 0 <= i < j < 1024 ==> Table(m, d, i) != Table(m, d, j))
  }

  ghost function Tables(m: Ram, d: nat): (r: set<nat>)
    requires Directory(m, d)
    ensures forall i :: 0 <= i < 1024 ==> Table(m, d, i) in r
  {
    set i | 0 <= i < 1024 :: Table(m, d, i)
  }

  /** Every block the directory is made of. */
  ghost function Blocks(m: Ram, d: nat): set<nat>
    requires Directory(m, d)
  {
    {d} + Tables(m, d)
  }

  /** The table entry of page p. */
  ghost function Entry(m: Ram, d: nat, p: nat): u32
    requires Directory(m, d) && p < 0x10_0000
  {
    Cell(m, Table(m, d, p / 1024), p % 1024)
  }

  /** The directory's low flag bits over page p. */
  ghost function DirectoryFlags(m: Ram, d: nat, p: nat): nat
    requires Directory(m, d) && p < 0x10_0000
  {
    Cell(m, d, p / 1024) % 4096
  }

  /** The flat map: the entry of every page. */
  ghost function View(m: Ram, d: nat): (v: seq<u32>)
    requires Directory(m, d)
    ensures |v| == 0x10_0000
    ensures forall p :: 0 <= p < 0x10_0000 ==> v[p] == Entry(m, d, p)
  {
    seq(0x10_0000, p requires 0 <= p < 0x10_0000 => Entry(m, d, p))
  }

  /** The same directory block and the same tables: what any two memories with equal cells in
      block d agree on. */
  lemma SameDirectory(m: Ram, m': Ram, d: nat)
    requires Directory(m, d) && |m'| == |m| && forall i :: 0 <= i < 1024 ==> Cell(m', d, i) == Cell(m, d, i)
    ensures Directory(m', d) && Tables(m', d) == Tables(m, d)
    ensures forall i :: 0 <= i < 1024 ==> Table(m', d, i) == Table(m, d, i)
  {
    assert forall i :: 0 <= i < 1024 ==> Table(m', d, i) == Table(m, d, i);
  }

  /** A directory keeps its meaning as long as its own blocks are left alone. */
  lemma {:induction false} DirectoryFrame(m: Ram, m': Ram, d: nat, blocks: set<nat>)
    requires Directory(m, d) && Untouched(m, m', blocks) && Blocks(m, d) !! blocks
    ensures forall i :: 0 <= i < 1024 ==> Cell(m', d, i) == Cell(m, d, i)
    ensures Directory(m', d) && Tables(m', d) == Tables(m, d)
    ensures View(m', d) == View(m, d)
  {
    UntouchedCells(m, m', blocks, d);
    SameDirectory(m, m', d);
    forall p | 0 <= p < 0x10_0000 ensures Entry(m', d, p) == Entry(m, d, p) {
      UntouchedCells(m, m', blocks, Table(m, d, p / 1024));
    }
  }

  ghost function SetEntry(m: Ram, d: nat, p: nat, v: u32): Ram
    requires Directory(m, d) && p < 0x10_0000
  {
    PutCell(m, Table(m, d, p / 1024), p % 1024, v)
  }

  /** From m to r only table contents of the directory in d changed. */
  ghost predicate SameFrames(m: Ram, r: Ram, d: nat)
    requires Directory(m, d)
  {
    && Directory(r, d) && Tables(r, d) == Tables(m, d)
    && Untouched(m, r, Tables(m, d))
    && (forall i :: 0 <= i < 1024 ==> Cell(r, d, i) == Cell(m, d, i))
  }

  lemma SameFramesTrans(m: Ram, s: Ram, r: Ram, d: nat)
    requires Directory(m, d) && SameFrames(m, s, d) && SameFrames(s, r, d)
    ensures SameFrames(m, r, d)
  {
  }

  /** Writing one entry is a one-point update of the flat map, and touches one table only. */
  lemma {:induction false} SetEntryRefines(m: Ram, d: nat, p: nat, v: u32)
    requires Directory(m, d) && p < 0x10_0000
    ensures var r := SetEntry(m, d, p, v);
            && Untouched(m, r, {Table(m, d, p / 1024)})
            && SameFrames(m, r, d)
            && View(r, d) == View(m, d)[p := v]
  {
    hide Cell, PutCell;
    var r := SetEntry(m, d, p, v);
    SameDirectory(m, r, d);
    forall q | 0 <= q < 0x10_0000 ensures Entry(r, d, q) == if q == p then v else Entry(m, d, q) {
      assert q / 1024 == p / 1024 && q % 1024 == p % 1024 ==> q == p;
    }
  }

  /** A call of paging_set. */
  datatype Call = Set(virt: u32, value: u32)

  ghost function Perform(m: Ram, d: nat, calls: seq<Call>): (r: Ram)
    requires Directory(m, d)
    decreases |calls|
  {
    if calls == [] then m
    else if calls[0].virt % 4096 != 0 then Perform(m, d, calls[1..])
    else
      SetEntryRefines(m, d, calls[0].virt / 4096, calls[0].value);
      Perform(SetEntry(m, d, calls[0].virt / 4096, calls[0].value), d, calls[1..])
  }

  /** What the calls mean on the flat map: misaligned ones nothing, the others an update each. */
  ghost function Updates(view: seq<u32>, calls: seq<Call>): (r: seq<u32>)
    requires |view| == 0x10_0000
    ensures |r| == 0x10_0000
    decreases |calls|
  {
    if calls == [] then view
    else if calls[0].virt % 4096 != 0 then Updates(view, calls[1..])
    else Updates(view[calls[0].virt / 4096 := calls[0].value], calls[1..])
  }

  /** Under any sequence of paging_set calls the tables in memory stand for the flat map the
      calls describe; the directory block and everything outside its tables stay as they were. */
  lemma {:induction false} CallsRefineMap(m: Ram, d: nat, calls: seq<Call>)
    requires Directory(m, d)
    ensures var r := Perform(m, d, calls);
            && SameFrames(m, r, d)
            && View(r, d) == Updates(View(m, d), calls)
    decreases |calls|
  {
    if calls != [] {
      if calls[0].virt % 4096 != 0 {
        CallsRefineMap(m, d, calls[1..]);
      } else {
        var p := calls[0].virt / 4096;
        var s := SetEntry(m, d, p, calls[0].value);
        SetEntryRefines(m, d, p, calls[0].value);
        CallsRefineMap(s, d, calls[1..]);
        SameFramesTrans(m, s, Perform(s, d, calls[1..]), d);
      }
    }
  }

  /** The calls paging_map_range makes: n pages, both addresses advancing mod 2^32. */
  ghost function RangeCalls(virt: u32, phys: u32, n: nat, flags: u32): (calls: seq<Call>)
    ensures |calls| == n
  {
    seq(n, i requires 0 <= i < n => Set(Wrap(virt + 4096 * i), Or32(Wrap(phys + 4096 * i), flags)))
  }

  /** The page the i-th page after p is, wrapping at the end of the address space. */
  function Forward(p: nat, i: nat): (r: nat)
    ensures r < 0x10_0000
  {
    (p + i) % 0x10_0000
  }

  lemma ForwardIs(virt: u32, i: nat)
    requires virt % 4096 == 0
    ensures Wrap(virt + 4096 * i) % 4096 == 0 && Wrap(virt + 4096 * i) / 4096 == Forward(virt / 4096, i)
  {
    var x := virt / 4096 + i;
    var q, r := x / 0x10_0000, Forward(virt / 4096, i);
    assert virt + 4096 * i == 4096 * r + 0x1_0000_0000 * q;
    WrapCongruent(4096 * r, q);
  }

  ghost predicate InRange(p: nat, n: nat, q: nat) {
    exists i :: 0 <= i < n && q == Forward(p, i)
  }

  /** What mapping n pages makes of a flat map: page p + i gets the i-th physical page, and
      pages outside the range keep their entries. */
  ghost predicate Mapped(view: seq<u32>, view': seq<u32>, p: nat, phys: u32, n: nat, flags: u32)
    requires |view| == |view'| == 0x10_0000
  {
    && (forall i :: 0 <= i < n ==> view'[Forward(p, i)] == Or32(Wrap(phys + 4096 * i), flags))
    && (forall q :: 0 <= q < 0x10_0000 && !InRange(p, n, q) ==> view'[q] == view[q])
  }

  /** Updates of different pages do not interfere. */
  lemma {:induction false} DistinctUpdates(view: seq<u32>, calls: seq<Call>)
    requires |view| == 0x10_0000
    requires forall i :: 0 <= i < |calls| ==> calls[i].virt % 4096 == 0
    requires forall i, j :: 0 <= i < j < |calls| ==> calls[i].virt != calls[j].virt
    ensures forall i :: 0 <= i < |calls| ==> Updates(view, calls)[calls[i].virt / 4096] == calls[i].value
    ensures forall q :: 0 <= q < 0x10_0000 && (forall i :: 0 <= i < |calls| ==> calls[i].virt / 4096 != q) ==>
              Updates(view, calls)[q] == view[q]
    decreases |calls|
  {
    if calls != [] {
      var v := view[calls[0].virt / 4096 := calls[0].value];
      var rest := calls[1..];
      DistinctUpdates(v, rest);
      forall i | 0 <= i < |calls| ensures Updates(view, calls)[calls[i].virt / 4096] == calls[i].value {
        if i == 0 {
          assert forall j :: 0 <= j < |rest| ==> rest[j] == calls[j + 1];
        } else {
          assert calls[i] == rest[i - 1];
        }
      }
    }
  }

  /** No more than 2^20 pages, so that no page is mapped twice: every page of the range gets
      its physical page, every other page keeps its entry. */
  lemma {:induction false} MapRangePages(view: seq<u32>, virt: u32, phys: u32, n: nat, flags: u32)
    requires |view| == 0x10_0000 && virt % 4096 == 0 && n <= 0x10_0000
    ensures Mapped(view, Updates(view, RangeCalls(virt, phys, n, flags)), virt / 4096, phys, n, flags)
  {
    var calls := RangeCalls(virt, phys, n, flags);
    forall i | 0 <= i < n ensures calls[i].virt % 4096 == 0 && calls[i].virt / 4096 == Forward(virt / 4096, i) {
      ForwardIs(virt, i);
    }
    DistinctUpdates(view, calls);
    forall i | 0 <= i < n
      ensures Updates(view, calls)[Forward(virt / 4096, i)] == Or32(Wrap(phys + 4096 * i), flags)
    {
      assert Updates(view, calls)[calls[i].virt / 4096] == calls[i].value;
    }
    forall q | 0 <= q < 0x10_0000 && !InRange(virt / 4096, n, q) ensures Updates(view, calls)[q] == view[q] {
      forall i | 0 <= i < n ensures calls[i].virt / 4096 != q {
        assert calls[i].virt / 4096 == Forward(virt / 4096, i);
      }
    }
  }

  /** An identity entry: page p maps block p with these flags. */
  ghost predicate Identity(m: Ram, d: nat, flags: nat)
    requires Directory(m, d)
  {
    forall p :: 0 <= p < 0x10_0000 ==> View(m, d)[p] == 4096 * p + flags
  }
}
