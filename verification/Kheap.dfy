/** The meaning of the kernel heap: the block allocator plus the table of multi-block extents. */
module HeapState {
  import opened Bits
  import opened Frames

  /** A slot of the table; start 0 marks it empty. */
  datatype Extent = Extent(start: u32, blocks: u32)

  datatype Heap = Heap(frames: Frames, table: seq<Extent>)

  /** The first slot at or after i whose address is addr; the table's length when there is none. */
  ghost function Slot(table: seq<Extent>, addr: u32, i: nat): (r: nat)
    requires i <= |table|
    ensures i <= r <= |table| && (r < |table| ==> table[r].start == addr)
    ensures forall j :: i <= j < r ==> table[j].start != addr
    decreases |table| - i
  {
    if i < |table| && table[i].start != addr then Slot(table, addr, i + 1) else i
  }

  ghost function Insert(table: seq<Extent>, e: Extent): (r: seq<Extent>)
    ensures |r| == |table|
  {
    var i := Slot(table, 0, 0);
    if i < |table| then table[i := e] else table
  }

  /** The number of blocks a request of size bytes asks for. */
  ghost function BlocksFor(size: u32): nat {
    if size <= 4096 then 1 else (size + 4095) / 4096
  }

  /** Enough blocks for a request, and never one more than enough, but for an empty request's one. */
  lemma {:induction false} BlocksForExactly(size: u32, n: nat)
    ensures n == BlocksFor(size) <==> n >= 1 && size <= 4096 * n && (n > 1 ==> size > 4096 * (n - 1))
  {
  }

  ghost function Malloc(h: Heap, size: u32): (r: (Heap, u32)) {
    if size <= 4096 then
      var (f, a) := AllocOne(h.frames);
      (h.(frames := f), a)
    else
      var (f, a) := AllocMany(h.frames, BlocksFor(size));
      if a == 0 then (h.(frames := f), 0)
      else (Heap(f, Insert(h.table, Extent(a, BlocksFor(size)))), a)
  }

  ghost function Free(h: Heap, addr: u32): Heap {
    if addr % 4096 != 0 then h
    else
      var i := Slot(h.table, addr, 0);
      if i == |h.table| then h.(frames := FreeOne(h.frames, addr / 4096))
      else Heap(FreeSpan(h.frames, addr / 4096, h.table[i].blocks), h.table[i := Extent(0, 0)])
  }
}

/** src/memory/heap/kheap.c */
module KernelHeap {
  import opened Bits
  import opened Frames
  import opened PhysicalMemory
  import opened HeapState

  const BIG_ADDRESS: nat := 100

  class Kheap {
    const pmm: Pmm
    const bigBlocks: array<Extent>

    ghost predicate Valid()
      reads this, pmm
    {
      pmm.Valid() && bigBlocks.Length == BIG_ADDRESS
    }

    /** Every recorded extent lies in the address range the map covers. */
    ghost predicate InMap()
      reads bigBlocks
    {
      forall i :: 0 <= i < bigBlocks.Length ==>
        bigBlocks[i].start / 4096 + bigBlocks[i].blocks <= 32 * PMM_MAX_BLOCKS
    }

    function State(): Heap
      reads this, pmm, pmm.memoryMap, bigBlocks
      requires pmm.Valid()
    {
      Heap(pmm.State(), bigBlocks[..])
    }

    constructor (pmm: Pmm)
      requires pmm.Valid()
      ensures this.pmm == pmm && Valid() && fresh(bigBlocks) && InMap()
      ensures forall i :: 0 <= i < BIG_ADDRESS ==> bigBlocks[i] == Extent(0, 0)
    {
      this.pmm := pmm;
      bigBlocks := new Extent[BIG_ADDRESS](_ => Extent(0, 0));
    }

    method InsertInBigBlocks(addr: u32, blocks: u32) returns (r: int)
      requires Valid()
      modifies bigBlocks
      ensures r == -1 && bigBlocks[..] == Insert(old(bigBlocks[..]), Extent(addr, blocks))
    {
      var i := 0;
      while i < BIG_ADDRESS
        invariant i <= BIG_ADDRESS && bigBlocks[..] == old(bigBlocks[..])
        invariant Slot(bigBlocks[..], 0, 0) == Slot(bigBlocks[..], 0, i)
      {
        if bigBlocks[i].start == 0 {
          bigBlocks[i] := Extent(addr, blocks);
          break;
        }
        i := i + 1;
      }
      return -1;
    }

    method SearchAddress(addr: u32) returns (r: int)
      requires Valid()
      ensures r == if Slot(bigBlocks[..], addr, 0) == BIG_ADDRESS then -1 else Slot(bigBlocks[..], addr, 0)
    {
      var i := 0;
      while i < BIG_ADDRESS
        invariant i <= BIG_ADDRESS
        invariant Slot(bigBlocks[..], addr, 0) == Slot(bigBlocks[..], addr, i)
      {
        if bigBlocks[i].start == addr { return i; }
        i := i + 1;
      }
      return -1;
    }

    method FreeBigBlocks(addr: u32)
      requires Valid() && InMap() && addr % 4096 == 0
      modifies pmm, pmm.memoryMap, bigBlocks
      ensures Valid() && InMap()
      ensures State() ==
              if Slot(old(bigBlocks[..]), addr, 0) == BIG_ADDRESS then old(State()) else Free(old(State()), addr)
    {
      var index := SearchAddress(addr);
      if index == -1 { return; }
      var n := bigBlocks[index].blocks;
      var i := 0;
      while i < n
        modifies pmm, pmm.memoryMap
        invariant i <= n && pmm.Valid()
        invariant pmm.State() == FreeSpan(old(pmm.State()), addr / 4096, i)
      {
        var current := Wrap(addr + i * 4096);
        pmm.FreeBlock(current);
        i := i + 1;
      }
      bigBlocks[index] := Extent(0, 0);
    }

    method Kmallac(size: u32) returns (addr: u32)
      requires Valid() && InMap()
      modifies pmm, pmm.memoryMap, bigBlocks
      ensures Valid() && InMap() && (State(), addr) == Malloc(old(State()), size)
    {
      if size > 4096 {
        var blocks := size / 4096;
        blocks := if size % 4096 == 0 then blocks else blocks + 1;
        assert blocks == BlocksFor(size) <= 32 * PMM_MAX_BLOCKS;
        addr := pmm.AllocateFirstNBlocks(blocks);
        if addr <= 0 { return 0; }
        var _ := InsertInBigBlocks(addr, blocks);
        return addr;
      }
      addr := pmm.AllocateBlock();
    }

    method Kfree(addr: u32)
      requires Valid() && InMap()
      modifies pmm, pmm.memoryMap, bigBlocks
      ensures Valid() && InMap() && State() == Free(old(State()), addr)
    {
      if addr % 4096 != 0 { return; }
      var index := SearchAddress(addr);
      if index >= 0 {
        FreeBigBlocks(addr);
        return;
      }
      pmm.FreeBlock(addr);
    }
  }
}
