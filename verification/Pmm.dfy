/** The meaning of the physical-memory manager: which blocks are taken, and its two counters. */
module Frames {
  import opened Bits


  /** A number of blocks that 32-bit addresses can reach. */
  type BlockCount = n: nat | n <= 0x10_0000

  /** taken holds the blocks whose bit is set, size the number of blocks of the system. */
  datatype Frames = Frames(taken: set<nat>, used: u32, free: u32, size: BlockCount)

  /** Blocks start, start + 1, ..., start + n - 1. */
  ghost function Span(start: nat, n: nat): (r: set<nat>)
    ensures forall b: nat :: b in r <==> start <= b < start + n
  {
    set b: nat | b < start + n && Between(b, start, n)
  }

  predicate Between(b: nat, start: nat, n: nat) {
    start <= b < start + n
  }

  lemma {:induction false} SpanSize(start: nat, n: nat)
    ensures |Span(start, n)| == n
  {
    if n == 0 {
    } else {
      SpanSize(start, n - 1);
      assert Span(start, n) == Span(start, n - 1) + {start + n - 1};
    }
  }

  /** The counters agree with the bitmap. */
  ghost predicate Accounted(f: Frames) {
    && f.taken <= Span(0, f.size)
    && f.used == |f.taken|
    && f.free == f.size - |f.taken|
  }

  lemma {:induction false} FreeCountsClearBits(f: Frames)
    requires Accounted(f)
    ensures f.free == |Span(0, f.size) - f.taken| && f.used + f.free == f.size
    ensures f.free == 0 <==> f.taken == Span(0, f.size)
  {
    SpanSize(0, f.size);
    var clear := Span(0, f.size) - f.taken;
    assert clear + f.taken == Span(0, f.size);
    assert clear == {} ==> f.taken == Span(0, f.size);
  }

  lemma AllTaken(f: Frames)
    requires Accounted(f) && f.taken == Span(0, f.size)
    ensures f.used == f.size && f.free == 0
  {
    SpanSize(0, f.size);
  }

  /** The lowest block at or after i that is not taken; size when there is none. */
  ghost function FirstFree(taken: set<nat>, i: nat, size: nat): (r: nat)
    requires i <= size
    ensures i <= r <= size && (r < size ==> r !in taken)
    ensures forall j :: i <= j < r ==> j in taken
    decreases size - i
  {
    if i < size && i in taken then FirstFree(taken, i + 1, size) else i
  }

  /** What the n-block search accepts: blocks s .. s+n-1 are free and the last block stays out. */
  ghost predicate Fits(taken: set<nat>, s: nat, n: nat, size: nat) {
    s + n < size && forall b :: s <= b < s + n ==> b !in taken
  }

  /** The lowest s at or after i where n blocks fit; 0 when there is none. */
  ghost function FirstFit(taken: set<nat>, i: nat, n: nat, size: nat): (r: nat)
    requires i >= 1
    ensures r != 0 ==> i <= r && Fits(taken, r, n, size)
    ensures forall s :: i <= s && (r == 0 || s < r) ==> !Fits(taken, s, n, size)
    decreases size - i
  {
    if i + n >= size then 0
    else if Fits(taken, i, n, size) then i
    else FirstFit(taken, i + 1, n, size)
  }

  ghost function AfterInit(f: Frames, cleared: nat, system: BlockCount, reserved: u32): Frames {
    Frames((f.taken - Span(0, cleared)) + Span(0, reserved), reserved, Wrap(system - reserved), system)
  }

  ghost function AllocOne(f: Frames): (r: (Frames, u32)) {
    var b := FirstFree(f.taken, 0, f.size);
    if f.free == 0 || b == f.size || b == 0 then (f, 0)
    else (f.(taken := f.taken + {b}, free := Wrap(f.free - 1), used := Wrap(f.used + 1)), b * 4096)
  }

  ghost function AllocMany(f: Frames, n: nat): (r: (Frames, u32)) {
    var s := FirstFit(f.taken, 1, n, f.size);
    var g := f.(taken := f.taken + Span(s, n));
    if s == 0 then (g, 0)
    else (g.(used := Wrap(f.used + n), free := Wrap(f.free - n)), s * 4096)
  }

  ghost function FreeOne(f: Frames, b: nat): Frames {
    f.(taken := f.taken - {b}, free := Wrap(f.free + 1), used := Wrap(f.used - 1))
  }

  /** Freeing blocks start, ..., start + n - 1, one after the other. */
  ghost function FreeSpan(f: Frames, start: nat, n: nat): Frames {
    if n == 0 then f else FreeOne(FreeSpan(f, start, n - 1), start + n - 1)
  }

  lemma {:induction false} FreeSpanIs(f: Frames, start: nat, n: nat)
    ensures FreeSpan(f, start, n) ==
            f.(taken := f.taken - Span(start, n), free := Wrap(f.free + n), used := Wrap(f.used - n))
  {
    if n == 0 {
      assert f.taken - Span(start, 0) == f.taken;
    } else {
      FreeSpanIs(f, start, n - 1);
      WrapStep(f.free + n - 1, 1);
      WrapStep(f.used - (n - 1), -1);
      assert f.taken - Span(start, n) == (f.taken - Span(start, n - 1)) - {start + n - 1};
    }
  }

  lemma {:induction false} SubsetSize<T>(a: set<T>, b: set<T>)
    requires a <= b
    ensures |a| <= |b|
    ensures |a| == |b| ==> a == b
  {
    assert b == a + (b - a);
    assert |b - a| == 0 ==> b - a == {};
  }

  /** Moving free blocks to the taken side, and the counters with them, keeps the books. */
  lemma TakeAccounted(f: Frames, blocks: set<nat>)
    requires Accounted(f) && blocks <= Span(0, f.size) && blocks !! f.taken
    ensures |blocks| <= f.free
    ensures Accounted(f.(taken := f.taken + blocks, used := f.used + |blocks|, free := f.free - |blocks|))
  {
    assert |f.taken + blocks| == |f.taken| + |blocks|;
    SubsetSize(f.taken + blocks, Span(0, f.size));
    SpanSize(0, f.size);
  }

  /** The allocator is ready for use after pmm_init exactly when the reservation fits in the
      system and no bit that pmm_init leaves alone was set within the system. */
  lemma {:induction false} InitAccountedExactly(f: Frames, cleared: nat, system: BlockCount, reserved: u32)
    ensures Accounted(AfterInit(f, cleared, system, reserved)) <==>
            reserved <= system && f.taken - Span(0, cleared) <= Span(0, reserved)
  {
    var g := AfterInit(f, cleared, system, reserved);
    var stale := f.taken - Span(0, cleared);
    SpanSize(0, reserved);
    if Accounted(g) {
      SubsetSize(Span(0, reserved), g.taken);
      SpanSize(0, system);
      SubsetSize(g.taken, Span(0, system));
      assert stale <= g.taken;
    }
    if stale <= Span(0, reserved) {
      assert g.taken == Span(0, reserved);
    }
  }

  /** First fit for one block: on a system with block 0 reserved, a request fails exactly when
      every block is taken, and otherwise takes the lowest free one and nothing else. */
  lemma {:induction false} AllocOneTakesLowest(f: Frames)
    requires Accounted(f) && 0 in f.taken
    ensures var (g, a) := AllocOne(f);
            && (a == 0 <==> f.free == 0)
            && (a == 0 ==> g == f)
            && (a != 0 ==>
                  && a % 4096 == 0 && 0 < a / 4096 < f.size
                  && a / 4096 !in f.taken && g.taken == f.taken + {a / 4096}
                  && (forall j :: 0 <= j < a / 4096 ==> j in f.taken)
                  && g.free == f.free - 1 && g.used == f.used + 1 && g.size == f.size && Accounted(g))
  {
    var b := FirstFree(f.taken, 0, f.size);
    if b == f.size {
      assert f.taken == Span(0, f.size);
      SpanSize(0, f.size);
    } else {
      TakeAccounted(f, {b});
    }
  }

  /** First fit for n blocks. A request that fails changes nothing exactly when blocks
      0 .. n-1 were all taken already. */
  lemma {:induction false} AllocManyTakesLowest(f: Frames, n: nat)
    requires Accounted(f)
    ensures var (g, a) := AllocMany(f, n);
            && (a == 0 <==> forall s :: s >= 1 ==> !Fits(f.taken, s, n, f.size))
            && (a != 0 ==>
                  && a % 4096 == 0 && Fits(f.taken, a / 4096, n, f.size)
                  && (forall s :: 1 <= s < a / 4096 ==> !Fits(f.taken, s, n, f.size))
                  && g.taken == f.taken + Span(a / 4096, n)
                  && g.free == f.free - n && g.used == f.used + n && g.size == f.size && Accounted(g))
  {
    var s := FirstFit(f.taken, 1, n, f.size);
    if s != 0 {
      SpanSize(s, n);
      TakeAccounted(f, Span(s, n));
      assert f.used + n == Wrap(f.used + n) && f.free - n == Wrap(f.free - n);
      assert AllocMany(f, n).1 / 4096 == s;
    }
  }

  lemma {:induction false} FailedManyHarmlessExactly(f: Frames, n: nat)
    requires Accounted(f) && AllocMany(f, n).1 == 0
    ensures var g := AllocMany(f, n).0;
            && (g == f <==> Span(0, n) <= f.taken)
            && (Accounted(g) <==> Span(0, n) <= f.taken)
  {
    var g := AllocMany(f, n).0;
    assert g.taken == f.taken + Span(0, n);
    SubsetSize(f.taken, g.taken);
  }
}

/** src/memory/pmm/pmm.c: the bitmap, one bit a block, and the allocator over it. */
module PhysicalMemory {
  import opened Bits
  import opened Frames

  const PMM_MAX_BLOCKS: nat := 32768

  predicate IsSet(map_: seq<u32>, b: nat)
    requires b < 32 * |map_|
  {
    Bit(map_[b / 32], b % 32)
  }

  lemma SetOneBit(map_: seq<u32>, b: nat, k: nat)
    requires b < 32 * |map_| && k < 32 * |map_|
    requires Pow2(b % 32) < 0x1_0000_0000
    ensures IsSet(map_[b / 32 := Or32(map_[b / 32], Pow2(b % 32))], k) <==> k == b || IsSet(map_, k)
    ensures IsSet(map_[b / 32 := AndNot(map_[b / 32], Pow2(b % 32))], k) <==> k != b && IsSet(map_, k)
  {
    OrBit(map_[b / 32], Pow2(b % 32), k % 32);
    AndNotBit(map_[b / 32], Pow2(b % 32), k % 32);
    Pow2Bit(b % 32, k % 32);
  }

  class Pmm {
    const memoryMap: array<u32>
    var usedBlocks: u32
    var freeBlocks: u32
    var systemSize: u32

    ghost predicate Valid()
      reads this
    {
      memoryMap.Length == PMM_MAX_BLOCKS && systemSize <= 32 * PMM_MAX_BLOCKS
    }

    function Taken(): set<nat>
      reads memoryMap
    {
      set b: nat | b < 32 * memoryMap.Length && IsSet(memoryMap[..], b)
    }

    function State(): Frames
      reads this, memoryMap
      requires Valid()
    {
      Frames(Taken(), usedBlocks, freeBlocks, systemSize)
    }

    constructor ()
      ensures Valid() && fresh(memoryMap)
      ensures State() == Frames({}, 0, 0, 0)
    {
      memoryMap := new u32[PMM_MAX_BLOCKS](_ => 0);
      usedBlocks, freeBlocks, systemSize := 0, 0, 0;
      new;
      forall b: nat | b < 32 * PMM_MAX_BLOCKS ensures !IsSet(memoryMap[..], b) {
        ZeroBit(b % 32);
      }
    }

    method MemoryMapSet(bit: u32)
      requires Valid() && bit < 32 * PMM_MAX_BLOCKS
      modifies memoryMap
      ensures Taken() == old(Taken()) + {bit}
    {
      Pow2Below32(bit % 32);
      ghost var was := memoryMap[..];
      memoryMap[bit / 32] := Or32(memoryMap[bit / 32], Pow2(bit % 32));
      forall k: nat | k < 32 * |was| ensures IsSet(memoryMap[..], k) <==> k == bit || IsSet(was, k) {
        SetOneBit(was, bit, k);
      }
    }

    method MemoryMapUnset(bit: u32)
      requires Valid() && bit < 32 * PMM_MAX_BLOCKS
      modifies memoryMap
      ensures Taken() == old(Taken()) - {bit}
    {
      Pow2Below32(bit % 32);
      ghost var was := memoryMap[..];
      memoryMap[bit / 32] := AndNot(memoryMap[bit / 32], Pow2(bit % 32));
      forall k: nat | k < 32 * |was| ensures IsSet(memoryMap[..], k) <==> k != bit && IsSet(was, k) {
        SetOneBit(was, bit, k);
      }
    }

    method MemoryMapTest(bit: u32) returns (r: bool)
      requires Valid() && bit < 32 * PMM_MAX_BLOCKS
      ensures r <==> bit in Taken()
    {
      Pow2Below32(bit % 32);
      MaskTests(memoryMap[bit / 32], bit % 32);
      r := And(memoryMap[bit / 32], Pow2(bit % 32)) != 0;
    }

    /** Sets the bits of [start, end), as pmm_init and the n-block request do in their last loop. */
    method MarkBlocks(start: u32, end: u32)
      requires Valid() && start <= end <= 32 * PMM_MAX_BLOCKS
      modifies memoryMap
      ensures Taken() == old(Taken()) + Span(start, end - start)
    {
      var i := start;
      while i < end
        invariant start <= i <= end
        invariant Taken() == old(Taken()) + Span(start, i - start)
      {
        MemoryMapSet(i);
        i := i + 1;
      }
    }

    method Init(systemMemorySize: u32, reservedForKernel: u32)
      requires Valid()
      requires systemMemorySize <= 32 * PMM_MAX_BLOCKS && reservedForKernel <= 32 * PMM_MAX_BLOCKS
      modifies this, memoryMap
      ensures Valid() && State() == AfterInit(old(State()), PMM_MAX_BLOCKS, systemMemorySize, reservedForKernel)
    {
      ghost var was := Taken();
      var i := 0;
      while i < PMM_MAX_BLOCKS
        modifies memoryMap
        invariant i <= PMM_MAX_BLOCKS
        invariant Taken() == was - Span(0, i)
      {
        MemoryMapUnset(i);
        i := i + 1;
      }
      ghost var cleared := Taken();
      systemSize := systemMemorySize;
      usedBlocks := reservedForKernel;
      freeBlocks := Wrap(systemMemorySize - usedBlocks);
      MarkBlocks(0, reservedForKernel);
      assert cleared == was - Span(0, PMM_MAX_BLOCKS);
    }

    method GetFirstFreeBlock() returns (r: int)
      requires Valid()
      ensures r == if FirstFree(Taken(), 0, systemSize) == systemSize then -1
                   else FirstFree(Taken(), 0, systemSize)
    {
      var i := 0;
      while i < systemSize
        invariant i <= systemSize
        invariant FirstFree(Taken(), 0, systemSize) == FirstFree(Taken(), i, systemSize)
      {
        var taken := MemoryMapTest(i);
        if !taken { return i; }
        i := i + 1;
      }
      return -1;
    }

    method AllocateBlock() returns (physical: u32)
      requires Valid()
      modifies this, memoryMap
      ensures Valid() && (State(), physical) == AllocOne(old(State()))
    {
      if freeBlocks <= 0 { return 0; }
      var frame := GetFirstFreeBlock();
      if frame <= 0 { return 0; }
      MemoryMapSet(frame);
      freeBlocks := Wrap(freeBlocks - 1);
      usedBlocks := Wrap(usedBlocks + 1);
      physical := frame * 4096;
    }

    method FreeBlock(ptr: u32)
      requires Valid()
      modifies this, memoryMap
      ensures Valid() && State() == FreeOne(old(State()), ptr / 4096)
    {
      freeBlocks := Wrap(freeBlocks + 1);
      usedBlocks := Wrap(usedBlocks - 1);
      MemoryMapUnset(ptr / 4096);
    }

    /** 1 when some block of [start, end) is taken. */
    method CheckRange(start: u32, end: u32) returns (r: u32)
      requires Valid() && end <= 32 * PMM_MAX_BLOCKS
      ensures r == 0 <==> forall b :: start <= b < end ==> b !in Taken()
    {
      var i := start;
      while i < end
        invariant start <= end ==> i <= end
        invariant forall b :: start <= b < i ==> b !in Taken()
      {
        var taken := MemoryMapTest(i);
        if taken { return 1; }
        i := i + 1;
      }
      return 0;
    }

    /** For n = 2^32 - 1 the end of the first range wraps to 0, and the empty range fits. */
    method GetFirstNBlocks(n: u32) returns (start: u32)
      requires Valid()
      ensures start == if n == 0xFFFF_FFFF then (if systemSize > 0 then 1 else 0)
              else FirstFit(Taken(), 1, n, systemSize)
    {
      start := 1;
      var end := Wrap(start + n);
      while end < systemSize
        invariant n < 0xFFFF_FFFF ==> end == start + n
        invariant n == 0xFFFF_FFFF ==> end == 0 && start == 1
        invariant n < 0xFFFF_FFFF ==> FirstFit(Taken(), 1, n, systemSize) == FirstFit(Taken(), start, n, systemSize)
        decreases systemSize - start
      {
        var busy := CheckRange(start, end);
        if busy == 0 { return start; }
        end := end + 1;
        start := start + 1;
      }
      return 0;
    }

    /** When no run fits, blocks 0 .. n-1 are marked all the same: n must stay within the map. */
    method AllocateFirstNBlocks(n: u32) returns (physical: u32)
      requires Valid() && n <= 32 * PMM_MAX_BLOCKS
      modifies this, memoryMap
      ensures Valid() && (State(), physical) == AllocMany(old(State()), n)
    {
      ghost var was := State();
      var start := GetFirstNBlocks(n);
      MarkBlocks(start, start + n);
      assert State() == was.(taken := was.taken + Span(start, n));
      if start <= 0 { return 0; }
      usedBlocks := Wrap(usedBlocks + n);
      freeBlocks := Wrap(freeBlocks - n);
      physical := start * 4096;
    }
  }
}
