/** What loading a program does to memory and allocator, as values: what is taken, what is cleared,
    when a request that fails does no harm, and what opening a file may do. */
module Loading {
  import opened Bits
  import opened Frames
  import opened PhysicalMemory
  import opened HeapState
  import opened Memory
  import opened PageTables
  import opened Directories
  import opened Images

  /** sizeof(struct process): a little more than one block. */
  const PROCESS_RECORD_SIZE: u32 := 4224
  const STACK_SIZE: u32 := 16384
  const TASK_RECORD_SIZE: u32 := 64

  /** What opening a path and asking for its size comes to. */
  datatype OpenFile = Missing | Opened(firstCluster: nat, size: nat)

  datatype Outcome = Outcome(file: OpenFile, heap: Heap)

  /** A file name, by what fopen and fstat on it do: the file and the heap they leave, and what is
      in memory then. */
  datatype FileName = FileName(open: Heap -> Outcome, fill: (Heap, Ram) -> Ram)

  /** From f to g exactly the given n blocks were taken. */
  ghost predicate Took(f: Frames, g: Frames, blocks: set<nat>, n: nat) {
    && blocks !! f.taken && g.taken == f.taken + blocks && g.size == f.size
    && g.used == f.used + n && g.free == f.free - n
  }

  /** A request that succeeds takes n fresh blocks in a row and keeps the books. */
  lemma MallocTakes(h: Heap, size: u32)
    requires Accounted(h.frames) && 0 in h.frames.taken
    ensures var (g, a) := Malloc(h, size);
            var n := BlocksFor(size);
            a != 0 ==>
              && a % 4096 == 0 && a / 4096 >= 1 && a / 4096 + n <= h.frames.size
              && Took(h.frames, g.frames, Span(a / 4096, n), n)
              && Accounted(g.frames) && 0 in g.frames.taken
  {
    var (g, a) := Malloc(h, size);
    var n := BlocksFor(size);
    if size <= 4096 {
      AllocOneTakesLowest(h.frames);
      assert a != 0 ==> Span(a / 4096, 1) == {a as nat / 4096};
    } else {
      AllocManyTakesLowest(h.frames, n);
      assert a != 0 ==> Fits(h.frames.taken, a / 4096, n, h.frames.size);
    }
  }

  /** The bitmap has room for a request: a free block, or a run of free blocks off the last one. */
  ghost predicate HasRoom(f: Frames, size: u32) {
    if size <= 4096 then f.free > 0
    else exists s :: s >= 1 && Fits(f.taken, s, BlocksFor(size), f.size)
  }

  lemma {:induction false} HasRoomExactly(h: Heap, size: u32)
    requires Accounted(h.frames) && 0 in h.frames.taken
    ensures Malloc(h, size).1 != 0 <==> HasRoom(h.frames, size)
  {
    if size <= 4096 {
      AllocOneTakesLowest(h.frames);
    } else {
      AllocManyTakesLowest(h.frames, BlocksFor(size));
      var s := AllocMany(h.frames, BlocksFor(size)).1 / 4096;
      assert AllocMany(h.frames, BlocksFor(size)).1 != 0 ==> Fits(h.frames.taken, s, BlocksFor(size), h.frames.size);
    }
  }

  /** Memory with the n bytes from a on cleared, as far as there is memory. */
  function Cleared(m: Ram, a: nat, n: nat): (r: Ram)
    ensures |r| == |m| && forall k :: 0 <= k < |m| ==> r[k] == if a <= k < a + n then 0 else m[k]
  {
    seq(|m|, k requires 0 <= k < |m| => if a <= k < a + n then 0 else m[k])
  }

  lemma InBlock(b: nat, n: nat, a: nat)
    ensures 4096 * b <= a < 4096 * (b + n) <==> b <= a / 4096 < b + n
  {
  }

  /** Clearing the first size bytes of a stretch of blocks touches no other block. */
  lemma ClearedUntouched(m: Ram, b: nat, size: nat, n: nat)
    requires size <= 4096 * n
    ensures Untouched(m, Cleared(m, 4096 * b, size), Span(b, n))
  {
    hide Cleared;
    forall a | 0 <= a < |m| && a / 4096 !in Span(b, n) ensures Cleared(m, 4096 * b, size)[a] == m[a] {
      InBlock(b, n, a);
    }
  }

  /** Filling the first size bytes of a stretch of blocks touches no other block. */
  lemma FilledUntouched(m: Ram, m': Ram, b: nat, size: nat, n: nat)
    requires 4096 * b + size <= |m| == |m'| && size <= 4096 * n
    requires m'[..4096 * b] == m[..4096 * b] && m'[4096 * b + size..] == m[4096 * b + size..]
    ensures Untouched(m, m', Span(b, n))
  {
    forall a | 0 <= a < |m| && a / 4096 !in Span(b, n) ensures m'[a] == m[a] {
      InBlock(b, n, a);
      if a < 4096 * b {
        assert m'[..4096 * b][a] == m[..4096 * b][a];
      } else {
        assert m'[4096 * b + size..][a - 4096 * b - size] == m[4096 * b + size..][a - 4096 * b - size];
      }
    }
  }

  /** The first n blocks apart, no block that was in use was given up or written. */
  ghost predicate Spared(m: Ram, taken: set<nat>, m': Ram, taken': set<nat>, n: nat) {
    && |m'| == |m| && taken <= taken'
    && forall a {:trigger m'[a]} :: 0 <= a < |m| && a / 4096 in taken && a / 4096 >= n ==> m'[a] == m[a]
  }

  lemma SparedBy(m: Ram, taken: set<nat>, m': Ram, taken': set<nat>, n: nat, blocks: set<nat>)
    requires Untouched(m, m', blocks) && taken <= taken'
    requires forall b :: b in blocks ==> b !in taken || b < n
    ensures Spared(m, taken, m', taken', n)
  {
  }

  lemma SparedTrans(m: Ram, t: set<nat>, m': Ram, t': set<nat>, m'': Ram, t'': set<nat>, n: nat)
    requires Spared(m, t, m', t', n) && Spared(m', t', m'', t'', n)
    ensures Spared(m, t, m'', t'', n)
  {
  }

  /** One more change, of blocks that were not in use at first. */
  lemma SparedThen(m: Ram, t: set<nat>, m': Ram, t': set<nat>, m'': Ram, t'': set<nat>, n: nat, blocks: set<nat>)
    requires Spared(m, t, m', t', n) && Untouched(m', m'', blocks) && blocks !! t && t' <= t''
    ensures Spared(m, t, m'', t'', n)
  {
  }

  lemma TookSpared(m: Ram, f: Frames, m': Ram, g: Frames, n: nat, blocks: set<nat>, count: nat)
    requires Untouched(m, m', blocks) && Took(f, g, blocks, count)
    ensures Spared(m, f.taken, m', g.taken, n)
  {
  }

  /** What is loaded above the first n blocks is still loaded. */
  lemma {:induction false} AllLoadedSpared(
      m: Ram, images: seq<Image>, taken: set<nat>, own: set<nat>, m': Ram, taken': set<nat>, n: nat)
    requires AllLoaded(m, images, taken, own) && Spared(m, taken, m', taken', n) && Span(0, n) <= own
    ensures AllLoaded(m', images, taken', own)
  {
    hide Loaded, AllBlocks;
    forall i | 0 <= i < |images| ensures Loaded(m', images[i]) {
      var others := Span(0, |m|) - AllBlocks(images[i]);
      forall a | 0 <= a < |m| && a / 4096 !in others ensures m'[a] == m[a] {
        assert a / 4096 in AllBlocks(images[i]);
        assert a / 4096 !in Span(0, n);
      }
      LoadedFrame(m, m', images[i], others);
    }
  }

  /** So is everything the kernel keeps apart from the first n blocks. */
  lemma {:induction false} HousedSpared(
      m: Ram, images: seq<Image>, taken: set<nat>, s: Space, reserved: nat, m': Ram, taken': set<nat>, n: nat)
    requires Housed(m, taken, images, s, reserved) && Spared(m, taken, m', taken', n) && n <= reserved
    ensures Housed(m', taken', images, s, reserved)
  {
    hide AllLoaded, SpaceIn, SpaceBlocks;
    OwnTaken(m, images, taken, KernelOwn(s, reserved));
    AllLoadedSpared(m, images, taken, KernelOwn(s, reserved), m', taken', n);
    var others := Span(0, |m|) - SpaceBlocks(s);
    forall a | 0 <= a < |m| && a / 4096 !in others ensures m'[a] == m[a] {
      assert a / 4096 in SpaceBlocks(s);
      assert a / 4096 !in Span(0, reserved);
    }
    SpaceFrame(m, m', s, others);
  }

  lemma OwnTaken(m: Ram, images: seq<Image>, taken: set<nat>, own: set<nat>)
    requires AllLoaded(m, images, taken, own)
    ensures own <= taken
  {
    hide Loaded, AllBlocks;
  }

  /** The kernel's image begins in block start, with an instruction, which is not zero; that block and
      those before it are in use. Below it the kernel keeps nothing. */
  ghost predicate Imaged(m: Ram, taken: set<nat>, start: nat) {
    start >= 1 && Span(0, start + 1) <= taken && 4096 * start < |m| && m[4096 * start] != 0
  }

  lemma ImagedSpared(m: Ram, taken: set<nat>, m': Ram, taken': set<nat>, start: nat)
    requires Imaged(m, taken, start) && Spared(m, taken, m', taken', start)
    ensures Imaged(m', taken', start)
  {
    assert 4096 * start / 4096 in taken;
  }

  /** Whether a kzalloc of size bytes that fails does no harm: the bytes it clears, from address 0 on,
      end below the kernel's image. */
  predicate Harmless(size: u32, start: nat) {
    size <= 4096 * start
  }

  /** The books stay in order and no block in use from the kernel's image on is written exactly when
      the failing request ends below the image; and then it changes nothing in the heap. */
  lemma {:induction false} FailedRequestExactly(h: Heap, size: u32, m0: Ram, t0: set<nat>, m: Ram, start: nat)
    requires Accounted(h.frames) && Malloc(h, size).1 == 0
    requires Imaged(m0, t0, start) && Spared(m0, t0, m, h.frames.taken, start)
    ensures var g := Malloc(h, size).0;
            && (Accounted(g.frames) && Spared(m0, t0, Cleared(m, 0, size), g.frames.taken, start)
                <==> Harmless(size, start))
            && (Accounted(g.frames) ==> g == h)
            && (Harmless(size, start) ==> g == h)
  {
    ImagedSpared(m0, t0, m, h.frames.taken, start);
    assert 0 in Span(0, start + 1);
    FailedBooks(h, size);
    if Harmless(size, start) {
      assert forall b :: b in Span(0, BlocksFor(size)) ==> b in Span(0, start + 1);
    } else {
      assert 4096 * start / 4096 == start && start in Span(0, start + 1);
      assert Cleared(m, 0, size)[4096 * start] == 0;
    }
  }

  lemma FailedBooks(h: Heap, size: u32)
    requires Accounted(h.frames) && 0 in h.frames.taken && Malloc(h, size).1 == 0
    ensures var g := Malloc(h, size).0;
            && (Accounted(g.frames) <==> Span(0, BlocksFor(size)) <= h.frames.taken)
            && (Accounted(g.frames) ==> g == h) && h.frames.taken <= g.frames.taken
  {
    if size <= 4096 {
      AllocOneTakesLowest(h.frames);
    } else {
      FailedManyHarmlessExactly(h.frames, BlocksFor(size));
    }
  }

  /** Every extent in the table lies in the address range the bitmap covers. */
  ghost predicate TableInRange(table: seq<Extent>) {
    forall i :: 0 <= i < |table| ==> table[i].start / 4096 + table[i].blocks <= 32 * PMM_MAX_BLOCKS
  }

  /** What opening a file must leave alone: the blocks in use from the kernel's image on, the range of
      the table and the books. A failing request of its own may clear what is below the image. */
  ghost predicate Lawful(h: Heap, m: Ram, o: Outcome, m': Ram, start: nat) {
    && Accounted(o.heap.frames) && o.heap.frames.size == h.frames.size && |o.heap.table| == |h.table|
    && TableInRange(o.heap.table)
    && Spared(m, h.frames.taken, m', o.heap.frames.taken, start)
    && (o.file.Opened? ==> o.file.size < 0x8000_0000)
  }

  ghost predicate Courteous(name: FileName, start: nat) {
    forall h: Heap, m: Ram {:trigger name.fill(h, m)} ::
      Accounted(h.frames) && 0 in h.frames.taken && TableInRange(h.table) ==>
        Lawful(h, m, name.open(h), name.fill(h, m), start)
  }

  /** The allocator after n requests for one block each. */
  ghost function TakeEach(f: Frames, n: nat): Frames
    decreases n
  {
    if n == 0 then f else TakeEach(AllocOne(f).0, n - 1)
  }

  lemma {:induction false} TakeEachKeeps(f: Frames, n: nat)
    requires Accounted(f) && 0 in f.taken
    ensures var g := TakeEach(f, n); Accounted(g) && f.taken <= g.taken && g.size == f.size
    decreases n
  {
    if n > 0 {
      AllocOneTakesLowest(f);
      TakeEachKeeps(AllocOne(f).0, n - 1);
    }
  }

  /** Memory with the given blocks cleared. */
  ghost function Blank(m: Ram, blocks: set<nat>): (r: Ram)
    ensures |r| == |m| && forall a :: 0 <= a < |m| ==> r[a] == if a / 4096 in blocks then 0 else m[a]
  {
    seq(|m|, a requires 0 <= a < |m| => if a / 4096 in blocks then 0 else m[a])
  }

  /** Opening a file in the way the source does, with n requests of kzalloc for a block or less each and
      the table of extents left alone, is courteous, whatever n. */
  lemma {:induction false} SmallRequestsCourteous(n: nat, file: OpenFile, start: nat)
    requires file.Opened? ==> file.size < 0x8000_0000
    ensures var name := FileName(
              (h: Heap) => Outcome(file, h.(frames := TakeEach(h.frames, n))),
              (h: Heap, m: Ram) => Blank(m, TakeEach(h.frames, n).taken - h.frames.taken));
            Courteous(name, start)
  {
    forall h: Heap, m: Ram | Accounted(h.frames) && 0 in h.frames.taken && TableInRange(h.table)
      ensures Lawful(h, m, Outcome(file, h.(frames := TakeEach(h.frames, n))),
                     Blank(m, TakeEach(h.frames, n).taken - h.frames.taken), start)
    {
      hide Accounted, Blank, TakeEach;
      TakeEachKeeps(h.frames, n);
    }
  }

  /** The size to allocate for a file; files of 2 GiB and more do not occur. */
  function SizeOf(file: OpenFile): u32 {
    if file.Opened? && file.size < 0x8000_0000 then file.size else 0
  }

  /** Opening the file, once the process record is allocated. */
  ghost function Opening(h: Heap, name: FileName): Outcome {
    name.open(Malloc(h, PROCESS_RECORD_SIZE).0)
  }

  ghost function AfterRead(h: Heap, name: FileName): Heap {
    Malloc(Opening(h, name).heap, SizeOf(Opening(h, name).file)).0
  }

  ghost function AfterProgram(h: Heap, name: FileName): Heap {
    Malloc(AfterRead(h, name), STACK_SIZE).0
  }

  /** There is room for the process record, then for a file of the size found, then for the stack. */
  ghost predicate ProgramFits(h: Heap, name: FileName) {
    && HasRoom(h.frames, PROCESS_RECORD_SIZE)
    && Opening(h, name).file.Opened? && HasRoom(Opening(h, name).heap.frames, SizeOf(Opening(h, name).file))
    && HasRoom(AfterRead(h, name).frames, STACK_SIZE)
  }

  /** There is a block for the task record and 1026 for the address space. */
  ghost predicate TaskFits(h: Heap) {
    h.frames.free >= 1027
  }

  /** The heap with every block used up. */
  ghost function Spent(h: Heap): Heap {
    h.(frames := Frames(Span(0, h.frames.size), h.frames.size, 0, h.frames.size))
  }

  ghost predicate RoomFor(h: Heap, name: FileName) {
    ProgramFits(h, name) && TaskFits(AfterProgram(h, name))
  }

  /** Whether a load whose program or stack does not fit does no harm: the request that fails decides.
      Missing files, unreadable ones and tasks that do not fit never do any. */
  ghost predicate ReadHarmless(h: Heap, name: FileName, start: nat) {
    if !HasRoom(h.frames, PROCESS_RECORD_SIZE) then Harmless(PROCESS_RECORD_SIZE, start)
    else BinaryHarmless(Malloc(h, PROCESS_RECORD_SIZE).0, name, start)
  }

  ghost predicate BinaryHarmless(h: Heap, name: FileName, start: nat) {
    var o := name.open(h);
    o.file.Missing? || HasRoom(o.heap.frames, SizeOf(o.file)) || Harmless(SizeOf(o.file), start)
  }

  /** With the program in place, only the stack is left to fail. */
  ghost predicate StackHarmless(h: Heap, name: FileName, start: nat) {
    HasRoom(AfterRead(h, name).frames, STACK_SIZE) || Harmless(STACK_SIZE, start)
  }

  lemma FailedTaskSpared(m0: Ram, f0: Frames, m1: Ram, f1: Frames, m: Ram, f: Frames, t: nat, n: nat)
    requires Took(f0, f1, {t}, 1) && Untouched(m0, m1, {t}) && f1.taken <= f.taken
    requires Untouched(m1, m, (f.taken - f1.taken) + {0, t}) && n > 0
    ensures Spared(m0, f0.taken, m, f.taken, n)
  {
    UntouchedTrans(m0, m1, m, {t}, (f.taken - f1.taken) + {0, t}, (f.taken - f0.taken) + {0});
    SparedBy(m0, f0.taken, m, f.taken, n, (f.taken - f0.taken) + {0});
  }

  lemma NewTaskSpared(m0: Ram, f0: Frames, m: Ram, f: Frames, m': Ram, f': Frames, t: nat, c: nat, d: nat, n: nat)
    requires Took(f0, f, {t}, 1) && Untouched(m0, m, {t}) && Granted(m, f, m', f', c, d, 5)
    ensures Spared(m0, f0.taken, m', f'.taken, n)
  {
    hide Untouched, Directory, Identity, Chunk;
    TookSpared(m0, f0, m, f, n, {t}, 1);
    SparedBy(m, f.taken, m', f'.taken, n, ChunkBlocks(m', c, d));
    SparedTrans(m0, f0.taken, m, f.taken, m', f'.taken, n);
  }

  lemma AllTakenSteady(f: Frames, g: Frames)
    requires Accounted(f) && 0 in f.taken && g.taken == Span(0, f.size)
    ensures f.taken <= g.taken && 0 in g.taken
  {
  }

  /** paging_align_address. */
  function AlignAddress(x: u32): u32 {
    if x % 4096 != 0 then Wrap(x + 4096 - x % 4096) else x
  }

  lemma {:induction false} AlignIs(b: nat, size: nat)
    requires b + (size + 4095) / 4096 < 0x10_0000
    ensures 4096 * b + size < 0x1_0000_0000
    ensures AlignAddress(4096 * b + size) == 4096 * (b + (size + 4095) / 4096)
  {
    var x, n := 4096 * b + size, (size + 4095) / 4096;
    assert x % 4096 == size % 4096;
    if x % 4096 != 0 {
      assert x + 4096 - x % 4096 == 4096 * (b + n);
      WrapSmall(4096 * (b + n));
    }
  }

  /** The memories and allocator states along process_load_for_slot: at its start, with the process
      record in place and the file opened, with the program, the stack, the task record, and the
      address space. */
  datatype Allocation = Allocation(
    m0: Ram, m1: Ram, m2: Ram, m3: Ram, m4: Ram, m5: Ram,
    f0: Frames, f1: Frames, f2: Frames, f3: Frames, f4: Frames, f5: Frames,
    img: Image)

  lemma PagesAre(size: u32)
    requires size > 0
    ensures BlocksFor(size) == (size as int + 4095) / 4096
  {
  }

  /** Opening the file keeps the process record, and what else was in use. */
  ghost predicate RecordHeld(f0: Frames, f1: Frames, record: set<nat>) {
    && Accounted(f1) && f1.size == f0.size < 0x10_0000
    && record !! f0.taken && f0.taken + record <= f1.taken
  }

  /** The part of an allocation that precedes the task. */
  ghost predicate ProgramAllocated(a: Allocation) {
    var img := a.img;
    && RecordHeld(a.f0, a.f1, Span(img.record, 2)) && 4096 * a.f0.size <= |a.m0| == |a.m1|
    && |img.data| > 0 && img.ptr + Pages(img) <= a.f2.size && img.stack + 4 <= a.f3.size
    && 4096 * img.ptr + |img.data| <= |a.m2|
    && a.m2[4096 * img.ptr..4096 * img.ptr + |img.data|] == img.data
    && Took(a.f1, a.f2, Span(img.ptr, Pages(img)), Pages(img)) && Untouched(a.m1, a.m2, Span(img.ptr, Pages(img)))
    && Took(a.f2, a.f3, Span(img.stack, 4), 4) && Untouched(a.m2, a.m3, Span(img.stack, 4))
    && Zeroed(a.m3, img.stack)
  }

  ghost predicate Allocated(a: Allocation) {
    && ProgramAllocated(a)
    && Took(a.f3, a.f4, {a.img.task}, 1) && Untouched(a.m3, a.m4, {a.img.task})
    && Granted(a.m4, a.f4, a.m5, a.f5, a.img.chunk, a.img.dir, 5) && a.img.tables == TablesOf(a.m5, a.img.dir)
  }

  lemma AllocatedApart(a: Allocation)
    requires Allocated(a)
    ensures Apart(a.m4, a.m5, a.img)
    ensures AllBlocks(a.img) !! a.f0.taken && a.f0.taken <= a.f1.taken && a.f5.taken == a.f1.taken + AllBlocks(a.img)
    ensures Pages(a.img) + 1026 <= a.f0.size
  {
    hide Accounted, Took, Untouched, Granted, Span, Apart, AllBlocks, Pages;
    PartsApart(a.f0, a.f1, a.f2, a.f3, a.f4, a.m4, a.m5, a.f5, a.img);
  }

  lemma AllocatedRoom(a: Allocation)
    requires ProgramAllocated(a)
    ensures a.f2.size == a.f3.size == a.f0.size && |a.m2| == |a.m0|
  {
    hide Span, Accounted, Pages;
  }

  /** What is allocated can be mapped. */
  lemma AllocatedReady(a: Allocation)
    requires Allocated(a)
    ensures var img := a.img;
            && Directory(a.m5, img.dir) && Chunk(a.m5, img.chunk, img.dir)
            && (forall p :: 0 <= p < 0x10_0000 ==> View(a.m5, img.dir)[p] == 4096 * p + 5)
            && 0x400 + Pages(img) <= 0x10_0000 && img.ptr + Pages(img) < 0x10_0000 && img.stack + 4 < 0x10_0000
  {
    AllocatedApart(a);
    AllocatedRoom(a);
    hide Directory, Chunk, View, Untouched, Granted, Span, Accounted, Took, AllBlocks, TableBlocks;
  }

  /** What is allocated and mapped is loaded, ... */
  lemma AllocatedLoads(a: Allocation, m6: Ram)
    requires Allocated(a) && Directory(a.m5, a.img.dir) && SameFrames(a.m5, m6, a.img.dir)
    requires forall p :: 0 <= p < 0x10_0000 ==> View(m6, a.img.dir)[p] == ExpectedEntry(a.img, p)
    ensures Loaded(m6, a.img)
  {
    hide Directory, View, Granted, Span, Accounted, Loaded, ExpectedEntry, Pages;
    hide AllBlocks, Untouched, Took, SameFrames, Apart;
    AllocatedApart(a);
    AllocatedRoom(a);
    LoadedFromParts(a.m2, a.m3, a.m4, a.m5, m6, a.img);
  }

  /** ... with an empty stack, ... */
  lemma AllocatedEmpty(a: Allocation, m6: Ram)
    requires Allocated(a) && Directory(a.m5, a.img.dir) && SameFrames(a.m5, m6, a.img.dir)
    ensures Zeroed(m6, a.img.stack)
  {
    hide Directory, View, Granted, Span, Accounted, Zeroed, Cell, Pages, Untouched, Took, Chunk;
    AllocatedApart(a);
    ZeroedFrame(a.m3, a.m4, a.img.stack, {a.img.task});
    ZeroedFrame(a.m4, a.m5, a.img.stack, TableBlocks(a.img) + {a.img.chunk});
    ZeroedFrame(a.m5, m6, a.img.stack, a.img.tables);
  }

  /** ... in blocks that were free before, and with nothing else in use written since. */
  lemma AllocatedFresh(a: Allocation, m6: Ram, reserved: nat)
    requires Allocated(a) && Directory(a.m5, a.img.dir) && SameFrames(a.m5, m6, a.img.dir)
    requires Spared(a.m0, a.f0.taken, a.m5, a.f5.taken, reserved)
    ensures AllBlocks(a.img) !! a.f0.taken && a.f5.taken == a.f1.taken + AllBlocks(a.img)
    ensures Spared(a.m0, a.f0.taken, m6, a.f5.taken, reserved)
  {
    hide Directory, Granted, Span, Accounted, Pages, Untouched, Took, View, Chunk, Spared;
    AllocatedApart(a);
    SparedThen(a.m0, a.f0.taken, a.m5, a.f5.taken, m6, a.f5.taken, reserved, a.img.tables);
  }

  /** One more program, loaded without disturbing the others or the kernel. */
  lemma {:induction false} OneMoreSpared(m: Ram, m': Ram, images: seq<Image>, img: Image, taken: set<nat>,
      taken': set<nat>, s: Space, reserved: nat, n: nat)
    requires Housed(m, taken, images, s, reserved) && Spared(m, taken, m', taken', n) && n <= reserved
    requires Loaded(m', img) && AllBlocks(img) !! taken && AllBlocks(img) <= taken'
    ensures Housed(m', taken', images + [img], s, reserved)
  {
    hide Loaded, AllBlocks, Spared, Span, SpaceBlocks, SpaceIn;
    OwnTaken(m, images, taken, KernelOwn(s, reserved));
    HousedSpared(m, images, taken, s, reserved, m', taken', n);
    hide KernelOwn;
  }

  ghost function TablesOf(m: Ram, d: nat): set<nat> {
    if Directory(m, d) then Tables(m, d) else {}
  }

  /** Sets taken one after the other, each off all before it. */
  lemma TakenInTurn(t0: set<nat>, t1: set<nat>, record: set<nat>, program: set<nat>, stack: set<nat>,
      task: set<nat>, space: set<nat>)
    requires record !! t0 && t0 + record <= t1
    requires program !! t1 && stack !! t1 + program && task !! t1 + program + stack
    requires space !! t1 + program + stack + task
    ensures program !! stack && program + stack !! space + record + task
    ensures program + stack + (space + record + task) !! t0
    ensures t1 + program + stack + task + space == t1 + (program + stack + (space + record + task))
    ensures task !! space
  {
  }

  /** The blocks handed out one after the other do not meet, and leave room below 4 GiB. */
  lemma PartsApart(f0: Frames, f1: Frames, f2: Frames, f3: Frames, f4: Frames, m4: Ram, m5: Ram, f5: Frames, img: Image)
    requires RecordHeld(f0, f1, Span(img.record, 2)) && Took(f1, f2, Span(img.ptr, Pages(img)), Pages(img))
    requires Took(f2, f3, Span(img.stack, 4), 4) && Took(f3, f4, {img.task}, 1)
    requires Granted(m4, f4, m5, f5, img.chunk, img.dir, 5) && img.tables == TablesOf(m5, img.dir)
    ensures Apart(m4, m5, img)
    ensures AllBlocks(img) !! f0.taken && f0.taken <= f1.taken && f5.taken == f1.taken + AllBlocks(img)
    ensures Pages(img) + 1026 <= f0.size
  {
    hide Directory, Chunk, Tables, View, DirectoryFlags, Span, Pages, Cell, Or32, Accounted, Untouched, Identity;
    FreeWithinSize(f1);
    GrantedIs(m4, f4, m5, f5, img);
    hide Granted, TableBlocks;
    TakenInTurn(f0.taken, f1.taken, Span(img.record, 2), Span(img.ptr, Pages(img)), Span(img.stack, 4), {img.task},
                TableBlocks(img) + {img.chunk});
    BlocksInTurn(img, Span(img.ptr, Pages(img)) + Span(img.stack, 4), TableBlocks(img) + {img.chunk});
  }

  lemma BlocksInTurn(img: Image, program: set<nat>, space: set<nat>)
    requires program == Span(img.ptr, Pages(img)) + Span(img.stack, 4) && space == TableBlocks(img) + {img.chunk}
    ensures ProgramBlocks(img) == program && KernelBlocks(img) == space + Span(img.record, 2) + {img.task}
    ensures AllBlocks(img) == program + (space + Span(img.record, 2) + {img.task})
  {
  }

  /** What a granted address space means for the program's image. */
  lemma GrantedIs(m4: Ram, f4: Frames, m5: Ram, f5: Frames, img: Image)
    requires Granted(m4, f4, m5, f5, img.chunk, img.dir, 5) && img.tables == TablesOf(m5, img.dir)
    ensures Directory(m5, img.dir) && Tables(m5, img.dir) == img.tables && Chunk(m5, img.chunk, img.dir)
    ensures forall p :: 0 <= p < 0x10_0000 ==>
              DirectoryFlags(m5, img.dir, p) == 7 && View(m5, img.dir)[p] == 4096 * p + 5
    ensures Untouched(m4, m5, TableBlocks(img) + {img.chunk}) && img.chunk !in TableBlocks(img)
    ensures TableBlocks(img) + {img.chunk} !! f4.taken && f5.taken == f4.taken + (TableBlocks(img) + {img.chunk})
    ensures f5.free == f4.free - 1026
  {
    hide Directory, Chunk, Tables, View, DirectoryFlags, Cell, Or32, Untouched;
    FiveOrTwo();
  }

  lemma FreeWithinSize(f: Frames)
    requires Accounted(f)
    ensures f.free <= f.size
  {
  }

  lemma FiveOrTwo()
    ensures Or32(5, 2) == 7
  {
    assert Or(5, 2) == 2 * Or(2, 1) + 1;
    assert Or(2, 1) == 2 * Or(1, 0) + 1;
    OrZero(1);
  }

  lemma GrantedGrows(m: Ram, f: Frames, m': Ram, f': Frames, c: nat, d: nat)
    requires Granted(m, f, m', f', c, d, 5)
    ensures f'.size == f.size && f.taken <= f'.taken
  {
    hide Directory, Chunk, Identity, Untouched, Span;
  }
}
