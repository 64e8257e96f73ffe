/** src/task/process.c, with task_new of src/task/task.c: loading programs as processes. */
module Kernels {
  import opened Bits
  import opened Frames
  import opened PhysicalMemory
  import opened HeapState
  import opened KernelHeap
  import opened HeapOwnership
  import opened Memory
  import opened PageTables
  import opened Directories
  import opened PagingUnit
  import opened DiskStreams
  import opened Division
  import opened FatChains
  import opened FatReading
  import opened Links
  import opened Scheduling
  import opened Tasks
  import opened Images
  import opened Loading

  const MAX_PROCESSES: nat := 12

  class Process {
    var id: nat
    var ptr: u32
    var stack: u32
    var size: u32
    var task: Task?

    constructor ()
      ensures id == 0 && ptr == 0 && stack == 0 && size == 0 && task == null
    {
      id, ptr, stack, size, task := 0, 0, 0, 0, null;
    }
  }

  /** A task about to run a program from its first instruction, with an empty stack. */
  ghost predicate AtStart(task: Task)
    reads task
  {
    task.registers == Registers(0, 0, 0, 0, 0, 0, 0, 0x40_0000, USER_CODE_SEGMENT, 0, 0x3F_F000, USER_DATA_SEGMENT)
  }

  /** Task i of the list runs the program of image i: chunk and record are the image's. */
  ghost predicate Matched(tasks: seq<Task>, images: seq<Image>)
    reads tasks
  {
    && |tasks| == |images|
    && forall i :: 0 <= i < |images| ==>
         tasks[i].pageDirectory == 4096 * images[i].chunk && tasks[i].record == 4096 * images[i].task
  }

  /** A request that succeeds takes its blocks; one that fails without harm takes none. */
  lemma Requested(h: Heap, size: u32, start: nat)
    requires start >= 1 && Span(0, start + 1) <= h.frames.taken && Accounted(h.frames) && TableInRange(h.table)
    ensures var g := Malloc(h, size).0;
            && (HasRoom(h.frames, size) ==>
                  && g.frames.used == h.frames.used + BlocksFor(size) && h.frames.taken <= g.frames.taken
                  && Span(0, start + 1) <= g.frames.taken && Accounted(g.frames) && g.frames.size == h.frames.size
                  && TableInRange(g.table))
            && (!HasRoom(h.frames, size) && Harmless(size, start) ==> g == h)
  {
    hide Malloc, Accounted, Took, HasRoom, Span, TableInRange;
    assert 0 in Span(0, start + 1);
    HasRoomExactly(h, size);
    if HasRoom(h.frames, size) {
      MallocTakes(h, size);
      GrantedInRange(h, size);
    } else if Harmless(size, start) {
      FailedBooks(h, size);
      assert Span(0, BlocksFor(size)) <= Span(0, start + 1);
    }
  }

  lemma GrantedInRange(h: Heap, size: u32)
    requires Accounted(h.frames) && 0 in h.frames.taken && TableInRange(h.table) && Malloc(h, size).1 != 0
    ensures TableInRange(Malloc(h, size).0.table)
  {
    hide Accounted, Took;
    MallocTakes(h, size);
  }

  /** Opening a file keeps the books, and what was in use. */
  lemma OpenedBooks(h: Heap, name: FileName, start: nat)
    requires Courteous(name, start) && Accounted(h.frames) && 0 in h.frames.taken && TableInRange(h.table)
    ensures var o := name.open(h);
            && Accounted(o.heap.frames) && TableInRange(o.heap.table) && o.heap.frames.size == h.frames.size
            && h.frames.taken <= o.heap.frames.taken
  {
    hide Accounted, TableInRange;
    var m: Ram := [];
    assert Lawful(h, m, name.open(h), name.fill(h, m), start);
  }

  /** The allocator takes over another state: what an unknown caller did with it. */
  method Adopt(pmm: Pmm, f: Frames)
    requires pmm.Valid() && f.taken <= Span(0, 32 * PMM_MAX_BLOCKS) && f.size == pmm.systemSize
    modifies pmm, pmm.memoryMap
    ensures pmm.Valid() && pmm.State() == f
  {
    hide Pmm.Taken;
    ghost var was := pmm.Taken();
    var b := 0;
    while b < 32 * PMM_MAX_BLOCKS
      modifies pmm.memoryMap
      invariant b <= 32 * PMM_MAX_BLOCKS
      invariant pmm.Taken() == (was - Span(0, b)) + (f.taken * Span(0, b))
    {
      if b in f.taken { pmm.MemoryMapSet(b); } else { pmm.MemoryMapUnset(b); }
      b := b + 1;
    }
    pmm.usedBlocks, pmm.freeBlocks := f.used, f.free;
    InMapOnly(pmm);
  }

  lemma InMapOnly(pmm: Pmm)
    requires pmm.Valid()
    ensures pmm.Taken() <= Span(0, 32 * PMM_MAX_BLOCKS)
  {
  }

  class Kernel {
    const ram: array<byte>
    const pmm: Pmm
    const heap: Kheap
    const paging: Paging
    const fat: Fat16
    const list: TaskList
    const processes: array<Process?>
    /** The address of the chunk of the kernel's own address space. */
    const kernelChunk: u32
    /** The programs loaded so far; the number of blocks set aside for the kernel, the one among them
        in which its image begins, and its address space. */
    ghost var images: seq<Image>
    ghost const reserved: nat
    ghost const start: nat
    ghost const space: Space

    /** The parts belong together, and the kernel's image begins in a reserved block but block 0. */
    ghost predicate Wired() {
      && heap.pmm == pmm && paging.pmm == pmm && paging.ram == ram
      && fat.Valid() && processes.Length == MAX_PROCESSES && 1 <= start < reserved
      && kernelChunk == 4096 * space.chunk
    }

    /** The file is there, not empty, and its chain is long enough. */
    ghost predicate Loadable(file: OpenFile)
      requires fat.Valid()
    {
      && file.Opened? && 0 < file.size < 0x8000_0000
      && Reaches(fat.disk.image, fat.geometry, file.firstCluster, 0, file.size)
    }

    /** The image's data is the file's. */
    ghost predicate FromFile(img: Image, file: OpenFile)
      requires fat.Valid()
    {
      && file.Opened? && |img.data| == file.size
      && Reaches(fat.disk.image, fat.geometry, file.firstCluster, 0, file.size)
      && img.data == ReadData(fat.disk.image, fat.geometry, file.firstCluster, 0, file.size)
    }

    constructor (ram: array<byte>, pmm: Pmm, heap: Kheap, paging: Paging, fat: Fat16, list: TaskList,
        kernelChunk: u32, ghost reserved: nat, ghost start: nat, ghost space: Space)
      requires heap.pmm == pmm && paging.pmm == pmm && paging.ram == ram && fat.Valid() && 1 <= start < reserved
      requires kernelChunk == 4096 * space.chunk
      ensures Wired() && fresh(processes) && forall i :: 0 <= i < MAX_PROCESSES ==> processes[i] == null
      ensures this.ram == ram && this.pmm == pmm && this.heap == heap && this.paging == paging
      ensures this.fat == fat && this.list == list && images == []
      ensures this.reserved == reserved && this.start == start && this.space == space
    {
      this.ram, this.pmm, this.heap, this.paging, this.fat, this.list := ram, pmm, heap, paging, fat, list;
      this.kernelChunk := kernelChunk;
      processes := new Process?[MAX_PROCESSES](_ => null);
      this.reserved, this.start, this.space, images := reserved, start, space, [];
    }

    /** The allocator, the heap and the kernel's address space as kernel_main sets them up, in a memory
        that holds the kernel's image from block start on. The address space takes 1026 blocks; with
        these, the kernel is valid, with nothing loaded and its own directory in CR3. With fewer there
        is no chunk to go on with. */
    static method Boot(ram: array<byte>, systemMemorySize: u32, reservedForKernel: u32, fat: Fat16, ghost start: nat)
        returns (k: Kernel?)
      requires 1 <= start < reservedForKernel as nat <= systemMemorySize as nat < 0x10_0000
      requires 4096 * systemMemorySize as nat <= ram.Length && fat.Valid() && ram[4096 * start] != 0
      modifies ram
      ensures k != null <==> systemMemorySize - reservedForKernel >= 1026
      ensures k != null ==>
                && fresh(k) && fresh(k.pmm) && fresh(k.pmm.memoryMap) && fresh(k.heap) && fresh(k.heap.bigBlocks)
                && fresh(k.paging) && fresh(k.list) && k.ram == ram && k.fat == fat
                && k.reserved == reservedForKernel as nat && k.start == start
                && k.Valid() && k.images == [] && k.list.tasks == []
                && k.paging.currentDirectory == 4096 * k.space.dir
                && |SpaceBlocks(k.space)| == 1026
                && k.pmm.State() ==
                   Frames(KernelOwn(k.space, k.reserved), reservedForKernel + 1026,
                     systemMemorySize - reservedForKernel - 1026, systemMemorySize)
                && Untouched(old(ram[..]), ram[..], SpaceBlocks(k.space))
    {
      hide Pmm.Taken, Accounted, Untouched, SpaceBlocks, Housed, Imaged, SpaceIn, KernelOwn, TaskList.Spine;
      hide LinkedBack;
      var pmm, heap, paging := BootMemory(ram, systemMemorySize, reservedForKernel);
      var chunk, s := BootSpace(paging, reservedForKernel, start);
      if chunk == 0 { return null; }
      var list := new TaskList();
      k := new Kernel(ram, pmm, heap, paging, fat, list, chunk, reservedForKernel, start, s);
      NothingLoaded(ram[..], s, reservedForKernel, pmm.Taken());
    }

    /** The allocator, the heap and the paging unit. */
    static method BootMemory(ram: array<byte>, systemMemorySize: u32, reservedForKernel: u32)
        returns (pmm: Pmm, heap: Kheap, paging: Paging)
      requires reservedForKernel <= systemMemorySize < 0x10_0000 && 4096 * systemMemorySize as nat <= ram.Length
      ensures fresh(pmm) && fresh(pmm.memoryMap) && fresh(heap) && fresh(heap.bigBlocks) && fresh(paging)
      ensures heap.Valid() && heap.InMap() && heap.pmm == pmm
      ensures paging.Valid() && paging.ram == ram && paging.pmm == pmm
      ensures Accounted(pmm.State())
      ensures pmm.State() ==
              Frames(Span(0, reservedForKernel), reservedForKernel, systemMemorySize - reservedForKernel,
                systemMemorySize)
    {
      hide Pmm.Taken, Accounted;
      pmm := new Pmm();
      ghost var f := pmm.State();
      pmm.Init(systemMemorySize, reservedForKernel);
      InitAccountedExactly(f, PMM_MAX_BLOCKS, systemMemorySize, reservedForKernel);
      assert pmm.Taken() == Span(0, reservedForKernel);
      WrapSmall(systemMemorySize - reservedForKernel);
      heap := new Kheap(pmm);
      paging := new Paging(ram, pmm);
    }

    /** The kernel's own address space, switched to. */
    static method BootSpace(paging: Paging, reservedForKernel: u32, ghost start: nat)
        returns (chunk: u32, ghost s: Space)
      requires paging.Valid() && Accounted(paging.pmm.State()) && 1 <= start < reservedForKernel as nat
      requires paging.pmm.Taken() == Span(0, reservedForKernel) && paging.pmm.usedBlocks == reservedForKernel
      requires 4096 * start < paging.ram.Length && paging.ram[4096 * start] != 0
      requires paging.pmm.systemSize < 0x10_0000
      modifies paging.ram, paging, paging.pmm, paging.pmm.memoryMap
      ensures paging.Valid() && Accounted(paging.pmm.State())
      ensures chunk != 0 <==> old(paging.pmm.freeBlocks) >= 1026
      ensures chunk != 0 ==>
                && chunk == 4096 * s.chunk && paging.currentDirectory == 4096 * s.dir
                && SpaceIn(paging.ram[..], s) && |SpaceBlocks(s)| == 1026
                && SpaceBlocks(s) !! Span(0, reservedForKernel)
                && Untouched(old(paging.ram[..]), paging.ram[..], SpaceBlocks(s))
                && Imaged(paging.ram[..], paging.pmm.Taken(), start)
                && paging.pmm.State() ==
                   Frames(KernelOwn(s, reservedForKernel), reservedForKernel + 1026,
                     old(paging.pmm.freeBlocks) - 1026, old(paging.pmm.systemSize))
    {
      hide Pmm.Taken, Accounted, Granted, Cell, Untouched, SpaceBlocks, Imaged, SpaceIn, KernelOwn, Directory;
      ghost var m, f := paging.ram[..], paging.pmm.State();
      BootImage(m, f, reservedForKernel, start);
      ghost var d;
      chunk, d := paging.New4gb(7);
      s := Space(chunk / 4096, d, TablesOf(paging.ram[..], d));
      if chunk == 0 { return; }
      SpaceGranted(m, f, paging.ram[..], paging.pmm.State(), s, reservedForKernel);
      ImagedStill(m, paging.ram[..], f.taken, paging.pmm.Taken(), s, start);
      SpaceChunk(paging.ram[..], s);
      var directory := LoadCell(paging.ram, chunk / 4096, 0);
      paging.Switch(directory);
    }

    /** The allocator's books are in order, and memory ends below 4 GiB. */
    ghost predicate Books()
      reads pmm, pmm.memoryMap, heap, heap.bigBlocks
    {
      && Wired() && heap.Valid() && heap.InMap() && Accounted(pmm.State())
      && pmm.systemSize < 0x10_0000 && 4096 * pmm.systemSize <= ram.Length
    }

    /** The books are in order, and the kernel's image is in its place, in blocks not for hire. */
    ghost predicate Steady()
      reads pmm, pmm.memoryMap, heap, heap.bigBlocks, ram
    {
      Books() && Imaged(ram[..], pmm.Taken(), start)
    }

    /** Whatever happened since memory was m and the blocks in taken were in use, the books are in
        order and none of those was written from the kernel's image on. */
    ghost predicate Safe(m: Ram, taken: set<nat>)
      reads pmm, pmm.memoryMap, heap, heap.bigBlocks, ram
    {
      Books() && Spared(m, taken, ram[..], pmm.Taken(), start)
    }

    lemma SafeSteady(m: Ram, taken: set<nat>)
      requires Safe(m, taken) && Imaged(m, taken, start)
      ensures Steady()
    {
      hide Pmm.Taken, Accounted, Spared, Imaged, Kheap.InMap;
      ImagedSpared(m, taken, ram[..], pmm.Taken(), start);
    }

    lemma SteadyZero()
      requires Steady()
      ensures 0 in pmm.Taken() && Accounted(pmm.State()) && pmm.Valid()
    {
      hide Pmm.Taken, Accounted, Kheap.InMap;
      assert 0 in Span(0, start + 1);
    }

    /** The kernel, its address space and every program loaded so far are intact, no block is two of
        theirs, and the programs' tasks are in the list. */
    ghost predicate Valid()
      reads this, pmm, pmm.memoryMap, heap, heap.bigBlocks, ram, list, list.tasks
    {
      && Steady() && list.Valid() && Housed(ram[..], pmm.Taken(), images, space, reserved)
      && Matched(list.tasks, images)
    }

    lemma SafeLoads(m: Ram, taken: set<nat>)
      requires Safe(m, taken) && Imaged(m, taken, start) && Housed(m, taken, images, space, reserved)
      requires list.Valid() && Matched(list.tasks, images)
      ensures Valid()
    {
      hide Pmm.Taken, Housed, Accounted, TaskList.Valid, Spared, Imaged, Kheap.InMap;
      SafeSteady(m, taken);
      HousedSpared(m, images, taken, space, reserved, ram[..], pmm.Taken(), start);
    }

    /** A change that kept the kernel steady and spared what is in use above the reserved blocks. */
    lemma SteadyLoads(m: Ram, taken: set<nat>)
      requires Steady() && Spared(m, taken, ram[..], pmm.Taken(), reserved)
      requires Housed(m, taken, images, space, reserved) && list.Valid() && Matched(list.tasks, images)
      ensures Valid()
    {
      hide Pmm.Taken, Housed, Accounted, TaskList.Valid, Spared, Imaged, Kheap.InMap;
      HousedSpared(m, images, taken, space, reserved, ram[..], pmm.Taken(), reserved);
    }

    /** A change of the reserved blocks behind the one the kernel's image begins in. */
    lemma ReservedWritten(m: Ram, blocks: set<nat>)
      requires Books() && Imaged(m, pmm.Taken(), start) && Housed(m, pmm.Taken(), images, space, reserved)
      requires list.Valid() && Matched(list.tasks, images)
      requires Untouched(m, ram[..], blocks) && forall b :: b in blocks ==> start < b < reserved
      ensures Valid()
    {
      hide Pmm.Taken, Housed, Accounted, TaskList.Valid, Imaged, Kheap.InMap, Matched;
      ImagedUntouched(m, pmm.Taken(), ram[..], pmm.Taken(), start, blocks);
      SparedBy(m, pmm.Taken(), ram[..], pmm.Taken(), reserved, blocks);
      SteadyLoads(m, pmm.Taken());
    }

    /** A store in user mode by the task of program i, to a page it may write. */
    lemma UserWrote(m: Ram, was: seq<Image>, i: nat, virt: u32, c: byte)
      requires Books() && Imaged(m, pmm.Taken(), start) && Housed(m, pmm.Taken(), was, space, reserved)
      requires list.Valid() && Matched(list.tasks, was) && i < |was|
      requires Directory(m, was[i].dir) && UserWritable(m, was[i].dir, virt / 4096)
      requires Translate(m, was[i].dir, virt) < |m| && ram[..] == m[Translate(m, was[i].dir, virt) := c]
      requires images == was[i := Stored(was[i], virt, c)]
      ensures Valid()
    {
      hide Pmm.Taken, Accounted, TaskList.Valid, Imaged, Kheap.InMap, AllLoaded, SpaceIn, SpaceBlocks, Stored;
      hide Directory, UserWritable, Translate, Span, ProgramBlocks;
      var a, own := Translate(m, was[i].dir, virt), KernelOwn(space, reserved);
      StoreKeepsAll(m, was, pmm.Taken(), own, i, virt, c);
      WritesOffKernel(m, was, pmm.Taken(), own, i, a / 4096);
      assert Untouched(m, ram[..], {a / 4096});
      InReserved(start, reserved);
      ImagedUntouched(m, pmm.Taken(), ram[..], pmm.Taken(), start, {a / 4096});
      SpaceFrame(m, ram[..], space, {a / 4096});
    }

    /** No task can write a block of another's, or of the kernel: reserved blocks, the kernel's page tables
        and chunk, or what it keeps for any program. */
    lemma {:induction false} Isolated(i: nat, j: nat)
      requires Valid() && i < |images| && j < |images|
      ensures Directory(ram[..], images[i].dir) && Directory(ram[..], images[j].dir)
      ensures var w := WritableBlocks(ram[..], images[i].dir);
              && w == ProgramBlocks(images[i]) && w !! Span(0, reserved) && w !! SpaceBlocks(space)
              && w !! KernelBlocks(images[j])
              && (i != j ==> w !! WritableBlocks(ram[..], images[j].dir))
      ensures Directory(ram[..], space.dir) && Blocks(ram[..], space.dir) + {space.chunk} == SpaceBlocks(space)
    {
      hide Pmm.Taken, Kernel.Steady, TaskList.Valid, Matched, AllLoaded, WritableBlocks, Directory, View, Chunk;
      Images.Isolation(ram[..], images, pmm.Taken(), KernelOwn(space, reserved), i, j);
    }

    /** With the image a stack's size above address 0, a load that fails does harm exactly when it is
        the request for the program that fails, and that reaches into the image. */
    lemma {:induction false} OnlyBigFilesHarm(h: Heap, name: FileName)
      requires fat.Valid() && start >= 4
      ensures LoadHarmless(h, name) <==>
              var o := Opening(h, name);
              HasRoom(h.frames, PROCESS_RECORD_SIZE) && o.file.Opened? && !HasRoom(o.heap.frames, SizeOf(o.file)) ==>
                SizeOf(o.file) <= 4096 * start
    {
      hide HasRoom, Kernel.Loadable;
    }

    /** Whether a load that fails does no harm; what was in use then is as before. */
    ghost predicate LoadHarmless(h: Heap, name: FileName)
      requires fat.Valid()
    {
      ReadHarmless(h, name, start) && (CanRead(h, name) ==> StackHarmless(h, name, start))
    }

    /** The heap a load that fails leaves behind: nothing of what it took is given back. */
    ghost function AfterFailedLoad(h: Heap, name: FileName): Heap
      requires fat.Valid()
    {
      if !HasRoom(h.frames, PROCESS_RECORD_SIZE) then Malloc(h, PROCESS_RECORD_SIZE).0
      else if Opening(h, name).file.Missing? then Opening(h, name).heap
      else if !CanRead(h, name) then AfterRead(h, name)
      else if !HasRoom(AfterRead(h, name).frames, STACK_SIZE) then AfterProgram(h, name)
      else Spent(AfterProgram(h, name))
    }

    /** How many blocks a load that fails without harm costs. The request that fails takes nothing, and
        what was taken before it stays taken: the two blocks of the record, what opening the file took,
        and the program's blocks; a task that does not fit takes all there are. */
    lemma {:induction false} FailedLoadLoses(h: Heap, name: FileName)
      requires fat.Valid() && start >= 1 && Span(0, start + 1) <= h.frames.taken && Accounted(h.frames)
      requires TableInRange(h.table) && Courteous(name, start) && LoadHarmless(h, name)
      ensures var g, o, held := AfterFailedLoad(h, name), Opening(h, name), Malloc(h, PROCESS_RECORD_SIZE).0;
              if !HasRoom(h.frames, PROCESS_RECORD_SIZE) then g == h
              else
                && held.frames.used == h.frames.used + 2 && h.frames.taken <= held.frames.taken <= o.heap.frames.taken
                && if o.file.Missing? || !HasRoom(o.heap.frames, SizeOf(o.file)) then g == o.heap
                   else if !Loadable(o.file) || !HasRoom(AfterRead(h, name).frames, STACK_SIZE) then
                     && g.frames.used == o.heap.frames.used + BlocksFor(SizeOf(o.file))
                     && o.heap.frames.taken <= g.frames.taken
                   else g.frames.used == g.frames.size == h.frames.size && g.frames.free == 0
    {
      hide Malloc, Accounted, Took, HasRoom, Span, Reaches, TableInRange, Spared;
      var held, o := Malloc(h, PROCESS_RECORD_SIZE).0, Opening(h, name);
      Requested(h, PROCESS_RECORD_SIZE, start);
      if HasRoom(h.frames, PROCESS_RECORD_SIZE) {
        assert BlocksFor(PROCESS_RECORD_SIZE) == 2;
        OpenedBooks(held, name, start);
        if o.file.Opened? {
          Requested(o.heap, SizeOf(o.file), start);
          if CanRead(h, name) { Requested(AfterRead(h, name), STACK_SIZE, start); }
        }
      }
    }

    /** Record and program fit, and the file can be read to its end. */
    ghost predicate CanRead(h: Heap, name: FileName)
      requires fat.Valid()
    {
      && HasRoom(h.frames, PROCESS_RECORD_SIZE) && Loadable(Opening(h, name).file)
      && HasRoom(Opening(h, name).heap.frames, SizeOf(Opening(h, name).file))
    }

    /** Writes beyond the end of memory have no effect. */
    method Memset(ptr: nat, c: byte, size: nat)
      modifies ram
      ensures forall k :: 0 <= k < ram.Length ==> ram[k] == if ptr <= k < ptr + size then c else old(ram[k])
    {
      var i := 0;
      while i < size
        invariant i <= size
        invariant forall k :: 0 <= k < ram.Length ==> ram[k] == if ptr <= k < ptr + i then c else old(ram[k])
      {
        if ptr + i < ram.Length { ram[ptr + i] := c; }
        i := i + 1;
      }
    }

    /** kzalloc: size bytes cleared, from the new blocks' beginning or, when there are none, from
        address 0 on. */
    method Kzalloc(size: u32) returns (addr: u32)
      requires Steady()
      modifies ram, pmm, pmm.memoryMap, heap.bigBlocks
      ensures heap.Valid() && heap.InMap() && pmm.systemSize == old(pmm.systemSize)
      ensures (heap.State(), addr) == Malloc(old(heap.State()), size)
      ensures addr != 0 <==> HasRoom(old(pmm.State()), size)
      ensures ram[..] == Cleared(old(ram[..]), addr, size)
      ensures Safe(old(ram[..]), old(pmm.Taken())) <==> addr != 0 || Harmless(size, start)
      ensures addr == 0 && Harmless(size, start) ==> Steady() && heap.State() == old(heap.State())
      ensures addr != 0 ==>
                && Steady() && addr % 4096 == 0 && addr / 4096 + BlocksFor(size) <= pmm.systemSize
                && Took(old(pmm.State()), pmm.State(), Span(addr / 4096, BlocksFor(size)), BlocksFor(size))
                && Untouched(old(ram[..]), ram[..], Span(addr / 4096, BlocksFor(size)))
    {
      hide Pmm.Taken, Malloc, Accounted, Untouched, Span, Spared, Took, Harmless, HasRoom, Cleared, Imaged;
      ghost var h, m := heap.State(), ram[..];
      SteadyZero();
      addr := heap.Kmallac(size);
      MallocTakes(h, size);
      MallocKeepsSize(h, size);
      HasRoomExactly(h, size);
      Memset(addr, 0, size);
      assert ram[..] == Cleared(m, addr, size);
      if addr == 0 {
        SparedBy(m, h.frames.taken, m, h.frames.taken, start, {}) by { UntouchedSelf(m, {}); }
        FailedRequestExactly(h, size, m, h.frames.taken, m, start);
        if Harmless(size, start) { SafeSteady(m, h.frames.taken); }
      } else {
        ClearedUntouched(m, addr / 4096, size, BlocksFor(size));
        TookSpared(m, h.frames, ram[..], pmm.State(), start, Span(addr / 4096, BlocksFor(size)), BlocksFor(size));
        SafeSteady(m, h.frames.taken);
      }
    }

    /** A kzalloc that failed, seen from an earlier state since which nothing in use was written. */
    lemma FailedSince(m0: Ram, t0: set<nat>, m: Ram, h: Heap, size: u32)
      requires Wired() && heap.Valid() && heap.State() == Malloc(h, size).0 && Malloc(h, size).1 == 0
      requires Accounted(h.frames) && Spared(m0, t0, m, h.frames.taken, start) && Imaged(m0, t0, start)
      requires ram[..] == Cleared(m, 0, size) && heap.InMap()
      requires pmm.systemSize < 0x10_0000 && 4096 * pmm.systemSize <= ram.Length
      ensures Safe(m0, t0) <==> Harmless(size, start)
    {
      hide Pmm.Taken, Malloc, Accounted, Spared, Harmless, Cleared, Imaged;
      FailedRequestExactly(h, size, m0, t0, m, start);
    }

    /** fopen and fstat, on a name as the unknown functions behind it have it. */
    method Open(name: FileName) returns (file: OpenFile)
      requires Steady() && Courteous(name, start)
      modifies ram, pmm, pmm.memoryMap, heap.bigBlocks
      ensures Steady() && Outcome(file, heap.State()) == name.open(old(heap.State()))
      ensures ram[..] == name.fill(old(heap.State()), old(ram[..]))
      ensures Lawful(old(heap.State()), old(ram[..]), Outcome(file, heap.State()), ram[..], start)
      ensures Safe(old(ram[..]), old(pmm.Taken()))
    {
      hide Pmm.Taken, Accounted, Spared, Imaged;
      SteadyZero();
      var h := heap.State();
      var o, after := name.open(h), name.fill(h, ram[..]);
      ghost var m := ram[..];
      assert Lawful(h, m, o, after, start);
      LawfulRange(h, m, o, after, start);
      forall k | 0 <= k < ram.Length { ram[k] := after[k]; }
      assert ram[..] == after;
      Adopt(pmm, o.heap.frames);
      forall i | 0 <= i < BIG_ADDRESS { heap.bigBlocks[i] := o.heap.table[i]; }
      assert heap.bigBlocks[..] == o.heap.table;
      assert ram[..] == after && pmm.Taken() == o.heap.frames.taken;
      SafeSteady(m, h.frames.taken);
      file := o.file;
    }

    /** The fread of a whole file into the blocks at pointer. */
    method ReadInto(file: OpenFile, pointer: u32) returns (count: int)
      requires Wired() && file.Opened? && file.size < 0x8000_0000 && pointer % 4096 == 0
      requires pointer as nat + file.size <= ram.Length
      modifies ram, fat.clusterReadStream, fat.fatReadStream
      ensures count > 0 <==> Reaches(fat.disk.image, fat.geometry, file.firstCluster, 0, file.size)
      ensures count > 0 ==> ram[..][pointer..pointer as nat + file.size] ==
                            ReadData(fat.disk.image, fat.geometry, file.firstCluster, 0, file.size)
      ensures Untouched(old(ram[..]), ram[..], Span(pointer / 4096, BlocksFor(file.size)))
    {
      hide Untouched, Reaches, ReadData;
      ghost var m := ram[..];
      OneItem(fat.disk.image, fat.geometry, file.firstCluster, file.size);
      count := fat.Read(file.firstCluster, 0, file.size, 1, ram, pointer);
      FilledUntouched(m, ram[..], pointer / 4096, file.size, BlocksFor(file.size));
    }

    /** process_load_binary: the file's bytes in fresh blocks. m and f are memory and allocator once
        the file is opened; m0 and t0 an earlier state since which nothing in use was written. */
    method LoadBinary(name: FileName, process: Process, ghost m0: Ram, ghost t0: set<nat>)
      returns (r: int, ghost m: Ram, ghost f: Frames)
      requires Steady() && Courteous(name, start) && Safe(m0, t0) && Imaged(m0, t0, start)
      modifies ram, pmm, pmm.memoryMap, heap.bigBlocks, fat.clusterReadStream, fat.fatReadStream, process`ptr,
          process`size
      ensures heap.Valid()
      ensures var o := name.open(old(heap.State()));
              r == if Loadable(o.file) && HasRoom(o.heap.frames, SizeOf(o.file)) then 1 else -1
      ensures Safe(m0, t0) <==> BinaryHarmless(old(heap.State()), name, start)
      ensures var o := name.open(old(heap.State()));
              && f == o.heap.frames && Lawful(old(heap.State()), old(ram[..]), o, m, start)
              && heap.State() == if o.file.Missing? then o.heap else Malloc(o.heap, SizeOf(o.file)).0
      ensures r == 1 ==>
                var file := name.open(old(heap.State())).file;
                && Steady() && 0 < file.size == process.size && process.ptr % 4096 == 0
                && var b, n := process.ptr as nat / 4096, BlocksFor(file.size);
                && b + n <= pmm.systemSize
                && Took(f, pmm.State(), Span(b, n), n) && Untouched(m, ram[..], Span(b, n))
                && 4096 * b + file.size <= ram.Length
                && ram[..][4096 * b..4096 * b + file.size] ==
                   ReadData(fat.disk.image, fat.geometry, file.firstCluster, 0, file.size)
    {
      hide Pmm.Taken, Malloc, Accounted, Took, Untouched, Reaches, ReadData, Kheap.InMap, Spared, Harmless, HasRoom;
      hide Cleared, Imaged, TableInRange;
      ghost var first, taken := ram[..], pmm.Taken();
      r := -1;
      var file := Open(name);
      m, f := ram[..], pmm.State();
      SparedTrans(m0, t0, first, taken, m, f.taken, start);
      if file.Missing? { return; }
      ghost var h := heap.State();
      var pointer := Kzalloc(file.size);
      if pointer == 0 {
        FailedSince(m0, t0, m, h, file.size);
        return;
      }
      SafeFrom(m0, t0, m, f.taken);
      if file.size == 0 { return; }
      ghost var m1, b: nat, n := ram[..], pointer / 4096, BlocksFor(file.size);
      var count := ReadInto(file, pointer);
      UntouchedTrans(m, m1, ram[..], Span(b, n), Span(b, n), Span(b, n));
      TookSpared(m, f, ram[..], pmm.State(), start, Span(b, n), n);
      SafeFrom(m0, t0, m, f.taken);
      SafeSteady(m0, t0);
      if count <= 0 { return; }
      process.ptr := pointer;
      process.size := file.size;
      r := 1;
    }

    lemma SafeFrom(m0: Ram, t0: set<nat>, m: Ram, t: set<nat>)
      requires Spared(m0, t0, m, t, start) && Safe(m, t)
      ensures Safe(m0, t0)
    {
      hide Pmm.Taken, Accounted, Kheap.InMap;
      SparedTrans(m0, t0, m, t, ram[..], pmm.Taken(), start);
    }

    /** task_init on the record in block t: an identity-mapped address space that user mode may
        read, the registers a program starts with, and the pointer to the process. */
    method TaskInit(record: u32, process: u32) returns (task: Task?, ghost d: nat, ghost m: Ram)
      requires Steady() && record % 4096 == 0 && start < record as nat / 4096
      modifies ram, pmm, pmm.memoryMap
      ensures task != null <==> old(pmm.freeBlocks) >= 1026
      ensures task == null ==>
                && Steady() && old(pmm.Taken()) <= pmm.Taken()
                && pmm.State() == Frames(Span(0, pmm.systemSize), pmm.systemSize, 0, pmm.systemSize)
                && pmm.systemSize == old(pmm.systemSize)
                && Untouched(old(ram[..]), ram[..], (pmm.Taken() - old(pmm.Taken())) + {0, record as nat / 4096})
      ensures task != null ==>
                && Steady() && fresh(task) && task.next == null && task.prev == null
                && AtStart(task)
                && task.pageDirectory % 4096 == 0 && task.record == record && task.process == process
                && Untouched(old(ram[..]), m, {record as nat / 4096})
                && Granted(m, old(pmm.State()), ram[..], pmm.State(), task.pageDirectory / 4096, d, 5)
    {
      hide Pmm.Taken, Accounted, Untouched, Kheap.InMap, Granted, Imaged;
      SteadyZero();
      ghost var t: nat, m1 := record / 4096, ram[..];
      assert record == 4096 * t;
      Memset(record, 0, 64);
      m := ram[..];
      assert Span(t, 1) == {t};
      assert m == Cleared(m1, 4096 * t, 64);
      ClearedUntouched(m1, t, 64, 1);
      ghost var f := pmm.State();
      var chunk;
      chunk, d := paging.New4gb(5);
      if chunk == 0 {
        AllTakenSteady(f, pmm.State());
        UntouchedTrans(m1, m, ram[..], {t}, (pmm.Taken() - f.taken) + {0}, (pmm.Taken() - f.taken) + {0, t});
        ImageTaken(m1, f.taken, start);
        ImagedUntouched(m1, f.taken, ram[..], pmm.Taken(), start, (pmm.Taken() - f.taken) + {0, t});
        return null, d, m;
      }
      GrantedGrows(m, f, ram[..], pmm.State(), chunk / 4096, d);
      ImagedUntouched(m1, f.taken, m, f.taken, start, {t});
      ImagedGranted(m, f, ram[..], pmm.State(), chunk / 4096, d, start);
      task := new Task(record, chunk, process);
    }

    /** task_new up to the list: the record and its contents. m and f are memory and allocator before the
        address space was made. */
    method MakeTask(process: u32)
      returns (task: Task?, record: u32, ghost t: nat, ghost d: nat, ghost m: Ram, ghost f: Frames)
      requires Steady()
      modifies ram, pmm, pmm.memoryMap, heap.bigBlocks
      ensures task != null <==> TaskFits(old(heap.State()))
      ensures Safe(old(ram[..]), old(pmm.Taken())) && Steady()
      ensures task == null ==> heap.State() == Spent(old(heap.State()))
      ensures task != null ==>
                && fresh(task) && task.next == null && task.prev == null && AtStart(task)
                && task.pageDirectory % 4096 == 0
                && Took(old(pmm.State()), f, {t}, 1) && Untouched(old(ram[..]), m, {t})
                && Granted(m, f, ram[..], pmm.State(), task.pageDirectory / 4096, d, 5)
                && record != 0 && record == 4096 * t && heap.bigBlocks[..] == old(heap.bigBlocks[..])
                && task.record == record && task.process == process
    {
      hide Pmm.Taken, Malloc, Accounted, Took, Untouched, Kheap.InMap, Granted, Spared, Harmless, Imaged;
      SteadyZero();
      ghost var m0, h, f0 := ram[..], heap.State(), pmm.State();
      task, d, m, f := null, 0, m0, f0;
      record := Kzalloc(64);
      SmallRequest(h, start);
      t := record / 4096;
      if record == 0 { return; }
      AboveImage(m0, f0, pmm.State(), t, start);
      assert Span(t, 1) == {t};
      ghost var m1 := ram[..];
      f := pmm.State();
      TookOne(f0, f, t);
      task, d, m := TaskInit(record, process);
      if task == null {
        FailedTaskSpared(m0, f0, m1, f, ram[..], pmm.State(), t, start);
        return;
      }
      UntouchedTrans(m0, m1, m, {t}, {t}, {t});
      NewTaskSpared(m0, f0, m, f, ram[..], pmm.State(), t, task.pageDirectory / 4096, d, start);
    }

    /** task_new: the task, and the last place in the list. */
    method NewTask(process: u32)
      returns (task: Task?, record: u32, ghost t: nat, ghost d: nat, ghost m: Ram, ghost f: Frames)
      requires Steady() && list.Valid()
      modifies ram, pmm, pmm.memoryMap, heap.bigBlocks, list, list.tasks`next
      ensures task != null <==> TaskFits(old(heap.State()))
      ensures Safe(old(ram[..]), old(pmm.Taken())) && Steady()
      ensures task == null ==>
                list.Valid() && list.tasks == old(list.tasks) && heap.State() == Spent(old(heap.State()))
      ensures task != null ==>
                && list.Valid() && fresh(task) && list.tasks == old(list.tasks) + [task]
                && AtStart(task)
                && task.pageDirectory % 4096 == 0
                && Took(old(pmm.State()), f, {t}, 1) && Untouched(old(ram[..]), m, {t})
                && Granted(m, f, ram[..], pmm.State(), task.pageDirectory / 4096, d, 5)
                && record != 0 && record == 4096 * t && heap.bigBlocks[..] == old(heap.bigBlocks[..])
                && task.record == record && task.process == process
    {
      hide Pmm.Taken, Accounted, Took, Untouched, Kheap.InMap, Granted, TaskList.Spine, LinkedBack, Spared, Imaged;
      hide Spent;
      task, record, t, d, m, f := MakeTask(process);
      if task == null { return; }
      list.Append(task);
    }

    /** task_free on the record at an address: the address space, the place in the list, the record.
        Removing a task that is not the last leaves the back links of the list in disorder. */
    method TaskFree(task: Task, record: u32, ghost d: nat, ghost index: nat)
      requires Wired() && heap.Valid() && heap.InMap() && paging.Valid()
      requires list.Valid() && index < |list.tasks| && list.tasks[index] == task
      requires task.pageDirectory % 4096 == 0 && Directory(ram[..], d) && Chunk(ram[..], task.pageDirectory / 4096, d)
      requires task.pageDirectory / 4096 !in Blocks(ram[..], d) && 4096 * d < 0x1_0000_0000
      modifies pmm, pmm.memoryMap, heap.bigBlocks, list, list.tasks`next
      ensures heap.Valid()
      ensures heap.State() ==
              Free(old(heap.State()).(frames := Returned(old(pmm.State()), ram[..],
                task.pageDirectory as nat / 4096, d)), record)
      ensures list.tasks == old(list.tasks)[..index] + old(list.tasks)[index + 1..]
      ensures list.Forward() && (list.Valid() <==> old(list.taskTail) == task)
    {
      hide Pmm.Taken, Free, Returned, Directory, Chunk, Linked, LinkedBack, Distinct;
      paging.Free4gb(task.pageDirectory, d);
      list.ListRemove(task, index);
      heap.Kfree(record);
    }

    /** process_map_memory over process_map_binary. */
    method MapMemory(process: Process, task: Task, ghost img: Image)
      requires task.pageDirectory % 4096 == 0 && task.pageDirectory as nat / 4096 == img.chunk
      requires Wired() && Directory(ram[..], img.dir) && Chunk(ram[..], img.chunk, img.dir)
      requires forall p :: 0 <= p < 0x10_0000 ==> View(ram[..], img.dir)[p] == 4096 * p + 5
      requires process.ptr == 4096 * img.ptr && process.stack == 4096 * img.stack && process.size == |img.data|
      requires 0x400 + Pages(img) <= 0x10_0000 && img.ptr + Pages(img) < 0x10_0000 && img.stack + 4 < 0x10_0000
      modifies ram
      ensures SameFrames(old(ram[..]), ram[..], img.dir)
      ensures forall p :: 0 <= p < 0x10_0000 ==> View(ram[..], img.dir)[p] == ExpectedEntry(img, p)
    {
      hide Cell, View, Directory, Mapped, AlignAddress, Wrap;
      ghost var d, m0 := img.dir, ram[..];
      AlignIs(img.ptr, |img.data|);
      AlignIs(img.stack, 16384);
      var directory := LoadCell(ram, task.pageDirectory / 4096, 0);
      assert directory == 4096 * d;
      var r := paging.MapTo(directory, PROGRAM_VIRTUAL_ADDRESS, process.ptr,
          AlignAddress(process.ptr + process.size), 7);
      ghost var m1 := ram[..];
      r := paging.MapTo(directory, PROGRAM_VIRTUAL_STACK_ADDRESS_START - STACK_SIZE, process.stack,
                        AlignAddress(process.stack + STACK_SIZE), 7);
      ghost var m2 := ram[..];
      SameFramesTrans(m0, m1, m2, d);
      r := paging.MapTo(directory, PROGRAM_VIRTUAL_STACK_ADDRESS_START - STACK_SIZE, process.stack,
                        AlignAddress(process.stack + STACK_SIZE), 7);
      SameFramesTrans(m0, m2, ram[..], d);
      ThreeMappings(View(m0, d), View(m1, d), View(m2, d), View(ram[..], d), img);
    }

    /** The process record: zeroed when allocated, and once more by process_init. */
    method NewRecord() returns (record: u32)
      requires Steady()
      modifies ram, pmm, pmm.memoryMap, heap.bigBlocks
      ensures heap.Valid() && (heap.State(), record) == Malloc(old(heap.State()), PROCESS_RECORD_SIZE)
      ensures record != 0 <==> HasRoom(old(pmm.State()), PROCESS_RECORD_SIZE)
      ensures Safe(old(ram[..]), old(pmm.Taken())) <==> record != 0 || Harmless(PROCESS_RECORD_SIZE, start)
      ensures ram[..] == Cleared(old(ram[..]), record, PROCESS_RECORD_SIZE)
      ensures record != 0 ==>
                && Steady() && record % 4096 == 0
                && Took(old(pmm.State()), pmm.State(), Span(record / 4096, 2), 2)
    {
      hide Pmm.Taken, Malloc, Accounted, Took, Untouched, Kheap.InMap, Spared, Harmless, HasRoom, Cleared, Imaged;
      ghost var m0 := ram[..];
      record := Kzalloc(PROCESS_RECORD_SIZE);
      if record == 0 { return; }
      ghost var m1 := ram[..];
      assert BlocksFor(PROCESS_RECORD_SIZE) == 2;
      Memset(record, 0, PROCESS_RECORD_SIZE);
      assert ram[..] == m1;
    }

    /** process_load_for_slot up to the stack: the process record in block t, and the program with
        the file's bytes in it. m and f are memory and allocator once the file is opened. */
    method ReadProgram(name: FileName)
      returns (process: Process?, record: u32, ghost t: nat, ghost m: Ram, ghost f: Frames)
      requires Steady() && Courteous(name, start)
      modifies ram, pmm, pmm.memoryMap, heap.bigBlocks, fat.clusterReadStream, fat.fatReadStream
      ensures heap.Valid() && (process != null <==> CanRead(old(heap.State()), name))
      ensures Safe(old(ram[..]), old(pmm.Taken())) <==> ReadHarmless(old(heap.State()), name, start)
      ensures process == null ==> heap.State() == AfterFailedLoad(old(heap.State()), name)
      ensures process != null ==>
                var file := Opening(old(heap.State()), name).file;
                && Steady() && heap.State() == AfterRead(old(heap.State()), name)
                && fresh(process) && process.size == file.size && process.ptr % 4096 == 0
                && f == Opening(old(heap.State()), name).heap.frames
                && record == 4096 * t && RecordHeld(old(pmm.State()), f, Span(t, 2)) && |m| == ram.Length
                && var b, n := process.ptr as nat / 4096, BlocksFor(file.size);
                && b + n <= pmm.systemSize && 4096 * b + file.size <= ram.Length
                && Took(f, pmm.State(), Span(b, n), n) && Untouched(m, ram[..], Span(b, n))
                && ram[..][4096 * b..4096 * b + file.size] ==
                   ReadData(fat.disk.image, fat.geometry, file.firstCluster, 0, file.size)
    {
      hide Pmm.Taken, Malloc, Took, Untouched, Kheap.InMap, Reaches, ReadData, Span, Spared, Accounted;
      hide Harmless, HasRoom, Cleared, Courteous, BinaryHarmless, Imaged;
      ghost var m0, f0 := ram[..], pmm.State();
      process, t, m, f := null, 0, m0, f0;
      record := NewRecord();
      if record == 0 { return; }
      t := record / 4096;
      ghost var h1, m1, f1 := heap.State(), ram[..], pmm.State();
      var p := new Process();
      var loaded;
      loaded, m, f := LoadBinary(name, p, m0, f0.taken);
      RecordKept(m0, f0, m1, f1, m, f, t, name.open(h1), h1, start);
      if loaded < 0 { return; }
      process := p;
    }

    /** The memory process_load_for_slot allocates before it makes the task: the process record,
        the program with the file's bytes in it, and the stack. */
    method AllocateProgram(name: FileName) returns (process: Process?, record: u32, ghost a: Allocation)
      requires Steady() && Courteous(name, start)
      modifies ram, pmm, pmm.memoryMap, heap.bigBlocks, fat.clusterReadStream, fat.fatReadStream
      ensures heap.Valid()
      ensures process != null <==>
              Loadable(Opening(old(heap.State()), name).file) && ProgramFits(old(heap.State()), name)
      ensures Safe(old(ram[..]), old(pmm.Taken())) <==> LoadHarmless(old(heap.State()), name)
      ensures process == null ==> heap.State() == AfterFailedLoad(old(heap.State()), name)
      ensures process != null ==>
                && Safe(old(ram[..]), old(pmm.Taken())) && Steady()
                && heap.State() == AfterProgram(old(heap.State()), name)
                && fresh(process) && process.size == |a.img.data| && record == 4096 * a.img.record
                && process.ptr == 4096 * a.img.ptr && process.stack == 4096 * a.img.stack
                && FromFile(a.img, Opening(old(heap.State()), name).file)
                && ProgramAllocated(a) && a.m0 == old(ram[..]) && a.f0 == old(pmm.State())
                && a.f1 == Opening(old(heap.State()), name).heap.frames
                && a.m3 == ram[..] && a.f3 == pmm.State()
    {
      hide Pmm.Taken, Malloc, Took, Untouched, Kheap.InMap, Reaches, ReadData, Span, Spared, Accounted;
      hide Harmless, HasRoom, Cleared, Courteous, BinaryHarmless, RecordHeld, Imaged, Kernel.AfterFailedLoad, Zeroed;
      process := null;
      ghost var h0, m0, f0 := heap.State(), ram[..], pmm.State();
      a := Allocation(m0, m0, m0, m0, m0, m0, f0, f0, f0, f0, f0, f0, Image(0, [], 0, 0, 0, {}, 0, 0));
      var p, address, t, m1, f1 := ReadProgram(name);
      record := address;
      if p == null { return; }
      ghost var h2, m2, f2 := heap.State(), ram[..], pmm.State();
      ReadIsSafe(h0, name);
      SteadyZero();
      var stack := Kzalloc(STACK_SIZE);
      if stack == 0 {
        FailedSince(m0, f0.taken, m2, h2, STACK_SIZE);
        return;
      }
      SafeFrom(m0, f0.taken, m2, f2.taken);
      p.stack := stack;
      ghost var file := Opening(h0, name).file;
      ghost var data := ReadData(fat.disk.image, fat.geometry, file.firstCluster, 0, file.size);
      a := a.(m1 := m1, m2 := m2, m3 := ram[..], f1 := f1, f2 := f2, f3 := pmm.State(),
              img := Image(p.ptr / 4096, data, stack / 4096, 0, 0, {}, t, 0));
      process := p;
      PagesAre(file.size);
      assert BlocksFor(STACK_SIZE) == 4;
      ClearedZeroed(m2, stack / 4096);
    }

    lemma ClearedZeroed(m: Ram, b: nat)
      requires 4096 * b + 16384 <= |m|
      ensures Zeroed(Cleared(m, 4096 * b, STACK_SIZE), b)
    {
    }

    /** process_load_for_slot up to the mapping: everything the program needs is allocated, its
        file read and its task made. */
    method Allocate(name: FileName) returns (process: Process?, task: Task?, ghost a: Allocation)
      requires Steady() && list.Valid() && Courteous(name, start)
      modifies ram, pmm, pmm.memoryMap, heap.bigBlocks, fat.clusterReadStream, fat.fatReadStream
      modifies list, list.tasks`next
      ensures heap.Valid() && (process == null <==> task == null)
      ensures process != null <==> Loadable(Opening(old(heap.State()), name).file) && RoomFor(old(heap.State()), name)
      ensures Safe(old(ram[..]), old(pmm.Taken())) <==> LoadHarmless(old(heap.State()), name)
      ensures process == null ==>
                && list.Valid() && list.tasks == old(list.tasks)
                && heap.State() == AfterFailedLoad(old(heap.State()), name)
      ensures process != null ==>
                && Safe(old(ram[..]), old(pmm.Taken())) && list.Valid() && fresh(process) && fresh(task)
                && list.tasks == old(list.tasks) + [task]
                && AtStart(task)
                && process.size == |a.img.data|
                && process.ptr == 4096 * a.img.ptr && process.stack == 4096 * a.img.stack
                && task.pageDirectory == 4096 * a.img.chunk && task.record == 4096 * a.img.task
                && task.process == 4096 * a.img.record
                && FromFile(a.img, Opening(old(heap.State()), name).file)
                && Allocated(a) && a.m0 == old(ram[..]) && a.f0 == old(pmm.State())
                && a.f1 == Opening(old(heap.State()), name).heap.frames
                && a.m5 == ram[..] && a.f5 == pmm.State()
    {
      hide Pmm.Taken, Malloc, Accounted, Took, Untouched, Kheap.InMap, Granted, TaskList.Valid, Spared;
      hide Reaches, ReadData, Kheap.State, AtStart, ProgramFits, Opening, AfterProgram;
      hide Kernel.LoadHarmless, Courteous, RecordHeld, Kernel.Loadable, Imaged, Spent;
      process, task := null, null;
      ghost var h0 := heap.State();
      var p, processRecord, program := AllocateProgram(name);
      a := program;
      if p == null { return; }
      ghost var m3, f3 := ram[..], pmm.State();
      var created, taskRecord, t, d, m4, f4 := NewTask(processRecord);
      SafeFrom(a.m0, a.f0.taken, m3, f3.taken);
      if created == null {
        TaskFailed(h0, name);
        return;
      }
      a := a.(m4 := m4, f4 := f4, m5 := ram[..], f5 := pmm.State(),
              img := a.img.(chunk := created.pageDirectory / 4096, dir := d, tables := TablesOf(ram[..], d),
                task := t));
      process, task := p, created;
    }

    lemma TaskFailed(h: Heap, name: FileName)
      requires fat.Valid() && Loadable(Opening(h, name).file) && ProgramFits(h, name)
      ensures AfterFailedLoad(h, name) == Spent(AfterProgram(h, name))
    {
      hide HasRoom, Reaches, Spent, AfterProgram;
    }

    /** process_load_for_slot from the mapping on: with its pages mapped the program is loaded. */
    method MapLoaded(process: Process, task: Task, ghost a: Allocation)
      requires list.Valid() && Housed(a.m0, a.f0.taken, images, space, reserved)
      requires Safe(a.m0, a.f0.taken) && Imaged(a.m0, a.f0.taken, start)
      requires Allocated(a) && a.m5 == ram[..] && a.f5 == pmm.State()
      requires process.ptr == 4096 * a.img.ptr && process.stack == 4096 * a.img.stack && process.size == |a.img.data|
      requires task.pageDirectory == 4096 * a.img.chunk && Matched(list.tasks, images + [a.img])
      modifies ram, this`images
      ensures Valid() && images == old(images) + [a.img]
      ensures Loaded(ram[..], a.img) && Zeroed(ram[..], a.img.stack)
      ensures AllBlocks(a.img) !! a.f0.taken && pmm.Taken() == a.f1.taken + AllBlocks(a.img)
      ensures Spared(a.m0, a.f0.taken, ram[..], pmm.Taken(), start)
    {
      hide Pmm.Taken, Accounted, Untouched, Kheap.InMap, Housed, Allocated, TaskList.Valid, Spared, Imaged;
      hide AllBlocks, Loaded, SameFrames, Directory, View, ExpectedEntry, Chunk, Pages, Zeroed;
      AllocatedReady(a);
      MapMemory(process, task, a.img);
      AllocatedLoads(a, ram[..]);
      AllocatedEmpty(a, ram[..]);
      AllocatedFresh(a, ram[..], start);
      OneMoreSpared(a.m0, ram[..], images, a.img, a.f0.taken, a.f5.taken, space, reserved, start);
      SafeSteady(a.m0, a.f0.taken);
      images := images + [a.img];
    }

    /** process_load_for_slot. It succeeds exactly when the slot is free, the file can be read to its
        end, and the bitmap has room for everything. One that fails gives nothing back; it keeps the
        books in order, and what was in use from the kernel's image on as it was, exactly when the
        request that failed ends below the image; all that was loaded before is then intact. On success
        one more program is loaded: its task, the last in the list, sees the file at 0x400000. */
    method LoadForSlot(name: FileName, slot: nat) returns (r: int, process: Process?, ghost img: Image)
      requires Valid() && slot < MAX_PROCESSES && Courteous(name, start)
      modifies this`images, ram, pmm, pmm.memoryMap, heap.bigBlocks, fat.clusterReadStream, fat.fatReadStream
      modifies list, list.tasks`next, processes
      ensures heap.Valid()
      ensures var h := old(heap.State());
              r == if old(processes[slot]) == null && Loadable(Opening(h, name).file) && RoomFor(h, name) then 1 else -1
      ensures r == -1 ==> processes[..] == old(processes[..]) && images == old(images) && list.tasks == old(list.tasks)
      ensures r == -1 ==>
                heap.State() == if old(processes[slot]) != null then old(heap.State())
                                else AfterFailedLoad(old(heap.State()), name)
      ensures Safe(old(ram[..]), old(pmm.Taken())) <==>
              old(processes[slot]) != null || LoadHarmless(old(heap.State()), name)
      ensures Safe(old(ram[..]), old(pmm.Taken())) ==> Valid()
      ensures r == 1 ==>
                && Valid() && images == old(images) + [img]
                && process != null && processes[..] == old(processes[..])[slot := process]
                && process.id == slot && process.size == |img.data|
                && process.ptr == 4096 * img.ptr && process.stack == 4096 * img.stack
                && Loaded(ram[..], img) && Zeroed(ram[..], img.stack)
                && process.task != null && list.tasks == old(list.tasks) + [process.task]
                && process.task.pageDirectory == 4096 * img.chunk && process.task.record == 4096 * img.task
                && process.task.process == 4096 * img.record && AtStart(process.task)
                && AllBlocks(img) !! old(pmm.Taken())
                && pmm.Taken() == Opening(old(heap.State()), name).heap.frames.taken + AllBlocks(img)
                && FromFile(img, Opening(old(heap.State()), name).file)
    {
      hide Pmm.Taken, Accounted, Untouched, Kheap.InMap, Housed, Allocated, AtStart, Kernel.FromFile, AllBlocks;
      hide TaskList.Valid, RoomFor, Kernel.Loadable, Kheap.State, Kernel.LoadHarmless, Spared, Opening, Courteous;
      hide Imaged, Kernel.AfterFailedLoad, Zeroed, Loaded;
      r, process, img := -1, null, Image(0, [], 0, 0, 0, {}, 0, 0);
      ghost var m0, f0 := ram[..], pmm.State();
      SparedBy(m0, f0.taken, m0, f0.taken, start, {}) by { UntouchedSelf(m0, {}); }
      if processes[slot] != null { return; }
      var p, task, a := Allocate(name);
      if p == null {
        if Safe(m0, f0.taken) { SafeLoads(m0, f0.taken); }
        return;
      }
      p.id := slot;
      p.task := task;
      MapLoaded(p, task, a);
      processes[slot] := p;
      r, process, img := 1, p, a.img;
    }

    lemma ReadIsSafe(h: Heap, name: FileName)
      requires fat.Valid() && CanRead(h, name)
      ensures ReadHarmless(h, name, start)
      ensures LoadHarmless(h, name) <==> StackHarmless(h, name, start)
      ensures AfterFailedLoad(h, name) == if HasRoom(AfterRead(h, name).frames, STACK_SIZE)
                                          then Spent(AfterProgram(h, name)) else AfterProgram(h, name)
    {
      hide HasRoom, Harmless, Reaches;
    }

    /** End to end: at any time while the system is valid, whatever was loaded since, each loaded
        program's task reads, at 0x400000 + k through its own directory, byte k of its file: of the
        concatenated clusters of the file's chain on the disk. */
    lemma {:induction false} ProcessSeesItsFile(i: nat, file: OpenFile, clusters: nat, k: nat)
      requires Valid() && i < |images| && FromFile(images[i], file) && k < file.size
      requires clusters > 0 && file.size <= clusters * ClusterBytes(fat.geometry)
      requires Walk(fat.disk.image, fat.geometry, file.firstCluster, clusters - 1) >= 0
      ensures Directory(ram[..], images[i].dir) && Chunk(ram[..], images[i].chunk, images[i].dir)
      ensures 0x40_0000 + k < 0x1_0000_0000 && Translate(ram[..], images[i].dir, 0x40_0000 + k) < ram.Length
      ensures ram[Translate(ram[..], images[i].dir, 0x40_0000 + k)] ==
              FileData(fat.disk.image, fat.geometry, file.firstCluster, clusters)[k]
    {
      hide Pmm.Taken, Accounted, Kheap.InMap, TaskList.Valid, AllBlocks, SpaceIn, SpaceBlocks;
      hide Walk, Reaches, ReadData, FileData, Directory, Chunk, View;
      assert Loaded(ram[..], images[i]);
      LoadedTaskSeesFile(fat.disk.image, fat.geometry, file.firstCluster, clusters, ram[..], images[i], k);
    }

    method GetFreeSlot() returns (slot: int)
      requires Wired()
      ensures -1 <= slot < MAX_PROCESSES
      ensures slot >= 0 ==> processes[slot] == null && forall i :: 0 <= i < slot ==> processes[i] != null
      ensures slot == -1 ==> forall i :: 0 <= i < MAX_PROCESSES ==> processes[i] != null
    {
      var i := 0;
      while i < MAX_PROCESSES
        invariant i <= MAX_PROCESSES && forall j :: 0 <= j < i ==> processes[j] != null
      {
        if processes[i] == null { return i; }
        i := i + 1;
      }
      return -1;
    }

    /** process_load: into the first free slot. */
    method Load(name: FileName) returns (slot: int, process: Process?, ghost img: Image)
      requires Valid() && Courteous(name, start)
      modifies this`images, ram, pmm, pmm.memoryMap, heap.bigBlocks, fat.clusterReadStream, fat.fatReadStream
      modifies list, list.tasks`next, processes
      ensures heap.Valid() && -1 <= slot < MAX_PROCESSES
      ensures var h := old(heap.State());
              slot >= 0 <==> null in old(processes[..]) && Loadable(Opening(h, name).file) && RoomFor(h, name)
      ensures slot >= 0 ==> null !in old(processes[..slot])
      ensures Safe(old(ram[..]), old(pmm.Taken())) <==>
              null !in old(processes[..]) || LoadHarmless(old(heap.State()), name)
      ensures Safe(old(ram[..]), old(pmm.Taken())) ==> Valid()
      ensures slot == -1 ==>
                && processes[..] == old(processes[..]) && images == old(images) && list.tasks == old(list.tasks)
                && heap.State() == if null in old(processes[..]) then AfterFailedLoad(old(heap.State()), name)
                                   else old(heap.State())
      ensures slot >= 0 ==>
                && Valid() && images == old(images) + [img]
                && old(processes[slot]) == null && processes[slot] == process && process != null
                && process.task != null && list.tasks == old(list.tasks) + [process.task]
                && process.task.pageDirectory == 4096 * img.chunk && AtStart(process.task)
                && FromFile(img, Opening(old(heap.State()), name).file)
                && Loaded(ram[..], img) && Zeroed(ram[..], img.stack)
    {
      hide Housed, AllBlocks, Untouched, Kernel.FromFile, Pmm.Taken, TaskList.Valid, Spared, Opening, Courteous;
      hide Zeroed, Loaded, AtStart;
      hide RoomFor, Kernel.Loadable, Kernel.LoadHarmless, Matched, Imaged, Kernel.AfterFailedLoad, Kheap.State;
      process, img := null, Image(0, [], 0, 0, 0, {}, 0, 0);
      SparedBy(ram[..], pmm.Taken(), ram[..], pmm.Taken(), start, {}) by { UntouchedSelf(ram[..], {}); }
      slot := GetFreeSlot();
      if slot < 0 { return -1, process, img; }
      var r;
      r, process, img := LoadForSlot(name, slot);
      if r != 1 { slot := -1; }
    }
  }

  /** The process record, allocated before the file was opened, is still allocated after. */
  lemma RecordKept(m0: Ram, f0: Frames, m1: Ram, f1: Frames, m: Ram, f: Frames, t: nat, o: Outcome, h: Heap,
      start: nat)
    requires Took(f0, f1, Span(t, 2), 2) && h.frames == f1 && f0.size < 0x10_0000
    requires Lawful(h, m1, o, m, start) && f == o.heap.frames
    ensures RecordHeld(f0, f, Span(t, 2)) && |m| == |m1|
  {
  }

  /** What opening does stays in the range of the bitmap. */
  lemma LawfulRange(h: Heap, m: Ram, o: Outcome, m': Ram, start: nat)
    requires Lawful(h, m, o, m', start)
    ensures o.heap.frames.taken <= Span(0, 32 * PMM_MAX_BLOCKS) && |m'| == |m| && h.frames.taken <= o.heap.frames.taken
  {
  }

  lemma MallocKeepsSize(h: Heap, size: u32)
    ensures Malloc(h, size).0.frames.size == h.frames.size && |Malloc(h, size).0.table| == |h.table|
  {
  }

  lemma TookOne(f: Frames, g: Frames, t: nat)
    requires Took(f, g, {t}, 1)
    ensures g.free == f.free - 1
  {
  }

  /** A request for a small record fails harmlessly, and is never recorded in the table. */
  lemma SmallRequest(h: Heap, start: nat)
    requires Accounted(h.frames) && 0 in h.frames.taken && start >= 1
    ensures Malloc(h, TASK_RECORD_SIZE).0.table == h.table && BlocksFor(TASK_RECORD_SIZE) == 1
    ensures HasRoom(h.frames, TASK_RECORD_SIZE) <==> h.frames.free > 0
    ensures Harmless(TASK_RECORD_SIZE, start)
    ensures h.frames.free == 0 ==> Spent(h) == h
  {
    if h.frames.free == 0 { FreeCountsClearBits(h.frames); }
  }

  /** What is handed out lies above the block the kernel's image begins in. */
  lemma AboveImage(m: Ram, f: Frames, g: Frames, t: nat, start: nat)
    requires Imaged(m, f.taken, start) && Took(f, g, Span(t, 1), 1)
    ensures start < t
  {
    ImageTaken(m, f.taken, start);
    assert t in Span(t, 1);
  }

  lemma ImagedUntouched(m: Ram, taken: set<nat>, m': Ram, taken': set<nat>, start: nat, blocks: set<nat>)
    requires Imaged(m, taken, start) && Untouched(m, m', blocks) && start !in blocks && taken <= taken'
    ensures Imaged(m', taken', start)
  {
    assert 4096 * start / 4096 == start;
  }

  lemma ImagedGranted(m: Ram, f: Frames, m': Ram, f': Frames, c: nat, d: nat, start: nat)
    requires Imaged(m, f.taken, start) && Granted(m, f, m', f', c, d, 5)
    ensures Imaged(m', f'.taken, start)
  {
    hide Untouched, Directory, Identity, Chunk, Imaged, Blocks;
    assert start in f.taken by { ImageTaken(m, f.taken, start); }
    ImagedUntouched(m, f.taken, m', f'.taken, start, ChunkBlocks(m', c, d));
  }

  lemma InReserved(start: nat, reserved: nat)
    requires start < reserved
    ensures start in Span(0, reserved)
  {
  }

  lemma WritesOffKernel(m: Ram, images: seq<Image>, taken: set<nat>, own: set<nat>, i: nat, b: nat)
    requires AllLoaded(m, images, taken, own) && i < |images| && b in ProgramBlocks(images[i])
    ensures b !in own
  {
    hide Loaded, Span;
    assert b in AllBlocks(images[i]);
  }

  lemma ImageTaken(m: Ram, taken: set<nat>, start: nat)
    requires Imaged(m, taken, start)
    ensures forall b: nat {:trigger b in taken} :: b <= start ==> b in taken
  {
    assert forall b: nat {:trigger b in taken} :: b <= start ==> b in Span(0, start + 1);
  }

  /** The kernel's own address space, as it was granted. */
  lemma SpaceGranted(m: Ram, f: Frames, m': Ram, f': Frames, s: Space, reserved: nat)
    requires Accounted(f) && Granted(m, f, m', f', s.chunk, s.dir, 7) && s.tables == TablesOf(m', s.dir)
    requires f.taken == Span(0, reserved) && f.used == reserved <= f.size && f.free == f.size - reserved
    ensures SpaceIn(m', s) && |SpaceBlocks(s)| == 1026 && SpaceBlocks(s) !! Span(0, reserved)
    ensures Untouched(m, m', SpaceBlocks(s)) && f.taken <= f'.taken
    ensures f' == Frames(KernelOwn(s, reserved), reserved + 1026, f.size - reserved - 1026, f.size)
  {
    hide Accounted, SpaceIn, SpaceBlocks, Wrap, Span, Granted, Untouched;
    GrantedParts(m, f, m', f', s.chunk, s.dir, 7);
    WrapFits(f);
    SpaceIs(m', s);
  }

  lemma GrantedParts(m: Ram, f: Frames, m': Ram, f': Frames, c: nat, d: nat, flags: u32)
    requires Granted(m, f, m', f', c, d, flags)
    ensures Directory(m', d) && Chunk(m', c, d) && Identity(m', d, flags)
    ensures var own := ChunkBlocks(m', c, d);
            && own !! f.taken && |own| == 1026 <= f.free && Untouched(m, m', own)
            && f' == Frames(f.taken + own, Wrap(f.used + 1026), f.free - 1026, f.size)
  {
    hide Directory, Chunk, Identity, Untouched, ChunkBlocks, Wrap, Or32, DirectoryFlags, Blocks;
  }

  lemma SpaceIs(m: Ram, s: Space)
    requires Directory(m, s.dir) && Chunk(m, s.chunk, s.dir) && Identity(m, s.dir, 7) && s.tables == TablesOf(m, s.dir)
    ensures SpaceIn(m, s) && ChunkBlocks(m, s.chunk, s.dir) == SpaceBlocks(s)
  {
    hide Directory, Chunk, Tables, View;
  }

  lemma WrapFits(f: Frames)
    requires Accounted(f) && f.free >= 1026
    ensures Wrap(f.used + 1026) == f.used + 1026
  {
  }

  lemma SpaceChunk(m: Ram, s: Space)
    requires SpaceIn(m, s)
    ensures 4096 * s.chunk + 4096 <= |m| && Cell(m, s.chunk, 0) == 4096 * s.dir
  {
    hide Directory, View, Cell;
  }

  lemma BootImage(m: Ram, f: Frames, reserved: u32, start: nat)
    requires Accounted(f) && f.taken == Span(0, reserved) && f.used == reserved && 1 <= start < reserved as nat
    requires 4096 * start < |m| && m[4096 * start] != 0
    ensures 0 in f.taken && Imaged(m, f.taken, start) && f.free == f.size - reserved && reserved <= f.size
  {
  }

  lemma ImagedStill(m: Ram, m': Ram, taken: set<nat>, taken': set<nat>, s: Space, start: nat)
    requires Imaged(m, taken, start) && taken <= taken'
    requires Untouched(m, m', SpaceBlocks(s)) && SpaceBlocks(s) !! taken
    ensures Imaged(m', taken', start)
  {
    hide SpaceBlocks;
    ImageTaken(m, taken, start);
    ImagedUntouched(m, taken, m', taken', start, SpaceBlocks(s));
  }

  lemma NothingLoaded(m: Ram, s: Space, reserved: nat, taken: set<nat>)
    requires SpaceIn(m, s) && SpaceBlocks(s) !! Span(0, reserved) && taken == KernelOwn(s, reserved)
    ensures Housed(m, taken, [], s, reserved)
  {
    hide SpaceIn, SpaceBlocks, Span;
  }

  /** Making a task, mapping anything in its address space, and freeing the task leaves the heap
      as it was. */
  lemma {:induction false} NewTaskThenFree(h: Heap, live: Live, reserved: nat,
      m: Ram, f: Frames, m': Ram, f': Frames, t: nat, c: nat, d: nat, calls: seq<Call>)
    requires Owned(h, live, reserved) && Took(h.frames, f, {t}, 1) && Granted(m, f, m', f', c, d, 5)
    requires t < h.frames.size < 0x10_0000
    ensures var r := Perform(m', d, calls);
            && Directory(r, d) && Chunk(r, c, d)
            && Free(Heap(Returned(f', r, c, d), h.table), 4096 * t) == h
  {
    hide Granted, Returned, Perform, Directory, Chunk;
    FreeNotRecorded(h, live, reserved, t);
    TookAccounted(h.frames, f, t);
    NewThenFreeRestores(m, f, m', f', c, d, 5, calls);
    assert (4096 * t) / 4096 == t && (4096 * t) % 4096 == 0;
    assert f.taken - {t} == h.frames.taken;
  }

  /** No extent in the table begins at a free block. */
  lemma FreeNotRecorded(h: Heap, live: Live, reserved: nat, t: nat)
    requires Owned(h, live, reserved) && t !in h.frames.taken && t < 0x10_0000
    ensures Slot(h.table, 4096 * t, 0) == |h.table|
  {
    forall i | 0 <= i < |h.table| ensures h.table[i].start != 4096 * t {
      var s := h.table[i].start / 4096;
      if h.table[i].start != 0 { assert s in live && s in Span(s, live[s]) && s in Cover(live); }
    }
  }

  lemma TookAccounted(f: Frames, g: Frames, t: nat)
    requires Accounted(f) && Took(f, g, {t}, 1) && t < f.size
    ensures Accounted(g) && g.free + 1 < 0x1_0000_0000
  {
  }

  /** End to end: through its own page directory a loaded program's task finds, at 0x400000 + k,
      byte k of its file: of the clusters of its chain on the disk, one after the other, for
      however many clusters cover the file. */
  lemma {:induction false} LoadedTaskSeesFile(
      image: DiskImage, g: Geometry, first: nat, clusters: nat, m: Ram, img: Image, k: nat)
    requires WellFormed(g) && Loaded(m, img) && k < |img.data|
    requires Reaches(image, g, first, 0, |img.data|) && img.data == ReadData(image, g, first, 0, |img.data|)
    requires clusters > 0 && |img.data| <= clusters * ClusterBytes(g) && Walk(image, g, first, clusters - 1) >= 0
    ensures 0x40_0000 + k < 0x1_0000_0000 && Translate(m, img.dir, 0x40_0000 + k) < |m|
    ensures m[Translate(m, img.dir, 0x40_0000 + k)] == FileData(image, g, first, clusters)[k]
  {
    hide Loaded, ReadData, FileData, Translate, Directory, Walk, Reaches, Rem, Quot;
    SeesItsFile(m, img, k);
    ZeroAligned(g);
    SliceOfLonger(image, g, first, 0, |img.data|, clusters);
    assert img.data[k] == FileData(image, g, first, clusters)[0..|img.data|][k];
  }

  lemma ZeroAligned(g: Geometry)
    requires WellFormed(g)
    ensures Rem(0, ClusterBytes(g)) == 0
  {
    hide Rem, Quot;
    Division.Small(0, ClusterBytes(g));
  }

  lemma OneItem(image: DiskImage, g: Geometry, first: nat, size: nat)
    requires WellFormed(g)
    ensures ItemOffset(0, size, 1) == size && Times(1, size) == size && ItemOffset(0, size, 0) == 0
    ensures Readable(ItemOffset(0, size, 0), size)
    ensures ItemsReach(image, g, first, 0, size, 1) <==> Reaches(image, g, first, 0, size)
    ensures ItemsReach(image, g, first, 0, size, 1) ==>
              ReadItems(image, g, first, 0, size, 1) == ReadData(image, g, first, 0, size)
  {
    hide Reaches, ReadData;
    assert Times(1, size) == Times(0, size) + size;
    NoItems(image, g, first, 0, size);
    NextItem(image, g, first, 0, size, 0, 1);
    assert ItemOffset(0, size, 0) == 0;
  }
}
