/** User mode and the interrupt handlers of src/idt/idt.c in the running kernel, with sys_write of
    src/isr80h/misc.c. */
module SystemCalls {
  import opened Bits
  import opened Frames
  import opened PhysicalMemory
  import opened HeapState
  import opened KernelHeap
  import opened Memory
  import opened PageTables
  import opened Directories
  import opened PagingUnit
  import opened Scheduling
  import opened Tasks
  import opened Images
  import opened Loading
  import opened Kernels
  import opened CopyStrings
  import opened Traps
  import opened UserReturn

  const SYS_WRITE: u32 := 4
  const WRITE_BUFFER_SIZE: u32 := 512

  /** The last depth bytes of the kernel's stack, and a frame at least, lie in the reserved blocks behind
      the one the kernel's image begins in. */
  predicate StackFits(start: nat, reserved: nat, depth: nat) {
    FRAME_BYTES <= depth && 4096 * (start + 1) + depth <= 0x60_0000 <= 4096 * reserved
  }

  class Interrupts {
    const kernel: Kernel
    const system: TaskSystem
    /** How far below its top the handlers use the kernel's stack. */
    ghost const depth: nat

    constructor (kernel: Kernel, ghost depth: nat)
      requires kernel.Valid() && StackFits(kernel.start, kernel.reserved, depth)
      ensures this.kernel == kernel && this.depth == depth && fresh(system) && Valid()
    {
      hide Pmm.Taken, Accounted, Kheap.InMap, Imaged, AllLoaded, TaskList.Spine, LinkedBack, Matched, Cell, SpaceIn;
      hide SpaceBlocks;
      SpaceChunk(kernel.ram[..], kernel.space);
      var directory := LoadCell(kernel.ram, kernel.kernelChunk / 4096, 0);
      this.kernel := kernel;
      system := new TaskSystem(kernel.list, kernel.paging, directory);
      this.depth := depth;
    }

    /** The kernel is valid, this is the task system it works on, and its stack is in its place. */
    ghost predicate Valid()
      reads kernel, kernel.pmm, kernel.pmm.memoryMap, kernel.heap, kernel.heap.bigBlocks, kernel.ram
      reads kernel.list, kernel.list.tasks
    {
      && kernel.Valid() && system.list == kernel.list && system.paging == kernel.paging
      && system.kernelDirectory == 4096 * kernel.space.dir && StackFits(kernel.start, kernel.reserved, depth)
    }

    /** A task runs in user mode: the current one, with its own directory loaded. */
    ghost predicate UserMode()
      reads kernel, kernel.pmm, kernel.pmm.memoryMap, kernel.heap, kernel.heap.bigBlocks, kernel.ram
      reads kernel.list, kernel.list.tasks, kernel.paging
    {
      && Valid() && kernel.list.currentTask != null && kernel.list.at < |kernel.images|
      && kernel.paging.currentDirectory == 4096 * kernel.images[kernel.list.at].dir
    }

    /** The pages the kernel's stack takes up are none of the task's own. */
    ghost predicate StackClear(img: Image) {
      forall p :: (0x60_0000 - depth) / 4096 <= p <= 0x5FF ==> !Own(img, p)
    }

    /** So it is for the current task and the next. */
    ghost predicate TickReady()
      requires kernel.list.at < |kernel.images|
      reads kernel, kernel.list
    {
      StackClear(kernel.images[kernel.list.at]) && StackClear(kernel.images[Next(kernel.list.at, |kernel.images|)])
    }

    /** A buffer on the part of the kernel's stack the handlers use, below the frame. */
    ghost predicate OnKernelStack(buffer: u32) {
      0x60_0000 <= buffer as nat + depth && buffer as nat + 512 + FRAME_BYTES <= 0x60_0000
    }

    lemma SystemValid()
      requires Valid()
      ensures system.Valid() && |system.list.tasks| == |kernel.images|
      ensures forall i :: 0 <= i < |kernel.images| ==>
                DirectoryAt(kernel.ram[..], kernel.list.tasks[i].pageDirectory) == 4096 * kernel.images[i].dir
    {
      hide Pmm.Taken, Accounted, Kheap.InMap, TaskList.Spine, LinkedBack, View, Cell, AllBlocks, ProgramBlocks, Span;
      hide Imaged, SpaceIn, SpaceBlocks;
      forall i | 0 <= i < |kernel.images|
        ensures kernel.list.tasks[i].pageDirectory / 4096 * 4096 + 4096 <= kernel.ram.Length
        ensures DirectoryAt(kernel.ram[..], kernel.list.tasks[i].pageDirectory) == 4096 * kernel.images[i].dir
      {
        assert Loaded(kernel.ram[..], kernel.images[i]);
        ChunkIs(kernel.ram[..], kernel.images[i]);
      }
    }

    /** What is known of the i-th program while the kernel is valid. */
    lemma ImageHere(i: nat)
      requires Valid() && i < |kernel.images|
      ensures Loaded(kernel.ram[..], kernel.images[i]) && AllBlocks(kernel.images[i]) <= kernel.pmm.Taken()
      ensures AllBlocks(kernel.images[i]) !! Span(0, kernel.reserved)
      ensures Span(0, kernel.reserved) <= kernel.pmm.Taken() && 0x60_0000 <= kernel.ram.Length
      ensures 0x5FF !in AllBlocks(kernel.images[i])
      ensures kernel.list.tasks[i].record == 4096 * kernel.images[i].task
      ensures kernel.list.tasks[i].pageDirectory == 4096 * kernel.images[i].chunk
    {
      hide Pmm.Taken, Kheap.InMap, TaskList.Spine, LinkedBack, Loaded, AllBlocks, SpaceIn, SpaceBlocks, Imaged;
      assert 0x5FF in Span(0, kernel.reserved);
    }

    lemma ListIs()
      requires Valid()
      ensures system.list == kernel.list && system.paging == kernel.paging && system.paging.ram == kernel.ram
      ensures kernel.Valid()
    {
      hide Pmm.Taken, Housed, TaskList.Spine, Imaged, Kheap.InMap, Accounted;
    }

    lemma CurrentIs()
      requires system.Valid() && system.list.currentTask != null
      ensures system.list.at < |system.list.tasks| && system.list.currentTask == system.list.tasks[system.list.at]
      ensures system.State().tasks[system.list.at].registers == system.list.currentTask.registers
      ensures system.State().tasks[system.list.at].directory ==
              DirectoryAt(system.paging.ram[..], system.list.currentTask.pageDirectory)
    {
      hide LinkedBack, DirectoryAt, Linked;
    }

    /** In user mode, and only then, the abstract machine has the current task's directory loaded. */
    lemma InUserMode()
      requires Valid() && system.Valid() && system.list.currentTask != null
      ensures Running(system.State()) && kernel.list.at < |kernel.images|
      ensures UserMode() <==> system.State().directory == system.State().tasks[system.State().current].directory
    {
      hide Pmm.Taken, Kernel.Steady, Housed, LinkedBack, DirectoryAt, Linked;
      ListIs();
      SystemValid();
      CurrentIs();
    }

    /** In user mode the current task sees its program, whatever it has made of it: a load from
        0x400000 + k through the loaded directory gives byte k. */
    lemma {:induction false} CurrentSees(k: nat)
      requires UserMode() && k < |kernel.images[kernel.list.at].data|
      ensures var d: nat := kernel.paging.currentDirectory / 4096;
              && Directory(kernel.ram[..], d) && 0x40_0000 + k < 0x1_0000_0000
              && Translate(kernel.ram[..], d, 0x40_0000 + k) < kernel.ram.Length
              && kernel.ram[Translate(kernel.ram[..], d, 0x40_0000 + k)] == kernel.images[kernel.list.at].data[k]
    {
      hide Interrupts.Valid, Loaded, AllBlocks, Span, Directory, Translate, Pmm.Taken;
      ImageHere(kernel.list.at);
      LoadedIs(kernel.ram[..], kernel.images[kernel.list.at], 0);
      SeesItsFile(kernel.ram[..], kernel.images[kernel.list.at], k);
      Split(kernel.images[kernel.list.at].dir, 0);
    }

    /** A store in user mode. Where the task may not write, the processor faults and nothing changes.
        Where it may, every program stays loaded, and the byte is one of its own. */
    method Store(virt: u32, c: byte) returns (ok: bool)
      requires UserMode()
      modifies kernel.ram, kernel`images
      ensures UserMode() && ok == Own(old(kernel.images[kernel.list.at]), virt as nat / 4096)
      ensures kernel.images ==
              if ok then old(kernel.images)[kernel.list.at := Stored(old(kernel.images[kernel.list.at]), virt, c)]
              else old(kernel.images)
      ensures !ok ==> kernel.ram[..] == old(kernel.ram[..])
      ensures ok ==>
                var m, d := old(kernel.ram[..]), kernel.images[kernel.list.at].dir;
                Directory(m, d) && Translate(m, d, virt) < |m| && kernel.ram[..] == m[Translate(m, d, virt) := c]
    {
      hide Pmm.Taken, Loaded, Own, Stored, Housed, Directory, Translate, UserWritable, TaskList.Spine, LinkedBack;
      hide Kheap.InMap, Accounted, Imaged, AllBlocks, ProgramBlocks, Span;
      ghost var m, was, i := kernel.ram[..], kernel.images, kernel.list.at;
      ImageHere(i);
      StoreLands(m, was[i], virt);
      ok := MayWrite(kernel.ram, kernel.paging.currentDirectory, virt);
      if !ok { return; }
      StoreVirtual(kernel.ram, kernel.paging.currentDirectory, virt, c);
      kernel.images := was[i := Stored(was[i], virt, c)];
      kernel.UserWrote(m, was, i, virt, c);
    }

    /** What an interrupt begins with: the frame is pushed through the current task's directory, and what
        the handlers find on the kernel's stack is that frame. */
    method Trap(cpu: Registers) returns (frame: Frame)
      requires UserMode() && !Own(kernel.images[kernel.list.at], 0x5FF)
      modifies kernel.ram
      ensures UserMode() && frame == Trapped(cpu) && 0x60_0000 <= kernel.ram.Length
      ensures kernel.ram[..] == FramePushed(old(kernel.ram[..]), 0x5FF, frame)
      ensures FrameOn(kernel.ram[..], 0x5FF) == frame
      ensures Below(kernel.ram[..], 1) == cpu.ss && Below(kernel.ram[..], 2) == cpu.esp
      ensures Below(kernel.ram[..], 3) == cpu.flags && Below(kernel.ram[..], 4) == cpu.cs
      ensures Below(kernel.ram[..], 5) == cpu.ip && Below(kernel.ram[..], 6) == cpu.eax
      ensures Below(kernel.ram[..], 7) == cpu.ecx && Below(kernel.ram[..], 8) == cpu.edx
      ensures Below(kernel.ram[..], 9) == cpu.ebx && Below(kernel.ram[..], 11) == cpu.ebp
      ensures Below(kernel.ram[..], 12) == cpu.esi && Below(kernel.ram[..], 13) == cpu.edi
      ensures Untouched(old(kernel.ram[..]), kernel.ram[..], {0x5FF})
    {
      hide Loaded, AllBlocks, ProgramBlocks, Span, Pmm.Taken, Own, StackUsable, StackBlock, Accounted;
      hide FramePushed, FrameOn, Untouched, Directory, SpaceIn, Housed, Imaged, Kheap.InMap, Trapped;
      hide TaskList.Spine, LinkedBack;
      ghost var m, img := kernel.ram[..], kernel.images[kernel.list.at];
      ImageHere(kernel.list.at);
      FrameArrivesExactly(m, img, Trapped(cpu));
      WordsOfTrap(m, cpu);
      StackSeen(m, img);
      Split(img.dir, 0);
      PushFrame(kernel.ram, kernel.paging.currentDirectory, Trapped(cpu));
      kernel.ReservedWritten(m, {0x5FF});
      KernelStack(kernel.ram[..], kernel.space) by { ListIs(); KernelSpace(); }
      Split(kernel.space.dir, 0);
      frame := LoadFrame(kernel.ram, system.kernelDirectory);
    }

    lemma KernelSpace()
      requires Valid()
      ensures SpaceIn(kernel.ram[..], kernel.space)
    {
      hide Pmm.Taken, AllLoaded, TaskList.Spine, Imaged, Kheap.InMap, Accounted, SpaceIn;
    }

    /** The registers task_return finds in the current task's record, which it reads through the task's
        directory. */
    method RecordSeen() returns (saved: Registers)
      requires UserMode()
      ensures !Own(kernel.images[kernel.list.at], kernel.images[kernel.list.at].task) ==>
                saved == kernel.list.currentTask.registers
    {
      hide Loaded, AllBlocks, ProgramBlocks, Span, Pmm.Taken, Own, Accounted, Directory, Housed, Imaged, Kheap.InMap;
      hide TaskList.Spine, LinkedBack, Translate;
      var task := kernel.list.currentTask;
      ghost var m, img := kernel.ram[..], kernel.images[kernel.list.at];
      ImageHere(kernel.list.at);
      RecordPlace(m, img);
      Split(img.dir, 0);
      var address := task.record + 4;
      var physical := MmuTranslate(kernel.ram, kernel.paging.currentDirectory, address);
      if physical == address {
        saved := task.registers;
      } else {
        saved := LoadRegisters(kernel.ram, physical);
      }
    }

    /** isr_0x20_handler on a timer interrupt. The handlers use the kernel's stack under the old task's
        directory, the kernel's and the new task's, one after the other, so that its pages must be none
        of either task's own. The registers the new task goes on with are those saved in its record,
        provided the record's page is none of its own. */
    method TimerInterrupt(cpu: Registers, entryEsp: u32, kernelFlags: u32) returns (context: Registers)
      requires UserMode() && TickReady()
      modifies kernel.ram
      modifies system.list`currentTask, system.list`at, system.paging, system.list.currentTask`registers
      ensures UserMode() && system.Valid() && Running(old(system.State()))
      ensures system.State() == Step(old(system.State()), Tick(Trapped(cpu), entryEsp, kernelFlags)).0
      ensures var img := kernel.images[kernel.list.at];
              !Own(img, img.task) ==>
                context == Step(old(system.State()), Tick(Trapped(cpu), entryEsp, kernelFlags)).1
      ensures old(kernel.list.currentTask).registers == cpu
      ensures kernel.list.currentTask == kernel.list.tasks[Next(old(kernel.list.at), |kernel.list.tasks|)]
      ensures var img := kernel.images[kernel.list.at];
              !Own(img, img.task) ==>
                context == kernel.list.currentTask.registers.(
                             ebp := entryEsp, flags := Or32(kernelFlags, 0x200))
      ensures Untouched(old(kernel.ram[..]), kernel.ram[..], {0x5FF})
      ensures kernel.list.at == Next(old(kernel.list.at), |kernel.images|)
    {
      hide Interrupts.UserMode, TaskSystem.State, TaskSystem.Valid, Own, Untouched, Scheduling.Step;
      hide Or32, FramePushed, FrameOn, Interrupts.StackClear;
      var frame := Interrupted(cpu);
      context := Schedule(frame, entryEsp, kernelFlags);
    }

    /** The trap leaves the abstract machine as it was. */
    method Interrupted(cpu: Registers) returns (frame: Frame)
      requires UserMode() && StackClear(kernel.images[kernel.list.at])
      modifies kernel.ram
      ensures UserMode() && system.Valid() && frame == Trapped(cpu) && 0x60_0000 <= kernel.ram.Length
      ensures system.list.currentTask != null && system.list == kernel.list
      ensures system.State() == old(system.State()) && Running(system.State())
      ensures kernel.ram[..] == FramePushed(old(kernel.ram[..]), 0x5FF, frame)
      ensures FrameOn(kernel.ram[..], 0x5FF) == frame
      ensures Untouched(old(kernel.ram[..]), kernel.ram[..], {0x5FF})
    {
      hide Pmm.Taken, Kernel.Steady, Housed, TaskList.Spine, LinkedBack, DirectoryAt, Own, Untouched, FramePushed;
      hide FrameOn, Trapped;
      TopPage(kernel.images[kernel.list.at]);
      ListIs();
      MemoryHolds();
      SystemValid();
      ghost var was := system.State();
      frame := Trap(cpu);
      SystemValid();
      assert system.State().tasks == was.tasks;
      InUserMode();
    }

    /** schedule_next_task, once the frame is on the stack. */
    method Schedule(frame: Frame, entryEsp: u32, kernelFlags: u32) returns (context: Registers)
      requires UserMode() && system.Valid()
      modifies system.list`currentTask, system.list`at, system.paging, system.list.currentTask`registers
      ensures UserMode() && system.Valid() && Running(old(system.State()))
      ensures system.State() == Step(old(system.State()), Tick(frame, entryEsp, kernelFlags)).0
      ensures var img := kernel.images[kernel.list.at];
              !Own(img, img.task) ==>
                context == Step(old(system.State()), Tick(frame, entryEsp, kernelFlags)).1
      ensures old(kernel.list.currentTask).registers == Saved(frame)
      ensures var img := kernel.images[kernel.list.at];
              !Own(img, img.task) ==>
                context == kernel.list.currentTask.registers.(
                             ebp := entryEsp, flags := Or32(kernelFlags, 0x200))
      ensures kernel.list.at == Next(old(kernel.list.at), |kernel.images|) && |kernel.list.tasks| == |kernel.images|
      ensures kernel.list.at < |kernel.list.tasks| && kernel.list.currentTask == kernel.list.tasks[kernel.list.at]
    {
      hide Interrupts.UserMode, TaskSystem.State, TaskSystem.Valid, Scheduling.Step, Own, Saved, Or32;
      CurrentOfList();
      SwitchNext(frame, entryEsp, kernelFlags);
      var saved := RecordSeen();
      context := TaskReturn(saved, entryEsp, kernelFlags);
    }

    /** task_switch to the next task. */
    method SwitchNext(frame: Frame, ghost entryEsp: u32, ghost kernelFlags: u32)
      requires UserMode() && system.Valid()
      modifies system.list`currentTask, system.list`at, system.paging, system.list.currentTask`registers
      ensures UserMode() && system.Valid() && Running(old(system.State()))
      ensures kernel.list.at == Next(old(kernel.list.at), |kernel.images|) && kernel.list.currentTask != null
      ensures old(kernel.list.currentTask).registers == Saved(frame) && |kernel.list.tasks| == |kernel.images|
      ensures kernel.list.at < |kernel.list.tasks| && kernel.list.currentTask == kernel.list.tasks[kernel.list.at]
      ensures (system.State(), TaskReturn(kernel.list.currentTask.registers, entryEsp, kernelFlags)) ==
              Step(old(system.State()), Tick(frame, entryEsp, kernelFlags))
    {
      hide Pmm.Taken, Kernel.Steady, Housed, TaskList.Spine, LinkedBack, DirectoryAt, Own, TaskReturn, Saved;
      var context := system.TimerInterrupt(frame, 0, 0);
      SystemValid();
      InUserMode();
      CurrentIs();
    }

    /** task_run_first_ever_task: user mode begins, with the first task's own directory. */
    method RunFirst(entryEsp: u32, kernelFlags: u32) returns (context: Registers)
      requires Valid() && kernel.list.currentTask != null
      modifies system.list`currentTask, system.list`at, system.paging
      ensures UserMode() && kernel.list.at == 0
      ensures var img := kernel.images[0];
              !Own(img, img.task) ==>
                context == kernel.list.tasks[0].registers.(ebp := entryEsp, flags := Or32(kernelFlags, 0x200))
    {
      hide Interrupts.UserMode, Interrupts.Valid, Or32, Own;
      SwitchFirst();
      var saved := RecordSeen();
      context := TaskReturn(saved, entryEsp, kernelFlags);
    }

    /** task_switch to the head of the list. */
    method SwitchFirst()
      requires Valid() && kernel.list.currentTask != null
      modifies system.list`currentTask, system.list`at, system.paging
      ensures UserMode() && kernel.list.at == 0 && |kernel.list.tasks| > 0 && |kernel.images| > 0
      ensures kernel.list.currentTask == kernel.list.tasks[0]
    {
      hide Pmm.Taken, Kernel.Steady, Housed, TaskList.Spine, LinkedBack, DirectoryAt;
      SystemValid();
      var context := system.RunFirst(0, 0);
      SystemValid();
      InUserMode();
      CurrentIs();
    }

    /** The stack's highest page is one the handlers use. */
    lemma TopPage(img: Image)
      requires StackClear(img) && FRAME_BYTES <= depth <= 0x60_0000
      ensures !Own(img, 0x5FF)
    {
    }

    /** What sys_write needs: the current task's address space, and the buffer off it. */
    lemma WriteReady(buffer: u32) returns (img: Image)
      requires Valid() && OnKernelStack(buffer) && kernel.list.currentTask != null
      requires kernel.list.at < |kernel.images| && kernel.list.currentTask == kernel.list.tasks[kernel.list.at]
      ensures img == kernel.images[kernel.list.at] && Loaded(kernel.ram[..], img)
      ensures InUse(kernel.ram[..], kernel.list.currentTask, img.dir, kernel.pmm.Taken())
      ensures Directory(kernel.ram[..], img.dir) && AllBlocks(img) <= kernel.pmm.Taken()
      ensures Buffer(kernel.ram[..], img.dir, buffer, Room(WRITE_BUFFER_SIZE), kernel.pmm.Taken())
      ensures kernel.start < buffer as nat / 4096 && (buffer as nat + Room(WRITE_BUFFER_SIZE)) / 4096 < kernel.reserved
    {
      hide Kernel.Valid, Loaded, AllBlocks, Span, Buffer, Directory, Chunk, ChunkBlocks, InUse;
      hide Pmm.Taken;
      ImageHere(kernel.list.at);
      img := kernel.images[kernel.list.at];
      var m := kernel.ram[..];
      WriteSpace(m, img, kernel.pmm.Taken(), kernel.reserved, buffer, Room(WRITE_BUFFER_SIZE));
      ChunkInUse(m, kernel.list.currentTask, img.chunk, img.dir, kernel.pmm.Taken());
    }

    /** isr80h_handle_command, for a command that returns. sys_write copies the string at the task's ebx
        to a buffer on the kernel stack, intact or not as the copy has it; whatever it does to memory,
        every chunk and directory is kept, every program stays loaded, and so does the frame. */
    method HandleCommand(command: u32, buffer: u32)
      requires Valid() && system.Valid() && system.list.currentTask != null && command != 0 && OnKernelStack(buffer)
      modifies system.paging, kernel.ram, kernel.pmm, kernel.pmm.memoryMap, kernel.heap.bigBlocks
      ensures Valid() && system.Valid() && kernel.list.at < |kernel.images|
      ensures system.State() == old(system.State()).(directory := system.State().directory)
      ensures Effect(command, old(kernel.ram[..]), old(kernel.heap.State()), kernel.ram[..], kernel.heap.State(),
                     kernel.images[kernel.list.at], kernel.list.currentTask.registers.ebx, buffer)
      ensures FrameOn(kernel.ram[..], 0x5FF) == FrameOn(old(kernel.ram[..]), 0x5FF)
    {
      hide Pmm.Taken, Accounted, Kheap.InMap, TaskList.Spine, LinkedBack, Housed, Kheap.State, InUse, Buffer;
      hide DirectoryAt, Imaged, FrameOn, SameOutside, OffPage, OffEntry, Loaded, AllBlocks, Own;
      hide Usable, CopiedTo, Delivered, StringIntact, Untouched, SameAddressSpace, Cleared, Directory;
      SystemValid();
      CurrentIs();
      MemoryHolds();
      if command == SYS_WRITE {
        var task := kernel.list.currentTask;
        ghost var img := WriteReady(buffer);
        ghost var m, h := kernel.ram[..], kernel.heap.State();
        TakenIs();
        var r := CopyStringFromTask(kernel, task, img.dir, system.kernelDirectory, task.registers.ebx, buffer,
            WRITE_BUFFER_SIZE);
        TakenIs();
        FrameKept(m, kernel.ram[..], TmpBlock(h, WRITE_BUFFER_SIZE), buffer);
      }
      SystemValid();
    }

    lemma MemoryHolds()
      requires Valid()
      ensures 0x60_0000 <= kernel.ram.Length && 0x5FF in kernel.pmm.Taken()
    {
      hide Pmm.Taken, Kheap.InMap, TaskList.Spine, LinkedBack, Loaded, AllBlocks, SpaceIn, SpaceBlocks, Imaged;
      assert 0x5FF in Span(0, kernel.reserved);
    }

    lemma TakenIs()
      requires Valid()
      ensures kernel.heap.State().frames.taken == kernel.pmm.Taken()
    {
      hide Pmm.Taken, Accounted, Kheap.InMap, TaskList.Spine, LinkedBack, Housed;
    }

    /** What both handlers begin with: kernel_page, and the context saved. */
    method Enter(frame: Frame)
      requires Valid() && system.Valid() && system.list.currentTask != null
      modifies system.paging, system.list.currentTask`registers
      ensures Valid() && system.Valid() && Running(old(system.State()))
      ensures system.State() == Save(old(system.State()), frame).(directory := system.kernelDirectory)
      ensures system.list.currentTask == old(system.list.currentTask) &&
              system.list.currentTask.registers == Saved(frame)
    {
      hide Pmm.Taken, Kernel.Steady, Housed, TaskList.Spine, LinkedBack, DirectoryAt, Saved;
      system.Enter(frame);
      CurrentIs();
    }

    /** task_page: back to the current task's own directory. */
    method Leave()
      requires Valid() && system.Valid() && system.list.currentTask != null
      modifies system.list`currentTask, system.list`at, system.paging
      ensures UserMode() && system.Valid() && kernel.list.at == old(kernel.list.at)
      ensures Running(old(system.State())) && system.State() == Paged(old(system.State()))
    {
      hide Pmm.Taken, Kernel.Steady, Housed, LinkedBack, DirectoryAt, Linked;
      CurrentIs();
      system.Switch(kernel.list.currentTask, kernel.list.at);
      InUserMode();
    }

    /** isr80h_handler, for a command that returns: the task goes on where it was, with the command's
        result, 0, in eax, and every saved context as it was but its own. */
    method SystemCall(cpu: Registers, buffer: u32) returns (context: Registers)
      requires UserMode() && StackClear(kernel.images[kernel.list.at])
      requires Returns(Event.SystemCall(Trapped(cpu))) && OnKernelStack(buffer)
      modifies system.list`currentTask, system.list`at, system.paging, system.list.currentTask`registers
      modifies kernel.ram, kernel.pmm, kernel.pmm.memoryMap, kernel.heap.bigBlocks
      ensures UserMode() && system.Valid() && Running(old(system.State()))
      ensures (system.State(), context) == Step(old(system.State()), Event.SystemCall(Trapped(cpu)))
      ensures context == cpu.(eax := 0) && old(kernel.list.currentTask).registers == cpu
      ensures kernel.list.at == old(kernel.list.at) && 0x60_0000 <= kernel.ram.Length
      ensures Effect(cpu.eax, FramePushed(old(kernel.ram[..]), 0x5FF, Trapped(cpu)),
                     old(kernel.heap.State()), kernel.ram[..], kernel.heap.State(),
                     old(kernel.images[kernel.list.at]), cpu.ebx, buffer)
    {
      hide Pmm.Taken, Kernel.Steady, Housed, TaskList.Spine, LinkedBack, Own, Untouched, FramePushed, FrameOn;
      hide Effect, Kheap.State, TaskSystem.State, TaskSystem.Valid;
      TopPage(kernel.images[kernel.list.at]);
      var frame := Interrupted(cpu);
      Enter(frame);
      HandleCommand(frame.eax, buffer);
      Leave();
      context := FrameBack();
      context := context.(eax := 0);
    }

    /** What a trip needs of the task that makes it. */
    ghost predicate Allowed(trip: Trip) {
      trip.Call? ==> Returns(Event.SystemCall(Trapped(trip.cpu))) && OnKernelStack(trip.buffer)
    }

    method Travel(trip: Trip)
      requires UserMode() && Allowed(trip)
      requires forall i :: 0 <= i < |kernel.images| ==> StackClear(kernel.images[i])
      modifies kernel.list`currentTask, kernel.list`at, kernel.paging, kernel.list.tasks`registers, kernel`images
      modifies kernel.ram, kernel.pmm, kernel.pmm.memoryMap, kernel.heap.bigBlocks
      ensures UserMode() && |kernel.images| == |old(kernel.images)| && Running(old(system.State()))
      ensures system.State() == TripDone(old(system.State()), trip)
      ensures kernel.list.at ==
              if trip.Timer? then Next(old(kernel.list.at), |kernel.images|) else old(kernel.list.at)
      ensures forall j :: 0 <= j < |kernel.images| ==>
                if trip.Write? && j == old(kernel.list.at) && Own(old(kernel.images[j]), trip.virt as nat / 4096)
                then kernel.images[j] == Stored(old(kernel.images[j]), trip.virt, trip.c)
                else kernel.images[j] == old(kernel.images[j])
    {
      hide Interrupts.StackClear, Own, Stored, TaskSystem.State, TaskSystem.Valid, Scheduling.Step, Effect, Untouched;
      hide Interrupts.UserMode, FramePushed, Trapped, Translate, Directory, FrameOn, Or32, Below;
      CurrentOfList();
      match trip {
        case Timer(cpu, entryEsp, kernelFlags) =>
          var context := TimerInterrupt(cpu, entryEsp, kernelFlags);
        case Call(cpu, buffer) =>
          var context := SystemCall(cpu, buffer);
        case Write(virt, c) =>
          StoreOnly(virt, c);
      }
    }

    /** A store leaves the abstract machine as it was. */
    method StoreOnly(virt: u32, c: byte)
      requires UserMode()
      modifies kernel.ram, kernel`images
      ensures UserMode() && Running(old(system.State())) && system.State() == old(system.State())
      ensures var img := old(kernel.images[kernel.list.at]);
              kernel.images == if Own(img, virt as nat / 4096)
                               then old(kernel.images)[kernel.list.at := Stored(img, virt, c)]
                               else old(kernel.images)
    {
      hide Pmm.Taken, Kernel.Steady, Housed, TaskList.Spine, LinkedBack, DirectoryAt, Own, Translate, Directory;
      ListIs();
      SystemValid();
      ghost var was := system.State();
      InUserMode();
      var ok := Store(virt, c);
      SystemValid();
      assert system.State().tasks == was.tasks;
    }

    lemma CurrentOfList()
      requires UserMode()
      ensures system.list == kernel.list && system.paging == kernel.paging && system.list.currentTask != null
      ensures kernel.list.currentTask in kernel.list.tasks && kernel.list.at < |kernel.images|
      ensures Next(kernel.list.at, |kernel.images|) < |kernel.images|
    {
      hide Pmm.Taken, Kernel.Steady, Housed, LinkedBack, Linked;
    }

    /** Any run of timer interrupts, system calls and stores in user mode: every program stays loaded and
        isolated, the kernel goes through the states of the abstract machine, and every byte of a program
        is what its own task stored there last, or the file's as it was. */
    method Run(trips: seq<Trip>)
      requires UserMode() && forall trip :: trip in trips ==> Allowed(trip)
      requires forall i :: 0 <= i < |kernel.images| ==> StackClear(kernel.images[i])
      modifies kernel.list`currentTask, kernel.list`at, kernel.paging, kernel.list.tasks`registers, kernel`images
      modifies kernel.ram, kernel.pmm, kernel.pmm.memoryMap, kernel.heap.bigBlocks
      ensures UserMode() && |kernel.images| == |old(kernel.images)| && Running(old(system.State()))
      ensures system.State() == Played(old(system.State()), Events(trips))
      ensures kernel.list.at == RunsIn(trips, old(kernel.list.at), |kernel.images|, |trips|)
      ensures forall j :: 0 <= j < |kernel.images| ==>
                && |kernel.images[j].data| == |old(kernel.images[j].data)|
                && kernel.images[j] == old(kernel.images[j]).(data := kernel.images[j].data)
      ensures Traced(trips, old(kernel.list.at), |trips|, old(kernel.images), kernel.images)
    {
      hide Interrupts.UserMode, Own, Stored, Interrupts.Allowed, RunsIn, Traced, Ahead, TripDone, Played, Events;
      hide TaskSystem.State;
      CurrentOfList();
      ghost var was, first, n := kernel.images, kernel.list.at, |kernel.images|;
      ghost var m := system.State();
      MachineRuns();
      NoTrip(m, trips, first, was);
      var i := 0;
      while i < |trips|
        invariant i <= |trips| && UserMode() && |kernel.images| == n
        invariant system.State() == Played(m, Events(trips[..i]))
        invariant kernel.list.at == RunsIn(trips, first, n, i)
        invariant forall j :: 0 <= j < n ==>
                    && |kernel.images[j].data| == |was[j].data|
                    && kernel.images[j] == was[j].(data := kernel.images[j].data)
        invariant Traced(trips, first, i, was, kernel.images)
      {
        SameClear(was, kernel.images);
        ghost var now := kernel.images;
        OneTrip(m, trips, first, n, i);
        Travel(trips[i]);
        TraceOn(trips, first, i, was, now, kernel.images);
        i := i + 1;
      }
      assert trips[..|trips|] == trips;
    }

    lemma MachineRuns()
      requires UserMode()
      ensures Running(system.State())
    {
      hide Pmm.Taken, Kernel.Steady, Housed, LinkedBack, DirectoryAt, Linked;
      ListIs();
      SystemValid();
      InUserMode();
    }

    lemma SameClear(was: seq<Image>, images: seq<Image>)
      requires |images| == |was| && forall j :: 0 <= j < |was| ==> |images[j].data| == |was[j].data|
      requires forall i :: 0 <= i < |was| ==> StackClear(was[i])
      ensures forall i :: 0 <= i < |images| ==> StackClear(images[i])
    {
      forall i | 0 <= i < |images| ensures StackClear(images[i]) {
        assert StackClear(was[i]);
        assert forall p :: Own(images[i], p) <==> Own(was[i], p);
      }
    }

    /** popad and iret: the frame as it is found through the task's own directory. */
    method FrameBack() returns (context: Registers)
      requires UserMode() && !Own(kernel.images[kernel.list.at], 0x5FF) && 0x60_0000 <= kernel.ram.Length
      ensures context == Saved(FrameOn(kernel.ram[..], 0x5FF))
    {
      hide Loaded, AllBlocks, ProgramBlocks, Span, Pmm.Taken, Own, StackBlock, Accounted;
      hide FrameOn, Directory, Housed, Imaged, Kheap.InMap, TaskList.Spine, LinkedBack;
      ghost var img := kernel.images[kernel.list.at];
      ImageHere(kernel.list.at);
      StackSeen(kernel.ram[..], img);
      Split(img.dir, 0);
      var frame := LoadFrame(kernel.ram, kernel.paging.currentDirectory);
      context := Saved(frame);
    }
  }

  /** The n-th word below the top of the kernel's stack. */
  ghost function Below(m: Ram, n: nat): u32
    requires 0x60_0000 <= |m| && 1 <= n <= 13
  {
    Word(m, 0x60_0000 - 4 * n)
  }

  lemma WordsOfTrap(m: Ram, cpu: Registers)
    requires 0x60_0000 <= |m|
    ensures var r := FramePushed(m, 0x5FF, Trapped(cpu));
            && Below(r, 1) == cpu.ss && Below(r, 2) == cpu.esp && Below(r, 3) == cpu.flags
            && Below(r, 4) == cpu.cs && Below(r, 5) == cpu.ip && Below(r, 6) == cpu.eax
            && Below(r, 7) == cpu.ecx && Below(r, 8) == cpu.edx && Below(r, 9) == cpu.ebx
            && Below(r, 11) == cpu.ebp && Below(r, 12) == cpu.esi && Below(r, 13) == cpu.edi
  {
    hide FramePushed, Word, Trapped;
    TrapLayout(m, 0x5FF, cpu);
  }

  /** What can happen while the tasks run: a timer interrupt, a system call, or a store in user mode. */
  datatype Trip =
    | Timer(cpu: Registers, entryEsp: u32, kernelFlags: u32)
    | Call(cpu: Registers, buffer: u32)
    | Write(virt: u32, c: byte)

  function Timers(trips: seq<Trip>): nat
    decreases |trips|
  {
    if trips == [] then 0
    else
      var k := |trips| - 1;
      Timers(trips[..k]) + (if trips[k].Timer? then 1 else 0)
  }

  /** The task that runs when trip i begins. */
  function RunsIn(trips: seq<Trip>, at: nat, n: nat, i: nat): nat
    requires i <= |trips|
  {
    Ahead(at, Timers(trips[..i]), n)
  }

  /** What a trip is to the abstract machine: a store is nothing. */
  function Events(trips: seq<Trip>): seq<Event>
    decreases |trips|
  {
    if trips == [] then []
    else
      var k := |trips| - 1;
      Events(trips[..k]) + match trips[k]
                           case Timer(cpu, entryEsp, kernelFlags) => [Tick(Trapped(cpu), entryEsp, kernelFlags)]
                           case Call(cpu, _) => [Event.SystemCall(Trapped(cpu))]
                           case Write(_, _) => []
  }

  function TripDone(m: Machine, trip: Trip): (r: Machine)
    requires Running(m)
    ensures Running(r)
  {
    match trip
    case Timer(cpu, entryEsp, kernelFlags) => Step(m, Tick(Trapped(cpu), entryEsp, kernelFlags)).0
    case Call(cpu, _) => Step(m, Event.SystemCall(Trapped(cpu))).0
    case Write(_, _) => m
  }

  function Played(m: Machine, events: seq<Event>): (r: Machine)
    requires Running(m)
    ensures Running(r)
  {
    if events == [] then m else Scheduling.Run(m, events).0
  }

  /** Trip i is a store of task j into byte k of its program. */
  predicate Aimed(trips: seq<Trip>, at: nat, n: nat, i: nat, j: nat, k: nat)
    requires i < |trips|
  {
    trips[i].Write? && RunsIn(trips, at, n, i) == j && trips[i].virt as int == 0x40_0000 + k
  }

  /** The last such store among the first end trips; -1 when there is none. */
  function LastStore(trips: seq<Trip>, at: nat, n: nat, j: nat, k: nat, end: nat): (i: int)
    requires end <= |trips|
    ensures -1 <= i < end && (i >= 0 ==> Aimed(trips, at, n, i, j, k))
    ensures forall l :: i < l < end ==> !Aimed(trips, at, n, l, j, k)
  {
    if end == 0 then -1
    else if Aimed(trips, at, n, end - 1, j, k) then end - 1
    else LastStore(trips, at, n, j, k, end - 1)
  }

  /** After i trips every byte of every program is the one its task stored there last, or as it was. */
  ghost predicate Traced(trips: seq<Trip>, at: nat, i: nat, was: seq<Image>, now: seq<Image>)
    requires i <= |trips| && |now| == |was|
  {
    forall j: nat, k: nat :: j < |was| && k < |was[j].data| && k < |now[j].data| ==>
      var l := LastStore(trips, at, |was|, j, k, i);
      now[j].data[k] == if l >= 0 then trips[l].c else was[j].data[k]
  }

  lemma NoTrip(m: Machine, trips: seq<Trip>, at: nat, was: seq<Image>)
    requires Running(m)
    ensures RunsIn(trips, at, |was|, 0) == at && Traced(trips, at, 0, was, was)
    ensures Played(m, Events(trips[..0])) == m
  {
  }

  lemma OneTrip(m: Machine, trips: seq<Trip>, at: nat, n: nat, i: nat)
    requires i < |trips| && Running(m)
    ensures RunsIn(trips, at, n, i + 1) ==
            if trips[i].Timer? then Next(RunsIn(trips, at, n, i), n) else RunsIn(trips, at, n, i)
    ensures Played(m, Events(trips[..i + 1])) == TripDone(Played(m, Events(trips[..i])), trips[i])
  {
    hide Scheduling.Step, Trapped;
    assert trips[..i + 1][..i] == trips[..i];
    AheadStep(at, Timers(trips[..i]), n);
    var before, events := Events(trips[..i]), Events(trips[..i + 1]);
    if trips[i].Write? {
      assert events == before;
    } else {
      assert events[..|events| - 1] == before;
      if |events| > 1 { RunSplit(m, events); } else { assert before == []; }
    }
  }

  /** What one trip does to the bytes of the programs. */
  lemma TraceOn(trips: seq<Trip>, at: nat, i: nat, was: seq<Image>, now: seq<Image>, later: seq<Image>)
    requires i < |trips| && |later| == |now| == |was| && Traced(trips, at, i, was, now)
    requires forall j :: 0 <= j < |was| ==> |now[j].data| == |was[j].data|
    requires forall j :: 0 <= j < |was| ==>
               var trip := trips[i];
               later[j] == if trip.Write? && j == RunsIn(trips, at, |was|, i) && Own(now[j], trip.virt as nat / 4096)
                          then Stored(now[j], trip.virt, trip.c) else now[j]
    ensures Traced(trips, at, i + 1, was, later)
  {
    hide RunsIn;
    forall j: nat, k: nat | j < |was| && k < |was[j].data| && k < |later[j].data|
      ensures var l := LastStore(trips, at, |was|, j, k, i + 1);
              later[j].data[k] == if l >= 0 then trips[l].c else was[j].data[k]
    {
      if Aimed(trips, at, |was|, i, j, k) { OwnByte(now[j], trips[i].virt, k); }
    }
  }

  lemma OwnByte(img: Image, virt: nat, k: nat)
    requires k < |img.data| && virt == 0x40_0000 + k
    ensures Own(img, virt / 4096)
  {
  }

  /** The copy of sys_write leaves the frame on the stack alone. */
  lemma FrameKept(m: Ram, m': Ram, b: nat, buffer: u32)
    requires 0x60_0000 <= |m| == |m'| && buffer as nat + 512 + FRAME_BYTES <= 0x60_0000
    requires if b == 0 then m' == Cleared(m, 0, 512) else b != 0x5FF && SameOutside(m, m', b, buffer, 511)
    ensures FrameOn(m', 0x5FF) == FrameOn(m, 0x5FF)
  {
    hide Cleared;
    FrameSame(m, m');
  }

  /** Whether user mode may write through the page of an address, by its two entries. */
  method MayWrite(ram: array<byte>, directory: u32, virt: u32) returns (ok: bool)
    requires directory % 4096 == 0 && Directory(ram[..], directory / 4096)
    ensures ok == UserWritable(ram[..], directory / 4096, virt / 4096)
  {
    hide Cell, AllowsUserWrite;
    var p := virt / 4096;
    var table := LoadCell(ram, directory / 4096, p / 1024);
    ghost var d: nat := directory / 4096;
    assert table / 4096 == Table(ram[..], d, p / 1024);
    var entry := LoadCell(ram, table / 4096, p % 1024);
    assert entry == View(ram[..], d)[p];
    ok := AllowsUserWrite(table % 4096) && AllowsUserWrite(entry);
  }

  /** The kernel finds its stack where it is. */
  lemma KernelStack(m: Ram, s: Space)
    requires SpaceIn(m, s)
    ensures Directory(m, s.dir) && StackBlock(m, s.dir) == 0x5FF
  {
    hide Directory, View, Tables;
    assert View(m, s.dir)[0x5FF] == 4096 * 0x5FF + 7;
  }

  method LoadRegisters(ram: array<byte>, a: nat) returns (r: Registers)
    requires a + 48 <= ram.Length
    ensures r == StoredAt(ram[..], a)
  {
    hide Word;
    var edi := LoadWord(ram, a);
    var esi := LoadWord(ram, a + 4);
    var ebp := LoadWord(ram, a + 8);
    var ebx := LoadWord(ram, a + 12);
    var edx := LoadWord(ram, a + 16);
    var ecx := LoadWord(ram, a + 20);
    var eax := LoadWord(ram, a + 24);
    var ip := LoadWord(ram, a + 28);
    var cs := LoadWord(ram, a + 32);
    var flags := LoadWord(ram, a + 36);
    var esp := LoadWord(ram, a + 40);
    var ss := LoadWord(ram, a + 44);
    r := Registers(edi, esi, ebp, ebx, edx, ecx, eax, ip, cs, flags, esp, ss);
  }

  /** Where task_return finds the saved registers, 4 bytes into the task's record. */
  lemma RecordPlace(m: Ram, img: Image)
    requires Loaded(m, img) && 4096 * img.task + 4096 <= 0x1_0000_0000
    ensures Directory(m, img.dir)
    ensures var t := Translate(m, img.dir, 4096 * img.task + 4);
            (t == 4096 * img.task + 4 <==> !Own(img, img.task)) && (Own(img, img.task) ==> t + 48 <= |m|)
  {
    hide Directory, Translate, UserWritable, View, Mapping;
    var a := 4096 * img.task + 4;
    Split(img.task, 4);
    KernelSeesExactly(m, img, a);
    StoreLands(m, img, a);
  }

  /** The machine with the current task's directory loaded. */
  function Paged(m: Machine): Machine
    requires Running(m)
  {
    m.(directory := m.tasks[m.current].directory)
  }

  /** The effect of a command on memory and heap: none but for sys_write. */
  ghost predicate Effect(command: u32, m: Ram, h: Heap, m': Ram, h': Heap, img: Image, virt: u32, buffer: u32) {
    if command == SYS_WRITE then Written(m, h, m', h', img, virt, buffer) else m' == m && h' == h
  }

  /** The effect of sys_write on memory and heap: one block taken for good and the buffer filled; or,
      with no block free, the beginning of block 0 cleared. The string arrives exactly when it is intact;
      one of a loaded program's that stays off the temporary page, exactly when it stays off the low byte
      of that page's entry. */
  ghost predicate Written(m: Ram, h: Heap, m': Ram, h': Heap, img: Image, virt: u32, buffer: u32) {
    var b := TmpBlock(h, WRITE_BUFFER_SIZE);
    if b == 0 then h' == h && m' == Cleared(m, 0, WRITE_BUFFER_SIZE)
    else
      && h'.frames.taken == h.frames.taken + {b} && b !in h.frames.taken
      && Usable(m, img.dir, b) && SameOutside(m, m', b, buffer, Room(WRITE_BUFFER_SIZE))
      && CopiedTo(m, img.dir, virt, b, WRITE_BUFFER_SIZE, m', buffer)
      && Arrival(m, img.dir, virt, WRITE_BUFFER_SIZE, b, m', buffer)
  }

  /** A string of fewer than 512 bytes in the program's own data gets to the buffer, with its NUL: when a
      block is free, and lies where none of the program's pages is. */
  lemma {:induction false} OwnStringWritten(m: Ram, h: Heap, m': Ram, h': Heap, img: Image, o: nat, buffer: u32,
      t: seq<byte>)
    requires Loaded(m, img) && AllBlocks(img) <= h.frames.taken && Spells(img.data, o, t) && |t| < 512
    requires TmpBlock(h, WRITE_BUFFER_SIZE) != 0 && !Own(img, TmpBlock(h, WRITE_BUFFER_SIZE))
    requires 0x40_0000 + o < 0x1_0000_0000 && Written(m, h, m', h', img, 0x40_0000 + o, buffer)
    ensures Spells(m', buffer, t)
  {
    hide Loaded, AllBlocks, Spells, TmpBlock, Usable, CopiedTo, SameOutside, StringIntact, Sees, Own, Directory;
    var b := TmpBlock(h, WRITE_BUFFER_SIZE);
    OwnStringIntact(m, img, o, t, WRITE_BUFFER_SIZE, b);
  }

  lemma ChunkInUse(m: Ram, task: Task, c: nat, d: nat, taken: set<nat>)
    requires task.pageDirectory == 4096 * c && Directory(m, d) && Chunk(m, c, d)
    requires ChunkBlocks(m, c, d) <= taken && 4096 * d < 0x1_0000_0000
    ensures InUse(m, task, d, taken)
  {
    hide Directory, Chunk, ChunkBlocks;
  }

  /** A loaded program's address space lies in blocks in use, off any buffer in the reserved ones. */
  lemma WriteSpace(m: Ram, img: Image, taken: set<nat>, reserved: nat, phys: nat, n: nat)
    requires Loaded(m, img) && AllBlocks(img) <= taken
    requires AllBlocks(img) !! Span(0, reserved) && Span(0, reserved) <= taken
    requires phys + n < |m| && (phys + n) / 4096 < reserved
    ensures Directory(m, img.dir) && Chunk(m, img.chunk, img.dir) && ChunkBlocks(m, img.chunk, img.dir) <= taken
    ensures 4096 * img.dir < 0x1_0000_0000 && Buffer(m, img.dir, phys, n, taken)
  {
    hide Loaded, AllBlocks, Span, TableBlocks, KernelBlocks, Directory, BufferBlocks, Cell, Blocks;
    ChunkIs(m, img);
    KernelPart(img);
    BufferReserved(phys, n, reserved);
  }

  lemma KernelPart(img: Image)
    ensures KernelBlocks(img) <= AllBlocks(img) && TableBlocks(img) <= KernelBlocks(img)
  {
  }

  lemma BufferReserved(phys: nat, n: nat, reserved: nat)
    requires (phys + n) / 4096 < reserved
    ensures BufferBlocks(phys, n) <= Span(0, reserved)
  {
  }

  lemma ChunkIs(m: Ram, img: Image)
    requires Loaded(m, img)
    ensures 4096 * img.chunk + 4096 <= |m| && Cell(m, img.chunk, 0) == 4096 * img.dir
    ensures Directory(m, img.dir) && Blocks(m, img.dir) == TableBlocks(img) &&
            ChunkBlocks(m, img.chunk, img.dir) <= KernelBlocks(img)
  {
    hide View, Directory, Span;
  }
}
