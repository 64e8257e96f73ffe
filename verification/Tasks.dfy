/** src/task/task.c, src/scheduler/scheduler.c, and the handlers of src/idt/idt.c. */
module Tasks {
  import opened Bits
  import opened Links
  import opened Memory
  import opened PagingUnit
  import opened Scheduling

  const PROGRAM_VIRTUAL_ADDRESS: u32 := 0x40_0000
  const PROGRAM_VIRTUAL_STACK_ADDRESS_START: u32 := 0x3F_F000
  const USER_DATA_SEGMENT: u32 := 0x23
  const USER_CODE_SEGMENT: u32 := 0x1B

  class Task {
    /** The address of the task's record. */
    const record: u32
    /** The address of the task's chunk, whose first word is the address of its directory. */
    var pageDirectory: u32
    /** The address of the record of its process. */
    var process: u32
    var registers: Registers
    var next: Task?
    var prev: Task?

    /** A task record as task_init leaves it. */
    constructor (record: u32, pageDirectory: u32, process: u32)
      ensures this.record == record && this.pageDirectory == pageDirectory && this.process == process
      ensures next == null && prev == null
      ensures registers == Registers(0, 0, 0, 0, 0, 0, 0, PROGRAM_VIRTUAL_ADDRESS, USER_CODE_SEGMENT, 0,
                                     PROGRAM_VIRTUAL_STACK_ADDRESS_START, USER_DATA_SEGMENT)
    {
      this.record, this.pageDirectory, this.process := record, pageDirectory, process;
      registers := Registers(0, 0, 0, 0, 0, 0, 0, PROGRAM_VIRTUAL_ADDRESS, USER_CODE_SEGMENT, 0,
                             PROGRAM_VIRTUAL_STACK_ADDRESS_START, USER_DATA_SEGMENT);
      next, prev := null, null;
    }
  }

  ghost function After(tasks: seq<Task>, i: nat): Task? {
    if i + 1 < |tasks| then tasks[i + 1] else null
  }

  ghost function Before(tasks: seq<Task>, i: nat): Task? {
    if 0 < i <= |tasks| then tasks[i - 1] else null
  }

  /** The tasks are different, and next leads from each to the one after it. */
  ghost predicate Linked(tasks: seq<Task>)
    reads tasks
  {
    && (forall i: nat {:trigger After(tasks, i)} :: i < |tasks| ==> tasks[i].next == After(tasks, i))
    && Distinct(tasks)
  }

  lemma RemoveKeepsDistinct(was: seq<Task>, index: nat)
    requires Distinct(was) && index < |was|
    ensures var tasks := was[..index] + was[index + 1..];
            && Distinct(tasks)
            && (forall i :: 0 <= i < |tasks| ==> tasks[i] == was[if i < index then i else i + 1])
            && was[index] !in tasks
  {
  }

  ghost predicate LinkedBack(tasks: seq<Task>)
    reads tasks
  {
    forall i: nat {:trigger Before(tasks, i)} :: i < |tasks| ==> tasks[i].prev == Before(tasks, i)
  }

  /** The directory a chunk names; 0 for a chunk that is not in memory. */
  ghost function DirectoryAt(m: Ram, chunk: u32): u32 {
    if chunk / 4096 * 4096 + 4096 <= |m| then Cell(m, chunk / 4096, 0) else 0
  }

  ghost function States(m: Ram, tasks: seq<Task>): (r: seq<TaskState>)
    reads tasks
    ensures |r| == |tasks|
    ensures forall i :: 0 <= i < |tasks| ==> r[i] == TaskState(DirectoryAt(m, tasks[i].pageDirectory),
            tasks[i].registers)
  {
    if tasks == [] then []
    else
      var last := tasks[|tasks| - 1];
      States(m, tasks[..|tasks| - 1]) + [TaskState(DirectoryAt(m, last.pageDirectory), last.registers)]
  }

  /** The list of tasks and the current one among them. */
  class TaskList {
    var currentTask: Task?
    var taskHead: Task?
    var taskTail: Task?

    ghost var tasks: seq<Task>
    ghost var at: nat

    /** The list from the head on, in forward order. */
    ghost predicate Spine()
      reads this, tasks
    {
      && Linked(tasks)
      && taskHead == (if tasks == [] then null else tasks[0])
      && taskTail == (if tasks == [] then null else tasks[|tasks| - 1])
    }

    /** The list in forward order, and the current task in it. */
    ghost predicate Forward()
      reads this, tasks
    {
      && Spine()
      && (if tasks == [] then currentTask == null else at < |tasks| && currentTask == tasks[at])
    }

    /** The list is acyclic and linked both ways. */
    ghost predicate Valid()
      reads this, tasks
    {
      Forward() && LinkedBack(tasks)
    }

    constructor ()
      ensures Valid() && tasks == []
    {
      currentTask, taskHead, taskTail, tasks, at := null, null, null, [], 0;
    }

    /** The list part of task_new: the new task goes last; the first one ever becomes current. */
    method Append(task: Task)
      requires Valid() && task !in tasks && task.next == null && task.prev == null
      modifies this, task`prev, tasks`next
      ensures Valid() && tasks == old(tasks) + [task]
      ensures at == if old(tasks) == [] then 0 else old(at)
    {
      ghost var was := tasks;
      tasks := tasks + [task];
      if taskHead == null {
        taskHead, taskTail, currentTask, at := task, task, task, 0;
        return;
      }
      taskTail.next := task;
      task.prev := taskTail;
      taskTail := task;
      forall i: nat | i < |tasks| ensures tasks[i].next == After(tasks, i) && tasks[i].prev == Before(tasks, i) {
        if i < |was| {
          assert old(was[i].next) == After(was, i) && old(was[i].prev) == Before(was, i);
        }
      }
    }

    method GetNext() returns (task: Task?)
      requires Forward() && currentTask != null
      ensures task == tasks[Next(at, |tasks|)]
    {
      assert currentTask.next == After(tasks, at);
      if currentTask.next == null { return taskHead; }
      return currentTask.next;
    }

    method SetCurrent(task: Task, ghost index: nat)
      requires Forward() && index < |tasks| && tasks[index] == task
      modifies this`currentTask, this`at
      ensures Forward() && at == index && currentTask == task
    {
      currentTask, at := task, index;
    }

    method SaveState(frame: Frame)
      requires Valid() && currentTask != null
      modifies currentTask`registers
      ensures Valid() && currentTask.registers == Saved(frame)
      ensures var r := currentTask.registers;
              && r.ip == frame.ip && r.cs == frame.cs && r.flags == frame.flags && r.esp == frame.esp
              && r.ss == frame.ss && r.eax == frame.eax && r.ebp == frame.ebp && r.ebx == frame.ebx
              && r.ecx == frame.ecx && r.edi == frame.edi && r.edx == frame.edx && r.esi == frame.esi
    {
      currentTask.registers := Saved(frame);
    }

    /** task_list_remove, the links and the ends of the list. */
    method Unlink(task: Task, ghost index: nat)
      requires Spine() && LinkedBack(tasks) && index < |tasks| && tasks[index] == task
      modifies this`tasks, this`taskHead, this`taskTail, tasks`next
      ensures tasks == old(tasks)[..index] + old(tasks)[index + 1..]
      ensures Spine() && (LinkedBack(tasks) <==> index == |tasks|)
      ensures task.next == (if index < |tasks| then tasks[index] else null)
    {
      ghost var was := tasks;
      RemoveKeepsDistinct(tasks, index);
      tasks := tasks[..index] + tasks[index + 1..];
      assert task.prev == Before(was, index) && task.next == After(was, index);
      if task.prev != null {
        task.prev.next := task.next;
      }
      forall k | 0 <= k < |was| && k != index - 1 ensures was[k].next == old(was[k].next) {}
      assert (task == taskHead <==> index == 0) && (task == taskTail <==> index == |was| - 1);
      hide Distinct;
      if task == taskHead {
        taskHead := task.next;
      }
      if task == taskTail {
        taskTail := task.prev;
      }
      assert taskHead == (if tasks == [] then null else tasks[0]);
      assert taskTail == (if tasks == [] then null else tasks[|tasks| - 1]);
      forall i: nat | i < |tasks|
        ensures tasks[i].next == After(tasks, i) && (i != index ==> tasks[i].prev == Before(tasks, i))
      {
        var k := if i < index then i else i + 1;
        assert tasks[i] == was[k] && old(was[k].next) == After(was, k) && old(was[k].prev) == Before(was, k);
      }
      if index < |tasks| {
        assert tasks[index] == was[index + 1] && old(was[index + 1].prev) == Before(was, index + 1);
        assert tasks[index].prev == task && Before(tasks, index) != task;
      }
    }

    /** task_list_remove. The order of the others is kept and the current task stays in the list,
        but the task after the removed one still points back to it: the list is linked both ways
        afterwards exactly when the last task was removed. */
    method ListRemove(task: Task, ghost index: nat)
      requires Valid() && index < |tasks| && tasks[index] == task
      modifies this, tasks`next
      ensures tasks == old(tasks)[..index] + old(tasks)[index + 1..]
      ensures Forward() && (Valid() <==> old(taskTail) == task)
      ensures currentTask == if old(currentTask) != task then old(currentTask)
                             else if tasks == [] then null
                             else tasks[if index < |tasks| then index else 0]
    {
      hide LinkedBack;
      assert (task == currentTask <==> index == at) && (task == taskTail <==> index == |tasks| - 1);
      hide Linked;
      Unlink(task, index);
      if task == currentTask {
        currentTask := if task.next == null then taskHead else task.next;
        at := if index < |tasks| then index else 0;
      } else {
        at := if at < index then at else at - 1;
      }
    }
  }

  /** The list, the paging unit, and the two interrupt handlers over them. */
  class TaskSystem {
    const list: TaskList
    const paging: Paging
    /** The address of the kernel's page directory. */
    const kernelDirectory: u32

    ghost predicate Valid()
      reads this, list, list.tasks
    {
      && list.Valid()
      && forall i :: 0 <= i < |list.tasks| ==> list.tasks[i].pageDirectory / 4096 * 4096 + 4096 <= paging.ram.Length
    }

    ghost function State(): Machine
      reads this, list, list.tasks, paging, paging.ram
    {
      Machine(States(paging.ram[..], list.tasks), list.at, paging.currentDirectory)
    }

    constructor (list: TaskList, paging: Paging, kernelDirectory: u32)
      ensures this.list == list && this.paging == paging && this.kernelDirectory == kernelDirectory
    {
      this.list, this.paging, this.kernelDirectory := list, paging, kernelDirectory;
    }

    method Switch(task: Task, ghost index: nat)
      requires Valid() && index < |list.tasks| && list.tasks[index] == task
      modifies list`currentTask, list`at, paging
      ensures Valid() && list.at == index && list.currentTask == task
      ensures paging.currentDirectory == DirectoryAt(paging.ram[..], task.pageDirectory)
    {
      hide Cell;
      list.SetCurrent(task, index);
      var directory := LoadCell(paging.ram, task.pageDirectory / 4096, 0);
      paging.Switch(directory);
    }

    /** What both handlers begin with: the kernel's directory, then the context saved. */
    method Enter(frame: Frame)
      requires Valid() && list.currentTask != null
      modifies paging, list.currentTask`registers
      ensures Valid() && Running(old(State()))
      ensures State() == Save(old(State()), frame).(directory := kernelDirectory)
      ensures list.currentTask.registers == Saved(frame)
    {
      hide DirectoryAt, Saved, LinkedBack;
      ghost var m := State();
      paging.Switch(kernelDirectory);
      list.SaveState(frame);
      forall i | 0 <= i < |list.tasks|
        ensures States(paging.ram[..], list.tasks)[i] == Save(m, frame).tasks[i]
      {
        assert i != list.at ==> list.tasks[i] != list.tasks[list.at];
      }
    }

    /** isr_0x20_handler with schedule_next_task and task_return: a timer interrupt. */
    method TimerInterrupt(frame: Frame, entryEsp: u32, kernelFlags: u32) returns (context: Registers)
      requires Valid() && list.currentTask != null
      modifies list`currentTask, list`at, paging, list.currentTask`registers
      ensures Valid() && Running(old(State()))
      ensures (State(), context) == Step(old(State()), Tick(frame, entryEsp, kernelFlags))
      ensures old(list.currentTask).registers == Saved(frame)
    {
      hide DirectoryAt, TaskReturn, Saved, LinkedBack, Distinct;
      Enter(frame);
      var task := list.GetNext();
      Switch(task, Next(list.at, |list.tasks|));
      context := TaskReturn(task.registers, entryEsp, kernelFlags);
    }

    /** task_run_first_ever_task: the head of the list is entered with its own directory loaded. */
    method RunFirst(entryEsp: u32, kernelFlags: u32) returns (context: Registers)
      requires Valid() && list.currentTask != null
      modifies list`currentTask, list`at, paging
      ensures Valid() && Running(State()) && State().current == 0
      ensures State().directory == State().tasks[0].directory
      ensures SameButEbpAndFlags(context, State().tasks[0].registers)
    {
      hide DirectoryAt;
      Switch(list.taskHead, 0);
      context := TaskReturn(list.taskHead.registers, entryEsp, kernelFlags);
    }
  }
}
