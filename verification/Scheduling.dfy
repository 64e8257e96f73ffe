/** What ticks and system calls do to the saved contexts, the running task and CR3. */
module Scheduling {
  import opened Bits

  /** A user context: the registers kept in a task, and the ones the CPU runs a task with. */
  datatype Registers = Registers(
    edi: u32, esi: u32, ebp: u32, ebx: u32, edx: u32, ecx: u32, eax: u32,
    ip: u32, cs: u32, flags: u32, esp: u32, ss: u32)

  /** What an interrupt leaves on the kernel stack; reserved is the kernel esp pushad stores. */
  datatype Frame = Frame(
    edi: u32, esi: u32, ebp: u32, reserved: u32, ebx: u32, edx: u32, ecx: u32, eax: u32,
    ip: u32, cs: u32, flags: u32, esp: u32, ss: u32)

  function Saved(f: Frame): Registers {
    Registers(f.edi, f.esi, f.ebp, f.ebx, f.edx, f.ecx, f.eax, f.ip, f.cs, f.flags, f.esp, f.ss)
  }

  /** What the processor and pushad leave on the kernel stack for a task interrupted in this context:
      pushad stores the stack pointer it starts from, five words below 0x600000. */
  function Trapped(cpu: Registers): Frame {
    Frame(cpu.edi, cpu.esi, cpu.ebp, 0x5F_FFEC, cpu.ebx, cpu.edx, cpu.ecx, cpu.eax,
          cpu.ip, cpu.cs, cpu.flags, cpu.esp, cpu.ss)
  }

  /** Two contexts with the same ip, cs, esp, ss, eax, ebx, ecx, edx, esi and edi. */
  predicate SameButEbpAndFlags(a: Registers, b: Registers) {
    && a.ip == b.ip && a.cs == b.cs && a.esp == b.esp && a.ss == b.ss
    && a.eax == b.eax && a.ebx == b.ebx && a.ecx == b.ecx && a.edx == b.edx
    && a.esi == b.esi && a.edi == b.edi
  }

  /** The restore half of a switch. The ebp popped last is the one task_return set to the stack
      pointer it was entered with; the flags are the kernel's own with interrupts enabled. */
  function TaskReturn(saved: Registers, entryEsp: u32, kernelFlags: u32): (r: Registers)
    ensures SameButEbpAndFlags(r, saved)
  {
    saved.(ebp := entryEsp, flags := Or32(kernelFlags, 0x200))
  }

  /** The flags user mode is entered with: the kernel's, with bit 9, which enables interrupts, set. */
  lemma {:induction false} FlagsEntered(saved: Registers, entryEsp: u32, kernelFlags: u32, k: nat)
    ensures Bit(TaskReturn(saved, entryEsp, kernelFlags).flags, k) <==> k == 9 || Bit(kernelFlags, k)
  {
    hide Bit, Or;
    NinthBit();
    OrBit(kernelFlags, 0x200, k);
    Pow2Bit(9, k);
  }

  lemma NinthBit()
    ensures Pow2(9) == 0x200
  {
    assert Pow2(4) == 16 && Pow2(8) == 16 * Pow2(4);
  }

  datatype TaskState = TaskState(directory: u32, registers: Registers)

  /** The tasks in list order, the index of the current one, and the loaded page directory. */
  datatype Machine = Machine(tasks: seq<TaskState>, current: nat, directory: u32)

  predicate Running(m: Machine) {
    m.current < |m.tasks|
  }

  datatype Event =
    | Tick(frame: Frame, entryEsp: u32, kernelFlags: u32)
    | SystemCall(frame: Frame)

  /** Command 0 panics, so that the call never returns; every other command number returns. */
  predicate Returns(e: Event) {
    e.SystemCall? ==> e.frame.eax != 0
  }

  /** The task after i of n: the next in the list, or the head. */
  function Next(i: nat, n: nat): nat {
    if i + 1 < n then i + 1 else 0
  }

  function Save(m: Machine, f: Frame): Machine
    requires Running(m)
  {
    m.(tasks := m.tasks[m.current := m.tasks[m.current].(registers := Saved(f))])
  }

  /** One trip through the kernel: the state after it and the context user mode is entered with. */
  function Step(m: Machine, e: Event): (r: (Machine, Registers))
    requires Running(m)
    ensures Running(r.0) && |r.0.tasks| == |m.tasks|
    ensures r.0.directory == r.0.tasks[r.0.current].directory
  {
    var s := Save(m, e.frame);
    match e
    case Tick(_, entryEsp, kernelFlags) =>
      var next := Next(s.current, |s.tasks|);
      (s.(current := next, directory := s.tasks[next].directory),
       TaskReturn(s.tasks[next].registers, entryEsp, kernelFlags))
    case SystemCall(frame) =>
      (s.(directory := s.tasks[s.current].directory), Saved(frame).(eax := 0))
  }

  /** The state after a run, and the context its last event returned to user mode with. */
  function Run(m: Machine, events: seq<Event>): (r: (Machine, Registers))
    requires Running(m) && |events| > 0
    ensures Running(r.0) && |r.0.tasks| == |m.tasks|
    decreases |events|
  {
    if |events| == 1 then Step(m, events[0]) else Run(Step(m, events[0]).0, events[1..])
  }

  function Ticks(events: seq<Event>): (n: nat)
    ensures n <= |events|
    decreases |events|
  {
    if events == [] then 0 else (if events[0].Tick? then 1 else 0) + Ticks(events[1..])
  }

  /** The task k ticks after i. */
  function Ahead(i: nat, k: nat, n: nat): nat
    decreases k
  {
    if k == 0 then i else Ahead(Next(i, n), k - 1, n)
  }

  /** Up to one round, counting on is adding, once around the end of the list. */
  lemma {:induction false} AheadIs(i: nat, k: nat, n: nat)
    requires i < n && k <= n
    ensures Ahead(i, k, n) == if i + k < n then i + k else i + k - n
    decreases k
  {
    if k > 0 {
      if k == n { AheadStep(i, k - 1, n); AheadIs(i, k - 1, n); } else { AheadIs(Next(i, n), k - 1, n); }
    }
  }

  lemma {:induction false} AheadStep(i: nat, k: nat, n: nat)
    ensures Ahead(i, k + 1, n) == Next(Ahead(i, k, n), n)
    decreases k
  {
    if k > 0 { AheadStep(Next(i, n), k - 1, n); }
  }

  /** The number of ticks until task t runs, counted from task i running. */
  function Wait(i: nat, t: nat, n: nat): nat
    requires i < n && t < n
  {
    if t > i then t - i else t + n - i
  }

  /** Counting on n times meets every one of the n tasks once, the first one last. */
  lemma {:induction false} AheadMeetsEach(i: nat, n: nat)
    requires i < n
    ensures forall t :: 0 <= t < n ==> 1 <= Wait(i, t, n) <= n && Ahead(i, Wait(i, t, n), n) == t
    ensures forall k :: 1 <= k <= n ==> Ahead(i, k, n) < n && k == Wait(i, Ahead(i, k, n), n)
  {
    forall t | 0 <= t < n ensures 1 <= Wait(i, t, n) <= n && Ahead(i, Wait(i, t, n), n) == t {
      AheadIs(i, Wait(i, t, n), n);
    }
    forall k | 1 <= k <= n ensures Ahead(i, k, n) < n && k == Wait(i, Ahead(i, k, n), n) {
      AheadIs(i, k, n);
    }
  }

  /** However system calls are mixed in, k ticks advance the processor by k places; no event
      touches any directory, and every return finds the current task's own directory loaded. */
  lemma {:induction false} RunAdvances(m: Machine, events: seq<Event>)
    requires Running(m) && |events| > 0
    ensures var r := Run(m, events).0;
            && r.current == Ahead(m.current, Ticks(events), |m.tasks|)
            && r.directory == r.tasks[r.current].directory
            && (forall t :: 0 <= t < |m.tasks| ==> r.tasks[t].directory == m.tasks[t].directory)
    decreases |events|
  {
    if |events| == 1 {
      assert events[1..] == [];
      assert Ahead(Next(m.current, |m.tasks|), 0, |m.tasks|) == Next(m.current, |m.tasks|);
    } else {
      RunAdvances(Step(m, events[0]).0, events[1..]);
    }
  }

  /** A task that is not given the processor keeps its saved context: t last ran a + 1 ticks ago
      and its turn does not come again within the run. */
  lemma {:induction false} SuspendedKept(m: Machine, events: seq<Event>, t: nat, a: nat)
    requires Running(m) && |events| > 0 && t < |m.tasks|
    requires m.current == Ahead(t, a + 1, |m.tasks|) && a + 1 + Ticks(events) <= |m.tasks|
    requires a + 1 < |m.tasks|
    requires !events[|events| - 1].Tick? ==> a + 1 + Ticks(events) < |m.tasks|
    ensures Run(m, events).0.tasks[t].registers == m.tasks[t].registers
    decreases |events|
  {
    var n := |m.tasks|;
    AheadIs(t, a + 1, n);
    if |events| > 1 {
      var s := Step(m, events[0]).0;
      var rest := events[1..];
      assert rest[|rest| - 1] == events[|events| - 1];
      TicksLast(rest);
      if events[0].Tick? {
        AheadStep(t, a + 1, n);
        SuspendedKept(s, rest, t, a + 1);
      } else {
        SuspendedKept(s, rest, t, a);
      }
    }
  }

  lemma {:induction false} TicksLast(events: seq<Event>)
    requires |events| > 0
    ensures events[|events| - 1].Tick? ==> Ticks(events) >= 1
  {
    if |events| > 1 {
      assert events[1..][|events| - 2] == events[|events| - 1];
      TicksLast(events[1..]);
    }
  }

  lemma {:induction false} RunSplit(m: Machine, events: seq<Event>)
    requires Running(m) && |events| > 1
    ensures var front := events[..|events| - 1];
            && Run(m, events) == Step(Run(m, front).0, events[|events| - 1])
            && Ticks(events) == Ticks(front) + (if events[|events| - 1].Tick? then 1 else 0)
    decreases |events|
  {
    var front := events[..|events| - 1];
    if |events| == 2 {
      assert events[1..] == [events[1]] && front == [events[0]];
      assert Run(Step(m, events[0]).0, events[1..]) == Step(Step(m, events[0]).0, events[1]);
      assert Ticks(events[1..][1..]) == 0 && Ticks(front[1..]) == 0;
    } else {
      assert front[1..] == events[1..][..|events| - 2];
      RunSplit(Step(m, events[0]).0, events[1..]);
    }
  }

  /** A task suspended by a tick resumes, one full round of ticks later and with any system calls
      of the others in between, with the ten registers it was interrupted with; with all twelve
      exactly when the kernel's own stack pointer and flags happen to be those of the task. */
  lemma {:induction false} SuspendedResumes(m: Machine, events: seq<Event>)
    requires Running(m) && |events| > 0 && Ticks(events) == |m.tasks|
    requires events[0].Tick? && events[|events| - 1].Tick?
    ensures var r := Run(m, events);
            && r.0.current == m.current
            && r.0.directory == m.tasks[m.current].directory
            && SameButEbpAndFlags(r.1, Saved(events[0].frame))
            && r.1 == TaskReturn(Saved(events[0].frame), events[|events| - 1].entryEsp,
                                 events[|events| - 1].kernelFlags)
    ensures var f, last := events[0].frame, events[|events| - 1];
            Run(m, events).1 == Saved(f) <==>
            last.entryEsp == f.ebp && Or32(last.kernelFlags, 0x200) == f.flags
  {
    var t, n := m.current, |m.tasks|;
    RunAdvances(m, events);
    AheadIs(t, n, n);
    if |events| > 1 {
      var s := Step(m, events[0]).0;
      var rest := events[1..];
      RunSplit(m, events);
      TicksLast(rest);
      var front := events[..|events| - 1];
      if |front| > 1 {
        var mid := front[1..];
        assert Run(m, front).0 == Run(s, mid).0;
        AheadStep(t, 0, n);
        MidKept(m, s, mid, front);
      }
      AheadStep(t, n - 1, n);
      RunAdvances(m, front);
    }
  }

  /** A task interrupted by a tick in the context cpu is entered, one full round of ticks later, in that
      very context, but for ebp and the flags, which are the kernel's. */
  lemma {:induction false} TrappedResumes(m: Machine, events: seq<Event>, cpu: Registers)
    requires Running(m) && |events| > 0 && Ticks(events) == |m.tasks|
    requires events[0].Tick? && events[0].frame == Trapped(cpu) && events[|events| - 1].Tick?
    ensures var r, last := Run(m, events), events[|events| - 1];
            && r.0.current == m.current && r.0.directory == m.tasks[m.current].directory
            && r.1 == cpu.(ebp := last.entryEsp, flags := Or32(last.kernelFlags, 0x200))
            && (r.1 == cpu <==> last.entryEsp == cpu.ebp && Or32(last.kernelFlags, 0x200) == cpu.flags)
  {
    SuspendedResumes(m, events);
  }

  /** A call from the context cpu: the task goes on there with 0 in eax, cpu is what is saved of it, and
      no other task is touched. */
  lemma {:induction false} CallReturns(m: Machine, cpu: Registers)
    requires Running(m)
    ensures var (r, context) := Step(m, SystemCall(Trapped(cpu)));
            && context == cpu.(eax := 0) && r.current == m.current && |r.tasks| == |m.tasks|
            && r.tasks[m.current] == TaskState(m.tasks[m.current].directory, cpu)
            && forall t :: 0 <= t < |m.tasks| && t != m.current ==> r.tasks[t] == m.tasks[t]
  {
  }

  lemma MidKept(m: Machine, s: Machine, mid: seq<Event>, front: seq<Event>)
    requires Running(m) && |front| > 1 && mid == front[1..] && front[0].Tick? && s == Step(m, front[0]).0
    requires Ticks(front) + 1 == |m.tasks|
    ensures Run(s, mid).0.tasks[m.current].registers == Saved(front[0].frame)
  {
    var n := |m.tasks|;
    assert Ticks(front) == 1 + Ticks(mid);
    AheadStep(m.current, 0, n);
    assert s.tasks[m.current].registers == Saved(front[0].frame);
    SuspendedKept(s, mid, m.current, 0);
  }

  lemma {:induction false} TicksJoin(first: seq<Event>, second: seq<Event>)
    ensures Ticks(first + second) == Ticks(first) + Ticks(second)
  {
    if first == [] {
      assert first + second == second;
    } else {
      assert (first + second)[1..] == first[1..] + second;
      TicksJoin(first[1..], second);
    }
  }

  /** The number of ticks among the first i + 1 events. */
  function TicksTo(events: seq<Event>, i: nat): nat
    requires i < |events|
  {
    Ticks(events[..i + 1])
  }

  lemma TicksGrow(events: seq<Event>, i: nat, j: nat)
    requires i < j < |events| && events[j].Tick?
    ensures TicksTo(events, i) < TicksTo(events, j) <= Ticks(events)
  {
    hide Ticks;
    var first, mid, last := events[..i + 1], events[i + 1..j + 1], events[j + 1..];
    assert mid[|mid| - 1] == events[j];
    TicksOfThree(first, mid, last);
    assert events == first + mid + last && events[..j + 1] == first + mid;
  }

  lemma TicksWithin(events: seq<Event>, i: nat)
    requires i < |events|
    ensures TicksTo(events, i) <= Ticks(events)
  {
    assert events == events[..i + 1] + events[i + 1..];
    TicksJoin(events[..i + 1], events[i + 1..]);
  }

  lemma TicksOfThree(first: seq<Event>, mid: seq<Event>, last: seq<Event>)
    requires mid != [] && mid[|mid| - 1].Tick?
    ensures Ticks(first) < Ticks(first + mid) <= Ticks(first + mid + last)
  {
    TicksLast(mid);
    TicksJoin(first, mid);
    TicksJoin(first + mid, last);
  }

  /** The event that is the k-th tick. */
  lemma {:induction false} KthTick(events: seq<Event>, k: nat) returns (i: nat)
    requires 1 <= k <= Ticks(events)
    ensures i < |events| && events[i].Tick? && TicksTo(events, i) == k
    decreases |events|
  {
    var last := |events| - 1;
    assert events == events[..last] + [events[last]] == events[..last + 1];
    TicksJoin(events[..last], [events[last]]);
    if k <= Ticks(events[..last]) {
      i := KthTick(events[..last], k);
      assert events[..last][..i + 1] == events[..i + 1];
    } else {
      i := last;
    }
  }

  /** The task the processor is given at event i. */
  function RunsAt(m: Machine, events: seq<Event>, i: nat): nat
    requires Running(m) && i < |events|
  {
    Run(m, events[..i + 1]).0.current
  }

  /** Event i is a tick that gives task t the processor. */
  predicate GivenAt(m: Machine, events: seq<Event>, i: int, t: nat)
    requires Running(m)
  {
    0 <= i < |events| && events[i].Tick? && RunsAt(m, events, i) == t
  }

  ghost predicate Given(m: Machine, events: seq<Event>, t: nat)
    requires Running(m)
  {
    exists i :: GivenAt(m, events, i, t)
  }

  /** Round robin: over any run with n ticks, whatever system calls are mixed in, each of the n tasks
      is given the processor at one tick and at no other, and all in list order from the one that
      was running; so none waits more than n ticks. */
  lemma {:induction false} EachOnceARound(m: Machine, events: seq<Event>)
    requires Running(m) && Ticks(events) == |m.tasks|
    ensures forall t :: 0 <= t < |m.tasks| ==> Given(m, events, t)
    ensures forall i, j :: 0 <= i < j < |events| && events[i].Tick? && events[j].Tick? ==>
              RunsAt(m, events, i) != RunsAt(m, events, j)
    ensures forall i :: 0 <= i < |events| && events[i].Tick? ==>
              var to := m.current + TicksTo(events, i);
              RunsAt(m, events, i) == if to < |m.tasks| then to else to - |m.tasks|
  {
    var n := |m.tasks|;
    AheadMeetsEach(m.current, n);
    forall i | 0 <= i < |events|
      ensures RunsAt(m, events, i) == Ahead(m.current, TicksTo(events, i), n)
      ensures var to := m.current + TicksTo(events, i);
              RunsAt(m, events, i) == if to < n then to else to - n
    {
      RunAdvances(m, events[..i + 1]);
      TicksWithin(events, i);
      AheadIs(m.current, TicksTo(events, i), n);
    }
    forall t | 0 <= t < n
      ensures Given(m, events, t)
    {
      var i := KthTick(events, Wait(m.current, t, n));
      assert RunsAt(m, events, i) == Ahead(m.current, TicksTo(events, i), n) == t;
      assert GivenAt(m, events, i, t);
    }
    forall i, j | 0 <= i < j < |events| && events[i].Tick? && events[j].Tick?
      ensures RunsAt(m, events, i) != RunsAt(m, events, j)
    {
      TicksGrow(events, i, j);
      FirstTick(events, i);
      assert TicksTo(events, i) == Wait(m.current, Ahead(m.current, TicksTo(events, i), n), n);
      assert TicksTo(events, j) == Wait(m.current, Ahead(m.current, TicksTo(events, j), n), n);
    }
  }

  lemma FirstTick(events: seq<Event>, i: nat)
    requires i < |events| && events[i].Tick?
    ensures TicksTo(events, i) >= 1
  {
    TicksLast(events[..i + 1]);
  }
}
