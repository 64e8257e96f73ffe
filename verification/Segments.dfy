/** The kernel's own descriptor table, src/kernel.c, and the selectors user mode is entered with. */
module KernelSegments {
  import opened Bits
  import opened SegmentDescriptors
  import opened Tasks
  import opened Kernels

  const TSS_BYTES: u32 := 100

  /** gdt_structured: the null segment, the kernel's and the user's code and data, the task state. */
  function GdtStructured(tss: u32): (segments: seq<Segment>)
    ensures |segments| == 6
  {
    [Segment(0, 0, 0),
     Segment(0, 0xFFFF_FFFF, 0x9A), Segment(0, 0xFFFF_FFFF, 0x92),
     Segment(0, 0xFFFF_FFFF, 0xF8), Segment(0, 0xFFFF_FFFF, 0xF2),
     Segment(tss, TSS_BYTES, 0xE9)]
  }

  /** The access byte of a descriptor: present, and of this privilege. */
  predicate PresentAt(access: byte, privilege: nat) {
    access / 0x80 == 1 && access / 0x20 % 4 == privilege
  }

  /** A code segment that is entered at its own privilege only. */
  predicate Code(access: byte) {
    access / 0x10 % 2 == 1 && access / 8 % 2 == 1 && access / 4 % 2 == 0
  }

  predicate WritableData(access: byte) {
    access / 0x10 % 2 == 1 && access / 8 % 2 == 0 && access / 2 % 2 == 1
  }

  predicate AvailableTaskState(access: byte) {
    access % 0x20 == 9
  }

  /** All four gigabytes, from address 0. */
  predicate Flat(d: seq<byte>)
    requires |d| == 8
  {
    Plain32(d) && Base(d) == 0 && EffectiveLimit(d) == 0xFFFF_FFFF
  }

  predicate UserCode(d: seq<byte>)
    requires |d| == 8
  {
    Flat(d) && PresentAt(d[5], 3) && Code(d[5])
  }

  predicate UserData(d: seq<byte>)
    requires |d| == 8
  {
    Flat(d) && PresentAt(d[5], 3) && WritableData(d[5])
  }

  /** A selector for entry i of the table with requested privilege 3. */
  predicate Selects(selector: u32, i: nat) {
    i < 6 && selector as int == 8 * i + 3
  }

  /** What iretd asks of the two selectors it pops to leave for privilege 3 (the Intel SDM, volume 2A,
      IRET: return to outer privilege level), and task_return of the one it puts into ds. */
  ghost predicate EntersUserMode(table: seq<byte>, cs: u32, ss: u32)
    requires |table| == 48
  {
    && (exists i: nat :: Selects(cs, i) && UserCode(Entry(table, i)))
    && (exists i: nat :: Selects(ss, i) && UserData(Entry(table, i)))
  }

  /** The table as the processor reads it is the kernel's six segments. */
  ghost predicate Installed(table: seq<byte>, tss: u32) {
    && |table| == 48
    && forall i :: 0 <= i < 6 ==> Decode(Entry(table, i)) == GdtStructured(tss)[i] && Plain32(Entry(table, i))
  }

  lemma Sixfold(table: seq<byte>, tss: u32, i: nat)
    requires Installed(table, tss) && i < 6
    ensures var d, e := Entry(table, i), GdtStructured(tss)[i];
            d[5] == e.kind && Base(d) == e.base && EffectiveLimit(d) == e.limit && Plain32(d)
  {
    hide Plain32, Entry, EffectiveLimit, Base;
    assert Decode(Entry(table, i)) == GdtStructured(tss)[i];
  }

  /** Of the six, entry 3 alone is code of the user, and entry 4 alone is data. */
  lemma {:induction false} UserEntriesExactly(table: seq<byte>, tss: u32, i: nat)
    requires Installed(table, tss) && i < 6
    ensures UserCode(Entry(table, i)) <==> i == 3
    ensures UserData(Entry(table, i)) <==> i == 4
  {
    hide Plain32, Entry, EffectiveLimit, Base;
    Sixfold(table, tss, i);
  }

  /** The user's two selectors, and no other pair, enter user mode through the kernel's table. */
  lemma {:induction false} UserSelectorsExactly(table: seq<byte>, tss: u32, cs: u32, ss: u32)
    requires Installed(table, tss)
    ensures EntersUserMode(table, cs, ss) <==> cs == USER_CODE_SEGMENT && ss == USER_DATA_SEGMENT
  {
    hide UserCode, UserData, Entry, Decode, Plain32;
    forall i: nat | i < 6
      ensures UserCode(Entry(table, i)) <==> i == 3
      ensures UserData(Entry(table, i)) <==> i == 4
    {
      UserEntriesExactly(table, tss, i);
    }
    assert Selects(USER_CODE_SEGMENT, 3) && Selects(USER_DATA_SEGMENT, 4);
  }

  /** A task that is about to start enters user mode when it is given the processor. */
  lemma NewTaskEnters(table: seq<byte>, tss: u32, task: Task)
    requires Installed(table, tss) && AtStart(task)
    ensures EntersUserMode(table, task.registers.cs, task.registers.ss)
  {
    hide Installed, EntersUserMode;
    UserSelectorsExactly(table, tss, task.registers.cs, task.registers.ss);
  }

  /** kernel_main puts the six descriptors into gdt_real, and does not panic. The kernel's own selectors,
      0x08 and 0x10, name flat code and data of privilege 0, the one loaded into the task register, 0x28,
      names the task state, and the user's two enter user mode. */
  method InstallGdt(gdt: array<byte>, tss: u32)
    requires gdt.Length == 48
    modifies gdt
    ensures Installed(gdt[..], tss) && EntersUserMode(gdt[..], USER_CODE_SEGMENT, USER_DATA_SEGMENT)
    ensures var d := Entry(gdt[..], 1); Flat(d) && PresentAt(d[5], 0) && Code(d[5])
    ensures var d := Entry(gdt[..], 2); Flat(d) && PresentAt(d[5], 0) && WritableData(d[5])
    ensures var d := Entry(gdt[..], 5);
            PresentAt(d[5], 3) && AvailableTaskState(d[5]) && Base(d) == tss && EffectiveLimit(d) == 100
  {
    hide Entry, Decode, Plain32, EntersUserMode, Base, EffectiveLimit;
    var ok := GdtStructuredToGdt(gdt, GdtStructured(tss));
    assert ok;
    Sixfold(gdt[..], tss, 1);
    Sixfold(gdt[..], tss, 2);
    Sixfold(gdt[..], tss, 5);
    UserSelectorsExactly(gdt[..], tss, USER_CODE_SEGMENT, USER_DATA_SEGMENT);
  }
}
