/** task_return and restore_general_purpose_registers of src/task/task.asm, instruction by
    instruction on the processor's registers and the kernel stack in RAM. */
module UserReturn {
  import opened Bits
  import opened Memory
  import opened Scheduling

  /** The twelve words of a struct registers, in the order of its fields. */
  ghost function StoredAt(m: Ram, a: nat): Registers
    requires a + 48 <= |m|
  {
    Registers(Word(m, a), Word(m, a + 4), Word(m, a + 8), Word(m, a + 12), Word(m, a + 16), Word(m, a + 20),
              Word(m, a + 24), Word(m, a + 28), Word(m, a + 32), Word(m, a + 36), Word(m, a + 40), Word(m, a + 44))
  }

  /** The field at offset k of a struct registers, for the four fields of the frame that are saved. */
  ghost function Field(saved: Registers, k: nat): u32 {
    if k == 28 then saved.ip else if k == 32 then saved.cs else if k == 40 then saved.esp else saved.ss
  }

  /** Neither of two stretches of memory reaches into the other. */
  predicate Apart(a: nat, n: nat, b: nat, k: nat) {
    a + n <= b || b + k <= a
  }

  /** The low half of a 32-bit register. */
  function LowHalf(x: u32): u32 {
    x % 0x1_0000
  }

  class Cpu {
    const ram: array<byte>
    var edi: u32
    var esi: u32
    var ebp: u32
    var ebx: u32
    var edx: u32
    var ecx: u32
    var eax: u32
    var eip: u32
    var cs: u32
    var eflags: u32
    var esp: u32
    var ss: u32
    /** ds, es, fs and gs, which are always loaded together here. */
    var dataSegments: u32

    constructor (ram: array<byte>, esp: u32, eflags: u32)
      ensures this.ram == ram && this.esp == esp && this.eflags == eflags
    {
      this.ram, this.esp, this.eflags := ram, esp, eflags;
      edi, esi, ebp, ebx, edx, ecx, eax, eip, cs, ss, dataSegments := 0, 0, 0, 0, 0, 0, 0, 0, 0, 0, 0;
    }

    /** The context the processor runs in. */
    function Context(): Registers
      reads this
    {
      Registers(edi, esi, ebp, ebx, edx, ecx, eax, eip, cs, eflags, esp, ss)
    }

    method Push(v: u32)
      requires 4 <= esp <= ram.Length
      modifies this`esp, ram
      ensures esp == old(esp) - 4 && ram[..] == PutWord(old(ram[..]), esp, v)
    {
      esp := esp - 4;
      StoreWord(ram, esp, v);
    }

    method Pop() returns (v: u32)
      requires esp as nat + 4 <= ram.Length && esp as nat + 4 < 0x1_0000_0000
      modifies this`esp
      ensures esp == old(esp) + 4 && v == Word(ram[..], old(esp))
    {
      v := LoadWord(ram, esp);
      esp := esp + 4;
    }

    /** Called with the address of the saved registers behind the return address. Every register is
        loaded but ebp, which the last pop puts back. */
    method RestoreGeneralPurposeRegisters(ghost r: nat)
      requires 4 <= esp && esp as nat + 8 <= ram.Length && esp as nat + 8 < 0x1_0000_0000
      requires r + 48 <= ram.Length && Word(ram[..], esp as nat + 4) == r
      requires Apart(r, 48, esp as nat - 4, 4)
      modifies this, ram
      ensures Kept(old(ram[..]), ram[..], old(esp)) && StoredAt(ram[..], r) == StoredAt(old(ram[..]), r)
      ensures esp == old(esp) + 4
      ensures Context() ==
              StoredAt(old(ram[..]), r).(ebp := old(ebp), ip := old(eip), cs := old(cs), flags := old(eflags),
                esp := esp, ss := old(ss))
      ensures dataSegments == old(dataSegments)
    {
      hide Word, PutWord;
      PushClear(ebp, r);
      ebp := esp;
      ebx := LoadWord(ram, ebp as nat + 8);
      edi := LoadWord(ram, ebx);
      esi := LoadWord(ram, ebx as nat + 4);
      ebp := LoadWord(ram, ebx as nat + 8);
      edx := LoadWord(ram, ebx as nat + 16);
      ecx := LoadWord(ram, ebx as nat + 20);
      eax := LoadWord(ram, ebx as nat + 24);
      ebx := LoadWord(ram, ebx as nat + 12);
      ebp := Pop();
      var returnAddress := Pop();
    }

    /** A push that stays clear of the saved registers at r. */
    method PushClear(v: u32, ghost r: nat)
      requires 4 <= esp <= ram.Length && r + 48 <= ram.Length && Apart(r, 48, esp as nat - 4, 4)
      modifies this`esp, ram
      ensures esp == old(esp) - 4 && Word(ram[..], esp) == v
      ensures Kept(old(ram[..]), ram[..], old(esp)) && StoredAt(ram[..], r) == StoredAt(old(ram[..]), r)
    {
      hide Word, PutWord;
      Push(v);
    }

    /** push dword [ebx + k], of the saved registers in memory. */
    method PushField(k: nat)
      requires k in {28, 32, 40, 44} && ebx as nat + 48 <= ram.Length
      requires 4 <= esp <= ram.Length && Apart(ebx, 48, esp as nat - 4, 4)
      modifies this`esp, ram
      ensures esp == old(esp) - 4 && Word(ram[..], esp) == Field(StoredAt(ram[..], ebx), k)
      ensures Kept(old(ram[..]), ram[..], old(esp)) && StoredAt(ram[..], ebx) == StoredAt(old(ram[..]), ebx)
    {
      hide Word, PutWord;
      var field := LoadWord(ram, ebx as nat + k);
      PushClear(field, ebx);
    }

    /** The first half of task_return: the frame iretd will pop, and the argument for the second. */
    method PushFrame(ghost r: nat)
      requires 36 <= esp && esp as nat + 8 <= ram.Length && esp as nat + 8 < 0x1_0000_0000
      requires r + 48 <= ram.Length && Word(ram[..], esp as nat + 4) == r && Apart(r, 48, esp as nat - 32, 32)
      modifies this, ram
      ensures esp == old(esp) - 24 && ebp == old(esp) && eflags == old(eflags)
      ensures StoredAt(ram[..], r) == StoredAt(old(ram[..]), r)
      ensures FrameAt(ram[..], old(esp) - 20, StoredAt(ram[..], r), Or32(eflags, 0x200)) && Word(ram[..], esp) == r
      ensures dataSegments == LowHalf(StoredAt(ram[..], r).ss)
    {
      hide Word, PutWord, Or32, StoredAt, LowHalf;
      ghost var e: nat := esp;
      ebp := esp;
      ebx := LoadWord(ram, ebp as nat + 4);
      PushField(44);
      PushField(40);
      PushFlags();
      PushField(32);
      PushField(28);
      var selector := LoadWord(ram, ebx as nat + 44);
      StoredFields(ram[..], r);
      LowHalves(eax, selector);
      eax := eax - LowHalf(eax) + LowHalf(selector);
      dataSegments := LowHalf(eax);
      var argument := LoadWord(ram, ebp as nat + 4);
      PushClear(argument, r);
      assert Word(ram[..], e - 4) == StoredAt(ram[..], r).ss;
    }

    /** pushf, and the same with interrupts enabled in its place. */
    method PushFlags()
      requires 4 <= esp <= ram.Length && ebx as nat + 48 <= ram.Length && Apart(ebx, 48, esp as nat - 4, 4)
      modifies this`esp, this`eax, ram
      ensures esp == old(esp) - 4 && Word(ram[..], esp) == Or32(eflags, 0x200)
      ensures Kept(old(ram[..]), ram[..], old(esp)) && StoredAt(ram[..], ebx) == StoredAt(old(ram[..]), ebx)
    {
      hide Word, PutWord, Or32;
      Push(eflags);
      eax := Pop();
      eax := Or32(eax, 0x200);
      Push(eax);
    }

    /** task_return, entered with the address of the saved registers behind the return address and
        their words clear of the stack: user mode goes on in the saved context, but for ebp, which is
        the stack pointer task_return was entered with, and the flags, which are the kernel's with
        interrupts enabled. */
    method TaskReturn(ghost r: nat) returns (context: Registers)
      requires 36 <= esp && esp as nat + 8 <= ram.Length && esp as nat + 8 < 0x1_0000_0000
      requires r + 48 <= ram.Length && Word(ram[..], esp as nat + 4) == r && Apart(r, 48, esp as nat - 32, 32)
      modifies this, ram
      ensures context == Context() == Scheduling.TaskReturn(StoredAt(old(ram[..]), r), old(esp), old(eflags))
      ensures var m := old(ram[..]);
              && context.edi == Word(m, r) && context.esi == Word(m, r + 4) && context.ebp == old(esp)
              && context.ebx == Word(m, r + 12) && context.edx == Word(m, r + 16) && context.ecx == Word(m, r + 20)
              && context.eax == Word(m, r + 24) && context.ip == Word(m, r + 28) && context.cs == Word(m, r + 32)
              && context.flags == Or32(old(eflags), 0x200)
              && context.esp == Word(m, r + 40) && context.ss == Word(m, r + 44)
      ensures dataSegments == context.ss % 0x1_0000
      ensures StoredAt(ram[..], r) == StoredAt(old(ram[..]), r)
    {
      hide Word, PutWord, Or32;
      PushFrame(r);
      PushClear(eip, r);
      RestoreGeneralPurposeRegisters(r);
      esp := esp + 4;
      eip := Pop();
      cs := Pop();
      eflags := Pop();
      var stack := Pop();
      ss := Pop();
      esp := stack;
      context := Context();
    }
  }

  /** Every word from address s on is the same. */
  ghost predicate Kept(m: Ram, m': Ram, s: nat) {
    |m'| == |m| && forall x: nat :: s <= x && x + 4 <= |m| ==> Word(m', x) == Word(m, x)
  }

  /** What iretd pops: instruction pointer, code segment, flags, stack pointer, stack segment. */
  ghost predicate FrameAt(m: Ram, a: nat, saved: Registers, flags: u32)
    requires a + 20 <= |m|
  {
    && Word(m, a) == saved.ip && Word(m, a + 4) == saved.cs && Word(m, a + 8) == flags
    && Word(m, a + 12) == saved.esp && Word(m, a + 16) == saved.ss
  }

  lemma StoredFields(m: Ram, a: nat)
    requires a + 48 <= |m|
    ensures var r := StoredAt(m, a);
            r.ip == Word(m, a + 28) && r.cs == Word(m, a + 32) && r.esp == Word(m, a + 40) && r.ss == Word(m, a + 44)
  {
  }

  lemma LowHalves(a: u32, b: u32)
    ensures 0 <= a - LowHalf(a) + LowHalf(b) < 0x1_0000_0000
    ensures LowHalf(a - LowHalf(a) + LowHalf(b)) == LowHalf(b)
  {
    var q := a / 0x1_0000;
    assert a - LowHalf(a) + LowHalf(b) == 0x1_0000 * q + LowHalf(b);
  }
}
