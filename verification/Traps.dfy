/** The interrupt frame on the kernel's stack: the processor and the wrappers of src/idt/idt.asm push it
    through the interrupted task's directory, and the handlers read it through the kernel's. */
module Traps {
  import opened Bits
  import opened Memory
  import opened PageTables
  import opened Directories
  import opened Scheduling
  import opened Images
  import opened CopyStrings

  /** tss.esp0, the top of the kernel's stack: the end of page 0x5FF. */
  const ESP0: u32 := 0x60_0000
  const FRAME_BYTES: nat := 52

  /** The words of a frame, in the order in which they are pushed. */
  function FrameWords(f: Frame): (words: seq<u32>)
    ensures |words| == 13
  {
    [f.ss, f.esp, f.flags, f.cs, f.ip, f.eax, f.ecx, f.edx, f.ebx, f.reserved, f.ebp, f.esi, f.edi]
  }

  function FrameOf(w: seq<u32>): Frame
    requires |w| == 13
  {
    Frame(w[12], w[11], w[10], w[9], w[8], w[7], w[6], w[5], w[4], w[3], w[2], w[1], w[0])
  }

  lemma FrameOfWords(f: Frame)
    ensures FrameOf(FrameWords(f)) == f
  {
  }

  /** Memory with words pushed, one below the other, from physical address top down. */
  ghost function Pushed(m: Ram, top: nat, words: seq<u32>): (r: Ram)
    requires 4 * |words| <= top <= |m|
    ensures |r| == |m|
    decreases |words|
  {
    if words == [] then m
    else
      var n := |words| - 1;
      PutWord(Pushed(m, top, words[..n]), top - 4 * n - 4, words[n])
  }

  /** The first n words below physical address top, from above. */
  ghost function Popped(m: Ram, top: nat, n: nat): (words: seq<u32>)
    requires 4 * n <= top <= |m|
    ensures |words| == n && forall j :: 0 <= j < n ==> words[j] == Word(m, top - 4 * j - 4)
  {
    seq(n, j requires 0 <= j < n => Word(m, top - 4 * j - 4))
  }

  /** What was pushed is found again, and only the page of the stack was written. */
  lemma {:induction false} PushedWords(m: Ram, top: nat, words: seq<u32>)
    requires 4 * |words| <= top <= |m|
    ensures Popped(Pushed(m, top, words), top, |words|) == words
    ensures forall a :: 0 <= a < |m| && !(top - 4 * |words| <= a < top) ==> Pushed(m, top, words)[a] == m[a]
    decreases |words|
  {
    hide Word, PutWord;
    if words != [] {
      var n := |words| - 1;
      PushedWords(m, top, words[..n]);
      var before, after := Pushed(m, top, words[..n]), Pushed(m, top, words);
      forall j | 0 <= j < |words| ensures Popped(after, top, |words|)[j] == words[j] {
        if j < n {
          assert Popped(before, top, n)[j] == Word(before, top - 4 * j - 4) == words[..n][j];
        }
      }
    }
  }

  lemma PushedPage(m: Ram, b: nat, words: seq<u32>)
    requires |words| <= 1024 && 4096 * b + 4096 <= |m|
    ensures Untouched(m, Pushed(m, 4096 * b + 4096, words), {b})
  {
    PushedWords(m, 4096 * b + 4096, words);
    var r := Pushed(m, 4096 * b + 4096, words);
    forall a | 0 <= a < |m| && a / 4096 !in {b} ensures r[a] == m[a] {
      assert !(4096 * b <= a < 4096 * b + 4096);
    }
  }

  /** The block the stack's page is mapped to. */
  ghost function StackBlock(m: Ram, d: nat): nat
    requires Directory(m, d)
  {
    View(m, d)[0x5FF] / 4096
  }

  lemma StackAddress(m: Ram, d: nat, i: nat)
    requires Directory(m, d) && i < 1024
    ensures Translate(m, d, 0x60_0000 - 4 * i - 4) == 4096 * StackBlock(m, d) + 4096 - 4 * i - 4
  {
    hide Directory, View;
    Split(0x5FF, 4096 - 4 * i - 4);
  }

  /** The stack can be used through a directory: its page is backed by memory that holds none of the
      directory's tables. */
  ghost predicate StackUsable(m: Ram, d: nat) {
    Directory(m, d) && 4096 * StackBlock(m, d) + 4096 <= |m| && StackBlock(m, d) !in Blocks(m, d)
  }

  lemma StackStays(m: Ram, d: nat, words: seq<u32>)
    requires StackUsable(m, d) && |words| <= 1024
    ensures var r := Pushed(m, 4096 * StackBlock(m, d) + 4096, words);
            Directory(r, d) && View(r, d) == View(m, d)
  {
    hide View, Cell;
    var b := StackBlock(m, d);
    PushedPage(m, b, words);
    DirectoryFrame(m, Pushed(m, 4096 * b + 4096, words), d, {b});
  }

  /** Memory with a frame pushed on top of the stack in block b. */
  ghost function FramePushed(m: Ram, b: nat, f: Frame): (r: Ram)
    requires 4096 * b + 4096 <= |m|
    ensures |r| == |m|
  {
    Pushed(m, 4096 * b + 4096, FrameWords(f))
  }

  /** The frame on top of the stack in block b. */
  ghost function FrameOn(m: Ram, b: nat): Frame
    requires 4096 * b + 4096 <= |m|
  {
    FrameOf(Popped(m, 4096 * b + 4096, 13))
  }

  lemma FramePushedIs(m: Ram, b: nat, f: Frame)
    requires 4096 * b + 4096 <= |m|
    ensures FrameOn(FramePushed(m, b, f), b) == f && Untouched(m, FramePushed(m, b, f), {b})
  {
    hide Pushed, Popped, FrameOf, FrameWords, Untouched;
    PushedWords(m, 4096 * b + 4096, FrameWords(f));
    PushedPage(m, b, FrameWords(f));
    FrameOfWords(f);
  }

  /** The thirteen words below the top of the stack: what the processor pushes, ss first, and below the
      instruction pointer what pushad pushes, eax first. */
  lemma {:induction false} TrapLayout(m: Ram, b: nat, cpu: Registers)
    requires 4096 * b + 4096 <= |m|
    ensures var r, top := FramePushed(m, b, Trapped(cpu)), 4096 * b + 4096;
            && Word(r, top - 4) == cpu.ss && Word(r, top - 8) == cpu.esp && Word(r, top - 12) == cpu.flags
            && Word(r, top - 16) == cpu.cs && Word(r, top - 20) == cpu.ip
            && Word(r, top - 24) == cpu.eax && Word(r, top - 28) == cpu.ecx && Word(r, top - 32) == cpu.edx
            && Word(r, top - 36) == cpu.ebx && Word(r, top - 40) == 0x60_0000 - 20 && Word(r, top - 44) == cpu.ebp
            && Word(r, top - 48) == cpu.esi && Word(r, top - 52) == cpu.edi
  {
    hide Pushed, Word;
    var words, top := FrameWords(Trapped(cpu)), 4096 * b + 4096;
    PushedAt(m, top, words, 0);
    PushedAt(m, top, words, 1);
    PushedAt(m, top, words, 2);
    PushedAt(m, top, words, 3);
    PushedAt(m, top, words, 4);
    PushedAt(m, top, words, 5);
    PushedAt(m, top, words, 6);
    PushedAt(m, top, words, 7);
    PushedAt(m, top, words, 8);
    PushedAt(m, top, words, 9);
    PushedAt(m, top, words, 10);
    PushedAt(m, top, words, 11);
    PushedAt(m, top, words, 12);
  }

  lemma PushedAt(m: Ram, top: nat, words: seq<u32>, j: nat)
    requires 4 * |words| <= top <= |m| && j < |words|
    ensures Word(Pushed(m, top, words), top - 4 * j - 4) == words[j]
  {
    hide Pushed, Word;
    PushedWords(m, top, words);
    assert Popped(Pushed(m, top, words), top, |words|)[j] == words[j];
  }

  /** One push more through the directory. */
  lemma NextPush(m: Ram, d: nat, words: seq<u32>, i: nat)
    requires StackUsable(m, d) && i < |words| <= 1024
    ensures var top := 4096 * StackBlock(m, d) + 4096;
            var r := Pushed(m, top, words[..i]);
            && Directory(r, d) && Translate(r, d, 0x60_0000 - 4 * i - 4) == top - 4 * i - 4
            && Pushed(m, top, words[..i + 1]) == PutWord(r, top - 4 * i - 4, words[i])
  {
    hide View, Directory, PutWord, Translate, Blocks, Pushed;
    var top := 4096 * StackBlock(m, d) + 4096;
    StackStays(m, d, words[..i]);
    StackAddress(Pushed(m, top, words[..i]), d, i);
    PushedOne(m, top, words, i);
  }

  lemma PushedOne(m: Ram, top: nat, words: seq<u32>, i: nat)
    requires i < |words| && 4 * |words| <= top <= |m|
    ensures Pushed(m, top, words[..i + 1]) == PutWord(Pushed(m, top, words[..i]), top - 4 * i - 4, words[i])
  {
    hide PutWord;
    assert words[..i + 1][..i] == words[..i];
  }

  /** The processor's pushes and pushad, through the directory that is loaded. */
  method PushFrame(ram: array<byte>, directory: u32, frame: Frame)
    requires directory % 4096 == 0 && StackUsable(ram[..], directory / 4096)
    modifies ram
    ensures ram[..] == FramePushed(old(ram[..]), StackBlock(old(ram[..]), directory / 4096), frame)
  {
    hide View, Directory, PutWord, Word, Blocks, Translate, Pushed, FrameWords, StackBlock;
    ghost var m, d: nat := ram[..], directory / 4096;
    ghost var top := 4096 * StackBlock(m, d) + 4096;
    var words := FrameWords(frame);
    var i := 0;
    NothingPushed(m, top, words);
    while i < 13
      invariant i <= 13 && ram[..] == Pushed(m, top, words[..i])
    {
      NextPush(m, d, words, i);
      var physical := MmuTranslate(ram, directory, ESP0 - 4 * i - 4);
      StoreWord(ram, physical, words[i]);
      i := i + 1;
    }
    assert words[..13] == words;
  }

  lemma NothingPushed(m: Ram, top: nat, words: seq<u32>)
    requires top <= |m|
    ensures Pushed(m, top, words[..0]) == m
  {
  }

  /** The frame as it is found through a directory. */
  method LoadFrame(ram: array<byte>, directory: u32) returns (frame: Frame)
    requires directory % 4096 == 0 && Directory(ram[..], directory / 4096)
    requires 4096 * StackBlock(ram[..], directory / 4096) + 4096 <= ram.Length
    ensures frame == FrameOn(ram[..], StackBlock(ram[..], directory / 4096))
  {
    hide View, Directory, Word, Translate, StackBlock;
    ghost var d: nat := directory / 4096;
    ghost var top := 4096 * StackBlock(ram[..], d) + 4096;
    var words: seq<u32> := [];
    var i := 0;
    while i < 13
      invariant i <= 13 && words == Popped(ram[..], top, i)
    {
      StackAddress(ram[..], d, i);
      var physical := MmuTranslate(ram, directory, ESP0 - 4 * i - 4);
      var word := LoadWord(ram, physical);
      words := words + [word];
      i := i + 1;
    }
    frame := FrameOf(words);
  }

  /** The stack's page as a loaded program's task sees it: in its place, or a block of its own. */
  lemma StackSeen(m: Ram, img: Image)
    requires Loaded(m, img) && 0x5FF !in AllBlocks(img) && 0x60_0000 <= |m|
    ensures StackUsable(m, img.dir)
    ensures StackBlock(m, img.dir) == 0x5FF <==> !Own(img, 0x5FF)
    ensures Own(img, 0x5FF) ==>
              StackBlock(m, img.dir) == img.ptr + 0x1FF && img.ptr + 0x1FF in ProgramBlocks(img)
  {
    hide Directory, View;
    LoadedIs(m, img, 0);
    Placement(img, 0x5FF);
    assert View(m, img.dir)[0x5FF] == ExpectedEntry(img, 0x5FF);
    StackApart(m, img);
  }

  lemma StackApart(m: Ram, img: Image)
    requires Loaded(m, img)
    ensures Directory(m, img.dir) && Blocks(m, img.dir) == TableBlocks(img)
    ensures TableBlocks(img) <= AllBlocks(img) && TableBlocks(img) !! ProgramBlocks(img)
    ensures ProgramBlocks(img) <= AllBlocks(img) && 4096 * (img.ptr + Pages(img)) <= |m|
  {
    hide View, Directory;
  }

  /** A frame pushed in a loaded program's task is what the handlers find on the kernel's stack exactly
      when page 0x5FF is none of the task's own, or that very frame lay there before. Where it is the
      task's own, the frame overwrites the program instead. */
  lemma {:induction false} FrameArrivesExactly(m: Ram, img: Image, f: Frame)
    requires Loaded(m, img) && 0x5FF !in AllBlocks(img) && 0x60_0000 <= |m|
    ensures StackUsable(m, img.dir)
    ensures var b := StackBlock(m, img.dir);
            var r := FramePushed(m, b, f);
            && FrameOn(r, b) == f && Untouched(m, r, {b})
            && (FrameOn(r, 0x5FF) == f <==> !Own(img, 0x5FF) || FrameOn(m, 0x5FF) == f)
            && (Own(img, 0x5FF) ==> b == img.ptr + 0x1FF && b in ProgramBlocks(img))
            && (!Own(img, 0x5FF) ==> b == 0x5FF)
  {
    hide Loaded, Own, AllBlocks, ProgramBlocks, StackBlock, FrameOn, FramePushed, Untouched, Directory, Blocks;
    StackSeen(m, img);
    var b := StackBlock(m, img.dir);
    FramePushedIs(m, b, f);
    if Own(img, 0x5FF) { KeptStack(m, FramePushed(m, b, f), b); }
  }

  lemma KeptStack(m: Ram, r: Ram, b: nat)
    requires Untouched(m, r, {b}) && b != 0x5FF && 0x60_0000 <= |m|
    ensures FrameOn(r, 0x5FF) == FrameOn(m, 0x5FF)
  {
    FrameSame(m, r);
  }

  /** The frame on the kernel's stack stays while its bytes do. */
  lemma FrameSame(m: Ram, r: Ram)
    requires 0x60_0000 <= |m| == |r| && forall a :: 0x60_0000 - FRAME_BYTES <= a < 0x60_0000 ==> r[a] == m[a]
    ensures FrameOn(r, 0x5FF) == FrameOn(m, 0x5FF)
  {
    hide FrameOf;
    forall j | 0 <= j < 13 ensures Popped(r, 0x60_0000, 13)[j] == Popped(m, 0x60_0000, 13)[j] {
      var a := 0x60_0000 - 4 * j - 4;
      assert r[a] == m[a] && r[a + 1] == m[a + 1] && r[a + 2] == m[a + 2] && r[a + 3] == m[a + 3];
    }
    assert Popped(r, 0x60_0000, 13) == Popped(m, 0x60_0000, 13);
  }
}
