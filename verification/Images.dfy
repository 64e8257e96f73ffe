/** A loaded program as it lies in physical memory, and what its task sees and may write. */
module Images {
  import opened Bits
  import opened Frames
  import opened Memory
  import opened PageTables
  import opened Directories

  /** Blocks: the program from ptr on, the four of the stack, the chunk, the directory and its
      tables, the two of the process record and the task record. data is the program file. */
  datatype Image = Image(
    ptr: nat, data: seq<byte>, stack: nat, chunk: nat, dir: nat, tables: set<nat>, record: nat, task: nat)

  ghost function Pages(img: Image): nat {
    (|img.data| + 4095) / 4096
  }

  ghost function ProgramBlocks(img: Image): set<nat> {
    Span(img.ptr, Pages(img)) + Span(img.stack, 4)
  }

  ghost function TableBlocks(img: Image): set<nat> {
    {img.dir} + img.tables
  }

  /** What the kernel keeps for the program: page tables, chunk, process record and task record. */
  ghost function KernelBlocks(img: Image): set<nat> {
    TableBlocks(img) + {img.chunk} + Span(img.record, 2) + {img.task}
  }

  /** Everything allocated for the program. */
  ghost function AllBlocks(img: Image): set<nat> {
    ProgramBlocks(img) + KernelBlocks(img)
  }

  /** The entry of page p in the task's address space: the program at 0x400000, the stack in the
      16 KiB below 0x3FF000, and every other page mapped to itself, read-only for user mode. */
  ghost function ExpectedEntry(img: Image, p: nat): nat {
    if 0x400 <= p < 0x400 + Pages(img) then 4096 * (img.ptr + (p - 0x400)) + 7
    else if 0x3FB <= p < 0x3FF then 4096 * (img.stack + (p - 0x3FB)) + 7
    else 4096 * p + 5
  }

  /** The address space is as it should be. */
  ghost predicate Mapping(m: Ram, img: Image) {
    && Directory(m, img.dir) && Tables(m, img.dir) == img.tables && Chunk(m, img.chunk, img.dir)
    && (forall p :: 0 <= p < 0x10_0000 ==> View(m, img.dir)[p] == ExpectedEntry(img, p))
    && (forall p :: 0 <= p < 0x10_0000 ==> DirectoryFlags(m, img.dir, p) == 7)
  }

  /** The program lies in its blocks, and its blocks meet none the kernel keeps for it. */
  ghost predicate Loaded(m: Ram, img: Image) {
    && Mapping(m, img)
    && |img.data| > 0 && 0x400 + Pages(img) <= 0x10_0000
    && 4096 * (img.ptr + Pages(img)) <= |m| && 4096 * (img.stack + 4) <= |m|
    && m[4096 * img.ptr..4096 * img.ptr + |img.data|] == img.data
    && ProgramBlocks(img) !! KernelBlocks(img) && img.chunk !in TableBlocks(img)
    && Span(img.ptr, Pages(img)) !! Span(img.stack, 4)
  }

  /** The address space is kept while the blocks the kernel keeps for it are left alone. */
  lemma MappingFrame(m: Ram, m': Ram, img: Image, blocks: set<nat>)
    requires Mapping(m, img) && Untouched(m, m', blocks) && KernelBlocks(img) !! blocks
    ensures Mapping(m', img)
  {
    hide Cell, Entry, ExpectedEntry;
    assert Blocks(m, img.dir) !! blocks;
    DirectoryFrame(m, m', img.dir, blocks);
    UntouchedCells(m, m', blocks, img.chunk);
    assert forall p :: 0 <= p < 0x10_0000 ==> DirectoryFlags(m', img.dir, p) == DirectoryFlags(m, img.dir, p);
  }

  /** What is loaded stays loaded while its blocks are left alone. */
  lemma {:induction false} LoadedFrame(m: Ram, m': Ram, img: Image, blocks: set<nat>)
    requires Loaded(m, img) && Untouched(m, m', blocks) && AllBlocks(img) !! blocks
    ensures Loaded(m', img)
  {
    hide Mapping;
    MappingFrame(m, m', img, blocks);
    ProgramFrame(m, m', img, blocks);
  }

  lemma ProgramFrame(m: Ram, m': Ram, img: Image, blocks: set<nat>)
    requires Untouched(m, m', blocks) && Span(img.ptr, Pages(img)) !! blocks
    requires 4096 * (img.ptr + Pages(img)) <= |m|
    ensures 4096 * img.ptr + |img.data| <= |m|
    ensures m'[4096 * img.ptr..4096 * img.ptr + |img.data|] == m[4096 * img.ptr..4096 * img.ptr + |img.data|]
  {
    var a, n := 4096 * img.ptr, |img.data|;
    forall i | a <= i < a + n ensures m'[i] == m[i] {
      BlockOf(img.ptr, i - a);
      assert i / 4096 in Span(img.ptr, Pages(img));
    }
  }

  lemma BlockOf(b: nat, k: nat)
    ensures (4096 * b + k) / 4096 == b + k / 4096 && (4096 * b + k) % 4096 == k % 4096
  {
  }

  /** The physical address a virtual one is translated to through a directory. */
  ghost function Translate(m: Ram, d: nat, virt: nat): nat
    requires Directory(m, d) && virt < 0x1_0000_0000
  {
    View(m, d)[virt / 4096] / 4096 * 4096 + virt % 4096
  }

  lemma TranslateIs(m: Ram, d: nat, p: nat, o: nat, b: nat, flags: nat)
    requires Directory(m, d) && p < 0x10_0000 && o < 4096 && flags < 4096 && View(m, d)[p] == 4096 * b + flags
    ensures Translate(m, d, 4096 * p + o) == 4096 * b + o
  {
    hide Directory, View;
    Split(p, o);
    Split(b, flags);
    var v := 4096 * p + o;
    assert View(m, d)[v / 4096] == 4096 * b + flags;
  }

  /** What the processor does: the directory's word for the 4 MiB, the table's word for the page, and the
      offset in the block found there. */
  lemma {:induction false} TranslateWalks(m: Ram, d: nat, virt: nat)
    requires Directory(m, d) && virt < 0x1_0000_0000
    ensures var table := Word(m, 4096 * d + 4 * (virt / 0x40_0000)) / 4096;
            && 4096 * table + 4096 <= |m|
            && Translate(m, d, virt) ==
               Word(m, 4096 * table + 4 * (virt % 0x40_0000 / 4096)) / 4096 * 4096 + virt % 4096
  {
    hide Word;
    var p := virt / 4096;
    assert p / 1024 == virt / 0x40_0000 && p % 1024 == virt % 0x40_0000 / 4096;
    assert Table(m, d, p / 1024) == Word(m, 4096 * d + 4 * (virt / 0x40_0000)) / 4096;
    assert View(m, d)[p] == Entry(m, d, p);
  }

  lemma Split(b: nat, o: nat)
    requires o < 4096
    ensures (4096 * b + o) / 4096 == b && (4096 * b + o) % 4096 == o
  {
  }

  /** The program a task sees: through its own page directory, virtual address 0x400000 + k holds
      byte k of the file, to the last byte. */
  lemma {:induction false} SeesItsFile(m: Ram, img: Image, k: nat)
    requires Loaded(m, img) && k < |img.data|
    ensures 0x40_0000 + k < 0x1_0000_0000 && Translate(m, img.dir, 0x40_0000 + k) < |m|
    ensures m[Translate(m, img.dir, 0x40_0000 + k)] == img.data[k]
  {
    hide Directory, View, Chunk, Tables, Span, Translate;
    var p := 0x400 + k / 4096;
    assert p < 0x400 + Pages(img);
    TranslateIs(m, img.dir, p, k % 4096, img.ptr + k / 4096, 7);
    assert 4096 * p + k % 4096 == 0x40_0000 + k;
    assert 4096 * (img.ptr + k / 4096) + k % 4096 == 4096 * img.ptr + k;
    assert img.data[k] == m[4096 * img.ptr..4096 * img.ptr + |img.data|][k];
  }

  /** Its stack: the 16 KiB from 0x3FB000 up to the stack pointer it starts with are the four blocks. */
  lemma {:induction false} SeesItsStack(m: Ram, img: Image, k: nat)
    requires Loaded(m, img) && k < 16384
    ensures Directory(m, img.dir) && Translate(m, img.dir, 0x3F_B000 + k) == 4096 * img.stack + k < |m|
  {
    hide Directory, View, Chunk, Tables, Span, Translate;
    var p := 0x3FB + k / 4096;
    TranslateIs(m, img.dir, p, k % 4096, img.stack + k / 4096, 7);
    assert 4096 * p + k % 4096 == 0x3F_B000 + k;
  }

  /** The stack is 16 KiB of zeros. */
  ghost predicate Zeroed(m: Ram, stack: nat) {
    4096 * stack + 16384 <= |m| && forall k :: 4096 * stack <= k < 4096 * stack + 16384 ==> m[k] == 0
  }

  lemma ZeroedFrame(m: Ram, m': Ram, stack: nat, blocks: set<nat>)
    requires Zeroed(m, stack) && Untouched(m, m', blocks) && Span(stack, 4) !! blocks
    ensures Zeroed(m', stack)
  {
    forall k | 4096 * stack <= k < 4096 * stack + 16384 ensures m'[k] == 0 {
      BlockOf(stack, k - 4096 * stack);
      assert k / 4096 in Span(stack, 4);
    }
  }

  /** So its task reads zeros below the stack pointer it starts with. */
  lemma {:induction false} SeesZeros(m: Ram, img: Image, k: nat)
    requires Loaded(m, img) && Zeroed(m, img.stack) && k < 16384
    ensures Directory(m, img.dir) && Translate(m, img.dir, 0x3F_B000 + k) < |m|
    ensures m[Translate(m, img.dir, 0x3F_B000 + k)] == 0
  {
    hide Loaded, Directory, Translate;
    SeesItsStack(m, img, k);
  }

  /** User mode may write through page p: present, writable and user bits in both entries
      (section 4.6 of the Intel SDM, volume 3A). */
  ghost predicate UserWritable(m: Ram, d: nat, p: nat)
    requires Directory(m, d) && p < 0x10_0000
  {
    AllowsUserWrite(DirectoryFlags(m, d, p)) && AllowsUserWrite(View(m, d)[p])
  }

  predicate AllowsUserWrite(entry: nat) {
    Bit(entry, 0) && Bit(entry, 1) && Bit(entry, 2)
  }

  /** On a mapped block, the flags alone decide. */
  lemma FlagsDecide(x: nat, flags: nat)
    requires flags < 8
    ensures AllowsUserWrite(4096 * x + flags) <==> flags == 7
  {
    hide Bit;
    var high, middle, low := flags / 4, flags / 2 % 2, flags % 2;
    LowBit(512 * x, high);
    LowBit(1024 * x + high, middle);
    LowBit(2048 * x + 2 * high + middle, low);
  }

  lemma LowBit(y: nat, r: nat)
    requires r < 2
    ensures Bit(2 * y + r, 0) <==> r == 1
    ensures Bit(2 * y + r, 1) <==> Bit(y, 0)
    ensures Bit(2 * y + r, 2) <==> Bit(y, 1)
  {
    assert (2 * y + r) / 2 == y && (2 * y + r) % 2 == r;
  }

  lemma WritablePages(m: Ram, img: Image, p: nat)
    requires Mapping(m, img) && p < 0x10_0000
    ensures UserWritable(m, img.dir, p) <==> 0x400 <= p < 0x400 + Pages(img) || 0x3FB <= p < 0x3FF
  {
    hide Directory, View, DirectoryFlags, AllowsUserWrite;
    FlagsDecide(0, 7);
    assert View(m, img.dir)[p] == ExpectedEntry(img, p);
    if 0x400 <= p < 0x400 + Pages(img) {
      FlagsDecide(img.ptr + (p - 0x400), 7);
    } else if 0x3FB <= p < 0x3FF {
      FlagsDecide(img.stack + (p - 0x3FB), 7);
    } else {
      FlagsDecide(p, 5);
    }
  }

  /** The blocks user mode can write in a task's address space. */
  ghost function WritableBlocks(m: Ram, d: nat): set<nat>
    requires Directory(m, d)
  {
    set p | 0 <= p < 0x10_0000 && UserWritable(m, d, p) :: View(m, d)[p] as nat / 4096
  }

  /** A task can write exactly its program and its stack. */
  lemma {:induction false} WritesOnlyItsOwn(m: Ram, img: Image)
    requires Loaded(m, img)
    ensures WritableBlocks(m, img.dir) == ProgramBlocks(img)
  {
    hide Directory, View, DirectoryFlags, Bit, Chunk, Tables;
    forall b | b in ProgramBlocks(img) ensures b in WritableBlocks(m, img.dir) {
      var p := if b in Span(img.ptr, Pages(img)) then 0x400 + (b - img.ptr) else 0x3FB + (b - img.stack);
      WritablePages(m, img, p);
      assert View(m, img.dir)[p] == ExpectedEntry(img, p);
      assert UserWritable(m, img.dir, p) && View(m, img.dir)[p] as nat / 4096 == b;
    }
    forall b | b in WritableBlocks(m, img.dir) ensures b in ProgramBlocks(img) {
      var p :| 0 <= p < 0x10_0000 && UserWritable(m, img.dir, p) && View(m, img.dir)[p] as nat / 4096 == b;
      WritablePages(m, img, p);
      assert View(m, img.dir)[p] == ExpectedEntry(img, p);
    }
  }

  /** All programs loaded so far: each is intact, no two share a block, and none has a block of the
      kernel's own. */
  ghost predicate AllLoaded(m: Ram, images: seq<Image>, taken: set<nat>, own: set<nat>) {
    && own <= taken
    && (forall i :: 0 <= i < |images| ==> Loaded(m, images[i]) && AllBlocks(images[i]) <= taken)
    && (forall i :: 0 <= i < |images| ==> AllBlocks(images[i]) !! own)
    && (forall i, j :: 0 <= i < j < |images| ==> AllBlocks(images[i]) !! AllBlocks(images[j]))
  }

  /** Isolation: what one task can write in user mode is its own program and stack; no other task
      can write it, and it holds no block of the kernel's own, and no page table, chunk, process record
      or task record of anyone. */
  lemma {:induction false} Isolation(m: Ram, images: seq<Image>, taken: set<nat>, own: set<nat>, i: nat, j: nat)
    requires AllLoaded(m, images, taken, own) && i < |images| && j < |images|
    ensures Directory(m, images[i].dir) && Directory(m, images[j].dir)
    ensures WritableBlocks(m, images[i].dir) == ProgramBlocks(images[i])
    ensures i != j ==> WritableBlocks(m, images[i].dir) !! WritableBlocks(m, images[j].dir)
    ensures Blocks(m, images[j].dir) <= KernelBlocks(images[j])
    ensures WritableBlocks(m, images[i].dir) !! KernelBlocks(images[j])
    ensures WritableBlocks(m, images[i].dir) !! own
  {
    hide Directory, View, Chunk, WritableBlocks, Span;
    WritesOnlyItsOwn(m, images[i]);
    WritesOnlyItsOwn(m, images[j]);
    assert Loaded(m, images[i]) && Loaded(m, images[j]);
    assert Blocks(m, images[j].dir) == TableBlocks(images[j]);
    if i < j {
      assert AllBlocks(images[i]) !! AllBlocks(images[j]);
    } else if j < i {
      assert AllBlocks(images[j]) !! AllBlocks(images[i]);
    }
  }

  /** A page of the task's own: where its program or its stack is mapped. */
  ghost predicate Own(img: Image, p: nat) {
    0x400 <= p < 0x400 + Pages(img) || 0x3FB <= p < 0x3FF
  }

  /** Where a loaded program's task sees a page: in the program's own blocks, or where it is. */
  lemma Placement(img: Image, p: nat)
    ensures var block := ExpectedEntry(img, p) / 4096;
            if Own(img, p) then block in ProgramBlocks(img) else block == p
  {
    if 0x400 <= p < 0x400 + Pages(img) {
      assert img.ptr + (p - 0x400) in ProgramBlocks(img);
    } else if 0x3FB <= p < 0x3FF {
      assert img.stack + (p - 0x3FB) in ProgramBlocks(img);
    }
  }

  lemma LoadedIs(m: Ram, img: Image, i: nat)
    requires Loaded(m, img) && i < 1024
    ensures Directory(m, img.dir) && 4096 * img.dir + 4096 <= |m|
    ensures Table(m, img.dir, i) in TableBlocks(img) && TableBlocks(img) !! ProgramBlocks(img)
    ensures ProgramBlocks(img) <= AllBlocks(img)
    ensures forall p :: 0 <= p < 0x10_0000 ==> View(m, img.dir)[p] == ExpectedEntry(img, p)
  {
    hide View, Cell, Chunk, ExpectedEntry;
  }

  /** The frame an address is translated to, and the address itself in a page mapped to itself. */
  lemma TranslateFrame(m: Ram, d: nat, w: nat)
    requires Directory(m, d) && w < 0x1_0000_0000
    ensures Translate(m, d, w) / 4096 == View(m, d)[w / 4096] / 4096
    ensures View(m, d)[w / 4096] / 4096 == w / 4096 ==> Translate(m, d, w) == w
  {
    hide Directory, View;
    Split(View(m, d)[w / 4096] / 4096, w % 4096);
  }

  /** Where a loaded program's task sees an address. */
  lemma LoadedTranslates(m: Ram, img: Image, w: nat)
    requires Loaded(m, img) && w < 0x1_0000_0000
    ensures Directory(m, img.dir)
    ensures var a := Translate(m, img.dir, w);
            if Own(img, w / 4096) then a / 4096 in ProgramBlocks(img) else a == w
  {
    hide Loaded, Directory, View, AllBlocks, ProgramBlocks, ExpectedEntry, Own, Translate;
    var p := w / 4096;
    LoadedIs(m, img, 0);
    Placement(img, p);
    TranslateFrame(m, img.dir, w);
    assert View(m, img.dir)[p] == ExpectedEntry(img, p);
  }

  /** With a task's directory loaded, an address of the kernel's means to the processor what it means
      to the kernel exactly when it does not lie in a page of the task's own. */
  lemma {:induction false} KernelSeesExactly(m: Ram, img: Image, a: nat)
    requires Loaded(m, img) && a < 0x1_0000_0000 && a / 4096 !in ProgramBlocks(img)
    ensures Directory(m, img.dir)
    ensures Translate(m, img.dir, a) == a <==> !Own(img, a / 4096)
  {
    hide Loaded, Directory, ProgramBlocks, Own, Translate;
    LoadedTranslates(m, img, a);
  }

  /** The program after its task has stored a byte: its data when that is where the byte went. */
  ghost function Stored(img: Image, virt: nat, c: byte): (r: Image)
    ensures |r.data| == |img.data| && r == img.(data := r.data)
  {
    if 0x40_0000 <= virt < 0x40_0000 + |img.data| then img.(data := img.data[virt - 0x40_0000 := c]) else img
  }

  /** A store in user mode goes to a block of the task's own program or stack. */
  lemma StoreLands(m: Ram, img: Image, virt: nat)
    requires Loaded(m, img) && virt < 0x1_0000_0000
    ensures Directory(m, img.dir)
    ensures UserWritable(m, img.dir, virt / 4096) <==> Own(img, virt / 4096)
    ensures Own(img, virt / 4096) ==>
              var a, p, o := Translate(m, img.dir, virt), virt / 4096, virt % 4096;
              && a < |m| && a / 4096 in ProgramBlocks(img)
              && a == if p >= 0x400 then 4096 * img.ptr + (virt - 0x40_0000)
                      else 4096 * (img.stack + (p - 0x3FB)) + o
  {
    hide Directory, View, UserWritable, Mapping, Translate;
    LoadedIs(m, img, 0);
    var p, o := virt / 4096, virt % 4096;
    WritablePages(m, img, p);
    if Own(img, p) {
      var b := if p >= 0x400 then img.ptr + (p - 0x400) else img.stack + (p - 0x3FB);
      TranslateIs(m, img.dir, p, o, b, 7);
      Split(b, o);
      assert 4096 * p + o == virt;
    }
  }

  /** After the store the program is loaded, with the byte in it. */
  lemma OwnStored(m: Ram, img: Image, virt: nat, c: byte)
    requires Loaded(m, img) && virt < 0x1_0000_0000 && Own(img, virt / 4096)
    ensures Directory(m, img.dir) && Translate(m, img.dir, virt) < |m|
    ensures Loaded(m[Translate(m, img.dir, virt) := c], Stored(img, virt, c))
  {
    hide Directory, View, UserWritable, Mapping, Translate, Own, ExpectedEntry;
    StoreLands(m, img, virt);
    var a, r := Translate(m, img.dir, virt), Stored(img, virt, c);
    var m' := m[a := c];
    assert a / 4096 in ProgramBlocks(img);
    MappingFrame(m, m', img, {a / 4096});
    MappingSame(m', img, r);
    DataStored(m, img, virt, c, a) by { OwnCases(img, virt / 4096); }
  }

  lemma OwnCases(img: Image, p: nat)
    requires Own(img, p)
    ensures p >= 0x400 ==> p < 0x400 + Pages(img)
    ensures p < 0x400 ==> 0x3FB <= p < 0x3FF
  {
  }

  lemma MappingSame(m: Ram, img: Image, r: Image)
    requires Mapping(m, img) && |r.data| == |img.data| && r == img.(data := r.data)
    ensures Mapping(m, r)
  {
    hide Directory, View, DirectoryFlags;
    forall p | 0 <= p < 0x10_0000 ensures View(m, r.dir)[p] == ExpectedEntry(r, p) {
      assert View(m, img.dir)[p] == ExpectedEntry(img, p);
    }
  }

  lemma DataStored(m: Ram, img: Image, virt: nat, c: byte, a: nat)
    requires 4096 * (img.ptr + Pages(img)) <= |m| && Span(img.ptr, Pages(img)) !! Span(img.stack, 4)
    requires m[4096 * img.ptr..4096 * img.ptr + |img.data|] == img.data && a < |m|
    requires virt / 4096 >= 0x400 ==> a == 4096 * img.ptr + (virt - 0x40_0000)
    requires virt / 4096 < 0x400 ==>
               0x3FB <= virt / 4096 < 0x3FF && a == 4096 * (img.stack + (virt / 4096 - 0x3FB)) + virt % 4096
    ensures m[a := c][4096 * img.ptr..4096 * img.ptr + |img.data|] == Stored(img, virt, c).data
  {
    var r, s := m[a := c][4096 * img.ptr..4096 * img.ptr + |img.data|], Stored(img, virt, c).data;
    forall k | 0 <= k < |img.data| ensures r[k] == s[k] {
      assert m[4096 * img.ptr..4096 * img.ptr + |img.data|][k] == m[4096 * img.ptr + k];
      if virt / 4096 < 0x400 {
        Split(img.stack + (virt / 4096 - 0x3FB), virt % 4096);
        BlockOf(img.ptr, k);
        assert img.ptr + k / 4096 in Span(img.ptr, Pages(img));
        assert img.stack + (virt / 4096 - 0x3FB) in Span(img.stack, 4);
      }
    }
    assert |r| == |s|;
  }

  /** One task's store in user mode: every program stays loaded, and only the byte of its own program
      it was aimed at has changed. */
  lemma {:induction false} StoreKeepsAll(m: Ram, images: seq<Image>, taken: set<nat>, own: set<nat>, i: nat, virt: nat,
      c: byte)
    requires AllLoaded(m, images, taken, own) && i < |images| && virt < 0x1_0000_0000
    requires Directory(m, images[i].dir) && UserWritable(m, images[i].dir, virt / 4096)
    ensures var a := Translate(m, images[i].dir, virt);
            && a < |m| && a / 4096 in ProgramBlocks(images[i])
            && AllLoaded(m[a := c], images[i := Stored(images[i], virt, c)], taken, own)
  {
    hide Directory, UserWritable, Translate, Loaded, Own, Stored;
    StoreLands(m, images[i], virt);
    OwnStored(m, images[i], virt, c);
    var a := Translate(m, images[i].dir, virt);
    var m', images' := m[a := c], images[i := Stored(images[i], virt, c)];
    assert Untouched(m, m', {a / 4096});
    StoredBlocks(images[i], virt, c);
    hide AllBlocks, ProgramBlocks;
    forall j | 0 <= j < |images| ensures Loaded(m', images'[j]) && AllBlocks(images'[j]) == AllBlocks(images[j]) {
      if j != i {
        assert AllBlocks(images[if i < j then i else j]) !! AllBlocks(images[if i < j then j else i]);
        LoadedFrame(m, m', images[j], {a / 4096});
      }
    }
  }

  lemma StoredBlocks(img: Image, virt: nat, c: byte)
    ensures AllBlocks(Stored(img, virt, c)) == AllBlocks(img) && ProgramBlocks(img) <= AllBlocks(img)
  {
  }

  /** The kernel's own address space: a chunk, its directory and its tables. */
  datatype Space = Space(chunk: nat, dir: nat, tables: set<nat>)

  ghost function SpaceBlocks(s: Space): set<nat> {
    {s.dir} + s.tables + {s.chunk}
  }

  /** It maps every page to itself. */
  ghost predicate SpaceIn(m: Ram, s: Space) {
    && Directory(m, s.dir) && Tables(m, s.dir) == s.tables && Chunk(m, s.chunk, s.dir)
    && (forall p :: 0 <= p < 0x10_0000 ==> View(m, s.dir)[p] == 4096 * p + 7)
  }

  lemma SpaceFrame(m: Ram, m': Ram, s: Space, blocks: set<nat>)
    requires SpaceIn(m, s) && Untouched(m, m', blocks) && SpaceBlocks(s) !! blocks
    ensures SpaceIn(m', s)
  {
    hide Cell, Entry;
    assert Blocks(m, s.dir) !! blocks;
    DirectoryFrame(m, m', s.dir, blocks);
    UntouchedCells(m, m', blocks, s.chunk);
  }

  /** The blocks of the kernel's own: the reserved ones, and those of its address space. */
  ghost function KernelOwn(s: Space, reserved: nat): set<nat> {
    Span(0, reserved) + SpaceBlocks(s)
  }

  /** The kernel's address space and all programs are in place. */
  ghost predicate Housed(m: Ram, taken: set<nat>, images: seq<Image>, s: Space, reserved: nat) {
    && SpaceIn(m, s) && SpaceBlocks(s) !! Span(0, reserved)
    && AllLoaded(m, images, taken, KernelOwn(s, reserved))
  }

  lemma NoWrap(p: nat, n: nat)
    requires p + n <= 0x10_0000
    ensures forall i :: 0 <= i < n ==> Forward(p, i) == p + i
  {
  }

  /** Or-ing the flags 7 to a page address adds them. */
  lemma Flagged(b: nat, i: nat)
    requires b + i < 0x10_0000
    ensures Or32(Wrap(4096 * b + 4096 * i), 7) == 4096 * (b + i) + 7
  {
    hide Or32;
    WrapSmall(4096 * b + 4096 * i);
    OrAligned(4096 * b + 4096 * i, 7, 0);
  }

  /** One mapping of n consecutive pages that does not run off the end of the address space. */
  lemma MappedLinear(view: seq<u32>, view': seq<u32>, p: nat, b: nat, n: nat)
    requires |view| == |view'| == 0x10_0000 && p + n <= 0x10_0000 && b + n <= 0x10_0000
    requires 4096 * b < 0x1_0000_0000 && Mapped(view, view', p, 4096 * b, n, 7)
    ensures forall q :: 0 <= q < 0x10_0000 ==>
              view'[q] == if p <= q < p + n then 4096 * (b + (q - p)) + 7 else view[q]
  {
    hide Or32, Wrap, Forward;
    NoWrap(p, n);
    forall q | 0 <= q < 0x10_0000
      ensures view'[q] == if p <= q < p + n then 4096 * (b + (q - p)) + 7 else view[q]
    {
      if p <= q < p + n {
        assert Forward(p, q - p) == q;
        Flagged(b, q - p);
      } else {
        assert !InRange(p, n, q);
      }
    }
  }

  /** The three mappings process_map_memory makes over a fresh address space: program, stack, and
      the stack once more. */
  lemma {:induction false} ThreeMappings(view0: seq<u32>, view1: seq<u32>, view2: seq<u32>, view3: seq<u32>, img: Image)
    requires |view0| == |view1| == |view2| == |view3| == 0x10_0000
    requires 0x400 + Pages(img) <= 0x10_0000 && img.ptr + Pages(img) < 0x10_0000 && img.stack + 4 < 0x10_0000
    requires forall p :: 0 <= p < 0x10_0000 ==> view0[p] == 4096 * p + 5
    requires Mapped(view0, view1, 0x400, 4096 * img.ptr, Pages(img), 7)
    requires Mapped(view1, view2, 0x3FB, 4096 * img.stack, 4, 7) && Mapped(view2, view3, 0x3FB, 4096 * img.stack, 4, 7)
    ensures forall p :: 0 <= p < 0x10_0000 ==> view3[p] == ExpectedEntry(img, p)
  {
    hide Mapped;
    MappedLinear(view0, view1, 0x400, img.ptr, Pages(img));
    MappedLinear(view1, view2, 0x3FB, img.stack, 4);
    MappedLinear(view2, view3, 0x3FB, img.stack, 4);
  }

  /** The address space made in memory m5 lies apart from the program and its stack, which lie
      apart from each other and from the task record. */
  ghost predicate Apart(m4: Ram, m5: Ram, img: Image) {
    && Directory(m5, img.dir) && Tables(m5, img.dir) == img.tables && Chunk(m5, img.chunk, img.dir)
    && (forall p :: 0 <= p < 0x10_0000 ==> DirectoryFlags(m5, img.dir, p) == 7 && View(m5, img.dir)[p] == 4096 * p + 5)
    && Untouched(m4, m5, TableBlocks(img) + {img.chunk})
    && Span(img.ptr, Pages(img)) !! Span(img.stack, 4)
    && KernelBlocks(img) !! ProgramBlocks(img) && img.chunk !in TableBlocks(img)
  }

  /** The last step of loading: with the program in its blocks since memory m2, everything else
      allocated elsewhere (memory m5), and the pages mapped (memory m6), the program is loaded. */
  lemma LoadedFromParts(m2: Ram, m3: Ram, m4: Ram, m5: Ram, m6: Ram, img: Image)
    requires |img.data| > 0 && 0x400 + Pages(img) <= 0x10_0000
    requires 4096 * (img.ptr + Pages(img)) <= |m2| && 4096 * (img.stack + 4) <= |m2|
    requires m2[4096 * img.ptr..4096 * img.ptr + |img.data|] == img.data
    requires Untouched(m2, m3, Span(img.stack, 4)) && Untouched(m3, m4, {img.task})
    requires Apart(m4, m5, img) && SameFrames(m5, m6, img.dir)
    requires forall p :: 0 <= p < 0x10_0000 ==> View(m6, img.dir)[p] == ExpectedEntry(img, p)
    ensures Loaded(m6, img)
  {
    hide View, Cell;
    var rest := Span(img.stack, 4) + {img.task} + TableBlocks(img) + {img.chunk};
    assert Untouched(m2, m6, rest) by {
      UntouchedTrans(m2, m3, m4, Span(img.stack, 4), {img.task}, rest);
      UntouchedTrans(m2, m4, m5, rest, TableBlocks(img) + {img.chunk}, rest);
      UntouchedTrans(m2, m5, m6, rest, img.tables, rest);
    }
    assert Span(img.ptr, Pages(img)) !! rest;
    hide Span;
    ProgramFrame(m2, m6, img, rest);
    assert Chunk(m6, img.chunk, img.dir) by { UntouchedCells(m5, m6, img.tables, img.chunk); }
    forall p | 0 <= p < 0x10_0000 ensures DirectoryFlags(m6, img.dir, p) == 7 {
      assert DirectoryFlags(m5, img.dir, p) == 7;
    }
  }
}
