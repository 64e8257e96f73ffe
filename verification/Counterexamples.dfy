/** Concrete inputs on which the kernel does not do what its interfaces promise. The lemmas named
    here say for all inputs exactly when that happens. */
module Counterexamples {
  import opened Bits
  import opened Frames
  import opened HeapState
  import opened PhysicalMemory
  import opened Memory
  import opened PageTables
  import opened PagingUnit
  import opened Loading
  import opened Images
  import opened Tasks
  import opened CopyStrings
  import opened DiskStreams
  import opened Division
  import opened FatChains
  import opened Paths
  import opened Scheduling
  import opened SegmentDescriptors
  import opened UserReturn
  import opened Traps
  import opened KernelHeap
  import opened HeapOwnership

  /** Four blocks, only block 0 in use, three asked for: the request fails, the blocks 0 to 2 are
      marked as used, and the counters do not know of it. See Frames.FailedManyHarmlessExactly. */
  lemma FailedRequestLeavesMarks()
    ensures var f := Frames({0}, 1, 3, 4);
            Accounted(f) && AllocMany(f, 3).1 == 0 && AllocMany(f, 3).0.taken == {0, 1, 2} &&
              !Accounted(AllocMany(f, 3).0)
  {
  }

  /** A hundred extents of two blocks fill the table: the blocks from 1 to 200, in a system of 300. */
  ghost function FullTable(): seq<Extent> {
    seq(100, i requires 0 <= i < 100 => Extent(4096 * (1 + 2 * i), 2))
  }

  ghost function FullLive(): (live: Live)
    ensures forall s: nat :: s in live <==> s < 200 && s % 2 == 1
    ensures forall s: nat :: s in live ==> live[s] == 2
  {
    map s: nat | s < 200 && s % 2 == 1 :: 2
  }

  lemma FullCover()
    ensures forall b: nat :: b in Cover(FullLive()) <==> 1 <= b < 201
  {
    hide FullLive;
    var live := FullLive();
    forall b: nat ensures b in Cover(live) <==> 1 <= b < 201 {
      if 1 <= b < 201 {
        var s := if b % 2 == 1 then b else b - 1;
        assert s in live && b in Span(s, live[s]);
      }
    }
  }

  lemma FullEntry(i: nat)
    requires i < 100
    ensures FullTable()[i].start == 4096 * (1 + 2 * i) && FullTable()[i].start % 4096 == 0
    ensures FullTable()[i].start / 4096 == 1 + 2 * i && 1 + 2 * i in FullLive()
  {
    hide FullLive;
  }

  lemma FullRecorded()
    ensures Recorded(FullTable(), FullLive())
  {
    hide FullLive;
    var table, live := FullTable(), FullLive();
    forall i | 0 <= i < |table|
      ensures table[i].start == 4096 * (1 + 2 * i) && table[i].start % 4096 == 0
      ensures table[i].start / 4096 == 1 + 2 * i && 1 + 2 * i in live
    {
      FullEntry(i);
    }
    forall s: nat | Big(live, s) ensures s >= 1 && exists i :: 0 <= i < |table| && table[i].start == s * 4096 {
      var i := (s - 1) / 2;
      assert s == 1 + 2 * i && table[i].start == s * 4096;
    }
  }

  lemma FullLayout()
    ensures Layout(Span(0, 201), FullLive(), 1, 300)
  {
    hide FullLive, Cover;
    FullCover();
  }

  lemma FullOwned()
    ensures Owned(Heap(Frames(Span(0, 201), 201, 99, 300), FullTable()), FullLive(), 1)
  {
    hide FullLive, FullTable, Recorded, Layout;
    FullLayout();
    FullRecorded();
    SpanSize(0, 201);
  }

  /** With a hundred extents in the table it is full: of a request for two blocks more, freeing it gives
      back only the first, and its record is lost. See HeapOwnership.MallocKeepsExactly and
      FreeKeepsExactly. */
  lemma {:induction false} FullTableLosesBlocks()
    ensures var h := Heap(Frames(Span(0, 201), 201, 99, 300), FullTable());
            var (g, a) := Malloc(h, 8192);
            && |h.table| == BIG_ADDRESS && Owned(h, FullLive(), 1)
            && a == 4096 * 201 && g.table == h.table && !Owned(g, Grant(FullLive(), a, 8192), 1)
            && g.frames.taken == Span(0, 203) && Free(g, a).frames.taken == Span(0, 203) - {201}
  {
    hide Owned, MallocSafe, Malloc, Free, FullLive;
    FullOwned();
    var h := Heap(Frames(Span(0, 201), 201, 99, 300), FullTable());
    FullUnsafe(h);
    MallocKeepsExactly(h, FullLive(), 1, 8192);
  }

  lemma FullUnsafe(h: Heap)
    requires h == Heap(Frames(Span(0, 201), 201, 99, 300), FullTable())
    ensures !MallocSafe(h, 8192)
    ensures var (g, a) := Malloc(h, 8192);
            && a == 4096 * 201 && g.table == h.table
            && g.frames.taken == Span(0, 203) && Free(g, a).frames.taken == Span(0, 203) - {201}
  {
    hide FirstFit;
    SpanSize(0, 201);
    assert BlocksFor(8192) == 2;
    assert Fits(h.frames.taken, 201, 2, 300);
    assert FirstFit(h.frames.taken, 1, 2, 300) == 201 by { OnlyThere(h.frames.taken); }
    assert Span(0, 201) + Span(201, 2) == Span(0, 203);
    var k := Slot(h.table, 0, 0);
    assert k == 100;
    var j := Slot(h.table, 4096 * 201, 0);
    assert j == 100;
    assert (4096 * 201) / 4096 == 201;
  }

  lemma OnlyThere(taken: set<nat>)
    requires taken == Span(0, 201) && Fits(taken, 201, 2, 300)
    ensures FirstFit(taken, 1, 2, 300) == 201
  {
    hide FirstFit;
    var r := FirstFit(taken, 1, 2, 300);
    assert r < 201 ==> r in taken;
  }

  /** A chain whose second cluster is number 0xFF8: by the FAT16 format it goes on there, the code
      ends it. See FatChains.WalkFollowsFormatExactly. */
  lemma LinkTakenForEnd(g: Geometry)
    ensures var image: DiskImage := p => if p == EntryPos(g, 2) then 0xF8 else 0x0F;
            Walk(image, g, 2, 1) == -1 && FormatWalk(image, g, 2, 1) == 0xFF8
  {
  }

  /** Two clusters of 1024 bytes that are not neighbours, 2 and 5, the second full of ones: reading
      1024 bytes from offset 512 delivers, after the first cluster's end, what lies behind it on the
      disk, zeros. See FatChains.ReadsInPlaceExactly. */
  lemma {:induction false} ReadBehindCluster()
    ensures var g := Geometry(2, 512, 1, 0, 1, 1, 16);
            var image: DiskImage := p => if p == 516 then 5 else if 4608 <= p < 5632 then 1 else 0;
            && Walk(image, g, 2, 0) == 2 && Walk(image, g, 2, 1) == 5 && Reaches(image, g, 2, 512, 1024)
            && ReadData(image, g, 2, 512, 1024)[512] == 0 && FileData(image, g, 2, 2)[1024] == 1
  {
    var g := Geometry(2, 512, 1, 0, 1, 1, 16);
    var image: DiskImage := p => if p == 516 then 5 else if 4608 <= p < 5632 then 1 else 0;
    Chain2To5(image, g);
    Unique(512, 1024, 0, 512);
    Unique(1023, 1024, 0, 1023);
    Unique(1024, 1024, 1, 0);
    hide Quot, Rem, Walk, ReadData, FileData;
    ReadDataAt(image, g, 2, 512, 1024, 512);
    FileDataAt(image, g, 2, 2, 1024);
    WrapSmall(2560);
    WrapSmall(4608);
  }

  lemma Chain2To5(image: DiskImage, g: Geometry)
    requires g == Geometry(2, 512, 1, 0, 1, 1, 16) && image(516) == 5 && image(517) == 0
    ensures ClusterBytes(g) == 1024 && ClusterPos(g, 2) == 1536 && ClusterPos(g, 5) == 4608
    ensures Walk(image, g, 2, 0) == 2 && Walk(image, g, 2, 1) == 5
  {
    WrapSmall(1536);
    WrapSmall(4608);
    WrapSmall(516);
    WrapSmall(517);
    assert EntryPos(g, 2) == 516;
    assert Walk(image, g, 2, 0) == 2;
  }

  /** The boot values, 250000 blocks of which the kernel has the first 25000 and its image begins at
      1 MiB with the byte 0x66, and every block in use: kzalloc of 1 MiB fails and does no harm, of one
      byte more it clears the image's first byte. A load of such a file does the same. See
      Loading.FailedRequestExactly and Kernels.Kernel.LoadForSlot. */
  lemma {:induction false} FailedRequestClears(m: Ram)
    requires 0x10_0000 < |m| && m[0x10_0000] == 0x66
    ensures var h := Heap(Frames(Span(0, 250000), 250000, 0, 250000), seq(100, _ => Extent(0, 0)));
            && Accounted(h.frames) && Imaged(m, h.frames.taken, 256)
            && Malloc(h, 0x10_0000) == (h, 0) && Cleared(m, 0, 0x10_0000)[0x10_0000] == 0x66
            && Malloc(h, 0x10_0001).1 == 0 && Cleared(m, 0, 0x10_0001)[0x10_0000] == 0
            && Harmless(0x10_0000, 256) && !Harmless(0x10_0001, 256)
  {
    var h := Heap(Frames(Span(0, 250000), 250000, 0, 250000), seq(100, _ => Extent(0, 0)));
    SpanSize(0, 250000);
    AllInUse(h, 0x10_0000);
    AllInUse(h, 0x10_0001);
    SparedBy(m, h.frames.taken, m, h.frames.taken, 256, {}) by { UntouchedSelf(m, {}); }
    FailedRequestExactly(h, 0x10_0000, m, h.frames.taken, m, 256);
  }

  lemma AllInUse(h: Heap, size: u32)
    requires Accounted(h.frames) && h.frames.taken == Span(0, h.frames.size) && h.frames.size > 0 && size > 4096
    ensures Malloc(h, size).1 == 0
  {
    HasRoomExactly(h, size);
    forall s: nat | s >= 1 && s < h.frames.size ensures !Fits(h.frames.taken, s, BlocksFor(size), h.frames.size) {
      assert s in h.frames.taken;
    }
  }

  /** A program of 2 MiB and more takes up the page of the kernel's stack: the frame an interrupt pushes
      goes into the program, and the kernel finds on its stack what was there before. See
      Traps.FrameArrivesExactly. */
  lemma {:induction false} FrameLost(m: Ram, img: Image, f: Frame)
    requires Loaded(m, img) && 0x5FF !in AllBlocks(img) && 0x60_0000 <= |m| && |img.data| >= 0x20_0000
    ensures StackUsable(m, img.dir)
    ensures var b := StackBlock(m, img.dir);
            var r := FramePushed(m, b, f);
            && FrameOn(r, 0x5FF) == FrameOn(m, 0x5FF)
            && FrameOn(r, b) == f && b == img.ptr + 0x1FF && b in ProgramBlocks(img)
  {
    hide Loaded, AllBlocks, ProgramBlocks, FramePushed, FrameOn, StackBlock, Untouched, Directory, Blocks;
    assert Own(img, 0x5FF);
    FrameArrivesExactly(m, img, f);
    assert 0x5FF != img.ptr + 0x1FF by { ProgramIn(img); }
    KeptStack(m, FramePushed(m, img.ptr + 0x1FF, f), img.ptr + 0x1FF);
  }

  lemma ProgramIn(img: Image)
    ensures ProgramBlocks(img) <= AllBlocks(img)
  {
  }

  /** 1026 blocks with block 0 reserved leave 1025 free: paging_new_4gb fails, and the first word of
      memory is no longer 0. See PagingUnit.Paging.New4gb. */
  method NullChunkStored() returns (paging: Paging, chunk: u32)
    ensures chunk == 0 && 4096 <= paging.ram.Length && Cell(paging.ram[..], 0, 0) != 0
  {
    hide Cell, Pmm.Taken, Accounted;
    var ram := new byte[4096 * 1026](_ => 0);
    var pmm := new Pmm();
    ghost var f := pmm.State();
    pmm.Init(1026, 1);
    InitAccountedExactly(f, PMM_MAX_BLOCKS, 1026, 1);
    assert pmm.Taken() == Span(0, 1) == {0};
    WrapSmall(1025);
    paging := new Paging(ram, pmm);
    ghost var d;
    chunk, d := paging.New4gb(5);
  }

  /** A task interrupted with ebp 1 goes on with the stack pointer task_return was entered with. See
      UserReturn.Cpu.TaskReturn and Scheduling.SuspendedResumes. */
  method EbpLost() returns (context: Registers, ghost saved: Registers)
    ensures saved.ebp == 1 && context.ebp == 200
  {
    hide Word, PutWord, Or32;
    var ram := new byte[256](_ => 0);
    ZeroWord(ram[..], 204);
    StoreWord(ram, 8, 1);
    var cpu := new Cpu(ram, 200, 0);
    saved := StoredAt(ram[..], 0);
    context := cpu.TaskReturn(0);
  }

  lemma ZeroWord(m: Ram, a: nat)
    requires a + 4 <= |m| && m[a] == m[a + 1] == m[a + 2] == m[a + 3] == 0
    ensures Word(m, a) == 0
  {
  }

  /** Removing the first of two tasks leaves the second one's back link on it. See
      Tasks.TaskList.ListRemove. */
  method BackLinkLeft() returns (list: TaskList, first: Task, second: Task)
    ensures list.tasks == [second] && second.prev == first && !list.Valid()
  {
    list := new TaskList();
    first := new Task(0, 0, 0);
    second := new Task(0, 0, 0);
    list.Append(first);
    list.Append(second);
    assert list.tasks[0] == first && list.tasks[1] == second;
    assert second.prev == Before(list.tasks, 1);
    list.ListRemove(first, 0);
    assert list.tasks == [second];
  }

  /** In any loaded program's task: the one-byte string at the page table entry of the temporary page
      reads 5, and arrives as 7. See CopyStrings.LoadedAway and DeliveredExactly. */
  lemma {:induction false} EntryArrivesChanged(m: Ram, img: Image, b: nat)
    requires Loaded(m, img) && Usable(m, img.dir, b) && b !in AllBlocks(img) && !Own(img, b)
    requires Directory(m, img.dir) && EntryAddress(m, img.dir, b) < 0x1_0000_0000
    requires !Own(img, EntryAddress(m, img.dir, b) / 4096)
    ensures var virt, p := EntryAddress(m, img.dir, b), Prepared(m, img.dir, b, 2);
            && SeenString(m, img.dir, virt, 1, []) == [5]
            && Directory(p, img.dir) && Copied(p, img.dir, virt, b, 1, []) == [7]
  {
    hide Loaded, Usable, Directory, Prepared, EntryAddress, Own, AllBlocks, ProgramBlocks, View, Fetched, EntryByte;
    hide Wrap;
    hide ByteAt, Translate, SeenString, Copied, ExpectedEntry, TableBlocks, Table;
    UsableIs(m, img.dir, b);
    var virt, p := EntryAddress(m, img.dir, b), Prepared(m, img.dir, b, 2);
    EntryOffBlock(m, img, b);
    WrapSmall(virt);
    LoadedFetch(m, img, virt, 2, b, []);
    PreparedAt(m, img.dir, b, 2, virt);
    LoadedIs(m, img, b / 1024);
    FiveSeven(b);
    OffProgram(img, b);
    assert Seen(m, img.dir, virt, 0) == 5 && Fetched(p, img.dir, virt, b, []) == 7;
    OneByte(m, p, img.dir, virt, b);
  }

  lemma OffProgram(img: Image, b: nat)
    requires !Own(img, b)
    ensures ExpectedEntry(img, b) == 4096 * b + 5
  {
  }

  lemma FiveSeven(b: nat)
    requires b < 0x10_0000
    ensures EntryByte(4096 * b + 5, 0) == 5 && EntryByte(4096 * b + 7, 0) == 7
  {
    LowByte(5, 16 * b);
    LowByte(7, 16 * b);
  }

  lemma OneByte(m: Ram, p: Ram, d: nat, virt: u32, b: nat)
    requires Directory(m, d) && Directory(p, d) && Seen(m, d, virt, 0) == 5 && Fetched(p, d, virt, b, []) == 7
    ensures SeenString(m, d, virt, 1, []) == [5] && Copied(p, d, virt, b, 1, []) == [7]
  {
    hide Directory, Seen, Fetched;
    assert [] + [5] == [5] && [] + [7] == [7];
    assert SeenString(m, d, virt, 1, [] + [5]) == [5] && Copied(p, d, virt, b, 1, [] + [7]) == [7];
  }

  /** A segment of 70001 bytes can be described, but makes the kernel panic. See
      SegmentDescriptors.RefusedExactly. */
  lemma ByteLimitRefused()
    ensures Expressible(70000) && !Accepted(70000)
  {
  }

  /** A drive with nothing behind it is no path on that drive. See Paths.ParseRoundTripExactly. */
  lemma {:induction false} DriveAlone()
    ensures Parse("0:/") == Path(-1, ["0:"])
  {
    NoParts();
    FirstPart("0:", "");
    assert "0:" + "/" + "" == "0:/" && ["0:"] + [] == ["0:"];
  }
}
