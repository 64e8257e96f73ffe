/** What paging_new_4gb hands out and paging_free_4gb takes back. */
module Directories {
  import opened Bits
  import opened Frames
  import opened Memory
  import opened PageTables

  /** A table whose first n entries map consecutive pages from address base on to themselves. */
  ghost predicate FilledTo(m: Ram, t: nat, base: nat, flags: nat, n: nat)
    requires 4096 * t + 4096 <= |m| && n <= 1024
  {
    forall b :: 0 <= b < n ==> Cell(m, t, b) == base + 4096 * b + flags
  }

  ghost predicate Filled(m: Ram, t: nat, base: nat, flags: nat)
    requires 4096 * t + 4096 <= |m|
  {
    FilledTo(m, t, base, flags, 1024)
  }

  lemma FilledNext(m0: Ram, m: Ram, t: nat, base: nat, flags: nat, n: nat)
    requires 4096 * t + 4096 <= |m| && n < 1024 && FilledTo(m, t, base, flags, n) && Untouched(m0, m, {t})
    requires base + 4096 * n + flags < 0x1_0000_0000
    ensures var r := PutCell(m, t, n, base + 4096 * n + flags);
            FilledTo(r, t, base, flags, n + 1) && Untouched(m0, r, {t})
  {
    hide Cell, PutCell;
  }

  lemma EntryFits(base: u32, b: nat, flags: u32)
    requires base % 0x40_0000 == 0 && b < 1024 && flags < 0x100
    ensures base as nat + b * 4096 + flags < 0x1_0000_0000 && (base as nat + b * 4096) % 4096 == 0
  {
    var q := base / 0x40_0000;
    assert base == 0x40_0000 * q && q < 1024;
    assert base as nat + b * 4096 == 4096 * (1024 * q + b);
  }

  lemma FilledNone(m: Ram, t: nat, base: nat, flags: nat)
    requires 4096 * t + 4096 <= |m|
    ensures FilledTo(m, t, base, flags, 0)
  {
  }

  lemma FilledFrame(m: Ram, m': Ram, blocks: set<nat>, t: nat, base: nat, flags: nat)
    requires Untouched(m, m', blocks) && t !in blocks && 4096 * t + 4096 <= |m| && Filled(m, t, base, flags)
    ensures Filled(m', t, base, flags)
  {
    UntouchedCells(m, m', blocks, t);
  }

  ghost function Elements(tables: seq<nat>): set<nat> {
    set t | t in tables
  }

  /** Table i of the directory in block d is block t, filled with identity entries; top are the
      flag bits of the directory's own entries, flags those of the page entries. */
  ghost predicate Placed(m: Ram, d: nat, i: nat, t: nat, flags: nat, top: nat)
    requires i < 1024 && 4096 * d + 4096 <= |m|
  {
    && 4096 * t + 4096 <= |m|
    && Cell(m, d, i) == 4096 * t + top
    && Filled(m, t, 0x40_0000 * i, flags)
  }

  /** The first tables of the directory under construction in block d. */
  ghost predicate Built(m: Ram, d: nat, tables: seq<nat>, flags: nat, top: nat) {
    && |tables| <= 1024 && 4096 * d + 4096 <= |m| && d !in tables
    && (forall i :: 0 <= i < |tables| ==> Placed(m, d, i, tables[i], flags, top))
    && (forall i, j :: 0 <= i < j < |tables| ==> tables[i] != tables[j])
  }

  lemma BuiltNone(m: Ram, d: nat, flags: nat, top: nat)
    requires 4096 * d + 4096 <= |m|
    ensures Built(m, d, [], flags, top)
  {
  }

  lemma PlacedKept(m: Ram, m1: Ram, m2: Ram, d: nat, i: nat, t: nat, flags: nat, top: nat, n: nat, u: nat)
    requires i < n < 1024 && 4096 * d + 4096 <= |m| && Placed(m, d, i, t, flags, top) && t != d && u != d && t != u
    requires Untouched(m, m1, {u}) && 4096 * u + top < 0x1_0000_0000
    requires m2 == PutCell(m1, d, n, 4096 * u + top)
    ensures Placed(m2, d, i, t, flags, top)
  {
    UntouchedCells(m, m1, {u}, d);
    FilledFrame(m, m1, {u}, t, 0x40_0000 * i, flags);
    FilledFrame(m1, m2, {d}, t, 0x40_0000 * i, flags);
  }

  lemma PlacedNow(m1: Ram, d: nat, t: nat, flags: nat, top: nat, n: nat)
    requires n < 1024 && 4096 * d + 4096 <= |m1| && 4096 * t + 4096 <= |m1| && t != d && 4096 * t + top < 0x1_0000_0000
    requires Filled(m1, t, 0x40_0000 * n, flags)
    ensures Placed(PutCell(m1, d, n, 4096 * t + top), d, n, t, flags, top)
  {
    FilledFrame(m1, PutCell(m1, d, n, 4096 * t + top), {d}, t, 0x40_0000 * n, flags);
  }

  /** One more table: its block filled, then its address put into the directory. */
  lemma BuiltStep(m: Ram, m1: Ram, d: nat, tables: seq<nat>, t: nat, flags: nat, top: nat)
    requires Built(m, d, tables, flags, top) && |tables| < 1024
    requires t != d && t !in tables && 4096 * t + 4096 <= |m| && 4096 * t + top < 0x1_0000_0000
    requires Untouched(m, m1, {t}) && Filled(m1, t, 0x40_0000 * |tables|, flags)
    ensures Built(PutCell(m1, d, |tables|, 4096 * t + top), d, tables + [t], flags, top)
  {
    var n := |tables|;
    var m2 := PutCell(m1, d, n, 4096 * t + top);
    forall i | 0 <= i <= n ensures Placed(m2, d, i, (tables + [t])[i], flags, top) {
      if i < n {
        PlacedKept(m, m1, m2, d, i, tables[i], flags, top, n, t);
      } else {
        PlacedNow(m1, d, t, flags, top, n);
      }
    }
  }

  /** All 1024 tables built: a directory that maps every page to itself. */
  lemma {:induction false} BuiltDirectory(m: Ram, d: nat, tables: seq<nat>, flags: nat, top: nat)
    requires Built(m, d, tables, flags, top) && |tables| == 1024 && top < 4096
    ensures Directory(m, d) && Identity(m, d, flags) && Tables(m, d) == Elements(tables)
    ensures forall p :: 0 <= p < 0x10_0000 ==> DirectoryFlags(m, d, p) == top
  {
    BuiltTables(m, d, tables, flags, top);
    forall p | 0 <= p < 0x10_0000 ensures View(m, d)[p] == 4096 * p + flags && DirectoryFlags(m, d, p) == top {
      assert Placed(m, d, p / 1024, tables[p / 1024], flags, top);
    }
  }

  lemma BuiltTables(m: Ram, d: nat, tables: seq<nat>, flags: nat, top: nat)
    requires Built(m, d, tables, flags, top) && |tables| == 1024 && top < 4096
    ensures Directory(m, d) && Tables(m, d) == Elements(tables)
    ensures forall i :: 0 <= i < 1024 ==> Table(m, d, i) == tables[i]
  {
    forall i | 0 <= i < 1024 ensures Table(m, d, i) == tables[i] {
      assert Placed(m, d, i, tables[i], flags, top);
    }
    forall t | t in Elements(tables) ensures t in Tables(m, d) {
      var i :| 0 <= i < 1024 && tables[i] == t;
      assert Table(m, d, i) == t;
    }
  }

  /** The chunk in block c names the directory in block d. */
  ghost predicate Chunk(m: Ram, c: nat, d: nat) {
    4096 * c + 4096 <= |m| && Cell(m, c, 0) == 4096 * d
  }

  /** The blocks a chunk and its directory take up. */
  ghost function ChunkBlocks(m: Ram, c: nat, d: nat): set<nat>
    requires Directory(m, d)
  {
    Blocks(m, d) + {c}
  }

  /** A new identity-mapped directory d, its chunk c, and 1026 blocks the fewer. */
  ghost predicate Granted(m: Ram, f: Frames, m': Ram, f': Frames, c: nat, d: nat, flags: u32) {
    && Chunk(m', c, d) && Directory(m', d)
    && Identity(m', d, flags)
    && (forall p :: 0 <= p < 0x10_0000 ==> DirectoryFlags(m', d, p) == Or32(flags, 2))
    && var own := ChunkBlocks(m', c, d);
    && c !in Blocks(m', d) && own !! f.taken && |own| == 1026 <= f.free
    && f' == Frames(f.taken + own, Wrap(f.used + 1026), f.free - 1026, f.size)
    && Untouched(m, m', own)
  }

  /** Writing the chunk next to a finished directory. */
  lemma BuiltChunk(m0: Ram, m: Ram, c: nat, d: nat, tables: seq<nat>, flags: u32)
    requires Built(m, d, tables, flags, Or32(flags, 2)) && |tables| == 1024 && flags < 0x1000
    requires Untouched(m0, m, {d} + Elements(tables)) && c !in {d} + Elements(tables)
    requires 4096 * c + 4096 <= |m| && 4096 * d < 0x1_0000_0000
    ensures var m' := PutCell(m, c, 0, 4096 * d);
            && Chunk(m', c, d) && Directory(m', d) && Blocks(m', d) == {d} + Elements(tables)
            && Identity(m', d, flags)
            && (forall p :: 0 <= p < 0x10_0000 ==> DirectoryFlags(m', d, p) == Or32(flags, 2))
            && Untouched(m0, m', ChunkBlocks(m', c, d))
  {
    var m' := PutCell(m, c, 0, 4096 * d);
    OrAligned(0, flags, 2);
    BuiltDirectory(m, d, tables, flags, Or32(flags, 2));
    DirectoryFrame(m, m', d, {c});
    assert forall p :: 0 <= p < 0x10_0000 ==> DirectoryFlags(m', d, p) == DirectoryFlags(m, d, p);
  }

  lemma BuiltGranted(m0: Ram, f0: Frames, m: Ram, f: Frames, c: nat, d: nat, tables: seq<nat>, own: set<nat>,
      flags: u32)
    requires Built(m, d, tables, flags, Or32(flags, 2)) && |tables| == 1024 && flags < 0x1000
    requires own == {d} + Elements(tables) && Untouched(m0, m, own) && c !in own && own + {c} !! f0.taken
    requires 4096 * c + 4096 <= |m| && 4096 * d < 0x1_0000_0000
    requires Accounted(f0) && Accounted(f) && f.size == f0.size
    requires f.used == f0.used + 1026 && f.free == f0.free - 1026
    requires forall b :: b in f.taken <==> b in f0.taken || b in own + {c}
    ensures Granted(m0, f0, PutCell(m, c, 0, 4096 * d), f, c, d, flags)
  {
    hide Built, Untouched, Directory, Identity, Chunk, Cell, Or32, Accounted, Elements;
    BuiltChunk(m0, m, c, d, tables, flags);
    assert f.taken == f0.taken + (own + {c});
    assert |own + {c}| == 1026 by { hide *; NewBlocksCounted(f0, f, own + {c}); }
  }

  lemma NewBlocksCounted(f: Frames, f': Frames, own: set<nat>)
    requires Accounted(f) && Accounted(f') && own !! f.taken
    requires forall b :: b in f'.taken <==> b in f.taken || b in own
    ensures |own| == f'.used - f.used
  {
    assert f'.taken == f.taken + own;
  }

  /** What paging_free_4gb makes of the allocator: the blocks of chunk and directory are free. */
  ghost function Returned(f: Frames, m: Ram, c: nat, d: nat): Frames
    requires Directory(m, d)
  {
    f.(taken := f.taken - ChunkBlocks(m, c, d), free := Wrap(f.free + 1026), used := Wrap(f.used - 1026))
  }

  /** Whatever paging_set calls happened in between, freeing a directory gives back exactly what
      making it took: the allocator is as it was, bit for bit and counter for counter. */
  lemma {:induction false} NewThenFreeRestores(
      m: Ram, f: Frames, m': Ram, f': Frames, c: nat, d: nat, flags: u32, calls: seq<Call>)
    requires Accounted(f) && Granted(m, f, m', f', c, d, flags)
    ensures var r := Perform(m', d, calls);
            Directory(r, d) && Chunk(r, c, d) && Returned(f', r, c, d) == f
  {
    hide Perform, Directory, Identity, Cell, View, Updates, Accounted;
    var r := Perform(m', d, calls);
    CallsRefineMap(m', d, calls);
    assert Chunk(r, c, d) by { UntouchedCells(m', r, Tables(m', d), c); }
    var own := ChunkBlocks(m', c, d);
    assert ChunkBlocks(r, c, d) == own;
    assert f.taken + own - own == f.taken;
    assert f.used + 1026 == Wrap(f.used + 1026) by { GrantedFits(f, own); }
  }

  lemma GrantedFits(f: Frames, own: set<nat>)
    requires Accounted(f) && |own| <= f.free
    ensures f.used + |own| <= f.size
  {
  }
}

/** src/memory/paging/paging.c */
module PagingUnit {
  import opened Bits
  import opened Frames
  import opened PhysicalMemory
  import opened Memory
  import opened PageTables
  import opened Directories

  class Paging {
    const ram: array<byte>
    const pmm: Pmm
    var currentDirectory: u32

    ghost predicate Valid()
      reads this, pmm
    {
      pmm.Valid() && 4096 * pmm.systemSize <= ram.Length
    }

    constructor (ram: array<byte>, pmm: Pmm)
      requires pmm.Valid() && 4096 * pmm.systemSize <= ram.Length
      ensures Valid() && this.ram == ram && this.pmm == pmm && currentDirectory == 0
    {
      this.ram, this.pmm, currentDirectory := ram, pmm, 0;
    }

    /** The inner loop of paging_new_4gb. */
    method FillTable(t: nat, offset: u32, flags: u32)
      requires 4096 * t + 4096 <= ram.Length
      requires offset % 0x40_0000 == 0 && flags < 0x100
      modifies ram
      ensures Untouched(old(ram[..]), ram[..], {t}) && Filled(ram[..], t, offset, flags)
    {
      hide Or32, Or, FilledTo, Untouched, PutCell;
      ghost var m0 := ram[..];
      UntouchedSelf(m0, {t});
      FilledNone(m0, t, offset, flags);
      var b := 0;
      while b < 1024
        invariant b <= 1024 && Untouched(m0, ram[..], {t}) && FilledTo(ram[..], t, offset, flags, b)
      {
        EntryFits(offset, b, flags);
        OrAligned(offset + b * 4096, flags, 0);
        FilledNext(m0, ram[..], t, offset, flags, b);
        StoreCell(ram, t, b, Or32(offset + b * 4096, flags));
        b := b + 1;
      }
    }

    /** One pass of paging_new_4gb's loop, the allocation apart: the new table is filled, and its
        address put into the directory. */
    method PlaceTable(directory: u32, i: nat, offset: u32, flags: u32, entry: u32, ghost tables: seq<nat>)
      requires flags < 0x100 && i == |tables| < 1024 && offset == 0x40_0000 * i
      requires directory % 4096 == 0 && entry % 4096 == 0 && entry as nat + 4096 <= ram.Length
      requires Built(ram[..], directory / 4096, tables, flags, Or32(flags, 2))
      requires entry != directory && entry / 4096 !in tables
      modifies ram
      ensures Built(ram[..], directory / 4096, tables + [entry as nat / 4096], flags, Or32(flags, 2))
      ensures Untouched(old(ram[..]), ram[..], {directory as nat / 4096, entry as nat / 4096})
    {
      hide Or32, Or;
      ghost var m := ram[..];
      ghost var d: nat, t: nat := directory / 4096, entry / 4096;
      assert directory == 4096 * d && entry == 4096 * t;
      FillTable(entry / 4096, offset, flags);
      ghost var m1 := ram[..];
      ghost var value := 4096 * t + Or32(flags, 2);
      assert Or32(Or32(entry, flags), 2) == value by { OrAligned(entry, flags, 2); }
      StoreCell(ram, directory / 4096, i, Or32(Or32(entry, flags), 2));
      assert ram[..] == PutCell(m1, d, i, value);
      assert Built(ram[..], d, tables + [t], flags, Or32(flags, 2)) by {
        BuiltStep(m, m1, d, tables, t, flags, Or32(flags, 2));
      }
    }

    /** pmm_allocate_block, as a caller on a system with block 0 reserved sees it. */
    method GrabBlock() returns (address: u32)
      requires Valid() && Accounted(pmm.State()) && 0 in pmm.Taken()
      modifies pmm, pmm.memoryMap
      ensures Valid() && Accounted(pmm.State()) && pmm.systemSize == old(pmm.systemSize)
      ensures address == 0 <==> old(pmm.freeBlocks) == 0
      ensures address == 0 ==> pmm.State() == old(pmm.State()) && pmm.Taken() == Span(0, pmm.systemSize)
      ensures address != 0 ==>
                && address % 4096 == 0 && address as nat + 4096 <= ram.Length
                && address as nat / 4096 !in old(pmm.Taken())
                && pmm.Taken() == old(pmm.Taken()) + {address as nat / 4096}
                && pmm.freeBlocks as int == old(pmm.freeBlocks) - 1
                && pmm.usedBlocks as int == old(pmm.usedBlocks) + 1
    {
      AllocOneTakesLowest(pmm.State());
      FreeCountsClearBits(pmm.State());
      address := pmm.AllocateBlock();
    }

    /** paging_new_4gb up to its last allocation: the directory and its tables. */
    method BuildDirectory(flags: u32) returns (directory: u32, ghost tables: seq<nat>, ghost own: set<nat>)
      requires Valid() && flags < 0x100 && Accounted(pmm.State()) && 0 in pmm.Taken()
      modifies ram, pmm, pmm.memoryMap
      ensures Valid() && Accounted(pmm.State()) && pmm.systemSize == old(pmm.systemSize)
      ensures old(pmm.Taken()) <= pmm.Taken()
      ensures directory == 0 ==> Untouched(old(ram[..]), ram[..], pmm.Taken() - old(pmm.Taken()))
      ensures directory != 0 <==> old(pmm.freeBlocks) >= 1025
      ensures directory == 0 ==> pmm.Taken() == Span(0, pmm.systemSize)
      ensures directory != 0 ==>
                && directory % 4096 == 0 && |tables| == 1024
                && Built(ram[..], directory / 4096, tables, flags, Or32(flags, 2))
                && own == {directory as nat / 4096} + Elements(tables) && own !! old(pmm.Taken())
                && Untouched(old(ram[..]), ram[..], own)
                && (forall b :: b in pmm.Taken() <==> b in old(pmm.Taken()) || b in own)
                && pmm.freeBlocks as int == old(pmm.freeBlocks) - 1025
                && pmm.usedBlocks as int == old(pmm.usedBlocks) + 1025
    {
      hide Or32, Or, Built, Untouched, Accounted, Pmm.Taken;
      ghost var taken, m0 := pmm.Taken(), ram[..];
      tables, own := [], {};
      directory := GrabBlock();
      if directory == 0 {
        UntouchedSelf(m0, pmm.Taken() - taken);
        return;
      }
      ghost var d: nat := directory / 4096;
      own := {d};
      BuiltNone(m0, d, flags, Or32(flags, 2));
      UntouchedSelf(m0, own);
      var offset: u32 := 0;
      var i := 0;
      while i < 1024
        invariant i <= 1024 && |tables| == i && offset == if i < 1024 then 0x40_0000 * i else 0
        invariant Valid() && Accounted(pmm.State()) && pmm.systemSize == old(pmm.systemSize)
        invariant forall b :: b in pmm.Taken() <==> b in taken || b in own
        invariant pmm.freeBlocks as int == old(pmm.freeBlocks) - 1 - i
        invariant pmm.usedBlocks as int == old(pmm.usedBlocks) + 1 + i
        invariant own == {d} + Elements(tables) && own !! taken
        invariant Built(ram[..], d, tables, flags, Or32(flags, 2))
        invariant Untouched(m0, ram[..], own)
      {
        var entry := GrabBlock();
        if entry == 0 {
          UntouchedWiden(m0, ram[..], own, pmm.Taken() - taken);
          return 0, [], {};
        }
        ghost var m := ram[..];
        PlaceTable(directory, i, offset, flags, entry, tables);
        UntouchedTrans(m0, m, ram[..], own, {d, entry as nat / 4096}, own + {entry as nat / 4096});
        WrapIsModulo(offset as int + 0x40_0000);
        offset := Wrap(offset as int + 0x40_0000);
        ghost var t: nat := entry / 4096;
        tables, own := tables + [t], own + {t};
        i := i + 1;
      }
    }

    /** A new directory that maps every page to itself, or 0. It takes 1026 blocks; when fewer are
        free it fails, having used up all that were. Exactly when only the last one, for the chunk, is
        missing, the directory's address goes to physical address 0; otherwise a failing call writes
        none but newly taken blocks. */
    method New4gb(flags: u32) returns (chunk: u32, ghost d: nat)
      requires Valid() && flags < 0x100 && Accounted(pmm.State()) && 0 in pmm.Taken()
      modifies ram, pmm, pmm.memoryMap
      ensures Valid() && Accounted(pmm.State())
      ensures chunk != 0 <==> old(pmm.freeBlocks) >= 1026
      ensures chunk == 0 ==>
                && pmm.State() == Frames(Span(0, old(pmm.systemSize)), old(pmm.systemSize), 0, old(pmm.systemSize))
                && Untouched(old(ram[..]), ram[..], (pmm.Taken() - old(pmm.Taken())) + {0})
                && (old(pmm.freeBlocks) < 1025 ==> Untouched(old(ram[..]), ram[..], pmm.Taken() - old(pmm.Taken())))
                && (old(pmm.freeBlocks) == 1025 ==>
                      && d in pmm.Taken() - old(pmm.Taken()) && 4096 <= ram.Length
                      && 0 != Cell(ram[..], 0, 0) == 4096 * d)
      ensures chunk != 0 ==>
                && chunk % 4096 == 0
                && Granted(old(ram[..]), old(pmm.State()), ram[..], pmm.State(), chunk / 4096, d, flags)
    {
      hide Or32, Or, Built, Untouched, Accounted, Directory, Identity, Chunk, Cell, Pmm.Taken, Granted;
      ghost var f0, m0 := pmm.State(), ram[..];
      var directory, tables, own := BuildDirectory(flags);
      d := directory / 4096;
      if directory == 0 {
        AllTaken(pmm.State());
        UntouchedWiden(m0, ram[..], pmm.Taken() - f0.taken, (pmm.Taken() - f0.taken) + {0});
        return 0, 0;
      }
      ghost var m := ram[..];
      chunk := GrabBlock();
      StoreCell(ram, chunk / 4096, 0, directory);
      ghost var c: nat := chunk / 4096;
      assert chunk == 4096 * c && directory == 4096 * d;
      if chunk != 0 {
        BuiltGranted(m0, f0, m, pmm.State(), c, d, tables, own, flags);
      } else {
        AllTaken(pmm.State());
        UntouchedTrans(m0, m, ram[..], own, {0}, (pmm.Taken() - f0.taken) + {0});
      }
    }

    method Get(directory: u32, virt: u32) returns (entry: u32)
      requires directory % 4096 == 0 && Directory(ram[..], directory / 4096)
      ensures entry == View(ram[..], directory / 4096)[if virt % 4096 == 0 then virt / 4096 else 0]
    {
      var res, directoryIndex, tableIndex := GetIndexes(virt, 0, 0);
      var table := LoadCell(ram, directory / 4096, directoryIndex);
      ghost var d: nat := directory / 4096;
      assert table / 4096 == Table(ram[..], d, directoryIndex);
      entry := LoadCell(ram, (table - table % 4096) / 4096, tableIndex);
    }

    /** The indexes of the page; a misaligned address is reported, and the indexes stay as they were. */
    method GetIndexes(virt: u32, directoryIndexIn: nat, tableIndexIn: nat)
        returns (res: int, directoryIndex: nat, tableIndex: nat)
      ensures res == if virt % 4096 == 0 then 0 else -1
      ensures res == 0 ==>
                directoryIndex == virt / 4096 / 1024 && tableIndex == virt / 4096 % 1024 && directoryIndex < 1024
      ensures res == -1 ==> directoryIndex == directoryIndexIn && tableIndex == tableIndexIn
    {
      res, directoryIndex, tableIndex := 0, directoryIndexIn, tableIndexIn;
      if virt % 4096 != 0 { return -1, directoryIndex, tableIndex; }
      directoryIndex := virt / (1024 * 4096);
      tableIndex := virt % (1024 * 4096) / 4096;
    }

    method Set(directory: u32, virt: u32, value: u32) returns (r: int)
      requires directory % 4096 == 0 && Directory(ram[..], directory / 4096)
      modifies ram
      ensures r == if virt % 4096 == 0 then 1 else -1
      ensures ram[..] == if virt % 4096 == 0 then SetEntry(old(ram[..]), directory / 4096, virt / 4096, value)
                         else old(ram[..])
    {
      hide Cell, PutCell;
      if virt % 4096 != 0 { return -1; }
      var res, directoryIndex, tableIndex := GetIndexes(virt, 0, 0);
      if res < 0 { return res; }
      var table := LoadCell(ram, directory / 4096, directoryIndex);
      ghost var d: nat := directory / 4096;
      assert table / 4096 == Table(ram[..], d, directoryIndex);
      StoreCell(ram, (table - table % 4096) / 4096, tableIndex, value);
      r := 1;
    }

    method Map(directory: u32, virt: u32, phys: u32, flags: u32) returns (r: int)
      requires directory % 4096 == 0 && Directory(ram[..], directory / 4096)
      modifies ram
      ensures r == if virt % 4096 == 0 && phys % 4096 == 0 then 1 else -1
      ensures r == -1 ==> ram[..] == old(ram[..])
      ensures r == 1 ==> ram[..] == SetEntry(old(ram[..]), directory / 4096, virt / 4096, Or32(phys, flags))
    {
      if virt % 4096 != 0 || phys % 4096 != 0 { return -1; }
      r := Set(directory, virt, Or32(phys, flags));
    }

    method MapRange(directory: u32, virt: u32, phys: u32, totalPages: u32, flags: u32) returns (r: int)
      requires directory % 4096 == 0 && Directory(ram[..], directory / 4096)
      modifies ram
      ensures r == if totalPages == 0 || (virt % 4096 == 0 && phys % 4096 == 0) then 1 else -1
      ensures r == -1 ==> ram[..] == old(ram[..])
      ensures r == 1 ==> ram[..] == Perform(old(ram[..]), directory / 4096, RangeCalls(virt, phys, totalPages, flags))
    {
      hide Or32, Or, Directory, Wrap, SetEntry;
      ghost var d: nat, m0, calls := directory / 4096, ram[..], RangeCalls(virt, phys, totalPages, flags);
      WrapSmall(virt);
      WrapSmall(phys);
      var v, p := virt, phys;
      var i := 0;
      while i < totalPages
        invariant i <= totalPages && v == Wrap(virt as int + 4096 * i) && p == Wrap(phys as int + 4096 * i)
        invariant i > 0 ==> virt % 4096 == 0 && phys % 4096 == 0
        invariant Directory(ram[..], d) && Perform(m0, d, calls) == Perform(ram[..], d, calls[i..])
        invariant i == 0 ==> ram[..] == m0
      {
        ghost var m := ram[..];
        assert i > 0 ==> v % 4096 == 0 && p % 4096 == 0 by {
          if i > 0 { ForwardIs(virt, i); ForwardIs(phys, i); }
        }
        r := Map(directory, v, p, flags);
        if r < 0 { return -1; }
        assert calls[i..][0] == Call.Set(v, Or32(p, flags)) && calls[i..][1..] == calls[i + 1..];
        SetEntryRefines(m, d, v / 4096, Or32(p, flags));
        WrapAdvance(virt, i);
        WrapAdvance(phys, i);
        v, p := Wrap(v as int + 4096), Wrap(p as int + 4096);
        i := i + 1;
      }
      r := 1;
    }

    /** All or nothing: -1 and nothing changed, or every page of the range mapped. */
    method MapTo(directory: u32, virt: u32, phys: u32, physEnd: u32, flags: u32) returns (r: int)
      requires directory % 4096 == 0 && Directory(ram[..], directory / 4096)
      modifies ram
      ensures r == if virt % 4096 == 0 && phys % 4096 == 0 && physEnd % 4096 == 0 && phys <= physEnd then 1 else -1
      ensures r == -1 ==> ram[..] == old(ram[..])
      ensures SameFrames(old(ram[..]), ram[..], directory / 4096)
      ensures r == 1 ==> Mapped(old(View(ram[..], directory / 4096)), View(ram[..], directory / 4096),
                                virt / 4096, phys, (physEnd - phys) / 4096, flags)
    {
      ghost var d: nat, m0 := directory / 4096, ram[..];
      CallsRefineMap(m0, d, []);
      if virt % 4096 != 0 { return -1; }
      if phys % 4096 != 0 { return -1; }
      if physEnd % 4096 != 0 { return -1; }
      if physEnd < phys { return -1; }
      var totalBytes := physEnd - phys;
      var totalPages := totalBytes / 4096;
      r := MapRange(directory, virt, phys, totalPages, flags);
      CallsRefineMap(m0, d, RangeCalls(virt, phys, totalPages, flags));
      MapRangePages(View(m0, d), virt, phys, totalPages, flags);
    }

    method Free4gb(chunk: u32, ghost d: nat)
      requires Valid() && chunk % 4096 == 0
      requires Directory(ram[..], d) && Chunk(ram[..], chunk / 4096, d)
      requires chunk / 4096 !in Blocks(ram[..], d) && 4096 * d < 0x1_0000_0000
      modifies pmm, pmm.memoryMap
      ensures Valid() && pmm.State() == Returned(old(pmm.State()), ram[..], chunk / 4096, d)
    {
      hide Cell, Pmm.Taken, Wrap, Accounted;
      ghost var m, f0 := ram[..], pmm.State();
      var directory := LoadCell(ram, chunk / 4096, 0);
      assert directory / 4096 == d;
      var i := 0;
      ghost var gone: set<nat> := {};
      WrapSmall(f0.free);
      WrapSmall(f0.used);
      while i < 1024
        modifies pmm, pmm.memoryMap
        invariant i <= 1024 && Valid()
        invariant gone == set j | 0 <= j < i :: Table(m, d, j)
        invariant pmm.State() ==
          f0.(taken := f0.taken - gone, free := Wrap(f0.free as int + i), used := Wrap(f0.used as int - i))
      {
        var entry := LoadCell(ram, directory / 4096, i);
        var table := entry - entry % 4096;
        pmm.FreeBlock(table);
        WrapStep(f0.free as int + i, 1);
        WrapStep(f0.used as int - i, -1);
        gone := gone + {Table(m, d, i)};
        i := i + 1;
      }
      assert gone == Tables(m, d);
      pmm.FreeBlock(directory);
      pmm.FreeBlock(chunk);
      WrapStep(f0.free as int + 1024, 1);
      WrapStep(f0.used as int - 1024, -1);
      WrapStep(f0.free as int + 1025, 1);
      WrapStep(f0.used as int - 1025, -1);
    }

    method Switch(directory: u32)
      modifies this
      ensures currentDirectory == directory
    {
      currentDirectory := directory;
    }
  }
}
