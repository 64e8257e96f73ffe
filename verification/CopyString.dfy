/** copy_string_from_task of src/task/task.c, with strncpy of src/string/string.c. */
module CopyStrings {
  import opened Bits
  import opened Frames
  import opened PhysicalMemory
  import opened HeapState
  import opened KernelHeap
  import opened Memory
  import opened PageTables
  import opened Directories
  import opened PagingUnit
  import opened Tasks
  import opened Images
  import opened Loading
  import opened Kernels

  /** The byte at a physical address; 0xFF where there is no memory. */
  function ByteAt(m: Ram, a: nat): byte {
    if a < |m| then m[a] else 0xFF
  }

  /** The byte a task sees k bytes after a virtual address. */
  ghost function Seen(m: Ram, d: nat, virt: u32, k: nat): byte
    requires Directory(m, d)
  {
    ByteAt(m, Translate(m, d, Wrap(virt + k)))
  }

  /** The string a task sees at a virtual address, cut to n bytes: s is what is known of it so far. */
  ghost function SeenString(m: Ram, d: nat, virt: u32, n: nat, s: seq<byte>): (r: seq<byte>)
    requires Directory(m, d) && |s| <= n
    ensures s <= r && |r| <= n && (0 !in s ==> 0 !in r)
    decreases n - |s|
  {
    if |s| == n || Seen(m, d, virt, |s|) == 0 then s else SeenString(m, d, virt, n, s + [Seen(m, d, virt, |s|)])
  }

  /** The task sees the string t at a virtual address, and the NUL behind it. */
  ghost predicate Sees(m: Ram, d: nat, virt: u32, t: seq<byte>)
    requires Directory(m, d)
  {
    0 !in t && (forall i :: 0 <= i < |t| ==> Seen(m, d, virt, i) == t[i]) && Seen(m, d, virt, |t|) == 0
  }

  /** The string at an address of memory is t, and the NUL behind it is there. */
  ghost predicate Spells(m: seq<byte>, a: nat, t: seq<byte>) {
    0 !in t && a + |t| < |m| && m[a..a + |t|] == t && m[a + |t|] == 0
  }

  lemma {:induction false} SeenFrom(m: Ram, d: nat, virt: u32, n: nat, t: seq<byte>, k: nat)
    requires Directory(m, d) && Sees(m, d, virt, t) && k <= |t| <= n
    ensures SeenString(m, d, virt, n, t[..k]) == t
    decreases |t| - k
  {
    hide Seen, Directory;
    assert t[..|t|] == t;
    if k < |t| {
      assert t[k] in t && t[..k] + [t[k]] == t[..k + 1];
      SeenFrom(m, d, virt, n, t, k + 1);
    }
  }

  /** A string the task sees, with room for all of it, is the string seen. */
  lemma {:induction false} SeenWhole(m: Ram, d: nat, virt: u32, n: nat, t: seq<byte>)
    requires Directory(m, d) && Sees(m, d, virt, t) && |t| <= n
    ensures SeenString(m, d, virt, n, []) == t
  {
    hide Seen, Directory;
    SeenFrom(m, d, virt, n, t, 0);
    assert t[..0] == [];
  }

  /** Of a longer one, the first n bytes are. */
  lemma {:induction false} SeenCut(m: Ram, d: nat, virt: u32, n: nat, t: seq<byte>)
    requires Directory(m, d) && |t| == n && 0 !in t && forall i :: 0 <= i < n ==> Seen(m, d, virt, i) == t[i]
    ensures SeenString(m, d, virt, n, []) == t
  {
    hide Seen, Directory;
    CutFrom(m, d, virt, n, t, 0);
    assert t[..0] == [];
  }

  lemma {:induction false} CutFrom(m: Ram, d: nat, virt: u32, n: nat, t: seq<byte>, k: nat)
    requires Directory(m, d) && |t| == n && 0 !in t && forall i :: 0 <= i < n ==> Seen(m, d, virt, i) == t[i]
    requires k <= n
    ensures SeenString(m, d, virt, n, t[..k]) == t
    decreases n - k
  {
    hide Seen, Directory;
    assert t[..n] == t;
    if k < n {
      assert t[k] in t && t[..k] + [t[k]] == t[..k + 1];
      CutFrom(m, d, virt, n, t, k + 1);
    }
  }

  /** What strncpy(dest, src, count) copies at most, the NUL apart. */
  function Room(count: nat): nat {
    if count == 0 then 0 else count - 1
  }

  /** What a copy to the beginning of block b reads next, when it has written s so far. */
  ghost function Fetched(m: Ram, d: nat, virt: u32, b: nat, s: seq<byte>): byte
    requires Directory(m, d)
  {
    var a := Translate(m, d, Wrap(virt + |s|));
    if a / 4096 == b && a % 4096 < |s| then s[a % 4096] else ByteAt(m, a)
  }

  /** What a copy of at most n bytes to the beginning of block b has written in the end. */
  ghost function Copied(m: Ram, d: nat, virt: u32, b: nat, n: nat, s: seq<byte>): (r: seq<byte>)
    requires Directory(m, d) && |s| <= n
    ensures s <= r && |r| <= n && (0 !in s ==> 0 !in r)
    decreases n - |s|
  {
    if |s| == n || Fetched(m, d, virt, b, s) == 0 then s
    else Copied(m, d, virt, b, n, s + [Fetched(m, d, virt, b, s)])
  }

  /** Block b can be the temporary block: it lies in memory and is no part of the address space. */
  ghost predicate Usable(m: Ram, d: nat, b: nat) {
    Directory(m, d) && b < 0x10_0000 && b !in Blocks(m, d) && 4096 * b + 4096 <= |m|
  }

  /** Memory when the copy begins: the temporary block b cleared as far as max, and mapped to itself. */
  ghost function Prepared(m: Ram, d: nat, b: nat, max: nat): Ram
    requires Usable(m, d, b) && max <= 4096
  {
    ClearedSpace(m, d, b, max);
    SetEntry(Cleared(m, 4096 * b, max), d, b, 4096 * b + 7)
  }

  lemma PreparedSpace(m: Ram, d: nat, b: nat, max: nat)
    requires Usable(m, d, b) && max <= 4096
    ensures var r := Prepared(m, d, b, max);
            && Usable(r, d, b) && View(r, d) == View(m, d)[b := 4096 * b + 7] && Tables(r, d) == Tables(m, d)
            && |r| == |m|
  {
    hide Cell, View, Cleared, SetEntry, Table;
    ClearedSpace(m, d, b, max);
    SetEntryRefines(Cleared(m, 4096 * b, max), d, b, 4096 * b + 7);
  }

  lemma ClearedSpace(m: Ram, d: nat, b: nat, max: nat)
    requires Usable(m, d, b) && max <= 4096
    ensures var r := Cleared(m, 4096 * b, max);
            Untouched(m, r, {b}) && Usable(r, d, b) && View(r, d) == View(m, d) && Tables(r, d) == Tables(m, d)
  {
    hide Cell, View, Cleared;
    var r := Cleared(m, 4096 * b, max);
    ClearedUntouched(m, b, max, 1);
    assert Span(b, 1) == {b};
    DirectoryFrame(m, r, d, {b});
  }

  /** Byte k of the string the task sees is what the copy reads when it comes to it. */
  ghost predicate Intact(m: Ram, d: nat, virt: u32, max: nat, b: nat, all: seq<byte>, k: nat)
    requires Usable(m, d, b) && max <= 4096 && k <= |all|
  {
    PreparedSpace(m, d, b, max);
    Fetched(Prepared(m, d, b, max), d, virt, b, all[..k]) == Seen(m, d, virt, k)
  }

  /** Every byte the copy looks at is intact: those of the string, and its NUL when it is met. */
  ghost predicate StringIntact(m: Ram, d: nat, virt: u32, max: nat, b: nat)
    requires Usable(m, d, b) && max <= 4096
  {
    var all := SeenString(m, d, virt, Room(max), []);
    IntactFrom(m, d, virt, max, b, all, 0)
  }

  /** The copy is the string the task saw exactly when the string is intact. */
  lemma {:induction false} CopiedExactly(m: Ram, d: nat, virt: u32, max: nat, b: nat)
    requires Usable(m, d, b) && max <= 4096
    ensures Usable(Prepared(m, d, b, max), d, b)
    ensures Copied(Prepared(m, d, b, max), d, virt, b, Room(max), []) == SeenString(m, d, virt, Room(max), []) <==>
            StringIntact(m, d, virt, max, b)
  {
    PreparedSpace(m, d, b, max);
    CopiedFrom(m, d, virt, max, b, []);
  }

  lemma {:induction false} CopiedFrom(m: Ram, d: nat, virt: u32, max: nat, b: nat, s: seq<byte>)
    requires Usable(m, d, b) && max <= 4096 && |s| <= Room(max) && Usable(Prepared(m, d, b, max), d, b)
    ensures var all := SeenString(m, d, virt, Room(max), s);
            Copied(Prepared(m, d, b, max), d, virt, b, Room(max), s) == all <==>
            IntactFrom(m, d, virt, max, b, all, |s|)
    decreases Room(max) - |s|
  {
    hide Fetched, Seen, Prepared, Usable, Directory, Intact;
    var n, p := Room(max), Prepared(m, d, b, max);
    UsableDirectory(m, d, b);
    UsableDirectory(p, d, b);
    var all := SeenString(m, d, virt, n, s);
    if |s| < n {
      var c, x := Seen(m, d, virt, |s|), Fetched(p, d, virt, b, s);
      assert all[..|s|] == s;
      IntactIs(m, d, virt, max, b, all, |s|);
      if x == c && c != 0 {
        CopiedFrom(m, d, virt, max, b, s + [c]);
      } else if x != c {
        var got := Copied(p, d, virt, b, n, s);
        assert if c == 0 then all == s else s + [c] <= all && all[|s|] == c;
        assert if x == 0 then got == s else s + [x] <= got && got[|s|] == x;
        assert got != all;
      }
    }
  }

  ghost predicate IntactFrom(m: Ram, d: nat, virt: u32, max: nat, b: nat, all: seq<byte>, i: nat)
    requires Usable(m, d, b) && max <= 4096
  {
    forall k :: i <= k <= |all| && k < Room(max) ==> Intact(m, d, virt, max, b, all, k)
  }

  lemma IntactIs(m: Ram, d: nat, virt: u32, max: nat, b: nat, all: seq<byte>, k: nat)
    requires Usable(m, d, b) && max <= 4096 && k <= |all| && Usable(Prepared(m, d, b, max), d, b)
    ensures Intact(m, d, virt, max, b, all, k) <==>
            Fetched(Prepared(m, d, b, max), d, virt, b, all[..k]) == Seen(m, d, virt, k)
  {
  }

  lemma UsableDirectory(m: Ram, d: nat, b: nat)
    requires Usable(m, d, b)
    ensures Directory(m, d)
  {
  }

  /** A load through the MMU with this directory in CR3. */
  method LoadVirtual(ram: array<byte>, directory: u32, virt: u32) returns (c: byte)
    requires directory % 4096 == 0 && Directory(ram[..], directory / 4096)
    ensures c == Seen(ram[..], directory / 4096, virt, 0)
  {
    hide Wrap, Cell;
    WrapSmall(virt);
    var physical := MmuTranslate(ram, directory, virt);
    c := if physical < ram.Length then ram[physical] else 0xFF;
  }

  method StoreVirtual(ram: array<byte>, directory: u32, virt: u32, c: byte)
    requires directory % 4096 == 0 && Directory(ram[..], directory / 4096)
    requires Translate(ram[..], directory / 4096, virt) < ram.Length
    modifies ram
    ensures ram[..] == old(ram[..])[Translate(old(ram[..]), directory / 4096, virt) := c]
  {
    var physical := MmuTranslate(ram, directory, virt);
    ram[physical] := c;
  }

  method MmuTranslate(ram: array<byte>, directory: u32, virt: u32) returns (physical: nat)
    requires directory % 4096 == 0 && Directory(ram[..], directory / 4096)
    ensures physical == Translate(ram[..], directory / 4096, virt)
  {
    hide Cell;
    var p := virt / 4096;
    var table := LoadCell(ram, directory / 4096, p / 1024);
    ghost var d: nat := directory / 4096;
    assert table / 4096 == Table(ram[..], d, p / 1024);
    var entry := LoadCell(ram, table / 4096, p % 1024);
    assert entry == View(ram[..], d)[p];
    physical := entry / 4096 * 4096 + virt % 4096;
  }

  /** While the copy writes nothing but the temporary block, it reads what Fetched says. */
  lemma FetchedNow(m: Ram, d: nat, virt: u32, b: nat, s: seq<byte>)
    requires Usable(m, d, b) && |s| <= 4096
    ensures var r := Splice(m, 4096 * b, s);
            Directory(r, d) && View(r, d) == View(m, d) && Seen(r, d, Wrap(virt + |s|), 0) == Fetched(m, d, virt, b, s)
  {
    hide Cell, View, Wrap, Splice;
    var r := Splice(m, 4096 * b, s);
    SplicedSpace(m, d, b, s);
    WrapSmall(Wrap(virt + |s|));
    var a := Translate(m, d, Wrap(virt + |s|));
    if a / 4096 == b && a % 4096 < |s| {
      assert a == 4096 * b + a % 4096;
      assert r[4096 * b..4096 * b + |s|][a % 4096] == r[a];
    }
  }

  lemma SplicedSpace(m: Ram, d: nat, b: nat, s: seq<byte>)
    requires Usable(m, d, b) && |s| <= 4096
    ensures var r := Splice(m, 4096 * b, s);
            Untouched(m, r, {b}) && Directory(r, d) && View(r, d) == View(m, d)
  {
    hide Cell, View, Splice;
    var r := Splice(m, 4096 * b, s);
    forall x | 0 <= x < |m| && x / 4096 !in {b} ensures r[x] == m[x] {
      InBlock(b, 1, x);
    }
    DirectoryFrame(m, r, d, {b});
  }

  /** Where the temporary block is mapped to itself a store goes where it should. */
  lemma TmpMapped(m: Ram, m': Ram, d: nat, b: nat, o: nat)
    requires Usable(m, d, b) && View(m, d)[b] == 4096 * b + 7 && o < 4096
    requires Directory(m', d) && View(m', d) == View(m, d)
    ensures 4096 * b + o < 0x1_0000_0000 && Translate(m', d, 4096 * b + o) == 4096 * b + o < |m|
  {
    hide Directory, View;
    TranslateIs(m', d, b, o, b, 7);
  }

  /** One load and one store of the copy, through the task's directory. */
  method LoadNext(ram: array<byte>, directory: u32, ghost b: nat, virt: u32, i: nat, ghost m: Ram, ghost s: seq<byte>)
    returns (c: byte)
    requires directory % 4096 == 0 && Usable(m, directory / 4096, b) && i == |s| <= 4096
    requires 4096 * b + |s| <= |m| && ram[..] == Splice(m, 4096 * b, s)
    ensures Directory(m, directory / 4096) && c == Fetched(m, directory / 4096, virt, b, s)
  {
    hide Seen, Usable, Directory, View, Wrap, Splice, Fetched;
    UsableIs(m, directory / 4096, b);
    FetchedNow(m, directory / 4096, virt, b, s);
    c := LoadVirtual(ram, directory, Wrap(virt + i));
  }

  method StoreNext(ram: array<byte>, directory: u32, b: nat, c: byte, i: nat, ghost m: Ram, ghost s: seq<byte>)
    requires directory % 4096 == 0 && Usable(m, directory / 4096, b) && i == |s| < 4096
    requires Directory(m, directory / 4096) && View(m, directory / 4096)[b] == 4096 * b + 7
    requires 4096 * b + |s| <= |m| && ram[..] == Splice(m, 4096 * b, s)
    modifies ram
    ensures 4096 * b + |s| + 1 <= |m| && ram[..] == Splice(m, 4096 * b, s + [c])
  {
    hide *;
    StoredNext(m, directory / 4096, b, c, s);
    StoreVirtual(ram, directory, 4096 * b + i, c);
  }

  lemma StoredNext(m: Ram, d: nat, b: nat, c: byte, s: seq<byte>)
    requires Usable(m, d, b) && |s| < 4096 && Directory(m, d) && View(m, d)[b] == 4096 * b + 7
    ensures b < 0x10_0000 && 4096 * b + |s| + 1 <= |m| && 4096 * b + |s| < 0x1_0000_0000
    ensures var r := Splice(m, 4096 * b, s);
            && Directory(r, d) && Translate(r, d, 4096 * b + |s|) == 4096 * b + |s|
            && r[4096 * b + |s| := c] == Splice(m, 4096 * b, s + [c])
  {
    hide Usable, Directory, View, Splice, Translate, Untouched, Blocks;
    UsableIs(m, d, b);
    SplicedSpace(m, d, b, s);
    TmpMapped(m, Splice(m, 4096 * b, s), d, b, |s|);
    SpliceOne(m, 4096 * b, s, c);
  }

  /** strncpy(tmp, virtual, count) with the task's directory loaded, tmp a block that is mapped to
      itself. */
  method StrncpyFromTask(ram: array<byte>, directory: u32, tmp: u32, virt: u32, count: nat)
    requires directory % 4096 == 0 && tmp % 4096 == 0 && count <= 4096
    requires Usable(ram[..], directory / 4096, tmp / 4096)
    requires View(ram[..], directory / 4096)[tmp / 4096] == tmp + 7
    modifies ram
    ensures Directory(old(ram[..]), directory / 4096) && tmp as nat + 4096 <= ram.Length
    ensures ram[..] ==
            Splice(old(ram[..]), tmp, Copied(old(ram[..]), directory / 4096, virt, tmp / 4096, Room(count), []) + [0])
  {
    hide Usable, Directory, View, Wrap, Splice, Fetched, Copied, Blocks;
    ghost var m, d: nat, b: nat, n := ram[..], directory / 4096, tmp / 4096, Room(count);
    assert tmp == 4096 * b;
    UsableIs(m, d, b);
    SpliceNone(m, tmp);
    ghost var s: seq<byte> := [];
    var i := 0;
    while i < Room(count)
      invariant i == |s| <= n && ram[..] == Splice(m, tmp, s)
      invariant Copied(m, d, virt, b, n, []) == Copied(m, d, virt, b, n, s)
    {
      CopiedStep(m, d, virt, b, n, s);
      var c := LoadNext(ram, directory, b, virt, i, m, s);
      if c == 0 { break; }
      StoreNext(ram, directory, tmp / 4096, c, i, m, s);
      s := s + [c];
      i := i + 1;
    }
    CopiedStep(m, d, virt, b, n, s);
    StoreNext(ram, directory, tmp / 4096, 0, i, m, s);
  }

  lemma CopiedStep(m: Ram, d: nat, virt: u32, b: nat, n: nat, s: seq<byte>)
    requires Directory(m, d) && |s| <= n
    ensures Copied(m, d, virt, b, n, s) ==
            var c := Fetched(m, d, virt, b, s);
            if |s| == n || c == 0 then s else Copied(m, d, virt, b, n, s + [c])
  {
    hide Directory, Fetched;
  }

  lemma UsableIs(m: Ram, d: nat, b: nat)
    requires Usable(m, d, b)
    ensures Directory(m, d) && 4096 * b + 4096 <= |m| && b < 0x10_0000 && b !in Blocks(m, d)
  {
  }

  /** strnlen over a buffer: the first index at or after i of a NUL; its length if there is none. */
  ghost function Strnlen(s: seq<byte>, i: nat): (r: nat)
    requires i <= |s|
    ensures i <= r <= |s| && (r < |s| ==> s[r] == 0)
    ensures forall k :: i <= k < r ==> s[k] != 0
    decreases |s| - i
  {
    if i == |s| || s[i] == 0 then i else Strnlen(s, i + 1)
  }

  lemma StrnlenStep(s: seq<byte>, i: nat)
    requires i < |s|
    ensures Strnlen(s, i) == if s[i] == 0 then i else Strnlen(s, i + 1)
  {
  }

  /** One step of a copy between buffers that do not overlap. */
  lemma CopyNext(m: Ram, r: Ram, dest: nat, src: nat, n: nat, i: nat)
    requires src + n < |m| && dest + n < |m| && (src + n < dest || dest + n < src) && i <= n
    requires r == Splice(m, dest, m[src..src + n][..i])
    ensures var s := m[src..src + n];
            && |r| == |m| && r[dest + i := 0] == Splice(m, dest, s[..i] + [0])
            && (i < n ==> r[src + i] == s[i] && r[dest + i := r[src + i]] == Splice(m, dest, s[..i + 1]))
  {
    hide Splice;
    var s := m[src..src + n];
    SpliceOne(m, dest, s[..i], 0);
    if i < n {
      SpliceOne(m, dest, s[..i], s[i]);
      assert s[..i] + [s[i]] == s[..i + 1];
    }
  }

  /** strncpy between kernel buffers that do not overlap. */
  method Strncpy(ram: array<byte>, dest: nat, src: nat, count: nat)
    requires src + Room(count) < ram.Length && dest + Room(count) < ram.Length
    requires src + Room(count) < dest || dest + Room(count) < src
    modifies ram
    ensures var s := old(ram[..])[src..src + Room(count)];
            ram[..] == Splice(old(ram[..]), dest, s[..Strnlen(s, 0)] + [0])
    ensures CopiesString(old(ram[..]), src, ram[..], dest, count)
  {
    hide Splice, Strnlen, Spells;
    ghost var m, n := ram[..], Room(count);
    ghost var s := m[src..src + n];
    SpliceNone(m, dest);
    assert s[..0] == [];
    var i := 0;
    while i < Room(count)
      invariant i <= n && ram[..] == Splice(m, dest, s[..i])
      invariant Strnlen(s, 0) == Strnlen(s, i)
    {
      CopyNext(m, ram[..], dest, src, n, i);
      StrnlenStep(s, i);
      assert ram[src + i] == s[i];
      if ram[src + i] == 0 { break; }
      ram[dest + i] := ram[src + i];
      i := i + 1;
    }
    CopyNext(m, ram[..], dest, src, n, i);
    ram[dest + i] := 0;
    CopyLaw(m, dest, src, count);
  }

  /** A string shorter than count is at the destination, with its NUL; where the first count - 1 bytes hold
      no NUL, they are, and a NUL behind them. */
  ghost predicate CopiesString(m: Ram, src: nat, m': Ram, dest: nat, count: nat) {
    && (forall t :: Spells(m, src, t) && |t| < count ==> Spells(m', dest, t))
    && (count > 0 && src + count - 1 <= |m| && 0 !in m[src..src + count - 1] ==>
          Spells(m', dest, m[src..src + count - 1]))
  }

  lemma CopyLaw(m: Ram, dest: nat, src: nat, count: nat)
    requires src + Room(count) < |m| && dest + Room(count) < |m|
    ensures var s := m[src..src + Room(count)];
            CopiesString(m, src, Splice(m, dest, s[..Strnlen(s, 0)] + [0]), dest, count)
  {
    hide Splice, Strnlen, Spells;
    forall t | Spells(m, src, t) && |t| < count
      ensures var s := m[src..src + Room(count)]; Spells(Splice(m, dest, s[..Strnlen(s, 0)] + [0]), dest, t)
    {
      SpliceSpells(m, dest, src, count, t);
    }
    if count > 0 && 0 !in m[src..src + count - 1] {
      SpliceCut(m, dest, src, count, m[src..src + count - 1]);
    }
  }

  /** A string shorter than count is copied whole, with its NUL. */
  lemma SpliceSpells(m: Ram, dest: nat, src: nat, count: nat, t: seq<byte>)
    requires src + Room(count) < |m| && dest + Room(count) < |m| && Spells(m, src, t) && |t| < count
    ensures var s := m[src..src + Room(count)];
            Spells(Splice(m, dest, s[..Strnlen(s, 0)] + [0]), dest, t)
  {
    hide Splice;
    var s := m[src..src + Room(count)];
    assert |t| <= |s| && s[..|t|] == t && (|t| < |s| ==> s[|t|] == 0);
    StrnlenIs(s, t);
    Placed(m, dest, t);
  }

  /** Of a longer one its first count - 1 bytes are, and a NUL. */
  lemma SpliceCut(m: Ram, dest: nat, src: nat, count: nat, t: seq<byte>)
    requires src + Room(count) < |m| && dest + Room(count) < |m| && 0 !in t && |t| + 1 == count
    requires m[src..src + |t|] == t
    ensures var s := m[src..src + Room(count)];
            Spells(Splice(m, dest, s[..Strnlen(s, 0)] + [0]), dest, t)
  {
    hide Splice;
    var s := m[src..src + Room(count)];
    assert s == t && s[..|t|] == t;
    StrnlenIs(s, t);
    Placed(m, dest, t);
  }

  lemma StrnlenIs(s: seq<byte>, t: seq<byte>)
    requires 0 !in t && |t| <= |s| && s[..|t|] == t && (|t| < |s| ==> s[|t|] == 0)
    ensures Strnlen(s, 0) == |t|
  {
    hide Strnlen;
    var r := Strnlen(s, 0);
    assert forall k :: 0 <= k < |t| ==> s[..|t|][k] == s[k] && t[k] in t;
  }

  lemma Placed(m: Ram, at: nat, t: seq<byte>)
    requires at + |t| < |m| && 0 !in t
    ensures Spells(Splice(m, at, t + [0]), at, t)
  {
    hide Splice;
    var r := Splice(m, at, t + [0]);
    assert r[at..at + |t| + 1] == t + [0];
    assert r[at..at + |t|] == r[at..at + |t| + 1][..|t|] == t;
    assert r[at + |t|] == r[at..at + |t| + 1][|t|];
  }

  /** The same address space: every page's entry and the directory's flags over it. */
  ghost predicate SameAddressSpace(m: Ram, m': Ram, d: nat) {
    && Directory(m, d) && Directory(m', d) && Tables(m', d) == Tables(m, d) && View(m', d) == View(m, d)
    && (forall p :: 0 <= p < 0x10_0000 ==> DirectoryFlags(m', d, p) == DirectoryFlags(m, d, p))
  }

  lemma SpaceUntouched(m: Ram, m': Ram, d: nat, blocks: set<nat>)
    requires Directory(m, d) && Untouched(m, m', blocks) && Blocks(m, d) !! blocks
    ensures SameAddressSpace(m, m', d)
  {
    hide Cell, Entry;
    DirectoryFrame(m, m', d, blocks);
    assert forall p :: 0 <= p < 0x10_0000 ==> DirectoryFlags(m', d, p) == DirectoryFlags(m, d, p);
  }

  /** Mapping the temporary block (m2), writing it (m3), and putting the old entry back (m4) leaves
      every byte outside the temporary block, and with it the address space, as it was. */
  lemma {:induction false} EntryPutBack(m: Ram, m2: Ram, m3: Ram, m4: Ram, d: nat, b: nat)
    requires Usable(m, d, b) && m2 == SetEntry(m, d, b, 4096 * b + 7)
    requires Untouched(m2, m3, {b}) && Directory(m3, d) && m4 == SetEntry(m3, d, b, View(m, d)[b])
    ensures Untouched(m, m4, {b}) && SameAddressSpace(m, m4, d)
    ensures |m4| == |m3| && forall i :: 4096 * b <= i < 4096 * b + 4096 ==> m4[i] == m3[i]
  {
    hide Cell, Entry, SetEntry, Usable, Untouched, View, Directory, Blocks, Table, SameAddressSpace;
    UsableIs(m, d, b);
    var t := Table(m, d, b / 1024);
    EntryWritten(m, m2, d, b, 4096 * b + 7);
    TableKept(m2, m3, d, b);
    EntryWritten(m3, m4, d, b, View(m, d)[b]);
    BlockKept(m3, m4, t, b);
    EntriesAre(m, m3, d, b);
    WordPutBack(m, m2, m3, m4, t, b % 1024, 4096 * b + 7, b);
    SpaceUntouched(m, m4, d, {b});
  }

  lemma EntryWritten(m: Ram, m': Ram, d: nat, b: nat, v: u32)
    requires Directory(m, d) && b < 0x10_0000 && m' == SetEntry(m, d, b, v)
    ensures Untouched(m, m', {Table(m, d, b / 1024)})
    ensures |m'| == |m| && Directory(m', d) && Table(m', d, b / 1024) == Table(m, d, b / 1024)
    ensures Usable(m, d, b) ==> Usable(m', d, b) && Table(m, d, b / 1024) != b
  {
    hide Cell, Entry, SetEntry;
    SetEntryRefines(m, d, b, v);
  }

  lemma BlockKept(m: Ram, m': Ram, t: nat, b: nat)
    requires Untouched(m, m', {t}) && b != t && 4096 * b + 4096 <= |m|
    ensures |m'| == |m| && forall i :: 4096 * b <= i < 4096 * b + 4096 ==> m'[i] == m[i]
  {
    forall i | 4096 * b <= i < 4096 * b + 4096 ensures m'[i] == m[i] {
      Split(b, i - 4096 * b);
    }
  }

  lemma EntriesAre(m: Ram, m3: Ram, d: nat, b: nat)
    requires Directory(m, d) && Directory(m3, d) && b < 0x10_0000 && Table(m3, d, b / 1024) == Table(m, d, b / 1024)
    ensures var t := Table(m, d, b / 1024);
            && 4096 * t + 4096 <= |m| && 4096 * t + 4096 <= |m3| && View(m, d)[b] == Cell(m, t, b % 1024)
            && (forall v: u32 :: SetEntry(m, d, b, v) == PutCell(m, t, b % 1024, v))
            && (forall v: u32 :: SetEntry(m3, d, b, v) == PutCell(m3, t, b % 1024, v))
  {
    hide Cell, PutCell;
  }

  lemma WordPutBack(m: Ram, m2: Ram, m3: Ram, m4: Ram, t: nat, i: nat, v: u32, b: nat)
    requires i < 1024 && 4096 * t + 4096 <= |m| == |m3| && t != b
    requires m2 == PutCell(m, t, i, v) && Untouched(m2, m3, {b}) && m4 == PutCell(m3, t, i, Cell(m, t, i))
    ensures Untouched(m, m4, {b})
  {
    var a := 4096 * t + 4 * i;
    WordRestored(m, m3, a);
    forall k | 0 <= k < |m| && k / 4096 !in {b} ensures m4[k] == m[k] {
      if !(a <= k < a + 4) { assert m3[k] == m2[k] == m[k]; }
    }
  }

  lemma PreparedIs(m: Ram, d: nat, b: nat, max: nat, m1: Ram)
    requires Usable(m, d, b) && max <= 4096 && m1 == Cleared(m, 4096 * b, max)
    ensures Usable(m1, d, b) && Prepared(m, d, b, max) == SetEntry(m1, d, b, 4096 * b + 7)
    ensures View(m1, d) == View(m, d) && SameAddressSpace(m, m1, d) && Untouched(m, m1, {b})
  {
    hide Cell, Cleared, View, SetEntry;
    ClearedSpace(m, d, b, max);
    SpaceUntouched(m, m1, d, {b}) by { UsableIs(m, d, b); }
  }

  /** From the old entry of the temporary page to putting it back. m is memory before the temporary
      block was cleared. */
  method CopyThroughTask(paging: Paging, directory: u32, kernelDirectory: u32, tmp: u32, virt: u32, max: nat,
      ghost m: Ram)
    requires directory % 4096 == 0 && tmp % 4096 == 0 && max <= 4096
    requires Usable(m, directory / 4096, tmp / 4096) && paging.ram[..] == Cleared(m, tmp, max)
    modifies paging, paging.ram
    ensures paging.currentDirectory == kernelDirectory
    ensures SameAddressSpace(m, paging.ram[..], directory / 4096) && Untouched(m, paging.ram[..], {tmp as nat / 4096})
    ensures CopiedTo(m, directory / 4096, virt, tmp / 4096, max, paging.ram[..], tmp)
  {
    hide Cell, View, Wrap, Untouched, Directory, Or32, SameAddressSpace, SetEntry, Blocks, Usable, Copied, Splice;
    hide Cleared;
    ghost var d: nat, b: nat, m1 := directory / 4096, tmp / 4096, paging.ram[..];
    assert tmp == 4096 * b;
    PreparedIs(m, d, b, max, m1);
    UsableIs(m1, d, b);
    var oldEntry := paging.Get(directory, tmp);
    OrAligned(tmp, 7, 0);
    var r := paging.Map(directory, tmp, tmp, 7);
    paging.Switch(directory);
    ghost var m2 := paging.ram[..];
    PreparedSpace(m, d, b, max);
    UsableIs(m, d, b);
    StrncpyFromTask(paging.ram, directory, tmp, virt, max);
    ghost var m3, s := paging.ram[..], Copied(m2, d, virt, b, Room(max), []);
    SplicedSpace(m2, d, b, s + [0]);
    paging.Switch(kernelDirectory);
    r := paging.Set(directory, tmp, oldEntry);
    EntryPutBack(m1, m2, m3, paging.ram[..], d, b);
    UntouchedTrans(m, m1, paging.ram[..], {b}, {b}, {b});
    SpaceTwice(m, m1, paging.ram[..], d);
    SplicedThere(m2, m3, paging.ram[..], b, s + [0]);
  }

  lemma SpaceTwice(m: Ram, m1: Ram, m2: Ram, d: nat)
    requires SameAddressSpace(m, m1, d) && SameAddressSpace(m1, m2, d)
    ensures SameAddressSpace(m, m2, d)
  {
    hide View, DirectoryFlags, Tables, Directory;
  }

  lemma SplicedThere(m2: Ram, m3: Ram, m4: Ram, b: nat, data: seq<byte>)
    requires 4096 * b + 4096 <= |m2| && |data| <= 4096 && m3 == Splice(m2, 4096 * b, data) && |m4| == |m3|
    requires forall i :: 4096 * b <= i < 4096 * b + 4096 ==> m4[i] == m3[i]
    ensures m4[4096 * b..4096 * b + |data|] == data
  {
    hide Splice;
    assert m4[4096 * b..4096 * b + |data|] == m3[4096 * b..4096 * b + |data|];
  }

  /** From address at on, memory m' holds what the copy made of the string, and a NUL. */
  ghost predicate CopiedTo(m: Ram, d: nat, virt: u32, b: nat, max: nat, m': Ram, at: nat)
    requires Usable(m, d, b) && max <= 4096
  {
    PreparedSpace(m, d, b, max);
    var s := Copied(Prepared(m, d, b, max), d, virt, b, Room(max), []) + [0];
    at + |s| <= |m'| && m'[at..at + |s|] == s
  }

  /** From address at on, memory m' holds the string the task saw in memory m, cut to max - 1 bytes,
      and a NUL. */
  ghost predicate Delivered(m: Ram, d: nat, virt: u32, max: nat, m': Ram, at: nat) {
    && Directory(m, d)
    && var s := SeenString(m, d, virt, Room(max), []) + [0];
    at + |s| <= |m'| && m'[at..at + |s|] == s
  }

  lemma {:induction false} DeliveredExactly(m: Ram, d: nat, virt: u32, b: nat, max: nat, m': Ram, at: nat)
    requires Usable(m, d, b) && max <= 4096 && CopiedTo(m, d, virt, b, max, m', at)
    ensures Delivered(m, d, virt, max, m', at) <==> StringIntact(m, d, virt, max, b)
  {
    hide Usable, Directory, Prepared, StringIntact, SeenString, Copied, Splice;
    CopiedExactly(m, d, virt, max, b);
    UsableDirectory(m, d, b);
    UsableDirectory(Prepared(m, d, b, max), d, b);
    var s, t := Copied(Prepared(m, d, b, max), d, virt, b, Room(max), []), SeenString(m, d, virt, Room(max), []);
    if Delivered(m, d, virt, max, m', at) {
      assert s + [0] == m'[at..][..|s| + 1] && t + [0] == m'[at..][..|t| + 1];
      SameString(m'[at..], s, t);
    }
  }

  /** What is delivered, in full: a string the task sees, shorter than max, with its NUL; or the first
      max - 1 bytes of a longer one, and a NUL. */
  lemma {:induction false} DeliveredWhole(m: Ram, d: nat, virt: u32, max: nat, m': Ram, at: nat, t: seq<byte>)
    requires Directory(m, d) && Delivered(m, d, virt, max, m', at) && 0 !in t
    requires (Sees(m, d, virt, t) && |t| < max) ||
             (|t| + 1 == max && forall i :: 0 <= i < |t| ==> Seen(m, d, virt, i) == t[i])
    ensures Spells(m', at, t)
  {
    hide Directory, Seen, SeenString;
    if |t| < max && Sees(m, d, virt, t) {
      SeenWhole(m, d, virt, Room(max), t);
    } else {
      SeenCut(m, d, virt, Room(max), t);
    }
    assert m'[at..at + |t| + 1] == t + [0];
    assert m'[at..at + |t|] == m'[at..at + |t| + 1][..|t|] == t;
    assert m'[at + |t|] == m'[at..at + |t| + 1][|t|];
  }

  /** A place in memory holds but one NUL-terminated string. */
  lemma SameString(m: seq<byte>, s: seq<byte>, t: seq<byte>)
    requires 0 !in s && 0 !in t && s + [0] <= m && t + [0] <= m
    ensures s == t
  {
    assert forall i :: 0 <= i < |s| ==> m[i] == (s + [0])[i] == s[i] && s[i] in s;
    assert forall i :: 0 <= i < |t| ==> m[i] == (t + [0])[i] == t[i] && t[i] in t;
    assert m[|s|] == (s + [0])[|s|] && m[|t|] == (t + [0])[|t|];
  }

  /** The block kzalloc will hand out for the temporary buffer; 0 when there is none. */
  ghost function TmpBlock(h: Heap, max: u32): (b: nat)
    ensures b < 0x10_0000
  {
    Malloc(h, max).1 / 4096
  }

  /** The task's address space lies in blocks that are in use. */
  ghost predicate InUse(m: Ram, task: Task, d: nat, taken: set<nat>)
    reads task
  {
    && task.pageDirectory % 4096 == 0 && Directory(m, d) && Chunk(m, task.pageDirectory / 4096, d)
    && ChunkBlocks(m, task.pageDirectory / 4096, d) <= taken && 4096 * d < 0x1_0000_0000
  }

  /** copy_string_from_task up to the last copy: the string is in the temporary block tmp, and
      nothing else in memory has changed. */
  method FetchString(k: Kernel, task: Task, ghost d: nat, kernelDirectory: u32, virt: u32, max: u32) returns (tmp: u32)
    requires k.Steady() && max <= 4096 && InUse(k.ram[..], task, d, k.pmm.Taken())
    modifies k.ram, k.pmm, k.pmm.memoryMap, k.heap.bigBlocks, k.paging
    ensures k.Steady() && tmp / 4096 == old(TmpBlock(k.heap.State(), max)) && tmp % 4096 == 0
    ensures tmp == 0 ==> k.heap.State() == old(k.heap.State()) && k.ram[..] == Cleared(old(k.ram[..]), 0, max)
    ensures tmp != 0 ==>
              var m, b: nat := old(k.ram[..]), tmp as nat / 4096;
              && Usable(m, d, b) && b !in old(k.pmm.Taken()) && k.pmm.Taken() == old(k.pmm.Taken()) + {b}
              && k.paging.currentDirectory == kernelDirectory
              && SameAddressSpace(m, k.ram[..], d) && Untouched(m, k.ram[..], {b})
              && CopiedTo(m, d, virt, b, max, k.ram[..], tmp)
  {
    hide Pmm.Taken, Malloc, Accounted, Kheap.InMap, Cell, View, Untouched, Directory, SameAddressSpace, Cleared;
    hide Spared, Imaged;
    hide Usable, CopiedTo, HasRoom;
    ghost var m, h, taken := k.ram[..], k.heap.State(), k.pmm.Taken();
    tmp := k.Kzalloc(max);
    assert BlocksFor(max) == 1;
    if tmp == 0 { return; }
    ghost var b: nat := tmp / 4096;
    assert Span(b, 1) == {b};
    assert b !in taken && k.start != b by { ImageTaken(m, taken, k.start); }
    UsableWhen(m, task, d, taken, b);
    UntouchedCells(m, k.ram[..], {b}, task.pageDirectory / 4096);
    var directory := LoadCell(k.ram, task.pageDirectory / 4096, 0);
    CopyThroughTask(k.paging, directory, kernelDirectory, tmp, virt, max, m);
    ImagedUntouched(m, taken, k.ram[..], k.pmm.Taken(), k.start, {b});
  }

  lemma UsableWhen(m: Ram, task: Task, d: nat, taken: set<nat>, b: nat)
    requires InUse(m, task, d, taken) && b !in taken && 4096 * b + 4096 <= |m| && b < 0x10_0000
    ensures Usable(m, d, b) && Directory(m, d) && Chunk(m, task.pageDirectory / 4096, d)
    ensures task.pageDirectory as nat / 4096 in taken && task.pageDirectory % 4096 == 0
  {
    hide Cell;
  }

  ghost function BufferBlocks(phys: nat, n: nat): set<nat> {
    Span(phys / 4096, (phys + n) / 4096 - phys / 4096 + 1)
  }

  /** No byte has changed but in block b and from phys to phys + n. */
  ghost predicate SameOutside(m: Ram, m': Ram, b: nat, phys: nat, n: nat) {
    |m'| == |m| && forall a :: 0 <= a < |m| && a / 4096 != b && !(phys <= a <= phys + n) ==> m'[a] == m[a]
  }

  /** The destination is a buffer in memory that is in use, and no part of the task's tables. */
  ghost predicate Buffer(m: Ram, d: nat, phys: nat, n: nat, taken: set<nat>)
    requires Directory(m, d)
  {
    phys + n < |m| && BufferBlocks(phys, n) <= taken && BufferBlocks(phys, n) !! Blocks(m, d)
  }

  lemma BetweenBlocks(phys: nat, n: nat, x: nat)
    ensures phys <= x <= phys + n ==> x / 4096 in BufferBlocks(phys, n)
    ensures x / 4096 < phys / 4096 ==> x / 4096 * 4096 + 4096 <= phys
    ensures x / 4096 > (phys + n) / 4096 ==> phys + n < x / 4096 * 4096
  {
  }

  /** Copying the temporary buffer on to the destination passes the string on, and touches no other
      block. */
  lemma CopiedFurther(m0: Ram, m: Ram, d: nat, virt: u32, b: nat, max: nat, phys: nat, taken: set<nat>)
    requires Usable(m0, d, b) && max <= 4096 && Directory(m0, d) && b !in taken && Untouched(m0, m, {b})
    requires Buffer(m0, d, phys, Room(max), taken) && CopiedTo(m0, d, virt, b, max, m, 4096 * b)
    ensures phys + Room(max) < |m| && 4096 * b + Room(max) < |m|
    ensures 4096 * b + Room(max) < phys || phys + Room(max) < 4096 * b
    ensures var s := m[4096 * b..4096 * b + Room(max)];
            var m' := Splice(m, phys, s[..Strnlen(s, 0)] + [0]);
            && CopiedTo(m0, d, virt, b, max, m', phys) && SameOutside(m0, m', b, phys, Room(max))
            && Untouched(m0, m', {b} + BufferBlocks(phys, Room(max)))
  {
    hide Usable, Directory, Prepared, Copied, Splice, BufferBlocks, Buffer, Blocks, View, Tables, Strnlen, SameOutside;
    hide Untouched;
    UntouchedSize(m0, m, {b});
    BufferApart(m0, d, phys, Room(max), taken, b);
    UsableIs(m0, d, b);
    PreparedSpace(m0, d, b, max);
    UsableDirectory(Prepared(m0, d, b, max), d, b);
    var n := Room(max);
    var c := Copied(Prepared(m0, d, b, max), d, virt, b, n, []);
    var s := m[4096 * b..4096 * b + n];
    TerminatedLength(m, 4096 * b, c, n);
    SplicedBuffer(m0, m, b, phys, n, c + [0]);
  }

  lemma BufferApart(m: Ram, d: nat, phys: nat, n: nat, taken: set<nat>, b: nat)
    requires Directory(m, d) && Buffer(m, d, phys, n, taken) && b !in taken && n < 4096
    ensures phys + n < |m| && (4096 * b + n < phys || phys + n < 4096 * b)
  {
    BetweenBlocks(phys, n, 4096 * b);
    assert phys / 4096 <= b <= (phys + n) / 4096 ==> b in BufferBlocks(phys, n);
  }

  lemma TerminatedLength(m: Ram, at: nat, c: seq<byte>, n: nat)
    requires |c| <= n && at + n < |m| && 0 !in c && m[at..at + |c| + 1] == c + [0]
    ensures var s := m[at..at + n]; s[..Strnlen(s, 0)] == c
  {
    var s := m[at..at + n];
    var l := Strnlen(s, 0);
    assert forall i :: 0 <= i < |c| ==> m[at..at + |c| + 1][i] == s[i] == c[i] && c[i] in c;
    assert m[at..at + |c| + 1][|c|] == m[at + |c|];
  }

  lemma SplicedBuffer(m0: Ram, m: Ram, b: nat, phys: nat, n: nat, data: seq<byte>)
    requires Untouched(m0, m, {b}) && |data| <= n + 1 && phys + n < |m|
    ensures var m' := Splice(m, phys, data);
            && SameOutside(m0, m', b, phys, n) && Untouched(m0, m', {b} + BufferBlocks(phys, n))
            && m'[phys..phys + |data|] == data
  {
    hide Splice, BufferBlocks;
    var m' := Splice(m, phys, data);
    forall x | 0 <= x < |m0| && x / 4096 !in {b} + BufferBlocks(phys, n) ensures m'[x] == m0[x] {
      BetweenBlocks(phys, n, x);
    }
  }

  /** The last copy, from the temporary block b to the destination. m0 is memory before the call. */
  method PassOn(ram: array<byte>, ghost d: nat, ghost virt: u32, tmp: u32, max: nat, phys: u32, ghost m0: Ram,
      ghost taken: set<nat>, ghost b: nat)
    requires tmp == 4096 * b && max <= 4096 && Usable(m0, d, b) && Directory(m0, d)
    requires b !in taken && Untouched(m0, ram[..], {b})
    requires Buffer(m0, d, phys, Room(max), taken) && CopiedTo(m0, d, virt, b, max, ram[..], tmp)
    modifies ram
    ensures CopiedTo(m0, d, virt, b, max, ram[..], phys)
    ensures SameOutside(m0, ram[..], b, phys, Room(max)) && Untouched(m0, ram[..], {b} + BufferBlocks(phys, Room(max)))
  {
    hide Untouched, Directory, Splice, CopiedTo, Buffer, Usable, BufferBlocks, SameOutside, CopiesString, Room;
    hide Strnlen;
    CopiedFurther(m0, ram[..], d, virt, b, max, phys, taken);
    Strncpy(ram, phys, tmp, max);
  }

  /** What memory m' holds at an address once the string at virt was copied there through block b: the
      string seen if and only if it is intact, which for a loaded program's string off the page of b is
      to be off that page's entry. Then a string the task sees is there with its NUL; of one that is
      too long, the first max - 1 bytes. */
  ghost predicate Arrival(m: Ram, d: nat, virt: u32, max: nat, b: nat, m': Ram, at: nat)
    requires Usable(m, d, b) && max <= 4096
  {
    UsableIs(m, d, b);
    && (Delivered(m, d, virt, max, m', at) <==> StringIntact(m, d, virt, max, b))
    && (forall img :: Loaded(m, img) && img.dir == d && b !in AllBlocks(img) && !Own(img, b)
                      && OffPage(m, d, virt, max, b) ==>
          (Delivered(m, d, virt, max, m', at) <==> OffEntry(m, img, virt, max, b)))
    && (StringIntact(m, d, virt, max, b) ==>
          && (forall t :: Sees(m, d, virt, t) && |t| < max ==> Spells(m', at, t))
          && (forall t :: Sees(m, d, virt, t) && |t| >= max > 0 ==> Spells(m', at, t[..max - 1])))
  }

  lemma {:induction false} Arrives(m: Ram, d: nat, virt: u32, max: nat, b: nat, m': Ram, at: nat)
    requires Usable(m, d, b) && max <= 4096 && CopiedTo(m, d, virt, b, max, m', at)
    ensures Arrival(m, d, virt, max, b, m', at)
  {
    hide Usable, CopiedTo, Directory, Delivered, StringIntact, OffPage, OffEntry, Loaded, AllBlocks, Own, Sees, Spells;
    UsableIs(m, d, b);
    DeliveredExactly(m, d, virt, b, max, m', at);
    forall img | Loaded(m, img) && img.dir == d && b !in AllBlocks(img) && !Own(img, b) && OffPage(m, d, virt, max, b)
      ensures StringIntact(m, d, virt, max, b) <==> OffEntry(m, img, virt, max, b)
    {
      ArrivesExactly(m, img, virt, max, b);
    }
    if StringIntact(m, d, virt, max, b) { AllDelivered(m, d, virt, max, m', at); }
  }

  lemma AllDelivered(m: Ram, d: nat, virt: u32, max: nat, m': Ram, at: nat)
    requires Directory(m, d) && Delivered(m, d, virt, max, m', at)
    ensures forall t :: Sees(m, d, virt, t) && |t| < max ==> Spells(m', at, t)
    ensures forall t :: Sees(m, d, virt, t) && |t| >= max > 0 ==> Spells(m', at, t[..max - 1])
  {
    hide Directory, Seen, Delivered, Spells;
    forall t | Sees(m, d, virt, t) && |t| < max ensures Spells(m', at, t) {
      DeliveredWhole(m, d, virt, max, m', at, t);
    }
    forall t | Sees(m, d, virt, t) && |t| >= max > 0 ensures Spells(m', at, t[..max - 1]) {
      assert forall i :: 0 <= i < max - 1 ==> t[..max - 1][i] == t[i] && t[i] in t;
      DeliveredWhole(m, d, virt, max, m', at, t[..max - 1]);
    }
  }

  /** copy_string_from_task. It fails, with -1, exactly when max is more than a page or no block is
      free; the heap is then as before, and memory but for the bytes the failing request clears. On
      success the destination holds the string the task sees at virt, cut to max - 1 bytes, exactly
      when that string is intact: when nothing the copy itself does to the temporary block and to the
      entry of its page is in the way. No other byte of memory has changed in the end, except in the
      temporary block, which is never given back. Putting the old entry back cannot fail, the
      temporary buffer being aligned. */
  method CopyStringFromTask(k: Kernel, task: Task, ghost d: nat, kernelDirectory: u32, virt: u32, phys: u32, max: u32)
      returns (r: int)
    requires k.Steady() && InUse(k.ram[..], task, d, k.pmm.Taken())
    requires max <= 4096 ==> Buffer(k.ram[..], d, phys, Room(max), k.pmm.Taken())
    modifies k.ram, k.pmm, k.pmm.memoryMap, k.heap.bigBlocks, k.paging
    ensures k.Books() && r == if max <= 4096 && old(TmpBlock(k.heap.State(), max)) != 0 then 1 else -1
    ensures r == -1 ==> k.heap.State() == old(k.heap.State())
    ensures r == -1 ==> k.ram[..] == if max <= 4096 then Cleared(old(k.ram[..]), 0, max) else old(k.ram[..])
    ensures r == 1 ==>
              var m, b := old(k.ram[..]), old(TmpBlock(k.heap.State(), max));
              && k.paging.currentDirectory == kernelDirectory
              && b !in old(k.pmm.Taken()) && k.pmm.Taken() == old(k.pmm.Taken()) + {b}
              && Usable(m, d, b) && SameAddressSpace(m, k.ram[..], d)
              && SameOutside(m, k.ram[..], b, phys, Room(max))
              && CopiedTo(m, d, virt, b, max, k.ram[..], phys)
              && Arrival(m, d, virt, max, b, k.ram[..], phys)
    ensures r == -1 || k.start !in BufferBlocks(phys, Room(max)) ==> k.Steady()
    ensures old(k.Valid()) && k.start < phys as nat / 4096 && (phys as nat + Room(max)) / 4096 < k.reserved ==>
              k.Valid()
  {
    hide Pmm.Taken, Malloc, Accounted, Kheap.InMap, Untouched, Directory, SameAddressSpace, Splice, CopiedTo;
    hide Buffer, Usable;
    hide InUse, Kheap.State, Housed, TaskList.Valid, Matched, Spared, Delivered, StringIntact, Cleared, BufferBlocks;
    hide Imaged, SameOutside, Arrival;
    ghost var valid, h, m0, taken, n := k.Valid(), k.heap.State(), k.ram[..], k.pmm.Taken(), Room(max);
    SteadyTaken(k, h);
    if max > 4096 { return -1; }
    InUseDirectory(m0, task, d, taken);
    var tmp := FetchString(k, task, d, kernelDirectory, virt, max);
    if tmp == 0 {
      ClearedSpared(m0, taken, max, k.start);
      SteadyTaken(k, h);
      if valid { k.SafeLoads(m0, taken); }
      return -1;
    }
    ghost var b: nat := tmp / 4096;
    PassOn(k.ram, d, virt, tmp, max, phys, m0, taken, b);
    Arrives(m0, d, virt, max, b, k.ram[..], phys);
    BufferSpace(m0, k.ram[..], d, b, phys, n, taken);
    if k.start !in BufferBlocks(phys, n) {
      ImageTaken(m0, taken, k.start);
      ImagedUntouched(m0, taken, k.ram[..], k.pmm.Taken(), k.start, {b} + BufferBlocks(phys, n));
    }
    if valid && k.start < phys as nat / 4096 && (phys as nat + n) / 4096 < k.reserved {
      AboveStart(phys, n, k.start);
      BufferSpared(m0, taken, k.ram[..], k.pmm.Taken(), k.reserved, b, phys, n);
      k.SteadyLoads(m0, taken);
    }
    r := 1;
  }

  lemma AboveStart(phys: nat, n: nat, start: nat)
    requires start < phys / 4096
    ensures start !in BufferBlocks(phys, n)
  {
  }

  lemma SteadyTaken(k: Kernel, h: Heap)
    requires k.Steady() && k.heap.State() == h
    ensures k.pmm.Taken() == h.frames.taken
  {
  }

  lemma InUseDirectory(m: Ram, task: Task, d: nat, taken: set<nat>)
    requires InUse(m, task, d, taken)
    ensures Directory(m, d)
  {
  }

  lemma ClearedSpared(m: Ram, taken: set<nat>, max: nat, start: nat)
    requires max <= 4096 && start >= 1
    ensures Spared(m, taken, Cleared(m, 0, max), taken, start)
  {
    hide Cleared;
  }

  lemma BufferSpace(m: Ram, m': Ram, d: nat, b: nat, phys: nat, n: nat, taken: set<nat>)
    requires Usable(m, d, b) && Directory(m, d) && Buffer(m, d, phys, n, taken)
    requires Untouched(m, m', {b} + BufferBlocks(phys, n))
    ensures SameAddressSpace(m, m', d)
  {
    UsableIs(m, d, b);
    assert Blocks(m, d) !! {b} + BufferBlocks(phys, n);
    SpaceUntouched(m, m', d, {b} + BufferBlocks(phys, n));
  }

  lemma BufferSpared(m: Ram, taken: set<nat>, m': Ram, taken': set<nat>, reserved: nat, b: nat, phys: nat, n: nat)
    requires Untouched(m, m', {b} + BufferBlocks(phys, n)) && b !in taken && taken' == taken + {b}
    requires (phys + n) / 4096 < reserved
    ensures Spared(m, taken, m', taken', reserved)
  {
    SparedBy(m, taken, m', taken', reserved, {b} + BufferBlocks(phys, n));
  }

  /** Byte j of a little-endian word. */
  function EntryByte(v: u32, j: nat): byte {
    if j == 0 then v % 0x100 else if j == 1 then v / 0x100 % 0x100
    else if j == 2 then v / 0x1_0000 % 0x100 else v / 0x100_0000
  }

  /** The physical address of the entry of page b. */
  ghost function EntryAddress(m: Ram, d: nat, b: nat): nat
    requires Directory(m, d) && b < 0x10_0000
  {
    4096 * Table(m, d, b / 1024) + 4 * (b % 1024)
  }

  lemma WordByte(m: Ram, a: nat, j: nat)
    requires a + 4 <= |m| && j < 4
    ensures m[a + j] == EntryByte(Word(m, a), j)
  {
    JoinSplit(m[a], m[a + 1], m[a + 2], m[a + 3]);
  }

  lemma WordAt(m: Ram, m1: Ram, e: nat, v: u32, a: nat)
    requires e + 4 <= |m| == |m1| && (a < |m| ==> m1[a] == m[a])
    ensures if e <= a < e + 4 then ByteAt(PutWord(m1, e, v), a) == EntryByte(v, a - e) &&
            ByteAt(m, a) == EntryByte(Word(m, e), a - e)
            else ByteAt(PutWord(m1, e, v), a) == ByteAt(m, a)
  {
    hide EntryByte;
    var m2 := PutWord(m1, e, v);
    if e <= a < e + 4 {
      WordByte(m2, e, a - e);
      WordByte(m, e, a - e);
    }
  }

  /** Outside the temporary block the copy meets memory as it was, but for the entry of its page. */
  lemma PreparedAt(m: Ram, d: nat, b: nat, max: nat, a: nat)
    requires Usable(m, d, b) && max <= 4096 && a / 4096 != b
    ensures Directory(m, d) && b < 0x10_0000 && |Prepared(m, d, b, max)| == |m|
    ensures var e := EntryAddress(m, d, b);
            if e <= a < e + 4 then
              && ByteAt(Prepared(m, d, b, max), a) == EntryByte(4096 * b + 7, a - e)
              && ByteAt(m, a) == EntryByte(View(m, d)[b], a - e)
            else ByteAt(Prepared(m, d, b, max), a) == ByteAt(m, a)
  {
    hide Cleared, View, Blocks, EntryByte, ByteAt, PutWord, Word, Directory;
    var m1 := Cleared(m, 4096 * b, max);
    ClearedSpace(m, d, b, max);
    TableKept(m, m1, d, b);
    EntriesAre(m1, m1, d, b);
    EntriesAre(m, m, d, b);
    WordAt(m, m1, EntryAddress(m, d, b), 4096 * b + 7, a);
  }

  lemma TableKept(m: Ram, m1: Ram, d: nat, b: nat)
    requires Usable(m, d, b) && Untouched(m, m1, {b})
    ensures Directory(m, d) && Directory(m1, d) && Table(m1, d, b / 1024) == Table(m, d, b / 1024)
    ensures |m1| == |m|
  {
    UntouchedCells(m, m1, {b}, d);
    SameDirectory(m, m1, d);
  }

  /** Where a loaded program's task sees an address, and what the copy reads for it. */
  lemma LoadedFetch(m: Ram, img: Image, virt: u32, max: nat, b: nat, s: seq<byte>)
    requires Loaded(m, img) && Usable(m, img.dir, b) && b !in AllBlocks(img) && max <= 4096
    requires Directory(m, img.dir) && Wrap(virt + |s|) / 4096 != b
    ensures Usable(Prepared(m, img.dir, b, max), img.dir, b) && Directory(Prepared(m, img.dir, b, max), img.dir)
    ensures var w := Wrap(virt + |s|);
            var a := Translate(m, img.dir, w);
            && Fetched(Prepared(m, img.dir, b, max), img.dir, virt, b, s) == ByteAt(Prepared(m, img.dir, b, max), a)
            && a / 4096 != b && (if Own(img, w / 4096) then a / 4096 in ProgramBlocks(img) else a == w)
  {
    hide Loaded, Directory, View, Wrap, AllBlocks, ProgramBlocks, Usable, Prepared, ByteAt, Blocks, Own, Translate;
    hide Fetched;
    var d, w, m1 := img.dir, Wrap(virt + |s|), Prepared(m, img.dir, b, max);
    UsableIs(m, d, b);
    PreparedSpace(m, d, b, max);
    UsableDirectory(m1, d, b);
    LoadedTranslates(m, img, w);
    OffBlocks(img, b);
    SameTranslation(m, m1, d, w);
    FetchedElsewhere(m1, d, virt, b, s);
  }

  lemma OffBlocks(img: Image, b: nat)
    requires b !in AllBlocks(img)
    ensures b !in ProgramBlocks(img) && b !in TableBlocks(img)
  {
  }

  lemma SameTranslation(m: Ram, m': Ram, d: nat, w: nat)
    requires Directory(m, d) && Directory(m', d) && w < 0x1_0000_0000
    requires View(m', d)[w / 4096] == View(m, d)[w / 4096]
    ensures Translate(m', d, w) == Translate(m, d, w)
  {
    hide Directory, View;
  }

  lemma FetchedElsewhere(m: Ram, d: nat, virt: u32, b: nat, s: seq<byte>)
    requires Directory(m, d) && Translate(m, d, Wrap(virt + |s|)) / 4096 != b
    ensures Fetched(m, d, virt, b, s) == ByteAt(m, Translate(m, d, Wrap(virt + |s|)))
  {
    hide Directory, Translate, Wrap, ByteAt;
  }

  /** Of what a loaded program's task sees off the temporary page, exactly the bytes of the page table
      entry that the copy changes are not intact. */
  lemma {:induction false} LoadedIntact(m: Ram, img: Image, virt: u32, max: nat, b: nat, k: nat)
    requires Loaded(m, img) && Usable(m, img.dir, b) && b !in AllBlocks(img) && max <= 4096
    requires Directory(m, img.dir) && k <= |SeenString(m, img.dir, virt, Room(max), [])|
    requires Wrap(virt + k) / 4096 != b
    ensures b < 0x10_0000
    ensures var w, e := Wrap(virt + k), EntryAddress(m, img.dir, b);
            Intact(m, img.dir, virt, max, b, SeenString(m, img.dir, virt, Room(max), []), k) <==>
            || Own(img, w / 4096) || !(e <= w < e + 4)
            || EntryByte(View(m, img.dir)[b], w - e) == EntryByte(4096 * b + 7, w - e)
  {
    hide Loaded, Directory, View, Wrap, AllBlocks, ProgramBlocks, TableBlocks, SeenString, EntryAddress;
    hide Usable, Prepared, EntryByte, ByteAt, Own, Intact, Fetched, Translate, Table;
    var d, all := img.dir, SeenString(m, img.dir, virt, Room(max), []);
    UsableIs(m, d, b);
    LoadedFetch(m, img, virt, max, b, all[..k]);
    IntactIs(m, d, virt, max, b, all, k);
    var a := Translate(m, d, Wrap(virt + k));
    PreparedAt(m, d, b, max, a);
    EntryBlock(m, img, b, a);
  }

  lemma EntryBlock(m: Ram, img: Image, b: nat, a: nat)
    requires Loaded(m, img) && Directory(m, img.dir) && b < 0x10_0000
    ensures var e := EntryAddress(m, img.dir, b);
            e <= a < e + 4 ==> a / 4096 !in ProgramBlocks(img)
  {
    hide Loaded, Directory, ProgramBlocks, TableBlocks, Table;
    LoadedIs(m, img, b / 1024);
    var t, o := Table(m, img.dir, b / 1024), a - EntryAddress(m, img.dir, b) + 4 * (b % 1024);
    if EntryAddress(m, img.dir, b) <= a < EntryAddress(m, img.dir, b) + 4 { Split(t, o); }
  }

  /** While the temporary block is not where program or stack are mapped, that is one byte: the low
      byte of the entry. */
  lemma {:induction false} LoadedAway(m: Ram, img: Image, virt: u32, max: nat, b: nat, k: nat)
    requires Loaded(m, img) && Usable(m, img.dir, b) && b !in AllBlocks(img) && max <= 4096
    requires Directory(m, img.dir) && k <= |SeenString(m, img.dir, virt, Room(max), [])|
    requires Wrap(virt + k) / 4096 != b && !Own(img, b)
    ensures Intact(m, img.dir, virt, max, b, SeenString(m, img.dir, virt, Room(max), []), k) <==>
            Own(img, Wrap(virt + k) / 4096) || Wrap(virt + k) != EntryAddress(m, img.dir, b)
  {
    hide Loaded, Directory, View, Wrap, Table, AllBlocks, Intact, SeenString, Usable, Prepared, EntryAddress, EntryByte;
    UsableIs(m, img.dir, b);
    LoadedIs(m, img, b / 1024);
    LoadedIntact(m, img, virt, max, b, k);
    LowByteOnly(b);
  }

  lemma LowByteOnly(b: nat)
    requires b < 0x10_0000
    ensures EntryByte(4096 * b + 5, 0) != EntryByte(4096 * b + 7, 0)
    ensures EntryByte(4096 * b + 5, 1) == EntryByte(4096 * b + 7, 1)
    ensures EntryByte(4096 * b + 5, 2) == EntryByte(4096 * b + 7, 2)
    ensures EntryByte(4096 * b + 5, 3) == EntryByte(4096 * b + 7, 3)
  {
    var q := 16 * b;
    assert 4096 * b + 5 == 0x100 * q + 5 && 4096 * b + 7 == 0x100 * q + 7;
    LowByte(5, q);
    LowByte(7, q);
    assert (4096 * b + 5) / 0x1_0000 == q / 0x100 && (4096 * b + 7) / 0x1_0000 == q / 0x100;
    assert (4096 * b + 5) / 0x100_0000 == q / 0x100 / 0x100 && (4096 * b + 7) / 0x100_0000 == q / 0x100 / 0x100;
  }

  function Addr(virt: u32, k: nat): u32 {
    Wrap(virt + k)
  }

  /** The bytes the copy looks at are those at virt + k for these k: those of the string, and its NUL
      when it is met. */
  ghost predicate LooksAt(m: Ram, d: nat, virt: u32, max: nat, k: nat)
    requires Directory(m, d)
  {
    k <= |SeenString(m, d, virt, Room(max), [])| && k < Room(max)
  }

  /** Nothing the copy looks at lies on page b. */
  ghost predicate OffPage(m: Ram, d: nat, virt: u32, max: nat, b: nat)
    requires Directory(m, d)
  {
    forall k: nat :: LooksAt(m, d, virt, max, k) ==> Addr(virt, k) / 4096 != b
  }

  /** Nothing the copy looks at is, outside the program's own pages, the low byte of the entry of page b. */
  ghost predicate OffEntry(m: Ram, img: Image, virt: u32, max: nat, b: nat)
    requires Directory(m, img.dir) && b < 0x10_0000
  {
    forall k: nat :: LooksAt(m, img.dir, virt, max, k) ==>
      Own(img, Addr(virt, k) / 4096) || Addr(virt, k) != EntryAddress(m, img.dir, b)
  }

  /** A string of a loaded program's task that stays off the temporary page arrives exactly when it
      stays off that byte. */
  lemma {:induction false} ArrivesExactly(m: Ram, img: Image, virt: u32, max: nat, b: nat)
    requires Loaded(m, img) && Usable(m, img.dir, b) && b !in AllBlocks(img) && max <= 4096 && !Own(img, b)
    requires Directory(m, img.dir) && OffPage(m, img.dir, virt, max, b)
    ensures b < 0x10_0000
    ensures StringIntact(m, img.dir, virt, max, b) <==> OffEntry(m, img, virt, max, b)
  {
    hide Loaded, Directory, Wrap, AllBlocks, Intact, SeenString, Usable, EntryAddress, Own;
    UsableIs(m, img.dir, b);
    var all := SeenString(m, img.dir, virt, Room(max), []);
    forall k: nat | LooksAt(m, img.dir, virt, max, k)
      ensures k <= |all|
      ensures Intact(m, img.dir, virt, max, b, all, k) <==>
              Own(img, Addr(virt, k) / 4096) || Addr(virt, k) != EntryAddress(m, img.dir, b)
    {
      LoadedAway(m, img, virt, max, b, k);
    }
    if OffEntry(m, img, virt, max, b) {
      forall k | 0 <= k <= |all| && k < Room(max) ensures Intact(m, img.dir, virt, max, b, all, k) {
        assert LooksAt(m, img.dir, virt, max, k);
      }
    } else {
      var k: nat :| LooksAt(m, img.dir, virt, max, k) && !Own(img, Addr(virt, k) / 4096) &&
                    Addr(virt, k) == EntryAddress(m, img.dir, b);
      assert !Intact(m, img.dir, virt, max, b, all, k);
    }
  }

  /** A string in the program's own data is seen, and is intact, wherever the temporary block lies off the
      program's pages: the call delivers it. */
  lemma {:induction false} OwnStringIntact(m: Ram, img: Image, o: nat, t: seq<byte>, max: nat, b: nat)
    requires Loaded(m, img) && Usable(m, img.dir, b) && b !in AllBlocks(img) && max <= 4096 && !Own(img, b)
    requires Spells(img.data, o, t) && |t| < max
    ensures 0x40_0000 + o < 0x1_0000_0000 && Directory(m, img.dir)
    ensures Sees(m, img.dir, 0x40_0000 + o, t) && StringIntact(m, img.dir, 0x40_0000 + o, max, b)
  {
    hide Loaded, Directory, AllBlocks, Usable, Own, StringIntact, Seen;
    LoadedIs(m, img, 0);
    OwnPages(m, img);
    var virt: u32 := 0x40_0000 + o;
    forall i | 0 <= i <= |t| ensures Seen(m, img.dir, virt, i) == img.data[o + i] {
      OwnByteSeen(m, img, o, i);
    }
    forall i | 0 <= i < |t| ensures Seen(m, img.dir, virt, i) == t[i] {
      assert img.data[o..o + |t|][i] == img.data[o + i];
    }
    SeenWhole(m, img.dir, virt, Room(max), t);
    UsableIs(m, img.dir, b);
    forall k: nat | LooksAt(m, img.dir, virt, max, k) ensures Own(img, Addr(virt, k) / 4096) {
      OwnAddress(img, o, k);
    }
    ArrivesExactly(m, img, virt, max, b);
  }

  lemma OwnPages(m: Ram, img: Image)
    requires Loaded(m, img)
    ensures 0x40_0000 + |img.data| <= 0x1_0000_0000
  {
    hide Mapping, Span;
  }

  lemma OwnAddress(img: Image, o: nat, k: nat)
    requires o + k < |img.data| && 0x40_0000 + |img.data| <= 0x1_0000_0000
    ensures Addr(0x40_0000 + o, k) == 0x40_0000 + o + k && Own(img, Addr(0x40_0000 + o, k) / 4096)
  {
    hide Wrap;
    WrapSmall(0x40_0000 + o + k);
  }

  lemma OwnByteSeen(m: Ram, img: Image, o: nat, i: nat)
    requires Loaded(m, img) && Directory(m, img.dir) && o + i < |img.data|
    requires 0x40_0000 + |img.data| <= 0x1_0000_0000
    ensures Seen(m, img.dir, 0x40_0000 + o, i) == img.data[o + i]
  {
    hide Loaded, Directory, Translate, Wrap;
    WrapSmall(0x40_0000 + o + i);
    SeesItsFile(m, img, o + i);
  }

  /** A string that reaches the low byte of that entry outside program and stack does not arrive. */
  lemma {:induction false} ReachesEntry(m: Ram, img: Image, virt: u32, max: nat, b: nat, k: nat)
    requires Loaded(m, img) && Usable(m, img.dir, b) && b !in AllBlocks(img) && max <= 4096 && !Own(img, b)
    requires Directory(m, img.dir) && k <= |SeenString(m, img.dir, virt, Room(max), [])| && k < Room(max)
    requires Wrap(virt + k) == EntryAddress(m, img.dir, b) && !Own(img, Wrap(virt + k) / 4096)
    ensures !StringIntact(m, img.dir, virt, max, b)
  {
    hide Loaded, Directory, View, Wrap, Table, AllBlocks, Intact, SeenString, Usable, Prepared;
    UsableIs(m, img.dir, b);
    LoadedIs(m, img, b / 1024);
    EntryOffBlock(m, img, b);
    LoadedAway(m, img, virt, max, b, k);
  }

  lemma EntryOffBlock(m: Ram, img: Image, b: nat)
    requires Loaded(m, img) && b !in AllBlocks(img) && b < 0x10_0000 && Directory(m, img.dir)
    ensures EntryAddress(m, img.dir, b) / 4096 != b
  {
    hide View, Cell, Chunk;
    LoadedIs(m, img, b / 1024);
    Split(Table(m, img.dir, b / 1024), 4 * (b % 1024));
    assert TableBlocks(img) <= AllBlocks(img);
  }

  /** Whatever the string, one that begins on the temporary page, where kzalloc has cleared it, arrives
      empty. */
  lemma {:induction false} BeginsOnTemporary(m: Ram, d: nat, virt: u32, max: nat, b: nat)
    requires Usable(m, d, b) && max <= 4096 && virt / 4096 == b && virt % 4096 < max
    ensures Usable(Prepared(m, d, b, max), d, b)
    ensures Copied(Prepared(m, d, b, max), d, virt, b, Room(max), []) == []
  {
    hide Prepared, View, Wrap, Usable, Directory, Fetched;
    PreparedSpace(m, d, b, max);
    UsableIs(m, d, b);
    UsableDirectory(Prepared(m, d, b, max), d, b);
    ClearedThere(m, d, b, max, virt % 4096);
    assert virt == 4096 * b + virt % 4096;
    FetchedFirst(Prepared(m, d, b, max), d, b, virt % 4096);
  }

  lemma ClearedThere(m: Ram, d: nat, b: nat, max: nat, o: nat)
    requires Usable(m, d, b) && o < max <= 4096
    ensures 4096 * b + o < |Prepared(m, d, b, max)| && Prepared(m, d, b, max)[4096 * b + o] == 0
  {
    hide Cell, View, Cleared, SetEntry;
    ClearedSpace(m, d, b, max);
    SetEntryRefines(Cleared(m, 4096 * b, max), d, b, 4096 * b + 7);
    Split(b, o);
  }

  lemma FetchedFirst(m: Ram, d: nat, b: nat, o: nat)
    requires Usable(m, d, b) && Directory(m, d) && b < 0x10_0000 && o < 4096 && View(m, d)[b] == 4096 * b + 7
    ensures 4096 * b + o < 0x1_0000_0000
    ensures Fetched(m, d, 4096 * b + o, b, []) == ByteAt(m, 4096 * b + o)
  {
    hide Directory, View, Wrap, Usable, Translate, ByteAt, Fetched;
    var virt: u32 := 4096 * b + o;
    FetchedNothing(m, d, virt, b);
    WrapSmall(virt);
    TranslateIs(m, d, b, o, b, 7);
  }

  lemma FetchedNothing(m: Ram, d: nat, virt: u32, b: nat)
    requires Directory(m, d)
    ensures Fetched(m, d, virt, b, []) == ByteAt(m, Translate(m, d, Wrap(virt)))
  {
    hide Directory, Wrap, Translate, ByteAt;
    var none: seq<byte> := [];
    assert virt + |none| == virt;
  }
}
