/** Physical memory: bytes, the little-endian words in them, and the 4096-byte blocks they form. */
module Memory {
  import opened Bits

  type Ram = seq<byte>

  function Word(m: Ram, a: nat): u32
    requires a + 4 <= |m|
  {
    Join(m[a], m[a + 1], m[a + 2], m[a + 3])
  }

  function Join(b0: int, b1: int, b2: int, b3: int): u32
    requires 0 <= b0 < 0x100 && 0 <= b1 < 0x100 && 0 <= b2 < 0x100 && 0 <= b3 < 0x100
  {
    b0 + 0x100 * b1 + 0x1_0000 * b2 + 0x100_0000 * b3
  }

  lemma SplitJoin(v: u32)
    ensures Join(v % 0x100, v / 0x100 % 0x100, v / 0x1_0000 % 0x100, v / 0x100_0000) == v
  {
    var q := v / 0x100;
    assert v / 0x1_0000 == q / 0x100 && v / 0x100_0000 == q / 0x100 / 0x100;
  }

  function PutWord(m: Ram, a: nat, v: u32): (r: Ram)
    requires a + 4 <= |m|
    ensures |r| == |m| && Word(r, a) == v
    ensures forall k :: 0 <= k < |m| && !(a <= k < a + 4) ==> r[k] == m[k]
    ensures forall x: nat :: x + 4 <= |m| && (x + 4 <= a || a + 4 <= x) ==> Word(r, x) == Word(m, x)
  {
    SplitJoin(v);
    m[a := v % 0x100][a + 1 := v / 0x100 % 0x100][a + 2 := v / 0x1_0000 % 0x100][a + 3 := v / 0x100_0000]
  }

  /** Writing a word back restores its four bytes. */
  lemma WordRestored(m: Ram, m': Ram, a: nat)
    requires a + 4 <= |m| == |m'|
    ensures forall k :: a <= k < a + 4 ==> PutWord(m', a, Word(m, a))[k] == m[k]
  {
    var b0, b1, b2, b3 := m[a] as int, m[a + 1] as int, m[a + 2] as int, m[a + 3] as int;
    JoinSplit(b0, b1, b2, b3);
    assert Word(m, a) == Join(b0, b1, b2, b3);
  }

  lemma JoinSplit(b0: int, b1: int, b2: int, b3: int)
    requires 0 <= b0 < 0x100 && 0 <= b1 < 0x100 && 0 <= b2 < 0x100 && 0 <= b3 < 0x100
    ensures var v := Join(b0, b1, b2, b3);
            v % 0x100 == b0 && v / 0x100 % 0x100 == b1 && v / 0x1_0000 % 0x100 == b2 && v / 0x100_0000 == b3
  {
    var v, q, r := Join(b0, b1, b2, b3), b1 + 0x100 * b2 + 0x1_0000 * b3, b2 + 0x100 * b3;
    LowByte(b0, q);
    LowByte(b1, r);
    LowByte(b2, b3);
    hide Join;
    assert v / 0x1_0000 == v / 0x100 / 0x100 && v / 0x100_0000 == v / 0x100 / 0x100 / 0x100;
  }

  lemma LowByte(b: int, q: int)
    requires 0 <= b < 0x100
    ensures (b + 0x100 * q) % 0x100 == b && (b + 0x100 * q) / 0x100 == q
  {
  }

  /** Only bytes of the given blocks may differ. */
  ghost predicate Untouched(m: Ram, m': Ram, blocks: set<nat>) {
    |m'| == |m| && forall a :: 0 <= a < |m| && a / 4096 !in blocks ==> m'[a] == m[a]
  }

  /** The i-th of the 1024 words of block t. */
  function Cell(m: Ram, t: nat, i: nat): u32
    requires i < 1024 && 4096 * t + 4096 <= |m|
  {
    Word(m, 4096 * t + 4 * i)
  }

  function PutCell(m: Ram, t: nat, i: nat, v: u32): (r: Ram)
    requires i < 1024 && 4096 * t + 4096 <= |m|
    ensures |r| == |m| && Cell(r, t, i) == v && Untouched(m, r, {t})
    ensures forall u, j :: 0 <= j < 1024 && 0 <= u && 4096 * u + 4096 <= |m| && (u != t || j != i) ==>
              Cell(r, u, j) == Cell(m, u, j)
  {
    PutWord(m, 4096 * t + 4 * i, v)
  }

  lemma UntouchedCells(m: Ram, m': Ram, blocks: set<nat>, t: nat)
    requires Untouched(m, m', blocks) && t !in blocks && 4096 * t + 4096 <= |m|
    ensures forall i :: 0 <= i < 1024 ==> Cell(m', t, i) == Cell(m, t, i)
  {
    forall i | 0 <= i < 1024 ensures Cell(m', t, i) == Cell(m, t, i) {
      var a := 4096 * t + 4 * i;
      assert m'[a] == m[a] && m'[a + 1] == m[a + 1] && m'[a + 2] == m[a + 2] && m'[a + 3] == m[a + 3];
    }
  }

  lemma UntouchedSize(m: Ram, m': Ram, blocks: set<nat>)
    requires Untouched(m, m', blocks)
    ensures |m'| == |m|
  {
  }

  lemma UntouchedSelf(m: Ram, blocks: set<nat>)
    ensures Untouched(m, m, blocks)
  {
  }

  lemma UntouchedWiden(m: Ram, m': Ram, s: set<nat>, u: set<nat>)
    requires Untouched(m, m', s) && s <= u
    ensures Untouched(m, m', u)
  {
  }

  lemma UntouchedTrans(m: Ram, m': Ram, m'': Ram, s: set<nat>, t: set<nat>, u: set<nat>)
    requires Untouched(m, m', s) && Untouched(m', m'', t) && s <= u && t <= u
    ensures Untouched(m, m'', u)
  {
  }

  method StoreWord(ram: array<byte>, a: nat, v: u32)
    requires a + 4 <= ram.Length
    modifies ram
    ensures ram[..] == PutWord(old(ram[..]), a, v)
  {
    ram[a] := v % 0x100;
    ram[a + 1] := v / 0x100 % 0x100;
    ram[a + 2] := v / 0x1_0000 % 0x100;
    ram[a + 3] := v / 0x100_0000;
  }

  method LoadWord(ram: array<byte>, a: nat) returns (v: u32)
    requires a + 4 <= ram.Length
    ensures v == Word(ram[..], a)
  {
    v := Join(ram[a], ram[a + 1], ram[a + 2], ram[a + 3]);
  }

  /** table[i] = v, for the table of 32-bit words in block t. */
  method StoreCell(ram: array<byte>, t: nat, i: nat, v: u32)
    requires i < 1024 && 4096 * t + 4096 <= ram.Length
    modifies ram
    ensures ram[..] == PutCell(old(ram[..]), t, i, v)
  {
    StoreWord(ram, 4096 * t + 4 * i, v);
  }

  method LoadCell(ram: array<byte>, t: nat, i: nat) returns (v: u32)
    requires i < 1024 && 4096 * t + 4096 <= ram.Length
    ensures v == Cell(ram[..], t, i)
  {
    v := LoadWord(ram, 4096 * t + 4 * i);
  }

  /** m with the bytes from a on replaced by data. */
  function Splice(m: Ram, a: nat, data: seq<byte>): (r: Ram)
    requires a + |data| <= |m|
    ensures |r| == |m| && r[a..a + |data|] == data
    ensures forall k :: 0 <= k < |m| && !(a <= k < a + |data|) ==> r[k] == m[k]
  {
    m[..a] + data + m[a + |data|..]
  }

  /** A second write that begins inside the first and reaches at least as far repairs its tail. */
  lemma SpliceOver(m: Ram, a: nat, first: seq<byte>, n: nat, second: seq<byte>)
    requires n <= |first| <= n + |second| && a + n + |second| <= |m|
    ensures Splice(Splice(m, a, first), a + n, second) == Splice(m, a, first[..n] + second)
  {
    var r := Splice(m, a, first);
    assert r[..a + n] == m[..a] + first[..n];
    assert r[a + n + |second|..] == m[a + n + |second|..];
  }

  lemma SpliceNone(m: Ram, a: nat)
    requires a <= |m|
    ensures Splice(m, a, []) == m
  {
  }

  lemma SpliceOne(m: Ram, a: nat, data: seq<byte>, b: byte)
    requires a + |data| < |m|
    ensures Splice(m, a, data)[a + |data| := b] == Splice(m, a, data + [b])
  {
  }
}
