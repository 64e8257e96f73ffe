/** src/gdt/gdt.c: segment descriptors, their eight bytes, and what the processor makes of them. */
module SegmentDescriptors {
  import opened Bits

  datatype Segment = Segment(base: u32, limit: u32, kind: byte)

  /** encodeGdtEntry panics on every other limit. */
  predicate Accepted(limit: u32) {
    limit <= 65536 || limit % 4096 == 4095
  }

  /** Four bytes, the lowest first. */
  function Value(a: byte, b: byte, c: byte, d: byte): u32 {
    a as int + 0x100 * b as int + 0x1_0000 * c as int + 0x100_0000 * d as int
  }

  /** The processor's reading of a descriptor: section 3.4.5 of the Intel SDM, volume 3A. */
  function Base(d: seq<byte>): u32
    requires |d| == 8
  {
    Value(d[2], d[3], d[4], d[7])
  }

  /** The 20-bit limit, in bytes or, with the granularity flag set, in blocks of 4 KiB. */
  function EffectiveLimit(d: seq<byte>): u32
    requires |d| == 8
  {
    var field := Value(d[0], d[1], d[6] % 16, 0);
    if Bit(d[6], 7) then 4096 * field as int + 4095 else field
  }

  function Decode(d: seq<byte>): Segment
    requires |d| == 8
  {
    Segment(Base(d), EffectiveLimit(d), d[5])
  }

  /** A 32-bit segment that is neither 64-bit code nor marked for software. */
  predicate Plain32(d: seq<byte>)
    requires |d| == 8
  {
    Bit(d[6], 6) && !Bit(d[6], 5) && !Bit(d[6], 4)
  }

  /** C's byte-wide shifts and masks of a 32-bit word. */
  function Octet(x: u32, i: nat): byte
    requires i < 4
  {
    if i == 0 then x % 0x100 else if i == 1 then x / 0x100 % 0x100
    else if i == 2 then x / 0x1_0000 % 0x100 else x / 0x100_0000
  }

  lemma OctetsJoin(x: u32)
    ensures x == Value(Octet(x, 0), Octet(x, 1), Octet(x, 2), Octet(x, 3))
    ensures x < 0x10_0000 ==> Octet(x, 2) == x / 0x1_0000 < 16 && Octet(x, 3) == 0
  {
    assert x / 0x1_0000 == x / 0x100 / 0x100;
    assert x / 0x100_0000 == x / 0x1_0000 / 0x100;
  }

  /** The flags go in the high four bits, the limit's top in the low four. */
  lemma FlagsAndTop(flags: nat, top: nat)
    requires flags == 4 || flags == 12
    requires top < 16
    ensures Or(16 * flags, top) == 16 * flags + top
    ensures Bit(16 * flags + top, 7) <==> flags == 12
    ensures Bit(16 * flags + top, 6) && !Bit(16 * flags + top, 5) && !Bit(16 * flags + top, 4)
  {
    FlagBits();
    hide Bit, Or, Pow2;
    OrSplit(flags, 0, top, 4);
    OrZero(top);
    BitAbove(flags, top, 3);
    BitAbove(flags, top, 2);
    BitAbove(flags, top, 1);
    BitAbove(flags, top, 0);
  }

  lemma FlagBits()
    ensures Pow2(4) == 16
    ensures Bit(4, 2) && !Bit(4, 3) && !Bit(4, 1) && !Bit(4, 0)
    ensures Bit(12, 2) && Bit(12, 3) && !Bit(12, 1) && !Bit(12, 0)
  {
  }

  lemma BitAbove(flags: nat, top: nat, k: nat)
    requires top < 16
    ensures Bit(16 * flags + top, k + 4) <==> Bit(flags, k)
  {
    var w := 16 * flags + top;
    assert w / 2 / 2 / 2 / 2 == flags;
    assert Bit(w, k + 4) == Bit(w / 2, k + 3) == Bit(w / 2 / 2, k + 2) == Bit(w / 2 / 2 / 2, k + 1);
  }

  /** What encodeGdtEntry leaves in a descriptor, without the check on the limit. */
  ghost predicate Encodes(d: seq<byte>, e: Segment)
    requires |d| == 8
  {
    var scaled := if e.limit > 65536 then e.limit / 4096 else e.limit;
    && d[0] == Octet(scaled, 0) && d[1] == Octet(scaled, 1)
    && d[6] == (if e.limit > 65536 then 0xC0 else 0x40) + scaled / 0x1_0000 % 16
    && d[2] == Octet(e.base, 0) && d[3] == Octet(e.base, 1) && d[4] == Octet(e.base, 2) && d[7] == Octet(e.base, 3)
    && d[5] == e.kind
  }

  lemma EncodesWhen(d: seq<byte>, e: Segment, scaled: u32)
    requires |d| == 8 && scaled == if e.limit > 65536 then e.limit / 4096 else e.limit
    requires d[0] == scaled % 0x100 && d[1] == scaled / 0x100 % 0x100
    requires d[6] == (if e.limit > 65536 then 0xC0 else 0x40) + scaled / 0x1_0000 % 16
    requires d[2] == e.base % 0x100 && d[3] == e.base / 0x100 % 0x100 && d[4] == e.base / 0x1_0000 % 0x100
    requires d[7] == e.base / 0x100_0000 % 0x100 && d[5] == e.kind
    ensures Encodes(d, e)
  {
  }

  /** Descriptor round trip: the processor reads back base and type always, and the limit exactly
      when it is one that does not make the kernel panic. */
  lemma {:induction false} RoundTripExactly(d: seq<byte>, e: Segment)
    requires |d| == 8 && Encodes(d, e)
    ensures Plain32(d) && Base(d) == e.base && d[5] == e.kind
    ensures Decode(d) == e <==> Accepted(e.limit)
  {
    hide Octet, Value, Bit;
    var scaled := if e.limit > 65536 then e.limit / 4096 else e.limit;
    OctetsJoin(e.base);
    OctetsJoin(scaled);
    var top := scaled / 0x1_0000;
    FlagsAndTop(if e.limit > 65536 then 12 else 4, top);
    assert d[6] % 16 == top;
    assert EffectiveLimit(d) == if e.limit > 65536 then 4096 * scaled as int + 4095 else scaled;
  }

  /** The limits a descriptor can express at all. */
  predicate Expressible(limit: u32) {
    limit < 0x10_0000 || limit % 4096 == 4095
  }

  /** Of these, exactly the unaligned ones from 65537 bytes to 1 MiB are refused: a limit of more
      than 64 KiB is always put in blocks. */
  lemma {:induction false} RefusedExactly(limit: u32)
    ensures Accepted(limit) ==> Expressible(limit)
    ensures Expressible(limit) && !Accepted(limit) <==> 65536 < limit < 0x10_0000 && limit % 4096 != 4095
  {
  }

  lemma {:induction false} ExpressibleExactly(limit: u32)
    ensures Expressible(limit) <==> exists d: seq<byte> :: |d| == 8 && EffectiveLimit(d) == limit
  {
    hide Octet, Value, Bit;
    if Expressible(limit) {
      var large := limit >= 0x10_0000;
      var field := if large then limit / 4096 else limit;
      OctetsJoin(field);
      var top := field / 0x1_0000;
      FlagsAndTop(if large then 12 else 4, top);
      var d: seq<byte> := [Octet(field, 0), Octet(field, 1), 0, 0, 0, 0, (if large then 0xC0 else 0x40) + top, 0];
      assert d[6] % 16 == top;
      assert EffectiveLimit(d) == limit;
    }
    if d: seq<byte> :| |d| == 8 && EffectiveLimit(d) == limit {
      LimitShape(d);
    }
  }

  lemma LimitShape(d: seq<byte>)
    requires |d| == 8
    ensures Expressible(EffectiveLimit(d))
  {
    hide Bit;
    var field := Value(d[0], d[1], d[6] % 16, 0);
    assert field < 0x10_0000 && (4096 * field as int + 4095) % 4096 == 4095;
  }

  /** encodeGdtEntry on the eight bytes from target on; false when it panics, having written nothing. */
  method EncodeGdtEntry(gdt: array<byte>, target: nat, source: Segment) returns (ok: bool)
    requires target + 8 <= gdt.Length
    modifies gdt
    ensures ok <==> Accepted(source.limit)
    ensures ok ==> Encodes(gdt[target..target + 8], source)
    ensures gdt[..target] == old(gdt[..target]) && gdt[target + 8..] == old(gdt[target + 8..])
    ensures !ok ==> gdt[..] == old(gdt[..])
  {
    if source.limit > 65536 && source.limit % 4096 != 4095 { return false; }
    var limit := source.limit;
    gdt[target + 6] := 0x40;
    if limit > 65536 {
      limit := limit / 4096;
      gdt[target + 6] := 0xC0;
    }
    gdt[target] := limit % 0x100;
    gdt[target + 1] := limit / 0x100 % 0x100;
    hide Bit, Or, Encodes;
    FlagsAndTop(if source.limit > 65536 then 12 else 4, limit / 0x1_0000 % 16);
    gdt[target + 6] := Or(gdt[target + 6], limit / 0x1_0000 % 16);
    gdt[target + 2] := source.base % 0x100;
    gdt[target + 3] := source.base / 0x100 % 0x100;
    gdt[target + 4] := source.base / 0x1_0000 % 0x100;
    gdt[target + 7] := source.base / 0x100_0000 % 0x100;
    gdt[target + 5] := source.kind;
    ok := true;
    EncodesWhen(gdt[target..target + 8], source, limit);
  }

  /** The i-th descriptor of a table. */
  function Entry(table: seq<byte>, i: nat): (d: seq<byte>)
    requires 8 * i + 8 <= |table|
    ensures |d| == 8
  {
    table[8 * i..8 * i + 8]
  }

  /** gdt_structured_to_gdt: the processor reads the whole table as it was written down. It stops
      in a panic exactly when some limit is not accepted. */
  method GdtStructuredToGdt(gdt: array<byte>, structured: seq<Segment>) returns (ok: bool)
    requires 8 * |structured| <= gdt.Length
    modifies gdt
    ensures ok <==> forall i :: 0 <= i < |structured| ==> Accepted(structured[i].limit)
    ensures ok ==> forall i :: 0 <= i < |structured| ==>
              Decode(Entry(gdt[..], i)) == structured[i] && Plain32(Entry(gdt[..], i))
    ensures gdt[8 * |structured|..] == old(gdt[8 * |structured|..])
  {
    var i := 0;
    while i < |structured|
      invariant i <= |structured|
      invariant forall j :: 0 <= j < i ==>
        Accepted(structured[j].limit) && Encodes(Entry(gdt[..], j), structured[j])
      invariant gdt[8 * |structured|..] == old(gdt[8 * |structured|..])
    {
      ghost var before := gdt[..];
      var encoded := EncodeGdtEntry(gdt, 8 * i, structured[i]);
      if !encoded { return false; }
      forall j | 0 <= j < i ensures Entry(gdt[..], j) == Entry(before, j) {
        assert gdt[..8 * i][8 * j..8 * j + 8] == before[..8 * i][8 * j..8 * j + 8];
      }
      assert Entry(gdt[..], i) == gdt[8 * i..8 * i + 8];
      i := i + 1;
    }
    forall j | 0 <= j < i ensures Decode(Entry(gdt[..], j)) == structured[j] && Plain32(Entry(gdt[..], j)) {
      RoundTripExactly(Entry(gdt[..], j), structured[j]);
    }
    ok := true;
  }
}
