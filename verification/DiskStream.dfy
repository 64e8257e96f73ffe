/** src/disk/streamer.c over the one disk of src/disk/disk.c: a byte stream on 512-byte sectors. */
module DiskStreams {
  import opened Bits
  import opened Memory

  /** The contents of a disk: every byte, by position. */
  type DiskImage = nat -> byte

  /** The k-th byte from a 32-bit stream position on. */
  function At(image: DiskImage, pos: u32, k: nat): byte {
    image(Wrap(pos + k))
  }

  /** The n bytes from a stream position on. */
  function Bytes(image: DiskImage, pos: u32, n: nat): (r: seq<byte>)
    ensures |r| == n && forall k :: 0 <= k < n ==> r[k] == At(image, pos, k)
  {
    if n == 0 then [] else Bytes(image, pos, n - 1) + [At(image, pos, n - 1)]
  }

  lemma BytesJoin(image: DiskImage, pos: u32, n: nat, more: nat)
    ensures Bytes(image, pos, n) + Bytes(image, Wrap(pos + n), more) == Bytes(image, pos, n + more)
  {
    var q, all := Wrap(pos + n), Bytes(image, pos, n + more);
    forall k | 0 <= k < more ensures At(image, q, k) == all[n + k] {
      WrapStep(pos + n, k);
    }
    assert all == all[..n] + all[n..];
    assert all[..n] == Bytes(image, pos, n);
    assert all[n..] == Bytes(image, q, more);
  }

  /** A read that does not run off the end of the one-sector buffer. */
  predicate Readable(pos: nat, total: nat) {
    pos % 512 == 0 || pos % 512 + total <= 512
  }

  /** What lies behind the one-sector buffer on the stack of the read at a position: unknown bytes. */
  type Beyond = (u32, nat) -> byte

  /** The first n of at most 512 bytes a read takes from the sector's buffer and what is behind it. */
  function FromBuffer(image: DiskImage, beyond: Beyond, pos: u32, n: nat): (r: seq<byte>)
    ensures |r| == n
    ensures forall k :: 0 <= k < n ==>
              r[k] == if pos % 512 + k < 512 then At(image, pos, k) else beyond(pos, pos % 512 + k - 512)
  {
    seq(n, k requires 0 <= k < n =>
      if pos % 512 + k < 512 then At(image, pos, k) else beyond(pos, pos % 512 + k - 512))
  }

  /** What a read of n bytes delivers, wherever it begins: 512 bytes at a time. */
  function Delivered(image: DiskImage, beyond: Beyond, pos: u32, n: nat): (r: seq<byte>)
    ensures |r| == n
    decreases n
  {
    if n <= 512 then FromBuffer(image, beyond, pos, n)
    else FromBuffer(image, beyond, pos, 512) + Delivered(image, beyond, Wrap(pos + 512), n - 512)
  }

  /** A sector-aligned read of more than one sector goes on at the next sector. */
  lemma NextSector(image: DiskImage, pos: u32, total: nat)
    requires pos % 512 == 0 && total > 512
    ensures Wrap(pos + 512) % 512 == 0 && Wrap(Wrap(pos + 512) + (total - 512)) == Wrap(pos + total)
    ensures 1 + (total - 512 + 511) / 512 == (total + 511) / 512
    ensures Bytes(image, pos, 512)[..512] + Bytes(image, Wrap(pos + 512), total - 512) == Bytes(image, pos, total)
  {
    hide Wrap;
    WrapInSector(pos + 512);
    AddSectors(pos, 1);
    WrapStep(pos + 512, total - 512);
    BytesJoin(image, pos, 512, total - 512);
  }

  lemma {:induction false} ReadableDelivers(image: DiskImage, beyond: Beyond, pos: u32, n: nat)
    requires Readable(pos, n)
    ensures Delivered(image, beyond, pos, n) == Bytes(image, pos, n)
    decreases n
  {
    hide Wrap, At, Bytes;
    if n <= 512 {
      assert FromBuffer(image, beyond, pos, n) == Bytes(image, pos, n);
    } else {
      NextSector(image, pos, n);
      ReadableDelivers(image, beyond, Wrap(pos + 512), n - 512);
      assert FromBuffer(image, beyond, pos, 512) == Bytes(image, pos, 512) == Bytes(image, pos, 512)[..512];
    }
  }

  /** A read delivers the disk's bytes, whatever is on the stack, exactly when it begins on a sector
      boundary or stays within its sector. */
  lemma {:induction false} ReadableExactly(image: DiskImage, pos: u32, n: nat)
    ensures (forall beyond: Beyond :: Delivered(image, beyond, pos, n) == Bytes(image, pos, n)) <==> Readable(pos, n)
  {
    if Readable(pos, n) {
      forall beyond: Beyond ensures Delivered(image, beyond, pos, n) == Bytes(image, pos, n) {
        ReadableDelivers(image, beyond, pos, n);
      }
    } else {
      hide Wrap, Bytes;
      var k := 512 - pos % 512;
      var other: byte := if At(image, pos, k) == 0 then 1 else 0;
      var beyond: Beyond := (p, i) => other;
      assert Delivered(image, beyond, pos, n)[k] == other;
      assert Delivered(image, beyond, pos, n) != Bytes(image, pos, n);
    }
  }

  class Disk {
    const image: DiskImage

    constructor (image: DiskImage)
      ensures this.image == image
    {
      this.image := image;
    }

    method ReadBlock(lba: u32, buffer: array<byte>) returns (res: int)
      requires buffer.Length == 512
      modifies buffer
      ensures res == 1
      ensures forall k :: 0 <= k < 512 ==> buffer[k] == image(512 * lba + k)
    {
      var i := 0;
      while i < 512
        invariant i <= 512 && forall k :: 0 <= k < i ==> buffer[k] == image(512 * lba + k)
      {
        buffer[i] := image(512 * lba + i);
        i := i + 1;
      }
      res := 1;
    }
  }

  class DiskStream {
    const disk: Disk
    const beyond: Beyond
    var pos: u32

    constructor (disk: Disk, beyond: Beyond)
      ensures this.disk == disk && pos == 0
    {
      this.disk, this.beyond, pos := disk, beyond, 0;
    }

    method Seek(p: u32) returns (res: int)
      modifies this
      ensures res == 0 && pos == p
    {
      pos := p;
      res := 0;
    }

    /** The buffer of a read, filled with the sector that holds pos. */
    method LoadSector() returns (buffer: array<byte>, res: int)
      ensures fresh(buffer) && buffer.Length == 512 && res == 1
      ensures forall i :: pos % 512 <= i < 512 ==> buffer[i] == At(disk.image, pos, i - pos % 512)
    {
      hide Wrap;
      var sector := if pos == 0 then 0 else pos / 512;
      buffer := new byte[512];
      res := disk.ReadBlock(sector, buffer);
      forall i | pos % 512 <= i < 512 ensures buffer[i] == At(disk.image, pos, i - pos % 512) {
        WrapSmall(pos - pos % 512 + i);
      }
    }

    /** The first part of a read: the sector that holds pos, and n bytes from its place in the buffer
        on into out, behind the buffer's end too. */
    method ReadSector(out: array<byte>, at: nat, n: nat) returns (res: int)
      requires at + n <= out.Length && n <= 512
      modifies out
      ensures res == 1 && out[..] == Splice(old(out[..]), at, FromBuffer(disk.image, beyond, pos, n))
    {
      hide Splice, Wrap, At, FromBuffer;
      ghost var m0 := out[..];
      var offset := pos % 512;
      var buffer;
      buffer, res := LoadSector();
      ghost var data := FromBuffer(disk.image, beyond, pos, n);
      SpliceNone(m0, at);
      var i := 0;
      while i < n
        modifies out
        invariant i <= n && out[..] == Splice(m0, at, data[..i])
      {
        out[at + i] := if offset + i < 512 then buffer[offset + i] else beyond(pos, offset + i - 512);
        SpliceOne(m0, at, data[..i], data[i]);
        assert data[..i] + [data[i]] == data[..i + 1];
        i := i + 1;
      }
      assert data[..n] == data;
    }

    /** The bytes of the disk from pos on, as long as the read is one the buffer allows; one is counted
        for every 512 bytes read. */
    method Read(out: array<byte>, at: nat, total: u32) returns (res: int)
      requires at + total <= out.Length
      modifies this, out
      ensures pos == Wrap(old(pos) + total)
      ensures res == if total == 0 then 1 else (total as int + 511) / 512
      ensures out[..] == Splice(old(out[..]), at, Delivered(disk.image, beyond, old(pos), total))
      ensures Readable(old(pos), total) ==> out[..] == Splice(old(out[..]), at, Bytes(disk.image, old(pos), total))
      decreases total
    {
      hide Wrap, Splice, At, Bytes, FromBuffer;
      ghost var p: u32, m0 := pos, out[..];
      var totalToRead := if total > 512 then 512 else total;
      res := ReadSector(out, at, totalToRead);
      pos := Wrap(pos + totalToRead);
      if total > 512 {
        ghost var q, first, rest := pos, FromBuffer(disk.image, beyond, p, 512), Delivered(disk.image, beyond, pos,
          total - 512);
        Onward(p, total);
        var more := Read(out, at + 512, total - 512);
        res := res + more;
        SpliceOver(m0, at, first, 512, rest);
        assert first[..512] == first;
      }
      if Readable(p, total) { ReadableDelivers(disk.image, beyond, p, total); }
    }
  }

  lemma Onward(pos: u32, total: nat)
    requires total > 512
    ensures Wrap(Wrap(pos + 512) + (total - 512)) == Wrap(pos + total)
    ensures 1 + (total - 512 + 511) / 512 == (total + 511) / 512
  {
    hide Wrap;
    WrapStep(pos + 512, total - 512);
  }
}
