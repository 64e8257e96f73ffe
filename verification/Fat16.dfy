/** src/fs/fat16/fat16.c: following a chain and reading from it. */
module FatReading {
  import opened Bits
  import opened Memory
  import opened DiskStreams
  import opened Division
  import opened FatChains

  /** What a read of part of a file delivers, wherever it begins: of what the first cluster's place on
      the disk gives, the first cluster's part; the rest from the next cluster on. */
  function Got(image: DiskImage, beyond: Beyond, g: Geometry, first: nat, offset: nat, total: nat): (r: seq<byte>)
    requires WellFormed(g) && Reaches(image, g, first, offset, total)
    ensures |r| == total
    decreases total
  {
    ReachStep(image, g, first, offset, total);
    var c, all := ClusterBytes(g), Delivered(image, beyond, StartPos(image, g, first, offset), total);
    if total <= c then all else all[..c] + Got(image, beyond, g, first, offset + c, total - c)
  }

  /** That is the chain's data when the sector buffer allows the read. */
  lemma {:induction false} ReadableGot(image: DiskImage, beyond: Beyond, g: Geometry, first: nat, offset: nat,
      total: nat)
    requires WellFormed(g) && Reaches(image, g, first, offset, total) && Readable(offset, total)
    ensures Got(image, beyond, g, first, offset, total) == ReadData(image, g, first, offset, total)
    decreases total
  {
    hide Quot, Rem, Walk, Wrap, Bytes, Delivered, ClusterPos, Reaches;
    ReachStep(image, g, first, offset, total);
    var c, p := ClusterBytes(g), StartPos(image, g, first, offset);
    StartAligned(g, Walk(image, g, first, Quot(offset, c)), offset);
    ReadableDelivers(image, beyond, p, total);
    if total > c {
      StillReadable(g, offset, total);
      ReadableGot(image, beyond, g, first, offset + c, total - c);
      assert Bytes(image, p, total)[..c] == Bytes(image, p, c);
    }
  }

  /** The tail a call over-reads is what the deeper call overwrites. */
  lemma {:induction false} RepairsTail(image: DiskImage, beyond: Beyond, g: Geometry, first: nat, offset: nat,
      total: nat, m: Ram, at: nat)
    requires WellFormed(g) && total > ClusterBytes(g) && at + total <= |m|
    requires Walk(image, g, first, Quot(offset, ClusterBytes(g))) >= 0
    requires Reaches(image, g, first, offset, total)
    ensures var c := ClusterBytes(g);
            && Reaches(image, g, first, offset + c, total - c)
            && Splice(Splice(m, at, Delivered(image, beyond, StartPos(image, g, first, offset), total)),
                      at + c, Got(image, beyond, g, first, offset + c, total - c))
               == Splice(m, at, Got(image, beyond, g, first, offset, total))
  {
    hide Quot, Rem, Walk, Wrap, Splice, StartPos, Delivered, Reaches;
    var c := ClusterBytes(g);
    ReachStep(image, g, first, offset, total);
    SpliceOver(m, at, Delivered(image, beyond, StartPos(image, g, first, offset), total), c,
               Got(image, beyond, g, first, offset + c, total - c));
  }

  /** What reading several items one after the other delivers. */
  function GotItems(image: DiskImage, beyond: Beyond, g: Geometry, first: nat, pos: nat, size: nat, n: nat):
      (r: seq<byte>)
    requires WellFormed(g) && ItemsReach(image, g, first, pos, size, n)
    ensures |r| == Times(n, size)
  {
    if n == 0 then [] else
      GotItems(image, beyond, g, first, pos, size, n - 1) +
      Got(image, beyond, g, first, ItemOffset(pos, size, n - 1), size)
  }

  lemma {:induction false} ReadableItems(image: DiskImage, beyond: Beyond, g: Geometry, first: nat, pos: nat,
      size: nat, n: nat)
    requires WellFormed(g) && ItemsReach(image, g, first, pos, size, n) && ItemsReadable(pos, size, n)
    ensures GotItems(image, beyond, g, first, pos, size, n) == ReadItems(image, g, first, pos, size, n)
  {
    hide Reaches, ReadData, Got, Readable;
    if n > 0 {
      ReadableItems(image, beyond, g, first, pos, size, n - 1);
      ReadableGot(image, beyond, g, first, ItemOffset(pos, size, n - 1), size);
    }
  }

  lemma SpliceKeeps(m: Ram, at: nat, data: seq<byte>)
    requires at + |data| <= |m|
    ensures Splice(m, at, data)[..at] == m[..at]
    ensures Splice(m, at, data)[at + |data|..] == m[at + |data|..]
  {
  }

  /** A read that fails half-way has changed nothing before or behind what it was to fill. */
  lemma EndsKept(m: Ram, done: seq<byte>, m': Ram, at: nat, to: nat, end: nat)
    requires at + |done| <= to <= end <= |m| == |m'|
    requires var s := Splice(m, at, done);
             m'[..at + |done|] == s[..at + |done|] && m'[to..] == s[to..]
    ensures m'[..at] == m[..at] && m'[end..] == m[end..]
  {
    var s := Splice(m, at, done);
    assert m'[..at] == m'[..at + |done|][..at] == s[..at + |done|][..at];
    assert m'[end..] == m'[to..][end - to..] == s[to..][end - to..];
    SpliceKeeps(m, at, done);
    assert s[to..][end - to..] == s[at + |done|..][end - at - |done|..];
  }

  lemma TimesNext(i: nat, n: nat, size: nat)
    requires i < n
    ensures Times(0, size) == 0 && Times(i + 1, size) == Times(i, size) + size <= Times(n, size)
  {
    TimesMonotone(i + 1, n, size);
  }

  /** One more item behind those that are there. */
  lemma NextSplice(image: DiskImage, beyond: Beyond, g: Geometry, first: nat, pos: nat, size: nat, i: nat, m: Ram,
      at: nat)
    requires WellFormed(g) && ItemsReach(image, g, first, pos, size, i + 1) && at + Times(i, size) + size <= |m|
    ensures Reaches(image, g, first, ItemOffset(pos, size, i), size) && ItemsReach(image, g, first, pos, size, i)
    ensures Splice(Splice(m, at, GotItems(image, beyond, g, first, pos, size, i)), at + Times(i, size),
                   Got(image, beyond, g, first, ItemOffset(pos, size, i), size)) ==
            Splice(m, at, GotItems(image, beyond, g, first, pos, size, i + 1))
  {
    hide Reaches, Got, Splice;
    var done := GotItems(image, beyond, g, first, pos, size, i);
    SpliceOver(m, at, done, |done|, Got(image, beyond, g, first, ItemOffset(pos, size, i), size));
    assert done[..|done|] == done;
  }

  class Fat16 {
    const disk: Disk
    const geometry: Geometry
    const clusterReadStream: DiskStream
    const fatReadStream: DiskStream

    predicate Valid() {
      && WellFormed(geometry)
      && clusterReadStream != fatReadStream
      && clusterReadStream.disk == disk && fatReadStream.disk == disk
    }

    constructor (disk: Disk, geometry: Geometry, beyond: Beyond)
      requires WellFormed(geometry)
      ensures Valid() && this.disk == disk && this.geometry == geometry
      ensures fresh(clusterReadStream) && fresh(fatReadStream)
    {
      this.disk, this.geometry := disk, geometry;
      clusterReadStream := new DiskStream(disk, beyond);
      fatReadStream := new DiskStream(disk, beyond);
    }

    method GetFatEntry(cluster: nat) returns (entry: nat)
      requires Valid()
      modifies fatReadStream
      ensures entry == FatEntry(disk.image, geometry, cluster)
    {
      hide Wrap;
      EntryInOneSector(geometry, cluster);
      var res := fatReadStream.Seek(EntryPos(geometry, cluster));
      var result := new byte[2];
      res := fatReadStream.Read(result, 0, 2);
      assert result[..][0] == At(disk.image, EntryPos(geometry, cluster), 0);
      assert result[..][1] == At(disk.image, EntryPos(geometry, cluster), 1);
      entry := result[0] as nat + 0x100 * (result[1] as nat);
    }

    method GetClusterForOffset(startingCluster: nat, offset: nat) returns (res: int)
      requires Valid()
      modifies fatReadStream
      ensures res == Walk(disk.image, geometry, startingCluster, Quot(offset, ClusterBytes(geometry)))
    {
      hide Quot, FatEntry;
      var clustersAhead := Quot(offset, ClusterBytes(geometry));
      var clusterToUse: nat := startingCluster;
      var i := 0;
      while i < clustersAhead
        invariant i <= clustersAhead && clusterToUse == Walk(disk.image, geometry, startingCluster, i)
      {
        var entry := GetFatEntry(clusterToUse);
        if Stop(entry) { StopIsFinal(disk.image, geometry, startingCluster, i, clustersAhead); }
        if entry == 0xFF8 || entry == 0xFFF { return -1; }
        if entry == 0xFF7 { return -1; }
        if entry == 0xFF0 || entry == 0xFF6 { return -1; }
        if entry == 0 { return -1; }
        clusterToUse := entry;
        i := i + 1;
      }
      return clusterToUse;
    }

    /** The first half of a call: all that is left is read, from one cluster's place on the disk. */
    method ReadFromCluster(stream: DiskStream, cluster: nat, offset: nat, total: nat, out: array<byte>, at: nat)
      returns (res: int)
      requires Valid() && stream.disk == disk && stream != fatReadStream
      requires offset + total < 0x8000_0000 && at + total <= out.Length
      modifies stream, fatReadStream, out
      ensures res == if Walk(disk.image, geometry, cluster, Quot(offset, ClusterBytes(geometry))) >= 0 then 0 else -1
      ensures res == 0 ==>
                var pos := StartPos(disk.image, geometry, cluster, offset);
                out[..] == Splice(old(out[..]), at, Delivered(disk.image, stream.beyond, pos, total))
      ensures out[..at] == old(out[..at]) && out[at + total..] == old(out[at + total..])
    {
      hide Quot, Rem, Walk, Wrap, Splice, ClusterPos, Bytes, Delivered;
      ghost var m0 := out[..];
      var sizeOfClusterBytes := ClusterBytes(geometry);
      var clusterToUse := GetClusterForOffset(cluster, offset);
      if clusterToUse < 0 { return -1; }
      var offsetFromCluster := Rem(offset, sizeOfClusterBytes);
      var startingPos := Wrap(ClusterPos(geometry, clusterToUse) + offsetFromCluster);
      StartAligned(geometry, clusterToUse, offset);
      var r := stream.Seek(startingPos);
      r := stream.Read(out, at, total);
      SpliceKeeps(m0, at, Delivered(disk.image, stream.beyond, startingPos, total));
      res := 0;
    }

    /** Each call reads all that is left; the deeper call then overwrites what lies beyond the
        cluster. */
    method ReadInternalFromStream(stream: DiskStream, cluster: nat, offset: nat, total: nat, out: array<byte>, at: nat)
      returns (res: int)
      requires Valid() && stream.disk == disk && stream != fatReadStream
      requires offset + total < 0x8000_0000 && at + total <= out.Length
      modifies stream, fatReadStream, out
      ensures res == if Reaches(disk.image, geometry, cluster, offset, total) then 0 else -1
      ensures res == 0 ==>
                out[..] == Splice(old(out[..]), at, Got(disk.image, stream.beyond, geometry, cluster, offset, total))
      ensures res == 0 && Readable(offset, total) ==>
                out[..] == Splice(old(out[..]), at, ReadData(disk.image, geometry, cluster, offset, total))
      ensures out[..at] == old(out[..at]) && out[at + total..] == old(out[at + total..])
      decreases total
    {
      hide Quot, Rem, Walk, Splice, ReadData, Delivered, Reaches, StartPos, Readable;
      ghost var m0, beyond := out[..], stream.beyond;
      var sizeOfClusterBytes := ClusterBytes(geometry);
      ReachStep(disk.image, geometry, cluster, offset, total);
      res := ReadFromCluster(stream, cluster, offset, total, out, at);
      if res < 0 { return -1; }
      var totalToRead := if total > sizeOfClusterBytes then sizeOfClusterBytes else total;
      if total - totalToRead > 0 {
        if Reaches(disk.image, geometry, cluster, offset, total) {
          RepairsTail(disk.image, beyond, geometry, cluster, offset, total, m0, at);
        }
        if Reaches(disk.image, geometry, cluster, offset, total) && Readable(offset, total) {
          ReadableGot(disk.image, beyond, geometry, cluster, offset, total);
        }
        ghost var mid := out[..];
        res := ReadInternalFromStream(
            stream, cluster, offset + totalToRead, total - totalToRead, out, at + totalToRead);
        HeadKept(m0, mid, out[..], at, at + totalToRead);
        return;
      }
      if Readable(offset, total) { ReadableGot(disk.image, beyond, geometry, cluster, offset, total); }
      res := 0;
    }

    /** One item more, behind those already read. */
    method ReadNext(firstCluster: nat, offset: nat, size: nat, out: array<byte>, p: nat, ghost pos: nat, ghost i: nat,
                    ghost at: nat, ghost m: Ram) returns (r: int)
      requires Valid() && offset == ItemOffset(pos, size, i) && offset + size < 0x8000_0000
      requires p == at + Times(i, size) && p + size <= out.Length == |m|
      requires ItemsReach(disk.image, geometry, firstCluster, pos, size, i)
      requires out[..] ==
               Splice(m, at, GotItems(disk.image, clusterReadStream.beyond, geometry, firstCluster, pos, size, i))
      modifies clusterReadStream, fatReadStream, out
      ensures r == if Reaches(disk.image, geometry, firstCluster, offset, size) then 0 else -1
      ensures out[..at] == m[..at] && out[p + size..] == m[p + size..]
      ensures r == 0 ==>
                && ItemsReach(disk.image, geometry, firstCluster, pos, size, i + 1)
                && at + Times(i + 1, size) <= |m|
                && out[..] == Splice(m, at,
                     GotItems(disk.image, clusterReadStream.beyond, geometry, firstCluster, pos, size, i + 1))
    {
      hide Reaches, Splice, ReadData, GotItems, Got, ItemsReach, Readable;
      ghost var beyond := clusterReadStream.beyond;
      ghost var data := GotItems(disk.image, beyond, geometry, firstCluster, pos, size, i);
      NextItem(disk.image, geometry, firstCluster, pos, size, i, i + 1);
      r := ReadInternalFromStream(clusterReadStream, firstCluster, offset, size, out, p);
      EndsKept(m, data, out[..], at, p + size, p + size);
      if r == 0 {
        NextSplice(disk.image, beyond, geometry, firstCluster, pos, size, i, m, at);
      }
    }

    /** fat16_read: nmemb items of size bytes, from the position of a descriptor on. */
    method Read(firstCluster: nat, pos: nat, size: nat, nmemb: nat, out: array<byte>, at: nat) returns (res: int)
      requires Valid()
      requires ItemOffset(pos, size, nmemb) < 0x8000_0000 && at + Times(nmemb, size) <= out.Length
      modifies clusterReadStream, fatReadStream, out
      ensures res == if ItemsReach(disk.image, geometry, firstCluster, pos, size, nmemb) then nmemb else -1
      ensures res >= 0 ==>
                out[..] == Splice(old(out[..]), at,
                  GotItems(disk.image, clusterReadStream.beyond, geometry, firstCluster, pos, size, nmemb))
      ensures res >= 0 && ItemsReadable(pos, size, nmemb) ==>
                out[..] == Splice(old(out[..]), at, ReadItems(disk.image, geometry, firstCluster, pos, size, nmemb))
      ensures out[..at] == old(out[..at]) && out[at + Times(nmemb, size)..] == old(out[at + Times(nmemb, size)..])
    {
      hide Reaches, Splice, ReadItems, ItemsReach, Times, ItemsReadable, GotItems;
      ghost var m, beyond := out[..], clusterReadStream.beyond;
      var offset, p := pos, at;
      var i := 0;
      NothingGot(disk.image, beyond, geometry, firstCluster, pos, size, m, at);
      while i < nmemb
        invariant i <= nmemb && offset == ItemOffset(pos, size, i) && p == at + Times(i, size) <= out.Length
        invariant ItemsReach(disk.image, geometry, firstCluster, pos, size, i)
        invariant out[..] == Splice(m, at, GotItems(disk.image, beyond, geometry, firstCluster, pos, size, i))
      {
        NextItem(disk.image, geometry, firstCluster, pos, size, i, nmemb);
        TimesNext(i, nmemb, size);
        var r := ReadNext(firstCluster, offset, size, out, p, pos, i, at, m);
        if r < 0 {
          TailKept(m, out[..], p + size, at + Times(nmemb, size));
          return -1;
        }
        offset, p := offset + size, p + size;
        i := i + 1;
      }
      SpliceKeeps(m, at, GotItems(disk.image, beyond, geometry, firstCluster, pos, size, nmemb));
      if ItemsReadable(pos, size, nmemb) {
        ReadableItems(disk.image, beyond, geometry, firstCluster, pos, size, nmemb);
      }
      res := nmemb;
    }
  }

  lemma NothingGot(image: DiskImage, beyond: Beyond, g: Geometry, first: nat, pos: nat, size: nat, m: Ram, at: nat)
    requires WellFormed(g) && at <= |m|
    ensures ItemsReach(image, g, first, pos, size, 0) && Times(0, size) == 0
    ensures Splice(m, at, GotItems(image, beyond, g, first, pos, size, 0)) == m
  {
    SpliceNone(m, at);
  }

  /** With whole clusters taken off the front, what the sector buffer allows it still allows. */
  lemma StillReadable(g: Geometry, offset: nat, total: nat)
    requires WellFormed(g) && total > ClusterBytes(g)
    ensures Readable(offset, total) ==> Readable(offset + ClusterBytes(g), total - ClusterBytes(g))
    ensures ClusterBytes(g) >= 512
  {
    hide Rem;
    ClusterAligned(g, 2, offset);
  }

  lemma HeadKept(m: Ram, m': Ram, m'': Ram, a: nat, b: nat)
    requires a <= b <= |m| == |m'| == |m''| && m'[..a] == m[..a] && m''[..b] == m'[..b]
    ensures m''[..a] == m[..a]
  {
    assert m''[..a] == m''[..b][..a] == m'[..b][..a];
  }

  lemma TailKept(m: Ram, m': Ram, a: nat, b: nat)
    requires a <= b <= |m| == |m'| && m'[a..] == m[a..]
    ensures m'[b..] == m[b..]
  {
    assert m'[b..] == m'[a..][b - a..] == m[a..][b - a..];
  }

  /** No item's read runs off the end of the one-sector buffer. */
  predicate ItemsReadable(pos: nat, size: nat, n: nat) {
    forall i :: 0 <= i < n ==> Readable(ItemOffset(pos, size, i), size)
  }
}
