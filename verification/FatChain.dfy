/** Division of naturals by a positive divisor that is not a constant. */
module Division {
  function Quot(x: nat, c: nat): (q: nat)
    requires c > 0
  {
    QuotIsNat(x, c);
    x / c
  }

  function Rem(x: nat, c: nat): (r: nat)
    requires c > 0
    ensures r < c
  {
    x % c
  }

  lemma QuotIsNat(x: nat, c: nat)
    requires c > 0
    ensures x / c >= 0
  {
    var q := x / c;
    assert x == q * c + x % c;
    if q < 0 { Scale(q, 0, c); }
  }

  lemma Scale(a: int, b: int, c: nat)
    requires a < b
    ensures (a + 1) * c <= b * c
  {
  }

  lemma Distribute(q: nat, l: nat, c: nat)
    ensures (q + l + 1) * c == q * c + l * c + c
  {
  }

  lemma DivMod(x: nat, c: nat)
    requires c > 0
    ensures x == Quot(x, c) * c + Rem(x, c)
  {
  }

  lemma Unique(x: nat, c: nat, q: nat, r: nat)
    requires c > 0 && r < c && x == q * c + r
    ensures Quot(x, c) == q && Rem(x, c) == r
  {
    hide Quot, Rem;
    DivMod(x, c);
    if Quot(x, c) < q { Scale(Quot(x, c), q, c); }
    if q < Quot(x, c) { Scale(q, Quot(x, c), c); }
  }

  lemma Step(x: nat, c: nat)
    requires c > 0
    ensures Quot(x + c, c) == Quot(x, c) + 1 && Rem(x + c, c) == Rem(x, c)
  {
    hide Quot, Rem;
    DivMod(x, c);
    Unique(x + c, c, Quot(x, c) + 1, Rem(x, c));
  }

  lemma Small(x: nat, c: nat)
    requires x < c
    ensures Quot(x, c) == 0 && Rem(x, c) == x
  {
    Unique(x, c, 0, x);
  }
}

/** The layout of a FAT16 volume and the chain of clusters a file lies in. */
module FatChains {
  import opened Bits
  import opened DiskStreams
  import opened Division

  /** The header fields the reader uses, and the sector after the root directory. */
  datatype Geometry = Geometry(
    sectorsPerCluster: nat,
    bytesPerSector: nat,
    reservedSectors: nat,
    hiddenSectors: nat,
    fatCopies: nat,
    sectorsPerFat: nat,
    rootEntries: nat)

  /** What the format asks of the header: clusters of 1 to 255 sectors, sectors of an even size. */
  predicate WellFormed(g: Geometry) {
    1 <= g.sectorsPerCluster <= 255 && 0 < g.bytesPerSector && g.bytesPerSector % 2 == 0
  }

  function ClusterBytes(g: Geometry): nat {
    g.sectorsPerCluster * 512
  }

  function RootSectors(g: Geometry): nat
    requires g.bytesPerSector > 0
  {
    var size := g.rootEntries * 32;
    if size % g.bytesPerSector == 0 then size / g.bytesPerSector else size / g.bytesPerSector + 1
  }

  function RootStart(g: Geometry): nat {
    g.hiddenSectors + g.reservedSectors + g.fatCopies * g.sectorsPerFat
  }

  /** The first sector of the data area, which begins with cluster 2. */
  function DataStart(g: Geometry): nat
    requires g.bytesPerSector > 0
  {
    RootStart(g) + RootSectors(g)
  }

  function ClusterToSector(g: Geometry, cluster: nat): int
    requires g.bytesPerSector > 0
  {
    DataStart(g) + (cluster - 2) * g.sectorsPerCluster
  }

  /** The disk position of a cluster. */
  function ClusterPos(g: Geometry, cluster: nat): (pos: u32)
    requires g.bytesPerSector > 0
  {
    Wrap(ClusterToSector(g, cluster) * 512)
  }

  /** The disk position of a cluster's entry in the first FAT. */
  function EntryPos(g: Geometry, cluster: nat): (pos: u32) {
    Wrap((g.reservedSectors + g.hiddenSectors) * g.bytesPerSector + 2 * cluster)
  }

  /** The 16-bit FAT entry of a cluster. */
  function FatEntry(image: DiskImage, g: Geometry, cluster: nat): (entry: nat)
    ensures entry < 0x1_0000
  {
    At(image, EntryPos(g, cluster), 0) as nat + 0x100 * (At(image, EntryPos(g, cluster), 1) as nat)
  }

  /** The entries the walk stops at: end of chain, bad, reserved and free marks. */
  predicate Stop(entry: nat) {
    entry == 0xFF8 || entry == 0xFFF || entry == 0xFF7 || entry == 0xFF0 || entry == 0xFF6 || entry == 0
  }

  /** The cluster n links after first; -1 once a link is a stop mark. */
  function Walk(image: DiskImage, g: Geometry, first: nat, n: nat): (c: int)
    ensures c >= -1
  {
    if n == 0 then first
    else
      var c := Walk(image, g, first, n - 1);
      if c < 0 || Stop(FatEntry(image, g, c)) then -1 else FatEntry(image, g, c)
  }

  /** A stop mark met is final; and -1 is exactly meeting one among the links walked. */
  lemma {:induction false} WalkStopsAtMark(image: DiskImage, g: Geometry, first: nat, n: nat)
    ensures Walk(image, g, first, n) == -1 <==>
            exists i :: 0 <= i < n && Walk(image, g, first, i) >= 0 &&
              Stop(FatEntry(image, g, Walk(image, g, first, i)))
    ensures forall i :: 0 <= i < n && Walk(image, g, first, n) >= 0 ==> Walk(image, g, first, i) >= 0
  {
    if n > 0 {
      WalkStopsAtMark(image, g, first, n - 1);
    }
  }

  lemma {:induction false} StopIsFinal(image: DiskImage, g: Geometry, first: nat, i: nat, n: nat)
    requires i < n && Walk(image, g, first, i) >= 0 && Stop(FatEntry(image, g, Walk(image, g, first, i)))
    ensures Walk(image, g, first, n) == -1
  {
    hide FatEntry;
    if i + 1 < n { StopIsFinal(image, g, first, i, n - 1); }
  }

  /** The entries that end a FAT16 chain by section "FAT Data Structure" of the Microsoft FAT
      specification 1.03: free, bad (0xFFF7) and the end-of-chain marks. */
  predicate FormatStop(entry: nat) {
    entry == 0 || entry >= 0xFFF7
  }

  /** The walk by the format's own marks. */
  function FormatWalk(image: DiskImage, g: Geometry, first: nat, n: nat): (c: int)
    ensures c >= -1
  {
    if n == 0 then first
    else
      var c := FormatWalk(image, g, first, n - 1);
      if c < 0 || FormatStop(FatEntry(image, g, c)) then -1 else FatEntry(image, g, c)
  }

  /** The five 12-bit marks are ordinary links of a FAT16 chain, and its own end marks are not
      recognised. */
  predicate Confused(entry: nat) {
    entry in {0xFF0, 0xFF6, 0xFF7, 0xFF8, 0xFFF} || entry >= 0xFFF7
  }

  lemma OneLink(entry: nat)
    ensures Confused(entry) <==> (Stop(entry) <==> !FormatStop(entry))
  {
  }

  predicate Agree(image: DiskImage, g: Geometry, first: nat, i: nat) {
    Walk(image, g, first, i) == FormatWalk(image, g, first, i)
  }

  /** The walk is over before its i-th entry, or the entry means the same to both. */
  predicate Plain(image: DiskImage, g: Geometry, first: nat, i: nat) {
    Walk(image, g, first, i) < 0 || !Confused(FatEntry(image, g, Walk(image, g, first, i)))
  }

  /** The code's walk is the format's exactly when no entry it meets is a confused one. */
  lemma {:induction false} WalkFollowsFormatExactly(image: DiskImage, g: Geometry, first: nat, n: nat)
    ensures (forall i :: 0 <= i <= n ==> Agree(image, g, first, i)) <==>
            (forall i :: 0 <= i < n ==> Plain(image, g, first, i))
  {
    hide FatEntry;
    if n == 0 {
      assert Agree(image, g, first, 0);
    } else {
      WalkFollowsFormatExactly(image, g, first, n - 1);
      NextAgreesExactly(image, g, first, n - 1);
    }
  }

  lemma NextAgreesExactly(image: DiskImage, g: Geometry, first: nat, i: nat)
    ensures Agree(image, g, first, i) ==> (Agree(image, g, first, i + 1) <==> Plain(image, g, first, i))
  {
    hide FatEntry;
    var c := Walk(image, g, first, i);
    if c >= 0 {
      OneLink(FatEntry(image, g, c));
      assert FormatWalk(image, g, first, i + 1) == var d := FormatWalk(image, g, first, i);
        if d < 0 || FormatStop(FatEntry(image, g, d)) then -1 else FatEntry(image, g, d);
    }
  }

  /** The bytes of one cluster. */
  function ClusterData(image: DiskImage, g: Geometry, cluster: nat): (r: seq<byte>)
    requires g.bytesPerSector > 0
    ensures |r| == ClusterBytes(g)
  {
    Bytes(image, ClusterPos(g, cluster), ClusterBytes(g))
  }

  /** The file: the first n clusters of the chain, one after the other. */
  function FileData(image: DiskImage, g: Geometry, first: nat, n: nat): (r: seq<byte>)
    requires g.bytesPerSector > 0
    requires n > 0 ==> Walk(image, g, first, n - 1) >= 0
    ensures |r| == n * ClusterBytes(g)
  {
    if n == 0 then []
    else
      assert Walk(image, g, first, n - 1) >= 0 && n > 1 ==> Walk(image, g, first, n - 2) >= 0;
      FileData(image, g, first, n - 1) + ClusterData(image, g, Walk(image, g, first, n - 1))
  }

  lemma ClusterAligned(g: Geometry, cluster: nat, x: nat)
    requires WellFormed(g)
    ensures ClusterPos(g, cluster) % 512 == 0 && ClusterBytes(g) >= 512
    ensures (x + ClusterBytes(g)) % 512 == x % 512 && Rem(x, ClusterBytes(g)) % 512 == x % 512
  {
    hide Quot, Rem, Wrap;
    WrapInSector(ClusterToSector(g, cluster) * 512);
    AddSectors(0, ClusterToSector(g, cluster));
    var c, q := ClusterBytes(g), Quot(x, ClusterBytes(g));
    AddSectors(x, g.sectorsPerCluster);
    DivMod(x, c);
    var t := q * g.sectorsPerCluster;
    assert q * c == 512 * t;
    AddSectors(Rem(x, c), t);
  }

  lemma StartAligned(g: Geometry, cluster: nat, x: nat)
    requires WellFormed(g)
    ensures Wrap(ClusterPos(g, cluster) + Rem(x, ClusterBytes(g))) % 512 == x % 512
  {
    hide ClusterPos, Rem, Wrap;
    var p, r := ClusterPos(g, cluster), Rem(x, ClusterBytes(g));
    ClusterAligned(g, cluster, x);
    WrapInSector(p + r);
    AddSectors(r, p / 512);
  }

  /** A FAT entry never lies across a sector boundary. */
  lemma {:induction false} EntryInOneSector(g: Geometry, cluster: nat)
    requires WellFormed(g)
    ensures EntryPos(g, cluster) % 512 + 2 <= 512
  {
    hide Wrap;
    var s, h := g.reservedSectors + g.hiddenSectors, g.bytesPerSector / 2;
    var t := s * h + cluster;
    assert s * g.bytesPerSector + 2 * cluster == 2 * t;
    WrapInSector(2 * t);
    assert t == t / 256 * 256 + t % 256;
    AddSectors(2 * (t % 256), t / 256);
  }

  /** The position of a cluster that ends within the 4 GiB a position can address. */
  lemma ClusterPosIs(g: Geometry, cluster: nat)
    requires WellFormed(g) && cluster >= 2
    requires 512 * (DataStart(g) + (cluster - 1) * g.sectorsPerCluster) <= 0x1_0000_0000
    ensures ClusterPos(g, cluster) == 512 * (DataStart(g) + (cluster - 2) * g.sectorsPerCluster)
    ensures (cluster - 1) * g.sectorsPerCluster == (cluster - 2) * g.sectorsPerCluster + g.sectorsPerCluster
    ensures (cluster - 2) * g.sectorsPerCluster >= 0
  {
    hide Wrap, DataStart;
    var s := g.sectorsPerCluster;
    Distribute(cluster - 2, 0, s);
    if cluster > 2 { Scale(0, cluster - 2, s); }
    var k := (cluster - 2) * s;
    WrapSmall((DataStart(g) + k) * 512);
  }

  /** Different clusters lie apart on the disk, in the order of their numbers, behind the root
      directory. */
  lemma {:induction false} ClustersApart(g: Geometry, a: nat, b: nat)
    requires WellFormed(g) && 2 <= a < b
    requires 512 * (DataStart(g) + (b - 1) * g.sectorsPerCluster) <= 0x1_0000_0000
    ensures 512 * DataStart(g) <= ClusterPos(g, a)
    ensures ClusterPos(g, a) + ClusterBytes(g) <= ClusterPos(g, b)
    ensures ClusterPos(g, b) + ClusterBytes(g) <= 0x1_0000_0000
  {
    hide ClusterPos, DataStart;
    Scale(a - 1, b - 1, g.sectorsPerCluster);
    Scale(a - 2, b - 2, g.sectorsPerCluster);
    ClusterPosIs(g, b);
    ClusterPosIs(g, a);
  }

  /** The FATs lie one after the other from behind the hidden and the reserved sectors up to the root
      directory: the last one's last sector is the one before it. An entry of any copy that the FAT has
      room for ends before the root directory. */
  lemma {:induction false} FatsThenRoot(g: Geometry, k: nat, cluster: nat)
    requires WellFormed(g) && k < g.fatCopies && 2 * cluster + 2 <= g.bytesPerSector * g.sectorsPerFat
    requires g.bytesPerSector * RootStart(g) <= 0x1_0000_0000
    ensures EntryPos(g, cluster) == EntryPos(g, 0) + 2 * cluster
    ensures EntryPos(g, 0) == g.bytesPerSector * (g.hiddenSectors + g.reservedSectors)
    ensures EntryPos(g, 0) + g.bytesPerSector * (g.fatCopies * g.sectorsPerFat) == g.bytesPerSector * RootStart(g)
    ensures EntryPos(g, cluster) + g.bytesPerSector * (k * g.sectorsPerFat) + 2 <= g.bytesPerSector * RootStart(g)
  {
    hide EntryPos;
    var b, first := g.bytesPerSector, g.hiddenSectors + g.reservedSectors;
    FatRegion(b, first, g.fatCopies, g.sectorsPerFat, k, 2 * cluster);
    FirstFat(g, cluster);
    FirstFat(g, 0);
  }

  /** On 512-byte sectors no cluster overlaps an entry of any copy of the FAT, nor the root directory. */
  lemma {:induction false} FatBeforeData(g: Geometry, k: nat, entry: nat, cluster: nat)
    requires WellFormed(g) && g.bytesPerSector == 512 && k < g.fatCopies && 2 * entry + 2 <= 512 * g.sectorsPerFat
    requires cluster >= 2 && 512 * (DataStart(g) + (cluster - 1) * g.sectorsPerCluster) <= 0x1_0000_0000
    ensures EntryPos(g, entry) + 512 * (k * g.sectorsPerFat) + 2 <= 512 * RootStart(g)
    ensures 512 * RootStart(g) + 32 * g.rootEntries <= ClusterPos(g, cluster)
  {
    hide EntryPos, ClusterPos, DataStart, RootStart;
    RootFitsExactly(g);
    Scale(0, cluster - 1, g.sectorsPerCluster);
    FatsThenRoot(g, k, entry);
    if cluster > 2 { ClustersApart(g, 2, cluster); } else { ClusterPosIs(g, 2); }
  }

  lemma FirstFat(g: Geometry, cluster: nat)
    requires g.bytesPerSector * (g.hiddenSectors + g.reservedSectors) + 2 * cluster < 0x1_0000_0000
    ensures EntryPos(g, cluster) == g.bytesPerSector * (g.hiddenSectors + g.reservedSectors) + 2 * cluster
  {
    hide Wrap;
    Commutes(g.bytesPerSector, g.hiddenSectors + g.reservedSectors);
    WrapSmall((g.reservedSectors + g.hiddenSectors) * g.bytesPerSector + 2 * cluster);
  }

  lemma Commutes(a: int, b: int)
    ensures a * b == b * a
  {
  }

  lemma FatRegion(b: nat, first: nat, copies: nat, perFat: nat, k: nat, place: nat)
    requires k < copies && place + 2 <= b * perFat
    ensures b * (first + copies * perFat) == b * first + b * (copies * perFat)
    ensures b * first + b * (k * perFat) + place + 2 <= b * (first + copies * perFat)
    ensures b * first + place < b * (first + copies * perFat) && b * (k * perFat) >= 0
  {
    Scale(k, copies, perFat);
    Split(b, first, copies * perFat);
    Split(perFat, k, 1);
    Split(b, k * perFat, perFat);
    Product(b, 0, k * perFat) by { Product(perFat, 0, k); }
    Product(b, k * perFat + perFat, copies * perFat);
  }

  lemma Split(b: int, x: int, y: int)
    ensures b * (x + y) == b * x + b * y && (x + y) * b == x * b + y * b
  {
  }

  lemma Product(b: nat, x: int, y: int)
    requires x <= y
    ensures b * x <= b * y
  {
  }

  /** The root directory's entries, 32 bytes each, fit the sectors between the FATs and the data area, and
      with one sector fewer they would not. */
  lemma {:induction false} RootFitsExactly(g: Geometry)
    requires WellFormed(g)
    ensures DataStart(g) >= RootStart(g)
    ensures 32 * g.rootEntries <= g.bytesPerSector * (DataStart(g) - RootStart(g))
    ensures g.rootEntries > 0 ==>
              DataStart(g) > RootStart(g) && 32 * g.rootEntries > g.bytesPerSector * (DataStart(g) - RootStart(g) - 1)
  {
    hide RootSectors, RootStart;
    SectorsFor(g);
  }

  lemma SectorsFor(g: Geometry)
    requires WellFormed(g)
    ensures var b, s := g.bytesPerSector, RootSectors(g);
            32 * g.rootEntries <= b * s && (g.rootEntries > 0 ==> s > 0 && 32 * g.rootEntries > b * (s - 1))
  {
    var size, b := 32 * g.rootEntries, g.bytesPerSector;
    assert RootSectors(g) == Quot(size, b) + (if Rem(size, b) == 0 then 0 else 1);
    hide RootSectors, Quot, Rem;
    DivMod(size, b);
    RoundedUp(size, b, Quot(size, b), Rem(size, b));
  }

  lemma RoundedUp(size: nat, b: nat, q: nat, r: nat)
    requires size == q * b + r && r < b
    ensures var s := q + (if r == 0 then 0 else 1); size <= b * s && (size > 0 ==> s > 0 && size > b * (s - 1))
  {
    assert b * (q + 1) == q * b + b && b * (q - 1) == q * b - b && b * q == q * b;
  }

  /** Cluster 2 is the first of the data area, and each cluster follows the one before it without a gap:
      as many sectors of 512 bytes as the header says. */
  lemma {:induction false} ClustersFollow(g: Geometry, cluster: nat)
    requires WellFormed(g) && cluster >= 2
    requires 512 * (DataStart(g) + cluster * g.sectorsPerCluster) <= 0x1_0000_0000
    ensures ClusterPos(g, 2) == 512 * DataStart(g)
    ensures ClusterPos(g, cluster + 1) == ClusterPos(g, cluster) + 512 * g.sectorsPerCluster
    ensures ClusterBytes(g) == 512 * g.sectorsPerCluster
  {
    hide ClusterPos, DataStart;
    Scale(0, cluster, g.sectorsPerCluster);
    Scale(0, cluster - 1, g.sectorsPerCluster);
    Scale(cluster - 1, cluster, g.sectorsPerCluster);
    ClusterPosIs(g, cluster + 1);
    ClusterPosIs(g, cluster);
    if cluster > 2 { Scale(1, cluster, g.sectorsPerCluster); }
    ClusterPosIs(g, 2);
  }

  /** An entry is the two bytes at its place, the low one first. */
  lemma {:induction false} EntryBytes(image: DiskImage, g: Geometry, cluster: nat)
    ensures FatEntry(image, g, cluster) % 0x100 == image(EntryPos(g, cluster)) as nat
    ensures WellFormed(g) ==> FatEntry(image, g, cluster) / 0x100 == image(EntryPos(g, cluster) + 1) as nat
  {
    hide EntryPos;
    var p := EntryPos(g, cluster);
    WrapSmall(p);
    if WellFormed(g) {
      EntryInOneSector(g, cluster);
      NotLast(p);
      WrapSmall(p + 1);
    }
  }

  lemma NotLast(p: u32)
    requires p % 512 + 2 <= 512
    ensures p as nat + 1 < 0x1_0000_0000
  {
  }

  /** A link of the walk is what the entry's two bytes say, and is none of the code's stop marks. */
  lemma {:induction false} LinksAreEntries(image: DiskImage, g: Geometry, first: nat, n: nat)
    requires WellFormed(g) && Walk(image, g, first, n + 1) >= 0
    ensures Walk(image, g, first, 0) == first && Walk(image, g, first, n) >= 0
    ensures var p, next := EntryPos(g, Walk(image, g, first, n)), Walk(image, g, first, n + 1);
            && next == image(p) as int + 0x100 * image(p + 1) as int
            && next !in {0, 0xFF0, 0xFF6, 0xFF7, 0xFF8, 0xFFF}
  {
    hide EntryPos, FatEntry;
    EntryBytes(image, g, Walk(image, g, first, n));
  }

  /** The volume the repository's boot sector describes: 512-byte sectors, clusters of 128, 200 reserved, two
      FATs of 256 sectors, 64 entries in the root directory. Its data area begins at sector 716. */
  lemma BootVolume()
    ensures var g := Geometry(128, 512, 200, 0, 2, 256, 64);
            && WellFormed(g) && EntryPos(g, 0) == 512 * 200 && RootStart(g) == 712 && DataStart(g) == 716
            && ClusterPos(g, 2) == 512 * 716 && ClusterPos(g, 3) == 512 * 844
  {
  }

  /** The index, counted from the one read first, of the last cluster a read of total bytes uses. */
  function LastStep(g: Geometry, total: nat): nat
    requires WellFormed(g)
  {
    if total == 0 then 0 else Quot(total - 1, ClusterBytes(g))
  }

  /** The chain reaches as far as the read does. */
  predicate Reaches(image: DiskImage, g: Geometry, first: nat, offset: nat, total: nat)
    requires WellFormed(g)
  {
    Walk(image, g, first, Quot(offset, ClusterBytes(g)) + LastStep(g, total)) >= 0
  }

  /** Where a read at this offset of the file starts on the disk. */
  function StartPos(image: DiskImage, g: Geometry, first: nat, offset: nat): (pos: u32)
    requires WellFormed(g) && Walk(image, g, first, Quot(offset, ClusterBytes(g))) >= 0
  {
    Wrap(ClusterPos(g, Walk(image, g, first, Quot(offset, ClusterBytes(g)))) + Rem(offset, ClusterBytes(g)))
  }

  lemma ReachStep(image: DiskImage, g: Geometry, first: nat, offset: nat, total: nat)
    requires WellFormed(g)
    ensures Reaches(image, g, first, offset, total) ==> Walk(image, g, first, Quot(offset, ClusterBytes(g))) >= 0
    ensures total > ClusterBytes(g) ==>
              (Reaches(image, g, first, offset, total) <==>
               Reaches(image, g, first, offset + ClusterBytes(g), total - ClusterBytes(g)))
    ensures total <= ClusterBytes(g) ==>
              (Reaches(image, g, first, offset, total) <==> Walk(image, g, first, Quot(offset, ClusterBytes(g))) >= 0)
  {
    var c := ClusterBytes(g);
    hide Quot, Rem, Walk;
    WalkStopsAtMark(image, g, first, Quot(offset, c) + LastStep(g, total));
    if total > c {
      Step(offset, c);
      Step(total - 1 - c, c);
    } else if total > 0 {
      Small(total - 1, c);
    }
  }

  /** One whole cluster further into the file is one more FAT lookup. */
  lemma {:induction false} OneClusterOn(image: DiskImage, g: Geometry, first: nat, offset: nat)
    requires WellFormed(g)
    ensures var c := Walk(image, g, first, Quot(offset, ClusterBytes(g)));
            Walk(image, g, first, Quot(offset + ClusterBytes(g), ClusterBytes(g))) ==
            if c < 0 || Stop(FatEntry(image, g, c)) then -1 else FatEntry(image, g, c)
  {
    hide Quot, Rem, FatEntry;
    Step(offset, ClusterBytes(g));
  }

  /** What the reader delivers: a cluster's worth from each link on, always from the same place
      in the cluster, wherever the read began. */
  function ReadData(image: DiskImage, g: Geometry, first: nat, offset: nat, total: nat): (r: seq<byte>)
    requires WellFormed(g) && Reaches(image, g, first, offset, total)
    ensures |r| == total
    decreases total
  {
    ReachStep(image, g, first, offset, total);
    var c := ClusterBytes(g);
    if total <= c then Bytes(image, StartPos(image, g, first, offset), total)
    else Bytes(image, StartPos(image, g, first, offset), c) + ReadData(image, g, first, offset + c, total - c)
  }

  /** Where byte k of a read that starts at offset comes from. */
  function ReadPos(image: DiskImage, g: Geometry, first: nat, offset: nat, k: nat): (pos: u32)
    requires WellFormed(g) && Walk(image, g, first, Quot(offset, ClusterBytes(g)) + Quot(k, ClusterBytes(g))) >= 0
  {
    var c := ClusterBytes(g);
    Wrap(ClusterPos(g, Walk(image, g, first, Quot(offset, c) + Quot(k, c))) + Rem(offset, c) + Rem(k, c))
  }

  /** Where byte j of the file is: in the cluster its index falls into. */
  function FilePos(image: DiskImage, g: Geometry, first: nat, j: nat): (pos: u32)
    requires WellFormed(g) && Walk(image, g, first, Quot(j, ClusterBytes(g))) >= 0
  {
    var c := ClusterBytes(g);
    Wrap(ClusterPos(g, Walk(image, g, first, Quot(j, c))) + Rem(j, c))
  }

  /** Byte k of what the reader delivers. */
  lemma {:induction false} ReadDataAt(image: DiskImage, g: Geometry, first: nat, offset: nat, total: nat, k: nat)
    requires WellFormed(g) && Reaches(image, g, first, offset, total) && k < total
    ensures Walk(image, g, first, Quot(offset, ClusterBytes(g)) + Quot(k, ClusterBytes(g))) >= 0
    ensures ReadData(image, g, first, offset, total)[k] == image(ReadPos(image, g, first, offset, k))
    decreases total
  {
    hide Quot, Rem, Walk, ClusterPos, Wrap;
    var c := ClusterBytes(g);
    ReachStep(image, g, first, offset, total);
    if k < c {
      Small(k, c);
      WrapStep(ClusterPos(g, Walk(image, g, first, Quot(offset, c))) + Rem(offset, c), k);
    } else {
      Step(k - c, c);
      Step(offset, c);
      ReadDataAt(image, g, first, offset + c, total - c, k - c);
    }
  }

  /** Byte j of the file is the byte of its cluster. */
  lemma {:induction false} FileDataAt(image: DiskImage, g: Geometry, first: nat, n: nat, j: nat)
    requires WellFormed(g) && n > 0 && Walk(image, g, first, n - 1) >= 0 && j < n * ClusterBytes(g)
    ensures Walk(image, g, first, Quot(j, ClusterBytes(g))) >= 0
    ensures FileData(image, g, first, n)[j] == image(FilePos(image, g, first, j))
  {
    hide Quot, Rem, ClusterPos, Wrap;
    var c := ClusterBytes(g);
    assert n > 1 ==> Walk(image, g, first, n - 2) >= 0;
    assert n * c == (n - 1) * c + c;
    if j < (n - 1) * c {
      FileDataAt(image, g, first, n - 1, j);
    } else {
      Unique(j, c, n - 1, j - (n - 1) * c);
    }
  }

  /** Byte r of the file's i-th cluster, by its place on the disk: clusters are numbered from 2 in the data
      area, and the walk names the i-th. */
  lemma {:induction false} FileBytes(image: DiskImage, g: Geometry, first: nat, n: nat, i: nat, r: nat)
    requires WellFormed(g) && i < n && Walk(image, g, first, n - 1) >= 0 && r < 512 * g.sectorsPerCluster
    requires var cluster := Walk(image, g, first, i);
             cluster >= 2 && 512 * (DataStart(g) + (cluster - 1) * g.sectorsPerCluster) <= 0x1_0000_0000
    ensures var cluster, j := Walk(image, g, first, i), i * ClusterBytes(g) + r;
            && 0 <= j < |FileData(image, g, first, n)|
            && 512 * (DataStart(g) + (cluster - 2) * g.sectorsPerCluster) + r >= 0
            && FileData(image, g, first, n)[j] ==
               image(512 * (DataStart(g) + (cluster - 2) * g.sectorsPerCluster) + r)
  {
    hide Quot, Rem, ClusterPos, Wrap, Walk, FileData, DataStart;
    var c, cluster := ClusterBytes(g), Walk(image, g, first, i);
    assert c == 512 * g.sectorsPerCluster;
    Scale(i, n, c);
    Distribute(0, i, c);
    if i > 0 { Scale(0, i, c); }
    Unique(i * c + r, c, i, r);
    FileDataAt(image, g, first, n, i * c + r);
    ClusterPosIs(g, cluster);
    WrapSmall(ClusterPos(g, cluster) + r);
  }

  lemma QuotMonotone(x: nat, y: nat, c: nat)
    requires c > 0 && x <= y
    ensures Quot(x, c) <= Quot(y, c)
  {
    hide Quot, Rem;
    DivMod(x, c);
    DivMod(y, c);
    if Quot(y, c) < Quot(x, c) { Scale(Quot(y, c), Quot(x, c), c); }
  }

  lemma QuotAdds(x: nat, y: nat, c: nat)
    requires c > 0
    ensures Quot(x, c) + Quot(y, c) <= Quot(x + y, c)
  {
    hide Quot, Rem;
    DivMod(x, c);
    DivMod(y, c);
    DivMod(x + y, c);
    var q, s := Quot(x, c) + Quot(y, c), Quot(x + y, c);
    if s < q { Scale(s, q, c); }
  }

  /** A read that begins on a cluster boundary, or stays in one cluster, takes every byte from
      the byte's own place in the file. */
  lemma OwnPlace(image: DiskImage, g: Geometry, first: nat, offset: nat, total: nat, k: nat)
    requires WellFormed(g) && Reaches(image, g, first, offset, total) && k < total
    requires Rem(offset, ClusterBytes(g)) + Rem(k, ClusterBytes(g)) < ClusterBytes(g)
    ensures Quot(offset + k, ClusterBytes(g)) == Quot(offset, ClusterBytes(g)) + Quot(k, ClusterBytes(g))
    ensures Walk(image, g, first, Quot(offset + k, ClusterBytes(g))) >= 0
    ensures ReadPos(image, g, first, offset, k) == FilePos(image, g, first, offset + k)
  {
    hide Quot, Rem, Walk, ClusterPos, Wrap;
    var c := ClusterBytes(g);
    ReadDataAt(image, g, first, offset, total, k);
    DivMod(offset, c);
    DivMod(k, c);
    Unique(offset + k, c, Quot(offset, c) + Quot(k, c), Rem(offset, c) + Rem(k, c));
  }

  /** The clusters of the file up to the last one a read touches. */
  function Needed(g: Geometry, offset: nat, total: nat): nat
    requires WellFormed(g)
  {
    Quot(offset, ClusterBytes(g)) + LastStep(g, total) + 1
  }

  lemma NeededHolds(g: Geometry, offset: nat, total: nat)
    requires WellFormed(g)
    requires Rem(offset, ClusterBytes(g)) == 0 || Rem(offset, ClusterBytes(g)) + total <= ClusterBytes(g)
    ensures offset + total <= Needed(g, offset, total) * ClusterBytes(g)
  {
    hide Quot, Rem;
    var c := ClusterBytes(g);
    DivMod(offset, c);
    if total > 0 {
      DivMod(total - 1, c);
      if total <= c { Small(total - 1, c); }
    }
    Distribute(Quot(offset, c), LastStep(g, total), c);
  }

  /** The reader's bytes are the file's: for a read from a cluster boundary, of any length, and
      for a read inside one cluster, what is delivered is the slice of the concatenated chain. */
  lemma {:induction false} ReadIsFileSlice(image: DiskImage, g: Geometry, first: nat, offset: nat, total: nat)
    requires WellFormed(g) && Reaches(image, g, first, offset, total)
    requires Rem(offset, ClusterBytes(g)) == 0 || Rem(offset, ClusterBytes(g)) + total <= ClusterBytes(g)
    ensures offset + total <= Needed(g, offset, total) * ClusterBytes(g)
    ensures ReadData(image, g, first, offset, total) ==
            FileData(image, g, first, Needed(g, offset, total))[offset..offset + total]
  {
    hide Quot, Rem, Walk, ClusterPos, Wrap, ReadData, FileData;
    var c, n := ClusterBytes(g), Needed(g, offset, total);
    NeededHolds(g, offset, total);
    forall k | 0 <= k < total
      ensures ReadData(image, g, first, offset, total)[k] == FileData(image, g, first, n)[offset + k]
    {
      if Rem(offset, c) != 0 { Small(k, c); }
      OwnPlace(image, g, first, offset, total, k);
      ReadDataAt(image, g, first, offset, total, k);
      FileDataAt(image, g, first, n, offset + k);
    }
  }

  /** The i-th cluster of a file holds a byte of it from offset up to offset + total. */
  predicate Overlaps(i: nat, clusterBytes: nat, offset: nat, total: nat) {
    i * clusterBytes < offset + total && offset < (i + 1) * clusterBytes
  }

  lemma OverlapsIs(i: nat, c: nat, offset: nat, total: nat)
    requires c > 0 && total > 0
    ensures Overlaps(i, c, offset, total) <==> Quot(offset, c) <= i <= Quot(offset + total - 1, c)
  {
    hide Quot, Rem;
    var x, y := Quot(offset, c), Quot(offset + total - 1, c);
    DivMod(offset, c);
    DivMod(offset + total - 1, c);
    Distribute(0, i, c);
    Distribute(0, x, c);
    Distribute(0, y, c);
    if i < x { Scale(i, x, c); }
    if x < i { Scale(x, i, c); }
    if i < y { Scale(i, y, c); }
    if y < i { Scale(y, i, c); }
  }

  /** Such a read succeeds exactly when the chain has every cluster that holds a byte of it, and needs
      no cluster more. */
  lemma {:induction false} ReachesExactly(image: DiskImage, g: Geometry, first: nat, offset: nat, total: nat)
    requires WellFormed(g) && total > 0
    requires Rem(offset, ClusterBytes(g)) == 0 || Rem(offset, ClusterBytes(g)) + total <= ClusterBytes(g)
    ensures Reaches(image, g, first, offset, total) <==>
            forall i: nat :: Overlaps(i, ClusterBytes(g), offset, total) ==> Walk(image, g, first, i) >= 0
  {
    hide Quot, Rem, Walk, Overlaps;
    var c := ClusterBytes(g);
    var last := Quot(offset, c) + Quot(total - 1, c);
    LastPlace(offset, total, c);
    WalkStopsAtMark(image, g, first, last);
    forall i: nat ensures Overlaps(i, c, offset, total) <==> Quot(offset, c) <= i <= last {
      OverlapsIs(i, c, offset, total);
    }
    assert Overlaps(last, c, offset, total);
  }

  lemma LastPlace(offset: nat, total: nat, c: nat)
    requires c > 0 && total > 0 && (Rem(offset, c) == 0 || Rem(offset, c) + total <= c)
    ensures Quot(offset + total - 1, c) == Quot(offset, c) + Quot(total - 1, c)
  {
    hide Quot, Rem;
    DivMod(offset, c);
    DivMod(total - 1, c);
    if Rem(offset, c) != 0 { Small(total - 1, c); }
    Distribute(Quot(offset, c), Quot(total - 1, c), c);
    Unique(offset + total - 1, c, Quot(offset, c) + Quot(total - 1, c), Rem(offset, c) + Rem(total - 1, c));
  }

  /** Each cluster boundary the read crosses joins two clusters that are neighbours on the disk. */
  predicate Contiguous(image: DiskImage, g: Geometry, first: nat, offset: nat, total: nat)
    requires WellFormed(g) && total > 0
    requires Walk(image, g, first, Quot(offset + total - 1, ClusterBytes(g))) >= 0
  {
    var c, i := ClusterBytes(g), Quot(offset, ClusterBytes(g));
    forall j :: i <= j < Quot(offset + total - 1, c) ==> Joined(image, g, first, j)
  }

  predicate Joined(image: DiskImage, g: Geometry, first: nat, j: nat)
    requires WellFormed(g)
  {
    && Walk(image, g, first, j) >= 0 && Walk(image, g, first, j + 1) >= 0
    && ClusterPos(g, Walk(image, g, first, j + 1)) == Wrap(ClusterPos(g, Walk(image, g, first, j)) + ClusterBytes(g))
  }

  lemma CrossingPlace(image: DiskImage, g: Geometry, first: nat, offset: nat, k: nat)
    requires WellFormed(g)
    requires Rem(offset, ClusterBytes(g)) + Rem(k, ClusterBytes(g)) >= ClusterBytes(g)
    requires Walk(image, g, first, Quot(offset + k, ClusterBytes(g))) >= 0
    ensures Quot(offset + k, ClusterBytes(g)) == Quot(offset, ClusterBytes(g)) + Quot(k, ClusterBytes(g)) + 1
    ensures Walk(image, g, first, Quot(offset, ClusterBytes(g)) + Quot(k, ClusterBytes(g))) >= 0
    ensures Joined(image, g, first, Quot(offset, ClusterBytes(g)) + Quot(k, ClusterBytes(g))) ==>
              ReadPos(image, g, first, offset, k) == FilePos(image, g, first, offset + k)
    ensures Rem(offset, ClusterBytes(g)) + Rem(k, ClusterBytes(g)) == ClusterBytes(g) ==>
              (ReadPos(image, g, first, offset, k) == FilePos(image, g, first, offset + k) <==>
               Joined(image, g, first, Quot(offset, ClusterBytes(g)) + Quot(k, ClusterBytes(g))))
  {
    hide Quot, Rem, ClusterPos, Wrap;
    var c := ClusterBytes(g);
    var o, r, j := Rem(offset, c), Rem(k, c), Quot(offset, c) + Quot(k, c);
    DivMod(offset, c);
    DivMod(k, c);
    assert offset + k == (j + 1) * c + (o + r - c);
    Unique(offset + k, c, j + 1, o + r - c);
    var p := ClusterPos(g, Walk(image, g, first, j));
    WrapStep(p + c, o + r - c);
    WrapSmall(ClusterPos(g, Walk(image, g, first, j + 1)));
  }

  /** Byte k of the read is there, and taken from its own place in the file. */
  predicate InPlace(image: DiskImage, g: Geometry, first: nat, offset: nat, k: nat)
    requires WellFormed(g)
  {
    && Walk(image, g, first, Quot(offset + k, ClusterBytes(g))) >= 0
    && Walk(image, g, first, Quot(offset, ClusterBytes(g)) + Quot(k, ClusterBytes(g))) >= 0
    && ReadPos(image, g, first, offset, k) == FilePos(image, g, first, offset + k)
  }

  /** Exactly when a read within the chain takes every byte from its own place in the file: it
      begins on a cluster boundary, or crosses no boundary but between neighbouring clusters. */
  lemma {:induction false} ReadsInPlaceExactly(image: DiskImage, g: Geometry, first: nat, offset: nat, total: nat)
    requires WellFormed(g) && total > 0
    requires Walk(image, g, first, Quot(offset + total - 1, ClusterBytes(g))) >= 0
    ensures (forall k :: 0 <= k < total ==> InPlace(image, g, first, offset, k)) <==>
            (Rem(offset, ClusterBytes(g)) == 0 || Contiguous(image, g, first, offset, total))
  {
    hide Quot, Rem, Walk, InPlace, Joined;
    var c := ClusterBytes(g);
    if Rem(offset, c) == 0 || Contiguous(image, g, first, offset, total) {
      forall k | 0 <= k < total ensures InPlace(image, g, first, offset, k) {
        JoinedInPlace(image, g, first, offset, total, k);
      }
    } else {
      var j :| Quot(offset, c) <= j < Quot(offset + total - 1, c) && !Joined(image, g, first, j);
      var k := Misread(image, g, first, offset, total, j);
    }
  }

  lemma JoinedInPlace(image: DiskImage, g: Geometry, first: nat, offset: nat, total: nat, k: nat)
    requires WellFormed(g) && k < total
    requires Walk(image, g, first, Quot(offset + total - 1, ClusterBytes(g))) >= 0
    requires Rem(offset, ClusterBytes(g)) == 0 || Contiguous(image, g, first, offset, total)
    ensures InPlace(image, g, first, offset, k)
  {
    hide Quot, Rem, Walk, ClusterPos, Wrap, ReadPos, FilePos, Joined;
    var c := ClusterBytes(g);
    var last := Quot(offset + total - 1, c);
    WalkStopsAtMark(image, g, first, last);
    QuotAdds(offset, total - 1, c);
    QuotMonotone(offset + k, offset + total - 1, c);
    if Rem(offset, c) + Rem(k, c) < c {
      OwnPlace(image, g, first, offset, total, k);
    } else {
      CrossingPlace(image, g, first, offset, k);
      assert Joined(image, g, first, Quot(offset, c) + Quot(k, c));
    }
  }

  /** The offset, from the start of the read, of the first byte after boundary j. */
  lemma BoundaryByte(offset: nat, total: nat, c: nat, j: nat) returns (k: nat)
    requires c > 0 && total > 0 && Rem(offset, c) > 0
    requires Quot(offset, c) <= j < Quot(offset + total - 1, c)
    ensures k < total && Quot(k, c) == j - Quot(offset, c) && Rem(k, c) == c - Rem(offset, c)
    ensures Quot(offset + k, c) <= Quot(offset + total - 1, c)
  {
    hide Quot, Rem;
    var i, o, s := Quot(offset, c), Rem(offset, c), Quot(offset + total - 1, c);
    k := (j - i) * c + (c - o);
    Unique(k, c, j - i, c - o);
    DivMod(offset, c);
    DivMod(offset + total - 1, c);
    assert offset + k == (j + 1) * c;
    Scale(j, s, c);
    QuotMonotone(offset + k, offset + total - 1, c);
  }

  /** The first byte after an unjoined boundary is taken from the wrong place. */
  lemma Misread(image: DiskImage, g: Geometry, first: nat, offset: nat, total: nat, j: nat) returns (k: nat)
    requires WellFormed(g) && total > 0 && Rem(offset, ClusterBytes(g)) > 0
    requires Quot(offset, ClusterBytes(g)) <= j < Quot(offset + total - 1, ClusterBytes(g))
    requires Walk(image, g, first, Quot(offset + total - 1, ClusterBytes(g))) >= 0
    requires !Joined(image, g, first, j)
    ensures k < total && !InPlace(image, g, first, offset, k)
  {
    hide Quot, Rem, Walk, ClusterPos, Wrap, ReadPos, FilePos, Joined;
    var c := ClusterBytes(g);
    k := BoundaryByte(offset, total, c, j);
    WalkStopsAtMark(image, g, first, Quot(offset + total - 1, c));
    CrossingPlace(image, g, first, offset, k);
  }

  /** n * size, by repeated addition. */
  function Times(n: nat, size: nat): nat {
    if n == 0 then 0 else Times(n - 1, size) + size
  }

  lemma {:induction false} TimesMonotone(i: nat, n: nat, size: nat)
    requires i <= n
    ensures Times(i, size) <= Times(n, size)
  {
    if i < n { TimesMonotone(i, n - 1, size); }
  }

  /** The file offset of the i-th of several items of equal size. */
  function ItemOffset(pos: nat, size: nat, i: nat): nat {
    pos + Times(i, size)
  }

  /** The chain reaches as far as each of the first n items. */
  predicate ItemsReach(image: DiskImage, g: Geometry, first: nat, pos: nat, size: nat, n: nat)
    requires WellFormed(g)
  {
    forall i :: 0 <= i < n ==> Reaches(image, g, first, ItemOffset(pos, size, i), size)
  }

  /** n items read one after the other. */
  function ReadItems(image: DiskImage, g: Geometry, first: nat, pos: nat, size: nat, n: nat): (r: seq<byte>)
    requires WellFormed(g) && ItemsReach(image, g, first, pos, size, n)
    ensures |r| == Times(n, size)
  {
    if n == 0 then [] else
      ReadItems(image, g, first, pos, size, n - 1) + ReadData(image, g, first, ItemOffset(pos, size, n - 1), size)
  }

  lemma NoItems(image: DiskImage, g: Geometry, first: nat, pos: nat, size: nat)
    requires WellFormed(g)
    ensures ItemsReach(image, g, first, pos, size, 0) && ReadItems(image, g, first, pos, size, 0) == []
  {
  }

  lemma NextItem(image: DiskImage, g: Geometry, first: nat, pos: nat, size: nat, i: nat, n: nat)
    requires WellFormed(g) && ItemsReach(image, g, first, pos, size, i) && i < n
    ensures ItemsReach(image, g, first, pos, size, n) ==> Reaches(image, g, first, ItemOffset(pos, size, i), size)
    ensures Reaches(image, g, first, ItemOffset(pos, size, i), size) ==>
              && ItemsReach(image, g, first, pos, size, i + 1)
              && ReadItems(image, g, first, pos, size, i + 1) ==
                 ReadItems(image, g, first, pos, size, i) + ReadData(image, g, first, ItemOffset(pos, size, i), size)
  {
    hide Reaches, ReadData;
  }

  lemma {:induction false} AlignedItem(pos: nat, size: nat, i: nat, c: nat)
    requires c > 0 && Rem(pos, c) == 0 && (i == 0 || Rem(size, c) == 0)
    ensures Rem(ItemOffset(pos, size, i), c) == 0
  {
    hide Quot, Rem;
    if i > 0 {
      AlignedItem(pos, size, i - 1, c);
      var x := ItemOffset(pos, size, i - 1);
      DivMod(x, c);
      DivMod(size, c);
      assert (Quot(x, c) + Quot(size, c)) * c == Quot(x, c) * c + Quot(size, c) * c;
      Unique(x + size, c, Quot(x, c) + Quot(size, c), 0);
    }
  }

  /** Items of a whole number of clusters, read from a cluster boundary on, make up one slice of
      the file. */
  lemma {:induction false} ItemsAreFileSlice(
      image: DiskImage, g: Geometry, first: nat, pos: nat, size: nat, n: nat, clusters: nat)
    requires WellFormed(g) && ItemsReach(image, g, first, pos, size, n)
    requires Rem(pos, ClusterBytes(g)) == 0 && (n <= 1 || Rem(size, ClusterBytes(g)) == 0)
    requires ItemOffset(pos, size, n) <= clusters * ClusterBytes(g)
    requires clusters > 0 ==> Walk(image, g, first, clusters - 1) >= 0
    ensures ReadItems(image, g, first, pos, size, n) == FileData(image, g, first, clusters)[pos..ItemOffset(pos,
            size, n)]
  {
    hide Quot, Rem, Walk, ReadData, FileData, Reaches;
    if n > 0 {
      var offset := ItemOffset(pos, size, n - 1);
      AlignedItem(pos, size, n - 1, ClusterBytes(g));
      ItemsAreFileSlice(image, g, first, pos, size, n - 1, clusters);
      assert Reaches(image, g, first, offset, size);
      SliceOfLonger(image, g, first, offset, size, clusters);
    }
  }

  /** A read from a cluster boundary is a slice of any stretch of the chain that covers it. */
  lemma SliceOfLonger(image: DiskImage, g: Geometry, first: nat, offset: nat, total: nat, clusters: nat)
    requires WellFormed(g) && Reaches(image, g, first, offset, total) && Rem(offset, ClusterBytes(g)) == 0
    requires offset + total <= clusters * ClusterBytes(g) && (clusters > 0 ==> Walk(image, g, first, clusters - 1) >= 0)
    ensures ReadData(image, g, first, offset, total) == FileData(image, g, first, clusters)[offset..offset + total]
  {
    hide Quot, Rem, Walk, ClusterPos, ReadData, FileData, Reaches;
    forall k | 0 <= k < total
      ensures ReadData(image, g, first, offset, total)[k] == FileData(image, g, first, clusters)[offset + k]
    {
      OwnPlace(image, g, first, offset, total, k);
      ReadDataAt(image, g, first, offset, total, k);
      FileDataAt(image, g, first, clusters, offset + k);
    }
  }
}
