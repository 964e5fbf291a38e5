/**
 A mounted FAT volume (`FatFsInner` in kernel/src/fs/fat.rs) on a sector device: where `mount`
 puts the tables and the clusters, reading and writing table entries in all copies, allocating
 clusters from a roving hint, collecting chains and making them longer.

 The volume is well formed: every cluster has its entry in the table, cluster numbers stay below
 the reserved values, and everything lies inside the device.
 */
module FatVolume {
  import opened Base
  import opened Bytes
  import opened BlockDevice
  import opened FatTable
  import opened FatChain

  // ---------------------------------------------------------------- layout

  datatype Bpb = Bpb(bytesPerSector: nat, sectorsPerCluster: nat, reservedSectors: nat, numFats: nat,
                     rootEntryCount: nat, totalSectors: nat, fatSize: nat)

  datatype Geometry = Geometry(fatType: FatType, sectorSize: nat, sectorsPerCluster: nat, firstFatSector: nat,
                               numFats: nat, fatSize: nat, firstDataSector: nat, totalClusters: nat)

  // The layout arithmetic of `mount`, after `validate_bpb`.
  function Layout(b: Bpb, sectorSize: nat, sectorCount: nat): Result<Geometry, FsError> {
    if b.bytesPerSector == 0 || b.sectorsPerCluster == 0 || b.reservedSectors == 0 || b.numFats == 0
       || b.totalSectors == 0 || b.fatSize == 0 || b.bytesPerSector != sectorSize
       || sectorSize * b.totalSectors > sectorSize * sectorCount
    then Err(IoError)
    else
      var rootDirSectors := (b.rootEntryCount * 32 + (b.bytesPerSector - 1)) / b.bytesPerSector;
      var firstDataSector := b.reservedSectors + b.numFats * b.fatSize + rootDirSectors;
      if b.totalSectors < firstDataSector then Err(IoError)
      else
        var totalClusters := (b.totalSectors - firstDataSector) / b.sectorsPerCluster;
        Ok(Geometry(TypeFor(totalClusters), sectorSize, b.sectorsPerCluster, b.reservedSectors, b.numFats, b.fatSize,
                    firstDataSector, totalClusters))
  }

  function TypeFor(totalClusters: nat): FatType {
    if totalClusters < 4085 then Fat12 else if totalClusters < 65525 then Fat16 else Fat32
  }

  function MaxCluster(g: Geometry): nat { g.totalClusters + 1 }

  function ClusterSize(g: Geometry): int { g.sectorSize * g.sectorsPerCluster }

  // Where copy f of the table begins; with f = numFats, where the last one ends.
  function FatBase(g: Geometry, f: nat): int { (g.firstFatSector + f * g.fatSize) * g.sectorSize }

  function FatBytes(g: Geometry): int { g.fatSize * g.sectorSize }

  function ClusterOffset(g: Geometry, c: nat): int {
    (g.firstDataSector + (c - 2) * g.sectorsPerCluster) * g.sectorSize
  }

  ghost predicate WellFormed(g: Geometry, size: nat) {
    && g.sectorSize > 0 && g.sectorsPerCluster > 0 && g.numFats > 0
    && EntryOffset(g.fatType, MaxCluster(g)) + EntryWidth(g.fatType) <= FatBytes(g)
    && g.firstFatSector + g.numFats * g.fatSize <= g.firstDataSector
    && (g.firstDataSector + g.totalClusters * g.sectorsPerCluster) * g.sectorSize <= size
    && g.firstDataSector + g.totalClusters * g.sectorsPerCluster < 0x1_0000_0000
    && g.totalClusters + 2 <= match g.fatType case Fat12 => 0xFF7 case Fat16 => 0xFFF7 case Fat32 => 0xFFF_FFF7
  }

  /** `mount` lays out a well-formed volume whenever the table is long enough for the clusters. */
  lemma LayoutIsWellFormed(b: Bpb, sectorSize: nat, sectorCount: nat)
    requires Layout(b, sectorSize, sectorCount).Ok? && b.totalSectors < 0x1_0000_0000
    requires
      var g := Layout(b, sectorSize, sectorCount).value;
      EntryOffset(g.fatType, MaxCluster(g)) + EntryWidth(g.fatType) <= FatBytes(g) && g.totalClusters + 2 <= 0xFFF_FFF7
    ensures WellFormed(Layout(b, sectorSize, sectorCount).value, sectorSize * sectorCount)
  {
    var g := Layout(b, sectorSize, sectorCount).value;
    var dataSectors := b.totalSectors - g.firstDataSector;
    assert g.totalClusters * g.sectorsPerCluster <= dataSectors;
    Multiples(sectorSize, g.firstDataSector + g.totalClusters * g.sectorsPerCluster, b.totalSectors);
  }

  /**
   What the layout is: the tables come after the reserved sectors, the root directory holds its entries and
   less than a sector more, the clusters follow it one after the other, and one more would pass the last
   sector. The number of clusters decides the type.
   */
  lemma LayoutExact(b: Bpb, sectorSize: nat, sectorCount: nat, c: nat)
    requires Layout(b, sectorSize, sectorCount).Ok?
    ensures
      var g := Layout(b, sectorSize, sectorCount).value;
      && g.sectorSize == sectorSize == b.bytesPerSector > 0 && g.numFats == b.numFats > 0
      && FatBase(g, 0) == b.reservedSectors * sectorSize && FatBytes(g) == b.fatSize * sectorSize
      && FatBase(g, c + 1) == FatBase(g, c) + FatBytes(g)
      && 32 * b.rootEntryCount <= RootEnd(g) - FatBase(g, g.numFats) < 32 * b.rootEntryCount + sectorSize
      && ClusterOffset(g, 2) == RootEnd(g) && ClusterSize(g) == b.sectorsPerCluster * sectorSize
      && ClusterOffset(g, c + 1) == ClusterOffset(g, c) + ClusterSize(g)
      && g.firstDataSector + g.totalClusters * b.sectorsPerCluster <= b.totalSectors <= sectorCount
      && b.totalSectors < g.firstDataSector + (g.totalClusters + 1) * b.sectorsPerCluster
      && MaxCluster(g) == g.totalClusters + 1
      && (g.fatType == Fat12 <==> g.totalClusters < 4085) && (g.fatType == Fat32 <==> g.totalClusters >= 65525)
  {
    var g := Layout(b, sectorSize, sectorCount).value;
    var bytes := b.rootEntryCount * 32;
    var sectors := (bytes + (sectorSize - 1)) / sectorSize;
    Rounded(bytes, sectorSize);
    Products(g.firstFatSector + b.numFats * b.fatSize, sectors, sectorSize);
    Steps(g, c);
    Divided(b.totalSectors - g.firstDataSector, b.sectorsPerCluster);
    if b.totalSectors > sectorCount { Multiples(sectorSize, sectorCount + 1, b.totalSectors); }
  }

  lemma Rounded(n: nat, d: nat)
    requires d > 0
    ensures n <= (n + (d - 1)) / d * d < n + d
  {
    Divided(n + (d - 1), d);
  }

  lemma Divided(n: nat, d: nat)
    requires d > 0
    ensures n / d * d <= n < (n / d + 1) * d
  {
    assert n == n / d * d + n % d;
    Products(n / d, 1, d);
  }

  // Tables and clusters follow each other.
  lemma Steps(g: Geometry, c: nat)
    ensures FatBase(g, c + 1) == FatBase(g, c) + FatBytes(g)
    ensures ClusterOffset(g, c + 1) == ClusterOffset(g, c) + ClusterSize(g)
  {
    Products(c, 1, g.fatSize);
    Products(g.firstFatSector + c * g.fatSize, g.fatSize, g.sectorSize);
    Products(c - 2, 1, g.sectorsPerCluster);
    Products(g.firstDataSector + (c - 2) * g.sectorsPerCluster, g.sectorsPerCluster, g.sectorSize);
  }

  /**
   `mount` refuses exactly these: a field that is zero, another sector size, more sectors than the device
   has, or fewer than the tables and the root directory take.
   */
  lemma LayoutRefused(b: Bpb, sectorSize: nat, sectorCount: nat, root: nat)
    requires b.bytesPerSector > 0 ==>
      b.rootEntryCount * 32 <= root * b.bytesPerSector < b.rootEntryCount * 32 + b.bytesPerSector
    ensures Layout(b, sectorSize, sectorCount).Err? <==>
      || b.bytesPerSector == 0 || b.sectorsPerCluster == 0 || b.reservedSectors == 0 || b.numFats == 0
      || b.totalSectors == 0 || b.fatSize == 0
      || b.bytesPerSector != sectorSize || b.totalSectors > sectorCount
      || b.totalSectors < b.reservedSectors + b.numFats * b.fatSize + root
    ensures Layout(b, sectorSize, sectorCount).Err? ==> Layout(b, sectorSize, sectorCount).error == IoError
  {
    if b.bytesPerSector > 0 {
      SameRounding(b.rootEntryCount * 32, b.bytesPerSector, root);
    }
    if sectorSize > 0 {
      InSectors(sectorSize, b.totalSectors, sectorCount);
    }
  }

  lemma SameRounding(n: nat, d: nat, q: nat)
    requires d > 0 && n <= q * d < n + d
    ensures (n + (d - 1)) / d == q
  {
    Quotient(n + (d - 1), d, q);
  }

  lemma InSectors(d: nat, a: nat, b: nat)
    requires d > 0
    ensures d * a > d * b <==> a > b
  {
    if a > b { Multiples(d, b + 1, a); Products(b, 1, d); } else { Multiples(d, a, b); }
  }

  // Where the parts of the volume lie: table copies one after the other, then the clusters.
  lemma TablesApart(g: Geometry, j: nat, k: nat)
    requires j < k
    ensures 0 <= FatBase(g, j) && 0 <= FatBytes(g) && FatBase(g, j) + FatBytes(g) <= FatBase(g, k)
  {
    Multiples(g.fatSize, j, k);
    assert (j + 1) * g.fatSize == j * g.fatSize + g.fatSize;
    Multiples(g.fatSize, j + 1, k);
    Multiples(g.sectorSize, g.firstFatSector + (j + 1) * g.fatSize, g.firstFatSector + k * g.fatSize);
    Products(g.firstFatSector + j * g.fatSize, g.fatSize, g.sectorSize);
    Multiples(g.fatSize, 0, j);
    Multiples(g.sectorSize, 0, g.firstFatSector + j * g.fatSize);
  }

  lemma Products(a: int, b: int, c: int)
    ensures (a + b) * c == a * c + b * c
  {
  }

  // Sizes of whole clusters, in sectors and bytes.
  lemma ClusterArithmetic(sector: nat, per: nat, first: nat, a: int, b: int)
    requires sector > 0 && per > 0 && a < b
    ensures (first + a * per) * sector + sector * per <= (first + b * per) * sector
    ensures sector * per > 0
    ensures 0 <= a ==> first * sector <= (first + a * per) * sector && 0 <= a * per
  {
    Multiples(per, a + 1, b);
    assert (a + 1) * per == a * per + per;
    Multiples(sector, first + (a + 1) * per, first + b * per);
    Products(first + a * per, per, sector);
    Multiples(per, 0, a);
    Multiples(sector, first, first + a * per);
    Multiples(sector, 0, per);
  }

  lemma ClusterPlace(g: Geometry, size: nat, c: nat)
    requires WellFormed(g, size) && 2 <= c <= MaxCluster(g)
    ensures 0 <= FatBase(g, 0) <= FatBase(g, g.numFats) <= ClusterOffset(g, c)
    ensures ClusterOffset(g, c) + ClusterSize(g) <= size && ClusterSize(g) > 0
  {
    TablesApart(g, 0, g.numFats);
    ClusterArithmetic(g.sectorSize, g.sectorsPerCluster, g.firstDataSector, c - 2, g.totalClusters);
    Multiples(g.sectorSize, g.firstFatSector + g.numFats * g.fatSize, g.firstDataSector);
  }

  lemma ClustersApart(g: Geometry, c: nat, d: nat)
    requires c < d && g.sectorSize > 0 && g.sectorsPerCluster > 0
    ensures ClusterOffset(g, c) + ClusterSize(g) <= ClusterOffset(g, d)
  {
    ClusterArithmetic(g.sectorSize, g.sectorsPerCluster, g.firstDataSector, c - 2, d - 2);
  }

  // `cluster_to_offset`, with its checked 32-bit steps.
  function ClusterToOffset(g: Geometry, c: nat): Result<int, FsError> {
    if c < 2 then Err(IoError)
    else if (c - 2) * g.sectorsPerCluster >= 0x1_0000_0000 then Err(IoError)
    else if g.firstDataSector + (c - 2) * g.sectorsPerCluster >= 0x1_0000_0000 then Err(IoError)
    else Ok((g.firstDataSector + (c - 2) * g.sectorsPerCluster) * g.sectorSize)
  }

  /** It fails exactly below cluster 2 and when the sector number does not fit 32 bits. */
  lemma ClusterToOffsetFails(g: Geometry, c: nat)
    requires g.sectorSize > 0
    ensures ClusterToOffset(g, c) == Err(IoError) <==> c < 2 || ClusterOffset(g, c) >= 0x1_0000_0000 * g.sectorSize
    ensures ClusterToOffset(g, c).Ok? ==> ClusterToOffset(g, c) == Ok(ClusterOffset(g, c))
    ensures ClusterToOffset(g, c).Err? ==> ClusterToOffset(g, c) == Err(IoError)
  {
    if c >= 2 {
      var sector := g.firstDataSector + (c - 2) * g.sectorsPerCluster;
      if sector >= 0x1_0000_0000 {
        Multiples(g.sectorSize, 0x1_0000_0000, sector);
      } else {
        Multiples(g.sectorSize, sector + 1, 0x1_0000_0000);
        Products(sector, 1, g.sectorSize);
      }
    }
  }

  lemma ClusterToOffsetSucceeds(g: Geometry, size: nat, c: nat)
    requires WellFormed(g, size) && 2 <= c <= MaxCluster(g)
    ensures ClusterToOffset(g, c) == Ok(ClusterOffset(g, c))
  {
    Multiples(g.sectorsPerCluster, c - 2, g.totalClusters);
    Multiples(g.sectorsPerCluster, 0, c - 2);
  }

  // ---------------------------------------------------------------- what the volume's bytes mean

  // One copy of the table.
  ghost function TableBytes(g: Geometry, data: seq<byte>, f: nat): (s: seq<byte>)
    requires WellFormed(g, |data|) && f < g.numFats
    ensures |s| == FatBytes(g)
  {
    TablesApart(g, f, g.numFats - 1 + 1);
    InsideDevice(g, |data|);
    data[FatBase(g, f)..FatBase(g, f) + FatBytes(g)]
  }

  lemma InsideDevice(g: Geometry, size: nat)
    requires WellFormed(g, size)
    ensures 0 <= FatBase(g, 0) <= FatBase(g, g.numFats) <= size
  {
    TablesApart(g, 0, g.numFats);
    Multiples(g.sectorsPerCluster, 0, g.totalClusters);
    Multiples(g.sectorSize, g.firstFatSector + g.numFats * g.fatSize,
              g.firstDataSector + g.totalClusters * g.sectorsPerCluster);
  }

  lemma EntryFits(t: FatType, c: nat, max: nat)
    requires c <= max
    ensures EntryOffset(t, c) <= EntryOffset(t, max)
  {
  }

  // The entries of one copy, by cluster number.
  ghost function FatCopy(g: Geometry, data: seq<byte>, f: nat): (fat: Fat)
    requires WellFormed(g, |data|) && f < g.numFats
    ensures |fat| == g.totalClusters + 2
  {
    seq(g.totalClusters + 2, c requires 0 <= c < g.totalClusters + 2 =>
      EntryFits(g.fatType, c, MaxCluster(g));
      EntryAt(g.fatType, TableBytes(g, data, f), c))
  }

  // The copy that is read.
  ghost function FatOf(g: Geometry, data: seq<byte>): (fat: Fat)
    requires WellFormed(g, |data|)
    ensures |fat| == g.totalClusters + 2
  {
    FatCopy(g, data, 0)
  }

  ghost function ClusterBytes(g: Geometry, data: seq<byte>, c: nat): (s: seq<byte>)
    requires WellFormed(g, |data|) && 2 <= c <= MaxCluster(g)
    ensures |s| == ClusterSize(g)
  {
    ClusterPlace(g, |data|, c);
    data[ClusterOffset(g, c)..ClusterOffset(g, c) + ClusterSize(g)]
  }

  ghost predicate Zeroed(g: Geometry, data: seq<byte>, c: nat)
    requires WellFormed(g, |data|) && 2 <= c <= MaxCluster(g)
  {
    forall i :: 0 <= i < |ClusterBytes(g, data, c)| ==> ClusterBytes(g, data, c)[i] == 0
  }

  // The fixed root directory of FAT12 and FAT16 volumes, between the tables and the clusters.
  ghost function RootBytes(g: Geometry, data: seq<byte>): (s: seq<byte>)
    requires WellFormed(g, |data|)
    ensures |s| == RootEnd(g) - FatBase(g, g.numFats)
  {
    RootPlace(g, |data|);
    data[FatBase(g, g.numFats)..RootEnd(g)]
  }

  function RootEnd(g: Geometry): int { g.firstDataSector * g.sectorSize }

  lemma RootPlace(g: Geometry, size: nat)
    requires WellFormed(g, size)
    ensures 0 <= FatBase(g, g.numFats) <= RootEnd(g) <= size
    ensures forall c :: 2 <= c <= MaxCluster(g) ==> RootEnd(g) <= ClusterOffset(g, c)
  {
    InsideDevice(g, size);
    Multiples(g.sectorSize, g.firstFatSector + g.numFats * g.fatSize, g.firstDataSector);
    Multiples(g.sectorsPerCluster, 0, g.totalClusters);
    Multiples(g.sectorSize, g.firstDataSector, g.firstDataSector + g.totalClusters * g.sectorsPerCluster);
    forall c | 2 <= c <= MaxCluster(g) ensures RootEnd(g) <= ClusterOffset(g, c) {
      ClusterArithmetic(g.sectorSize, g.sectorsPerCluster, g.firstDataSector, c - 2, g.totalClusters);
    }
  }

  // ---------------------------------------------------------------- effects of byte writes

  // Bytes written into copy f at an entry change that copy as a table and nothing else.
  lemma EntryWritten(g: Geometry, data: seq<byte>, f: nat, c: nat, v: nat, data': seq<byte>, b: seq<byte>)
    requires WellFormed(g, |data|) && f < g.numFats && c <= MaxCluster(g)
    requires Fits(g.fatType, TableBytes(g, data, f), c)
    requires
      var raw := Merged(g.fatType, c, Raw(g.fatType, TableBytes(g, data, f), c), v);
      raw < (if g.fatType == Fat32 then 0x1_0000_0000 else 0x1_0000) && b == Encoded(g.fatType, raw)
    requires 0 <= FatBase(g, f) + EntryOffset(g.fatType, c) && FatBase(g, f) + EntryOffset(g.fatType, c) + |b| <= |data|
    requires data' == Splice(data, FatBase(g, f) + EntryOffset(g.fatType, c), b)
    ensures |data'| == |data|
    ensures TableBytes(g, data', f) == WithEntry(g.fatType, TableBytes(g, data, f), c, v)
    ensures forall k: nat :: k < g.numFats && k != f ==> TableBytes(g, data', k) == TableBytes(g, data, k)
    ensures SameOutside(g, data, data')
  {
    hide FatBase, FatBytes, EntryOffset, Merged, WellFormed, Raw, Encoded;
    var at := FatBase(g, f) + EntryOffset(g.fatType, c);
    InsideDevice(g, |data|);
    TablePlace(g, f);
    SpliceInner(data, FatBase(g, f), FatBytes(g), EntryOffset(g.fatType, c), b);
    forall k: nat | k < g.numFats && k != f ensures TableBytes(g, data', k) == TableBytes(g, data, k) {
      TablePlace(g, k);
      if k < f { TablesApart(g, k, f); } else { TablesApart(g, f, k); }
      SpliceSlice(data, at, b, FatBase(g, k), FatBase(g, k) + FatBytes(g));
    }
    SpliceSlice(data, at, b, 0, FatBase(g, 0));
    SpliceSlice(data, at, b, FatBase(g, g.numFats), |data|);
  }

  lemma TablePlace(g: Geometry, f: nat)
    requires f < g.numFats
    ensures 0 <= FatBase(g, 0) <= FatBase(g, f) && FatBase(g, f) + FatBytes(g) <= FatBase(g, g.numFats)
    ensures 0 <= FatBytes(g)
  {
    if f > 0 { TablesApart(g, 0, f); }
    TablesApart(g, f, g.numFats);
  }

  // A splice inside a part of the bytes is the splice of that part.
  lemma SpliceInner(s: seq<byte>, start: nat, len: nat, at: nat, b: seq<byte>)
    requires start + len <= |s| && at + |b| <= len
    ensures Splice(s, start + at, b)[start..start + len] == Splice(s[start..start + len], at, b)
  {
  }

  // Nothing but the table copies differs.
  ghost predicate SameOutside(g: Geometry, a: seq<byte>, b: seq<byte>)
    requires WellFormed(g, |a|)
  {
    InsideDevice(g, |a|);
    && |a| == |b|
    && a[..FatBase(g, 0)] == b[..FatBase(g, 0)]
    && a[FatBase(g, g.numFats)..] == b[FatBase(g, g.numFats)..]
  }

  // The bytes of one copy with an entry updated.
  ghost function TableWith(g: Geometry, data: seq<byte>, f: nat, c: nat, v: nat): seq<byte>
    requires WellFormed(g, |data|) && f < g.numFats && c <= MaxCluster(g)
  {
    AllFit(g, data, f, c);
    WithEntry(g.fatType, TableBytes(g, data, f), c, v)
  }

  lemma WithSame(g: Geometry, data: seq<byte>, data': seq<byte>, f: nat, c: nat, v: nat)
    requires WellFormed(g, |data|) && |data'| == |data| && f < g.numFats && c <= MaxCluster(g)
    requires TableBytes(g, data', f) == TableBytes(g, data, f)
    ensures TableWith(g, data', f, c, v) == TableWith(g, data, f, c, v)
  {
    hide TableBytes, WithEntry, WellFormed;
    AllFit(g, data, f, c);
  }

  // Writing an entry's bytes in one copy is updating that entry of the copy.
  lemma CopyWritten(g: Geometry, data: seq<byte>, data': seq<byte>, f: nat, c: nat, v: nat)
    requires WellFormed(g, |data|) && |data'| == |data| && f < g.numFats && c <= MaxCluster(g)
    requires TableBytes(g, data', f) == TableWith(g, data, f, c, v)
    ensures FatCopy(g, data', f) == FatCopy(g, data, f)[c := Masked(g.fatType, v)]
  {
    hide TableBytes, WithEntry, EntryAt, Masked, WellFormed;
    AllFit(g, data, f, c);
    var a, b := FatCopy(g, data, f), FatCopy(g, data', f);
    forall k | 0 <= k < |b| ensures b[k] == a[c := Masked(g.fatType, v)][k] {
      AllFit(g, data, f, k);
      WriteThenRead(g.fatType, TableBytes(g, data, f), c, v, k);
    }
  }

  lemma AllFit(g: Geometry, data: seq<byte>, f: nat, c: nat)
    requires WellFormed(g, |data|) && f < g.numFats && c <= MaxCluster(g)
    ensures Fits(g.fatType, TableBytes(g, data, f), c)
  {
    EntryFits(g.fatType, c, MaxCluster(g));
  }

  lemma SameTables(g: Geometry, data: seq<byte>, data': seq<byte>, f: nat)
    requires WellFormed(g, |data|) && |data'| == |data| && f < g.numFats
    requires TableBytes(g, data', f) == TableBytes(g, data, f)
    ensures FatCopy(g, data', f) == FatCopy(g, data, f)
  {
  }

  lemma SameOutsideClusters(g: Geometry, a: seq<byte>, b: seq<byte>, c: nat)
    requires WellFormed(g, |a|) && SameOutside(g, a, b) && 2 <= c <= MaxCluster(g)
    ensures ClusterBytes(g, b, c) == ClusterBytes(g, a, c)
  {
    hide FatBase, ClusterOffset, ClusterSize;
    ClusterPlace(g, |a|, c);
    InsideDevice(g, |a|);
    var e, lo, hi := FatBase(g, g.numFats), ClusterOffset(g, c), ClusterOffset(g, c) + ClusterSize(g);
    assert a[e..|a|] == a[e..] && b[e..|b|] == b[e..];
    SliceOfSlice(a, e, |a|, lo - e, hi - e);
    SliceOfSlice(b, e, |b|, lo - e, hi - e);
  }

  lemma SameOutsideRoot(g: Geometry, a: seq<byte>, b: seq<byte>)
    requires WellFormed(g, |a|) && SameOutside(g, a, b)
    ensures RootBytes(g, b) == RootBytes(g, a)
  {
    hide FatBase, RootEnd, WellFormed;
    RootPlace(g, |a|);
    var e, hi := FatBase(g, g.numFats), RootEnd(g);
    assert a[e..|a|] == a[e..] && b[e..|b|] == b[e..];
    SliceOfSlice(a, e, |a|, 0, hi - e);
    SliceOfSlice(b, e, |b|, 0, hi - e);
  }

  // Bytes written inside the root directory change neither the tables nor the clusters.
  lemma RootWritten(g: Geometry, data: seq<byte>, data': seq<byte>, at: nat, b: seq<byte>)
    requires WellFormed(g, |data|) && at + |b| <= |RootBytes(g, data)|
    requires 0 <= FatBase(g, g.numFats) + at && FatBase(g, g.numFats) + at + |b| <= |data|
    requires data' == Splice(data, FatBase(g, g.numFats) + at, b)
    ensures FatOf(g, data') == FatOf(g, data) && RootBytes(g, data') == Splice(RootBytes(g, data), at, b)
    ensures forall d: nat :: 2 <= d <= MaxCluster(g) ==> ClusterBytes(g, data', d) == ClusterBytes(g, data, d)
  {
    hide FatBase, FatBytes, ClusterOffset, ClusterSize, RootEnd, WellFormed, FatCopy;
    RootPlace(g, |data|);
    SpliceInner(data, FatBase(g, g.numFats), RootEnd(g) - FatBase(g, g.numFats), at, b);
    TablePlaceFirst(g, |data|);
    SpliceSlice(data, FatBase(g, g.numFats) + at, b, FatBase(g, 0), FatBase(g, 0) + FatBytes(g));
    SameTables(g, data, data', 0);
    forall d: nat | 2 <= d <= MaxCluster(g) ensures ClusterBytes(g, data', d) == ClusterBytes(g, data, d) {
      BeforeClusters(g, data, FatBase(g, g.numFats) + at, b, d);
    }
  }

  lemma BeforeClusters(g: Geometry, data: seq<byte>, at: nat, b: seq<byte>, d: nat)
    requires WellFormed(g, |data|) && at + |b| <= RootEnd(g) && 2 <= d <= MaxCluster(g) && at + |b| <= |data|
    ensures ClusterBytes(g, Splice(data, at, b), d) == ClusterBytes(g, data, d)
  {
    hide ClusterOffset, ClusterSize, RootEnd;
    RootPlace(g, |data|);
    ClusterPlace(g, |data|, d);
    SpliceSlice(data, at, b, ClusterOffset(g, d), ClusterOffset(g, d) + ClusterSize(g));
  }

  lemma TablePlaceFirst(g: Geometry, size: nat)
    requires WellFormed(g, size)
    ensures g.numFats > 0 && 0 <= FatBase(g, 0) && FatBase(g, 0) + FatBytes(g) <= FatBase(g, g.numFats)
    ensures 0 <= FatBytes(g)
  {
    TablePlace(g, 0);
  }

  // Bytes written inside a cluster change that cluster and neither the tables nor other clusters.
  ghost predicate WroteInside(g: Geometry, data: seq<byte>, data': seq<byte>, c: nat, at: nat, b: seq<byte>) {
    && WellFormed(g, |data|) && 2 <= c <= MaxCluster(g) && at + |b| <= ClusterSize(g)
    && 0 <= ClusterOffset(g, c) + at && ClusterOffset(g, c) + at + |b| <= |data|
    && data' == Splice(data, ClusterOffset(g, c) + at, b)
  }

  lemma ClusterWritten(g: Geometry, data: seq<byte>, data': seq<byte>, c: nat, at: nat, b: seq<byte>)
    requires WroteInside(g, data, data', c, at, b)
    ensures forall f: nat :: f < g.numFats ==> FatCopy(g, data', f) == FatCopy(g, data, f)
    ensures ClusterBytes(g, data', c) == Splice(ClusterBytes(g, data, c), at, b)
    ensures forall d: nat :: 2 <= d <= MaxCluster(g) && d != c ==> ClusterBytes(g, data', d) == ClusterBytes(g, data, d)
    ensures RootBytes(g, data') == RootBytes(g, data)
  {
    hide FatBase, FatBytes, ClusterOffset, ClusterSize, RootEnd, FatCopy;
    ClusterPlace(g, |data|, c);
    SpliceInner(data, ClusterOffset(g, c), ClusterSize(g), at, b);
    forall f: nat | f < g.numFats ensures FatCopy(g, data', f) == FatCopy(g, data, f) {
      TableUntouched(g, data, data', c, at, b, f);
    }
    forall d: nat | 2 <= d <= MaxCluster(g) && d != c ensures ClusterBytes(g, data', d) == ClusterBytes(g, data, d) {
      ClusterUntouched(g, data, data', c, at, b, d);
    }
    RootUntouched(g, data, data', c, at, b);
  }

  lemma TableUntouched(g: Geometry, data: seq<byte>, data': seq<byte>, c: nat, at: nat, b: seq<byte>, f: nat)
    requires WroteInside(g, data, data', c, at, b) && f < g.numFats
    ensures FatCopy(g, data', f) == FatCopy(g, data, f)
  {
    hide FatBase, FatBytes, ClusterOffset, ClusterSize, FatCopy;
    ClusterPlace(g, |data|, c);
    TablePlace(g, f);
    SpliceSlice(data, ClusterOffset(g, c) + at, b, FatBase(g, f), FatBase(g, f) + FatBytes(g));
    SameTables(g, data, data', f);
  }

  lemma ClusterUntouched(g: Geometry, data: seq<byte>, data': seq<byte>, c: nat, at: nat, b: seq<byte>, d: nat)
    requires WroteInside(g, data, data', c, at, b) && 2 <= d <= MaxCluster(g) && d != c
    ensures ClusterBytes(g, data', d) == ClusterBytes(g, data, d)
  {
    hide FatBase, ClusterOffset, ClusterSize;
    ClusterPlace(g, |data|, c);
    ClusterPlace(g, |data|, d);
    if c < d { ClustersApart(g, c, d); } else { ClustersApart(g, d, c); }
    SpliceSlice(data, ClusterOffset(g, c) + at, b, ClusterOffset(g, d), ClusterOffset(g, d) + ClusterSize(g));
  }

  lemma RootUntouched(g: Geometry, data: seq<byte>, data': seq<byte>, c: nat, at: nat, b: seq<byte>)
    requires WroteInside(g, data, data', c, at, b)
    ensures RootBytes(g, data') == RootBytes(g, data)
  {
    hide FatBase, ClusterOffset, ClusterSize, RootEnd;
    RootPlace(g, |data|);
    SpliceSlice(data, ClusterOffset(g, c) + at, b, FatBase(g, g.numFats), RootEnd(g));
  }

  // The root directory and the clusters outside a set hold what they held.
  ghost predicate SameClusters(g: Geometry, a: seq<byte>, b: seq<byte>, except: set<nat>)
    requires WellFormed(g, |a|) && |a| == |b|
  {
    && RootBytes(g, b) == RootBytes(g, a)
    && forall c: nat :: 2 <= c <= MaxCluster(g) && c !in except ==> ClusterBytes(g, b, c) == ClusterBytes(g, a, c)
  }

  // ---------------------------------------------------------------- the mounted volume

  class Volume {
    const g: Geometry
    const device: MemoryBlockDevice
    var nextFreeHint: nat

    ghost predicate Valid()
      reads this, device
    {
      && device.Valid() && WellFormed(g, |device.data|)
      && nextFreeHint <= MaxCluster(g) + 1
    }

    // The table in use.
    ghost function Table(): (fat: Fat)
      requires Valid()
      reads this, device
      ensures |fat| == g.totalClusters + 2
    {
      FatOf(g, device.data)
    }

    constructor Mount(g: Geometry, device: MemoryBlockDevice)
      requires device.Valid() && WellFormed(g, |device.data|)
      ensures Valid() && this.g == g && this.device == device
    {
      this.g := g;
      this.device := device;
      nextFreeHint := 2;
    }

    // The bytes of one table entry on the device.
    method ReadRaw(f: nat, c: nat) returns (raw: nat)
      requires Valid() && f < g.numFats && c <= MaxCluster(g)
      ensures Fits(g.fatType, TableBytes(g, device.data, f), c)
      ensures raw == Raw(g.fatType, TableBytes(g, device.data, f), c)
    {
      hide FatBase, EntryOffset;
      AllFit(g, device.data, f, c);
      TablePlace(g, f);
      InsideDevice(g, |device.data|);
      var offset := FatBase(g, f) + EntryOffset(g.fatType, c);
      var bytes := device.ReadBytes(offset, EntryWidth(g.fatType));
      var b := bytes.value;
      ghost var table := TableBytes(g, device.data, f);
      SliceOfSlice(device.data, FatBase(g, f), FatBase(g, f) + FatBytes(g),
                   EntryOffset(g.fatType, c), EntryOffset(g.fatType, c) + EntryWidth(g.fatType));
      assert b == table[EntryOffset(g.fatType, c)..EntryOffset(g.fatType, c) + EntryWidth(g.fatType)];
      raw := if g.fatType == Fat32 then Le32(b[0], b[1], b[2], b[3]) else Le16(b[0], b[1]);
    }

    /** `read_fat_entry`. */
    method ReadFatEntry(c: nat) returns (v: nat)
      requires Valid() && c <= MaxCluster(g)
      ensures v == Table()[c]
    {
      hide Raw;
      var raw := ReadRaw(0, c);
      v := match g.fatType
        case Fat12 => if c % 2 == 0 then raw % 0x1000 else raw / 0x10
        case Fat16 => raw
        case Fat32 => raw % 0x1000_0000;
    }

    // One copy's share of `write_fat_entry`.
    method WriteCopy(f: nat, c: nat, v: nat)
      requires Valid() && f < g.numFats && c <= MaxCluster(g)
      modifies device
      ensures Valid() && |device.data| == |old(device.data)|
      ensures TableBytes(g, device.data, f) == TableWith(g, old(device.data), f, c, v)
      ensures forall k: nat :: k < g.numFats && k != f ==>
        TableBytes(g, device.data, k) == TableBytes(g, old(device.data), k)
      ensures SameOutside(g, old(device.data), device.data)
    {
      hide FatBase, EntryOffset, Raw, Merged, Encoded, FatCopy;
      var raw := ReadRaw(f, c);
      ghost var data := device.data;
      RawBound(g.fatType, TableBytes(g, data, f), c, v);
      TablePlace(g, f);
      InsideDevice(g, |data|);
      var bytes := Encoded(g.fatType, Merged(g.fatType, c, raw, v));
      var done := device.WriteBytes(FatBase(g, f) + EntryOffset(g.fatType, c), bytes);
      EntryWritten(g, data, f, c, v, device.data, bytes);
    }

    /**
     `write_fat_entry`: the entry is updated in every copy of the table, with the bits around it
     kept, and nothing else changes.
     */
    method WriteFatEntry(c: nat, v: nat)
      requires Valid() && c <= MaxCluster(g)
      modifies device
      ensures Valid() && |device.data| == |old(device.data)|
      ensures forall f: nat :: f < g.numFats ==>
        && TableBytes(g, device.data, f) == TableWith(g, old(device.data), f, c, v)
        && FatCopy(g, device.data, f) == FatCopy(g, old(device.data), f)[c := Masked(g.fatType, v)]
      ensures Table() == old(Table())[c := Masked(g.fatType, v)]
      ensures SameOutside(g, old(device.data), device.data)
      ensures SameClusters(g, old(device.data), device.data, {})
    {
      hide FatCopy, Masked, TableBytes, TableWith, WellFormed;
      for f := 0 to g.numFats
        invariant Valid() && |device.data| == |old(device.data)|
        invariant forall k: nat :: k < f ==> TableBytes(g, device.data, k) == TableWith(g, old(device.data), k, c, v)
        invariant forall k: nat :: f <= k < g.numFats ==>
          TableBytes(g, device.data, k) == TableBytes(g, old(device.data), k)
        invariant SameOutside(g, old(device.data), device.data)
      {
        WithSame(g, old(device.data), device.data, f, c, v);
        WriteCopy(f, c, v);
      }
      forall f: nat | f < g.numFats
        ensures FatCopy(g, device.data, f) == FatCopy(g, old(device.data), f)[c := Masked(g.fatType, v)]
      {
        CopyWritten(g, old(device.data), device.data, f, c, v);
      }
      TablePlaceFirst(g, |device.data|);
      SameOutsideRoot(g, old(device.data), device.data);
      forall d: nat | 2 <= d <= MaxCluster(g)
        ensures ClusterBytes(g, device.data, d) == ClusterBytes(g, old(device.data), d)
      {
        SameOutsideClusters(g, old(device.data), device.data, d);
      }
    }

    /** Writes bytes inside one cluster. */
    method WriteCluster(c: nat, at: nat, b: seq<byte>) returns (r: Result<(), FsError>)
      requires Valid() && 2 <= c <= MaxCluster(g) && at + |b| <= ClusterSize(g)
      modifies device
      ensures Valid() && r.Ok? && |device.data| == |old(device.data)|
      ensures Table() == old(Table())
      ensures ClusterBytes(g, device.data, c) == Splice(ClusterBytes(g, old(device.data), c), at, b)
      ensures SameClusters(g, old(device.data), device.data, {c})
    {
      hide ClusterOffset, ClusterSize, FatCopy;
      ClusterPlace(g, |device.data|, c);
      ClusterToOffsetSucceeds(g, |device.data|, c);
      var offset := ClusterToOffset(g, c).value;
      var done := device.WriteBytes(offset + at, b);
      ClusterWritten(g, old(device.data), device.data, c, at, b);
      return Ok(());
    }

    // One of the two ranges `allocate_cluster` searches.
    method FindFree(lo: nat, hi: nat) returns (found: Option<nat>)
      requires Valid() && 2 <= lo && hi <= MaxCluster(g)
      ensures found.Some? ==> lo <= found.value <= hi && Table()[found.value] == 0
      ensures found.Some? ==> forall c :: lo <= c < found.value ==> Table()[c] != 0
      ensures found.None? ==> forall c :: lo <= c <= hi ==> Table()[c] != 0
    {
      hide FatOf;
      var c := lo;
      while c <= hi
        invariant lo <= c
        invariant forall k :: lo <= k < c && k <= hi ==> Table()[k] != 0
      {
        var v := ReadFatEntry(c);
        if v == 0 {
          return Some(c);
        }
        c := c + 1;
      }
      return None;
    }

    /**
     `allocate_cluster`: wherever the hint stands, a free cluster is found if there is one; it
     becomes a chain of its own, filled with zeros, and nothing else changes.
     */
    method AllocateCluster() returns (r: Result<nat, FsError>)
      requires Valid()
      modifies this, device
      ensures Valid() && |device.data| == |old(device.data)|
      ensures r == Err(IoError) <==> FreeClusters(old(Table())) == {}
      ensures r.Err? ==> r == Err(IoError) && device.data == old(device.data)
      ensures r.Ok? ==>
        var c := r.value;
        && InRange(old(Table()), c) && old(Table())[c] == 0 && nextFreeHint == c + 1
        && FirstFreeFrom(old(Table()), Max(old(nextFreeHint), 2), c)
        && Table() == old(Table())[c := EocMarker(g.fatType)]
        && Zeroed(g, device.data, c)
        && SameClusters(g, old(device.data), device.data, {c})
    {
      hide FatOf, WellFormed;
      var start := Max(nextFreeHint, 2);
      var found := FindFree(start, MaxCluster(g));
      if found.None? {
        found := FindFree(2, start - 1);
      }
      if found.None? {
        assert FreeClusters(Table()) == {};
        return Err(IoError);
      }
      var c := found.value;
      assert c in FreeClusters(Table());
      WriteFatEntry(c, EocMarker(g.fatType));
      ghost var mid := device.data;
      assert Masked(g.fatType, EocMarker(g.fatType)) == EocMarker(g.fatType);
      ClusterPositive(g, |device.data|, c);
      var zeroed := WriteCluster(c, 0, Zeros(ClusterSize(g)));
      SpliceWhole(ClusterBytes(g, mid, c), Zeros(ClusterSize(g)));
      nextFreeHint := c + 1;
      return Ok(c);
    }

    /**
     `collect_chain`: ends whatever the table holds. It fails exactly when the walk meets a
     cluster twice; otherwise it gives the whole walk, which is no longer than there are clusters.
     */
    method CollectChain(start: nat) returns (r: Result<seq<nat>, FsError>)
      requires Valid()
      ensures r == Err(IoError) <==> Cycles(g.fatType, Table(), start)
      ensures r.Err? ==> r == Err(IoError)
      ensures r.Ok? ==>
        && IsWhole(g.fatType, Table(), start, r.value) && Distinct(r.value)
        && |r.value| <= g.totalClusters
    {
      hide FatOf, WellFormed, Follow;
      ghost var fat := Table();
      if start < 2 {
        WholeMeansNoCycle(g.fatType, fat, start, []);
        return Ok([]);
      }
      var chain: seq<nat> := [];
      var current: nat := start;
      var remaining: nat := g.totalClusters + 2;
      var ended := false;
      while 2 <= current <= MaxCluster(g) && remaining > 0 && !ended
        invariant IsWalk(g.fatType, fat, start, chain)
        invariant remaining + |chain| == |fat| + if ended then 1 else 0
        invariant !ended && chain == [] ==> current == start
        invariant !ended && chain != [] && InRange(fat, current) ==>
          Follow(g.fatType, fat, chain[|chain| - 1]) == Some(current)
        invariant (ended && chain != []) || (!ended && chain != [] && !InRange(fat, current)) ==>
          Follow(g.fatType, fat, chain[|chain| - 1]) == None
        invariant ended ==> chain != [] && remaining > 0
        decreases !ended, remaining
      {
        chain := chain + [current];
        var next := ReadFatEntry(current);
        StepOrEnd(g.fatType, fat, current, next);
        if next < 2 || IsEoc(g.fatType, next) {
          ended := true;
        } else {
          current := next;
          remaining := remaining - 1;
        }
      }
      if remaining == 0 {
        TooLong(g.fatType, fat, start, chain);
        return Err(IoError);
      }
      WholeIsDistinct(g.fatType, fat, start, chain);
      WholeMeansNoCycle(g.fatType, fat, start, chain);
      Pigeonhole(fat, chain);
      return Ok(chain);
    }

    // One round of the loop of `ensure_chain_len`: a free cluster is linked to the end of a chain.
    method Extend(chain: seq<nat>, ghost others: set<seq<nat>>) returns (r: Result<nat, FsError>)
      requires Valid() && chain != [] && IsChain(g.fatType, Table(), chain)
      requires Apart(g.fatType, Table(), others, chain)
      modifies this, device
      ensures Valid() && |device.data| == |old(device.data)|
      ensures r == Err(IoError) <==> FreeClusters(old(Table())) == {}
      ensures r.Err? ==> r == Err(IoError) && device.data == old(device.data)
      ensures r.Ok? ==>
        && InRange(old(Table()), r.value) && old(Table())[r.value] == 0
        && IsChain(g.fatType, Table(), chain + [r.value])
        && Apart(g.fatType, Table(), others, chain + [r.value])
        && Table() == old(Table())[r.value := EocMarker(g.fatType)][chain[|chain| - 1] := r.value]
        && FreeClusters(Table()) == FreeClusters(old(Table())) - {r.value}
        && Zeroed(g, device.data, r.value)
        && SameClusters(g, old(device.data), device.data, {r.value})
    {
      hide FatOf, WellFormed, FreeClusters, ClusterSize, IsChain, Apart, SameClusters, Numbered;
      ghost var fat := Table();
      IsNumbered(g, |device.data|);
      r := AllocateCluster();
      if r.Err? {
        return;
      }
      var next := r.value;
      var last := chain[|chain| - 1];
      Linked(g.fatType, fat, chain, next, others);
      ghost var data := device.data;
      Link(last, next);
      ClustersStill(g, old(device.data), data, device.data, next);
    }

    // The two entry writes that link a cluster to the end of a chain.
    method Link(last: nat, next: nat)
      requires Valid() && last <= MaxCluster(g) && next <= MaxCluster(g) && last != next
      requires Table()[next] == EocMarker(g.fatType)
      modifies device
      ensures Valid() && |device.data| == |old(device.data)|
      ensures Table() == old(Table())[last := next] && SameClusters(g, old(device.data), device.data, {})
    {
      hide FatOf, WellFormed, ClusterSize;
      IsNumbered(g, |device.data|);
      WriteFatEntry(last, next);
      ghost var data := device.data;
      WriteFatEntry(next, EocMarker(g.fatType));
      ClustersTwice(g, old(device.data), data, device.data, {}, {}, {});
      assert Table() == old(Table())[last := next];
    }

    /**
     `ensure_chain_len`: makes the chain that begins at `first` at least `needed` clusters long. The
     old chain is a prefix of the new one; every added cluster was free and is zeroed; all other
     chains stay as they are and apart from it. It fails exactly when too few clusters are free.
     `grown` is the chain on the device at the end, also after a failure.
     */
    method EnsureChainLen(first: nat, needed: nat, ghost ch: seq<nat>, ghost others: set<seq<nat>>)
      returns (r: Result<(nat, seq<nat>), FsError>, ghost grown: seq<nat>)
      requires Valid()
      requires if ch == [] then first < 2 else IsChain(g.fatType, Table(), ch) && ch[0] == first
      requires Apart(g.fatType, Table(), others, ch)
      modifies this, device
      ensures Valid() && |device.data| == |old(device.data)|
      ensures grown != [] ==> IsChain(g.fatType, Table(), grown)
      ensures Apart(g.fatType, Table(), others, grown)
      ensures GrownFrom(g, old(device.data), device.data, ch, grown)
      ensures needed == 0 ==> r == Ok((first, [])) && device.data == old(device.data) && grown == ch
      ensures needed > 0 ==>
        && (r.Ok? <==> needed <= |ch| + |FreeClusters(old(Table()))|)
        && (r.Ok? ==> grown != [] && r.value == (grown[0], grown) && |grown| == Max(|ch|, needed))
        && (r.Err? ==> r == Err(IoError) && FreeClusters(Table()) == {})
    {
      hide FatOf, WellFormed, ClusterSize, IsChain, Apart, FreeClusters, GrownFrom;
      grown := ch;
      GrownNot(g, device.data, ch);
      if needed == 0 {
        return Ok((first, [])), grown;
      }
      var head := first;
      var collected := CollectChain(first);
      CollectsChain(g.fatType, Table(), first, ch, collected);
      var chain := collected.value;
      if chain == [] {
        var start := AllocateFirst(others);
        if start.Err? {
          return Err(IoError), grown;
        }
        head := start.value;
        chain := [head];
      }
      grown := chain;
      GrownCount(g, old(device.data), device.data, ch, chain);
      while |chain| < needed
        invariant Valid() && |device.data| == |old(device.data)|
        invariant grown == chain && chain != [] && chain[0] == head
        invariant IsChain(g.fatType, Table(), chain) && Apart(g.fatType, Table(), others, chain)
        invariant GrownFrom(g, old(device.data), device.data, ch, chain)
        invariant |FreeClusters(Table())| + |chain| == |FreeClusters(old(Table()))| + |ch|
        invariant |ch| <= |chain| <= Max(|ch|, needed)
      {
        ghost var data := device.data;
        var next := Extend(chain, others);
        if next.Err? {
          return Err(IoError), grown;
        }
        GrowsOne(g, old(device.data), data, device.data, ch, chain, next.value);
        chain := chain + [next.value];
        grown := chain;
        GrownCount(g, old(device.data), device.data, ch, chain);
      }
      return Ok((head, chain)), grown;
    }

    // The first cluster of a file that has none.
    method AllocateFirst(ghost others: set<seq<nat>>) returns (r: Result<nat, FsError>)
      requires Valid() && Apart(g.fatType, Table(), others, [])
      modifies this, device
      ensures Valid() && |device.data| == |old(device.data)|
      ensures r == Err(IoError) <==> FreeClusters(old(Table())) == {}
      ensures r.Err? ==> r == Err(IoError) && device.data == old(device.data)
      ensures r.Ok? ==>
        && IsChain(g.fatType, Table(), [r.value]) && Apart(g.fatType, Table(), others, [r.value])
        && GrownFrom(g, old(device.data), device.data, [], [r.value])
    {
      hide FatOf, WellFormed, ClusterSize, FreeClusters;
      ghost var fat := Table();
      IsNumbered(g, |device.data|);
      r := AllocateCluster();
      if r.Ok? {
        ChainOfOne(g.fatType, fat, r.value);
        OthersKept(g.fatType, fat, r.value, others);
        FreeAfterUse(fat, r.value, EocMarker(g.fatType));
        assert [r.value][0..] == [r.value] && Elements([r.value]) == {r.value};
      }
    }
  }

  // Going up from `start`, and then round from cluster 2, c is the first free cluster.
  ghost predicate FirstFreeFrom(fat: Fat, start: nat, c: nat) {
    if c >= start then forall k :: start <= k < c && k < |fat| ==> fat[k] != 0
    else
      && (forall k :: start <= k < |fat| ==> fat[k] != 0)
      && (forall k :: 2 <= k < c && k < |fat| ==> fat[k] != 0)
  }

  lemma ClusterPositive(g: Geometry, size: nat, c: nat)
    requires WellFormed(g, size) && 2 <= c <= MaxCluster(g)
    ensures ClusterSize(g) > 0
  {
    ClusterPlace(g, size, c);
  }

  // What the entry of a cluster says about the walk.
  lemma StepOrEnd(t: FatType, fat: Fat, c: nat, next: nat)
    requires InRange(fat, c) && next == fat[c]
    ensures next < 2 || IsEoc(t, next) || !InRange(fat, next) ==> Follow(t, fat, c) == None
    ensures !(next < 2 || IsEoc(t, next)) && InRange(fat, next) ==> Follow(t, fat, c) == Some(next)
  {
  }

  // A walk as long as the table has met some cluster twice.
  lemma TooLong(t: FatType, fat: Fat, start: nat, ch: seq<nat>)
    requires IsWalk(t, fat, start, ch) && |ch| >= |fat| && |fat| >= 2
    ensures Cycles(t, fat, start)
  {
    if Distinct(ch) {
      Pigeonhole(fat, ch);
      assert false;
    }
  }

  // ---------------------------------------------------------------- growing a chain among others

  // The other chains are well formed and share no cluster with ch.
  ghost predicate Apart(t: FatType, fat: Fat, others: set<seq<nat>>, ch: seq<nat>) {
    forall o :: o in others ==> IsChain(t, fat, o) && forall c :: c in ch ==> c !in o
  }

  // The clusters added to ch were free in `before` and hold zeros now.
  ghost predicate Added(before: Fat, g: Geometry, data: seq<byte>, ch: seq<nat>, grown: seq<nat>)
    requires WellFormed(g, |data|)
  {
    forall i :: |ch| <= i < |grown| ==>
      && InRange(before, grown[i]) && before[grown[i]] == 0
      && (grown[i] <= MaxCluster(g) ==> Zeroed(g, data, grown[i]))
  }

  // Clusters that were free, are used now, and belong to no chain.
  ghost function Lost(before: Fat, fat: Fat, chains: set<seq<nat>>): set<nat> {
    set c | c in FreeClusters(before) - FreeClusters(fat) && forall o :: o in chains ==> c !in o
  }

  lemma IsNumbered(g: Geometry, size: nat)
    requires WellFormed(g, size)
    ensures forall fat: Fat :: |fat| == g.totalClusters + 2 ==> Numbered(g.fatType, fat)
    ensures forall c: nat :: c <= MaxCluster(g) ==> Masked(g.fatType, c) == c
    ensures Masked(g.fatType, EocMarker(g.fatType)) == EocMarker(g.fatType) && EocMarker(g.fatType) != 0
  {
  }

  lemma ClustersTwice(g: Geometry, a: seq<byte>, b: seq<byte>, c: seq<byte>, first: set<nat>, second: set<nat>,
                      both: set<nat>)
    requires WellFormed(g, |a|) && |a| == |b| == |c| && first <= both && second <= both
    requires SameClusters(g, a, b, first) && SameClusters(g, b, c, second)
    ensures SameClusters(g, a, c, both)
  {
    hide WellFormed, ClusterBytes, RootBytes;
  }

  lemma ClustersStill(g: Geometry, a: seq<byte>, b: seq<byte>, c: seq<byte>, n: nat)
    requires WellFormed(g, |a|) && |a| == |b| == |c| && 2 <= n <= MaxCluster(g)
    requires SameClusters(g, a, b, {n}) && SameClusters(g, b, c, {})
    ensures SameClusters(g, a, c, {n}) && ClusterBytes(g, c, n) == ClusterBytes(g, b, n)
  {
    ClustersTwice(g, a, b, c, {n}, {}, {n});
  }

  // Chains other than the one that takes a free cluster are left alone.
  lemma OthersKept(t: FatType, fat: Fat, n: nat, others: set<seq<nat>>)
    requires InRange(fat, n) && fat[n] == 0 && Apart(t, fat, others, [])
    ensures Apart(t, fat[n := EocMarker(t)], others, [n])
  {
    forall o | o in others ensures IsChain(t, fat[n := EocMarker(t)], o) && n !in o {
      if n in o { ChainIsNotFree(t, fat, o, n); assert false; }
      ChainUntouched(t, fat, o, n, EocMarker(t));
    }
  }

  lemma Linked(t: FatType, fat: Fat, chain: seq<nat>, next: nat, others: set<seq<nat>>)
    requires IsChain(t, fat, chain) && InRange(fat, next) && fat[next] == 0 && Numbered(t, fat)
    requires Apart(t, fat, others, chain)
    ensures next !in chain && InRange(fat, chain[|chain| - 1])
    ensures
      var fat' := fat[next := EocMarker(t)][chain[|chain| - 1] := next];
      && IsChain(t, fat', chain + [next]) && Apart(t, fat', others, chain + [next])
      && FreeClusters(fat') == FreeClusters(fat) - {next}
  {
    var last := chain[|chain| - 1];
    var mid := fat[next := EocMarker(t)];
    ChainIsNotFree(t, fat, chain, last);
    if next in chain { ChainIsNotFree(t, fat, chain, next); assert false; }
    ChainLonger(t, fat, chain, next);
    FreeAfterUse(fat, next, EocMarker(t));
    FreeUnchanged(mid, last, next);
    forall o | o in others
      ensures IsChain(t, mid[last := next], o) && forall c :: c in chain + [next] ==> c !in o
    {
      if next in o { ChainIsNotFree(t, fat, o, next); assert false; }
      assert last in chain;
      ChainUntouched(t, fat, o, next, EocMarker(t));
      ChainUntouched(t, mid, o, last, next);
    }
  }

  // `collect_chain` gives the file's chain.
  lemma CollectsChain(t: FatType, fat: Fat, first: nat, ch: seq<nat>, r: Result<seq<nat>, FsError>)
    requires if ch == [] then first < 2 else IsChain(t, fat, ch) && ch[0] == first
    requires r.Err? <==> Cycles(t, fat, first)
    requires r.Ok? ==> IsWhole(t, fat, first, r.value)
    ensures r == Ok(ch)
  {
    if ch != [] { ChainIsWhole(t, fat, ch); }
    WholeMeansNoCycle(t, fat, first, ch);
    WholeUnique(t, fat, first, ch, r.value);
  }

  lemma WholeUnique(t: FatType, fat: Fat, start: nat, a: seq<nat>, b: seq<nat>)
    requires IsWhole(t, fat, start, a) && IsWhole(t, fat, start, b)
    ensures a == b
  {
    WalkEndsHere(t, fat, start, a, b);
    WalkEndsHere(t, fat, start, b, a);
    forall i | 0 <= i < |a| ensures a[i] == b[i] {
      WalksAgree(t, fat, start, a, b, i);
    }
  }

  // A chain grown by clusters that were free: they are zeroed and used now, and nothing else changed.
  ghost predicate GrownFrom(g: Geometry, data: seq<byte>, data': seq<byte>, ch: seq<nat>, grown: seq<nat>)
    requires WellFormed(g, |data|) && |data'| == |data|
  {
    var before, fat := FatOf(g, data), FatOf(g, data');
    && ch <= grown && Added(before, g, data', ch, grown)
    && SameClusters(g, data, data', Elements(grown[|ch|..]))
    && FreeClusters(fat) == FreeClusters(before) - Elements(grown[|ch|..])
    && |FreeClusters(fat)| + |grown| == |FreeClusters(before)| + |ch|
    && StillUsed(before, fat)
  }

  ghost predicate StillUsed(before: Fat, fat: Fat) {
    |before| == |fat| && forall c :: 0 <= c < |fat| && before[c] != 0 ==> fat[c] != 0
  }

  lemma GrownNot(g: Geometry, data: seq<byte>, ch: seq<nat>)
    requires WellFormed(g, |data|)
    ensures GrownFrom(g, data, data, ch, ch)
  {
    hide WellFormed, FatOf, ClusterSize, FreeClusters;
    assert ch[|ch|..] == [] && Elements(ch[|ch|..]) == {};
  }

  lemma GrownCount(g: Geometry, data: seq<byte>, data': seq<byte>, ch: seq<nat>, grown: seq<nat>)
    requires WellFormed(g, |data|) && |data'| == |data| && GrownFrom(g, data, data', ch, grown)
    ensures ch <= grown && |FreeClusters(FatOf(g, data'))| + |grown| == |FreeClusters(FatOf(g, data))| + |ch|
  {
    hide WellFormed, FatOf, ClusterSize, FreeClusters, Added, SameClusters;
  }

  // A free cluster was linked to the end of a chain.
  ghost predicate Grew(t: FatType, fat: Fat, fat': Fat, chain: seq<nat>, next: nat) {
    && IsChain(t, fat, chain) && InRange(fat, next) && fat[next] == 0
    && fat' == fat[next := EocMarker(t)][chain[|chain| - 1] := next]
    && FreeClusters(fat') == FreeClusters(fat) - {next}
  }

  // One more added cluster.
  lemma GrowsOne(g: Geometry, data0: seq<byte>, data: seq<byte>, data': seq<byte>, ch: seq<nat>, chain: seq<nat>,
                 next: nat)
    requires WellFormed(g, |data|) && |data0| == |data| == |data'| && 2 <= next <= MaxCluster(g)
    requires Grew(g.fatType, FatOf(g, data), FatOf(g, data'), chain, next)
    requires GrownFrom(g, data0, data, ch, chain)
    requires Zeroed(g, data', next) && SameClusters(g, data, data', {next})
    ensures GrownFrom(g, data0, data', ch, chain + [next])
  {
    hide WellFormed, FatOf, ClusterSize, ClusterBytes, RootBytes, IsChain, Added, SameClusters, FreeClusters, Elements;
    hide StillUsed;
    var before, fat := FatOf(g, data0), FatOf(g, data);
    if next in chain { ChainIsNotFree(g.fatType, fat, chain, next); assert false; }
    OneLess(before, fat, Elements(chain[|ch|..]), next);
    AddedSuffix(ch, chain, next);
    ClustersTwice(g, data0, data, data', Elements(chain[|ch|..]), {next}, Elements(chain[|ch|..]) + {next});
    StaysUsed(before, fat, g.fatType, chain, next);
    StillZero(before, g, data, data', ch, chain, next);
    assert ch <= chain + [next];
  }

  lemma OneLess(before: Fat, fat: Fat, added: set<nat>, next: nat)
    requires InRange(fat, next) && fat[next] == 0 && FreeClusters(fat) == FreeClusters(before) - added
    ensures FreeClusters(fat) - {next} == FreeClusters(before) - (added + {next})
    ensures |FreeClusters(fat) - {next}| == |FreeClusters(fat)| - 1
    ensures |before| == |fat| ==> before[next] == 0
  {
    assert next in FreeClusters(fat);
  }

  lemma StaysUsed(before: Fat, fat: Fat, t: FatType, chain: seq<nat>, next: nat)
    requires StillUsed(before, fat) && IsChain(t, fat, chain) && InRange(fat, next)
    ensures StillUsed(before, fat[next := EocMarker(t)][chain[|chain| - 1] := next])
  {
  }

  lemma StillZero(before: Fat, g: Geometry, data: seq<byte>, data': seq<byte>, ch: seq<nat>, chain: seq<nat>, next: nat)
    requires WellFormed(g, |data|) && |data'| == |data| && |before| == g.totalClusters + 2
    requires ch <= chain && next !in chain && Added(before, g, data, ch, chain)
    requires InRange(before, next) && before[next] == 0
    requires Zeroed(g, data', next) && SameClusters(g, data, data', {next})
    ensures Added(before, g, data', ch, chain + [next])
  {
    hide WellFormed, ClusterSize, ClusterBytes, RootBytes;
    var longer := chain + [next];
    forall i | |ch| <= i < |longer|
      ensures InRange(before, longer[i]) && before[longer[i]] == 0
      ensures longer[i] <= MaxCluster(g) ==> Zeroed(g, data', longer[i])
    {
      if i < |chain| {
        assert longer[i] == chain[i] && chain[i] in chain;
      }
    }
  }

  lemma AddedSuffix(ch: seq<nat>, chain: seq<nat>, next: nat)
    requires ch <= chain
    ensures Elements((chain + [next])[|ch|..]) == Elements(chain[|ch|..]) + {next}
  {
    assert (chain + [next])[|ch|..] == chain[|ch|..] + [next];
  }
}
