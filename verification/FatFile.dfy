/**
 Files on a FAT volume (`FatInode::read` and `FatInode::write` in kernel/src/fs/fat.rs): a file's
 bytes are those of its clusters in chain order, cut at its size. Reads and writes go cluster by
 cluster through the table and the sector device; a cache of one chain position shortens the way.
 */
module FatFile {
  import opened Base
  import opened Bytes
  import opened BlockDevice
  import opened FatTable
  import opened FatChain
  import opened FatVolume

  // ---------------------------------------------------------------- the bytes of a chain

  ghost predicate InVolume(g: Geometry, ch: seq<nat>) {
    forall i :: 0 <= i < |ch| ==> 2 <= ch[i] <= MaxCluster(g)
  }

  ghost function ChainBytes(g: Geometry, data: seq<byte>, ch: seq<nat>): (s: seq<byte>)
    requires WellFormed(g, |data|) && InVolume(g, ch)
    ensures |s| == |ch| * ClusterSize(g)
  {
    if ch == [] then []
    else
      var k := |ch| - 1;
      Products(k, 1, ClusterSize(g));
      ChainBytes(g, data, ch[..k]) + ClusterBytes(g, data, ch[k])
  }

  lemma {:induction false} ChainConcat(g: Geometry, data: seq<byte>, a: seq<nat>, b: seq<nat>)
    requires WellFormed(g, |data|) && InVolume(g, a) && InVolume(g, b)
    ensures ChainBytes(g, data, a + b) == ChainBytes(g, data, a) + ChainBytes(g, data, b)
    decreases |b|
  {
    hide WellFormed, ClusterBytes, ClusterSize;
    if b == [] {
      assert a + b == a;
    } else {
      var k := |b| - 1;
      assert (a + b)[..|a + b| - 1] == a + b[..k];
      ChainConcat(g, data, a, b[..k]);
    }
  }

  // A cluster's place in the bytes of its chain.
  lemma ChainAt(g: Geometry, data: seq<byte>, ch: seq<nat>, k: nat)
    requires WellFormed(g, |data|) && InVolume(g, ch) && k < |ch|
    ensures k * ClusterSize(g) >= 0 && |ch[..k]| == k && |ch[k + 1..]| == |ch| - k - 1
    ensures ChainBytes(g, data, ch)
         == ChainBytes(g, data, ch[..k]) + ClusterBytes(g, data, ch[k]) + ChainBytes(g, data, ch[k + 1..])
  {
    hide WellFormed, ClusterBytes, ClusterSize;
    assert ch[..k + 1][..k] == ch[..k];
    assert |ChainBytes(g, data, ch[..k])| == k * ClusterSize(g);
    assert ChainBytes(g, data, ch[..k + 1]) == ChainBytes(g, data, ch[..k]) + ClusterBytes(g, data, ch[k]);
    SplitChain(g, data, ch, k + 1);
  }

  lemma SplitChain(g: Geometry, data: seq<byte>, ch: seq<nat>, k: nat)
    requires WellFormed(g, |data|) && InVolume(g, ch) && k <= |ch|
    ensures ChainBytes(g, data, ch) == ChainBytes(g, data, ch[..k]) + ChainBytes(g, data, ch[k..])
  {
    hide WellFormed, ChainBytes;
    assert ch == ch[..k] + ch[k..];
    ChainConcat(g, data, ch[..k], ch[k..]);
  }

  // Reading inside one cluster.
  lemma ChainSlice(g: Geometry, data: seq<byte>, ch: seq<nat>, k: nat, at: nat, len: nat)
    requires WellFormed(g, |data|) && InVolume(g, ch) && k < |ch| && at + len <= ClusterSize(g)
    ensures
      var p := k * ClusterSize(g) + at;
      && 0 <= p && p + len <= |ChainBytes(g, data, ch)|
      && ChainBytes(g, data, ch)[p..p + len] == ClusterBytes(g, data, ch[k])[at..at + len]
  {
    hide WellFormed, ClusterSize, ClusterBytes;
    ChainAt(g, data, ch, k);
    MiddleSlice(ChainBytes(g, data, ch[..k]), ClusterBytes(g, data, ch[k]), ChainBytes(g, data, ch[k + 1..]), at, len);
  }

  lemma MiddleSlice(a: seq<byte>, m: seq<byte>, b: seq<byte>, at: nat, len: nat)
    requires at + len <= |m|
    ensures (a + m + b)[|a| + at..|a| + at + len] == m[at..at + len]
  {
  }

  lemma MiddleSplice(a: seq<byte>, m: seq<byte>, b: seq<byte>, at: nat, part: seq<byte>)
    requires at + |part| <= |m|
    ensures a + Splice(m, at, part) + b == Splice(a + m + b, |a| + at, part)
  {
  }

  // A chain's bytes are those of its clusters, so clusters outside it do not matter.
  lemma {:induction false} ChainAlike(g: Geometry, a: seq<byte>, b: seq<byte>, ch: seq<nat>)
    requires WellFormed(g, |a|) && |a| == |b| && InVolume(g, ch)
    requires forall i :: 0 <= i < |ch| ==> ClusterBytes(g, b, ch[i]) == ClusterBytes(g, a, ch[i])
    ensures ChainBytes(g, b, ch) == ChainBytes(g, a, ch)
    decreases |ch|
  {
    hide WellFormed, ClusterBytes, ClusterSize;
    if ch != [] {
      ChainAlike(g, a, b, ch[..|ch| - 1]);
    }
  }

  lemma ChainSame(g: Geometry, data: seq<byte>, data': seq<byte>, ch: seq<nat>, except: set<nat>)
    requires WellFormed(g, |data|) && |data'| == |data| && InVolume(g, ch)
    requires SameClusters(g, data, data', except) && forall i :: 0 <= i < |ch| ==> ch[i] !in except
    ensures ChainBytes(g, data', ch) == ChainBytes(g, data, ch)
  {
    hide WellFormed, ClusterBytes, ChainBytes;
    ChainAlike(g, data, data', ch);
  }

  // Writing inside one cluster of a chain.
  lemma ChainSplice(g: Geometry, data: seq<byte>, data': seq<byte>, ch: seq<nat>, k: nat, at: nat, part: seq<byte>)
    requires WellFormed(g, |data|) && |data'| == |data| && InVolume(g, ch) && Distinct(ch) && k < |ch|
    requires at + |part| <= ClusterSize(g)
    requires ClusterBytes(g, data', ch[k]) == Splice(ClusterBytes(g, data, ch[k]), at, part)
    requires SameClusters(g, data, data', {ch[k]})
    ensures
      var p := k * ClusterSize(g) + at;
      && 0 <= p && p + |part| <= |ChainBytes(g, data, ch)|
      && ChainBytes(g, data', ch) == Splice(ChainBytes(g, data, ch), p, part)
  {
    hide WellFormed, ClusterBytes, ClusterSize;
    ChainAt(g, data, ch, k);
    ChainAt(g, data', ch, k);
    ChainSame(g, data, data', ch[..k], {ch[k]});
    ChainSame(g, data, data', ch[k + 1..], {ch[k]});
    ChainSlice(g, data, ch, k, at, |part|);
    MiddleSplice(ChainBytes(g, data, ch[..k]), ClusterBytes(g, data, ch[k]), ChainBytes(g, data, ch[k + 1..]),
                 at, part);
  }

  // Zeroed clusters add zeros.
  lemma {:induction false} ChainZeros(g: Geometry, data: seq<byte>, ch: seq<nat>)
    requires WellFormed(g, |data|) && InVolume(g, ch)
    requires forall i :: 0 <= i < |ch| ==> Zeroed(g, data, ch[i])
    ensures |ch| * ClusterSize(g) >= 0 && ChainBytes(g, data, ch) == Zeros(|ch| * ClusterSize(g))
    decreases |ch|
  {
    hide WellFormed, ClusterSize;
    assert |ChainBytes(g, data, ch)| == |ch| * ClusterSize(g);
    if ch != [] {
      ChainZeros(g, data, ch[..|ch| - 1]);
    }
  }

  // A chain that took zeroed clusters holds its old bytes and then zeros.
  lemma ChainGrown(g: Geometry, data: seq<byte>, data': seq<byte>, before: Fat, ch: seq<nat>, grown: seq<nat>)
    requires WellFormed(g, |data|) && |data'| == |data| && |before| == g.totalClusters + 2
    requires ch <= grown && InVolume(g, grown) && Distinct(grown)
    requires Added(before, g, data', ch, grown) && SameClusters(g, data, data', Elements(grown[|ch|..]))
    ensures InVolume(g, ch) && (|grown| - |ch|) * ClusterSize(g) >= 0
    ensures ChainBytes(g, data', grown) == ChainBytes(g, data, ch) + Zeros((|grown| - |ch|) * ClusterSize(g))
  {
    hide WellFormed, ClusterSize, ClusterBytes;
    var added := grown[|ch|..];
    assert grown == ch + added;
    assert forall i :: 0 <= i < |added| ==> added[i] == grown[|ch| + i];
    assert forall i :: 0 <= i < |ch| ==> ch[i] == grown[i];
    ChainConcat(g, data', ch, added);
    ChainZeros(g, data', added);
    forall i | 0 <= i < |ch| ensures ch[i] !in Elements(added) {
      assert forall j :: 0 <= j < |added| ==> grown[i] != added[j];
    }
    ChainSame(g, data, data', ch, Elements(added));
  }

  // ---------------------------------------------------------------- directory entries

  const DIR_ENTRY_SIZE: nat := 32

  // The fields of a directory entry that a write changes, as the directory parser reads them.
  function FirstClusterOf(entry: seq<byte>): nat
    requires |entry| == DIR_ENTRY_SIZE
  {
    Le16(entry[20], entry[21]) * 0x1_0000 + Le16(entry[26], entry[27])
  }

  function SizeOf(entry: seq<byte>): nat
    requires |entry| == DIR_ENTRY_SIZE
  {
    Le32(entry[28], entry[29], entry[30], entry[31])
  }

  // `update_dir_entry_metadata` on the bytes of an entry.
  function Updated(entry: seq<byte>, first: nat, size: nat): (r: seq<byte>)
    requires |entry| == DIR_ENTRY_SIZE && first < 0x1_0000_0000 && size < 0x1_0000_0000
    ensures |r| == DIR_ENTRY_SIZE
  {
    var withHigh := Splice(entry, 20, ToLe16(first / 0x1_0000));
    var withLow := Splice(withHigh, 26, ToLe16(first % 0x1_0000));
    Splice(withLow, 28, ToLe32(size))
  }

  /** An updated entry reads back as the new first cluster and size; all other bytes stay. */
  lemma UpdatedReadsBack(entry: seq<byte>, first: nat, size: nat)
    requires |entry| == DIR_ENTRY_SIZE && first < 0x1_0000_0000 && size < 0x1_0000_0000
    ensures FirstClusterOf(Updated(entry, first, size)) == first && SizeOf(Updated(entry, first, size)) == size
    ensures
      var e := Updated(entry, first, size);
      && LeValue(e[20..22]) == first / 0x1_0000 && LeValue(e[26..28]) == first % 0x1_0000 && LeValue(e[28..32]) == size
      && forall i :: 0 <= i < 20 || 22 <= i < 26 ==> e[i] == entry[i]
  {
    hide ToLe16, ToLe32, Le16, Le32, LeValue;
    var high, low, tail := ToLe16(first / 0x1_0000), ToLe16(first % 0x1_0000), ToLe32(size);
    var e := Updated(entry, first, size);
    assert e[20] == high[0] && e[21] == high[1] && e[26] == low[0] && e[27] == low[1];
    assert e[28] == tail[0] && e[29] == tail[1] && e[30] == tail[2] && e[31] == tail[3];
    assert e[20..22] == high && e[26..28] == low && e[28..32] == tail;
    TwoBytes(first / 0x1_0000);
    TwoBytes(first % 0x1_0000);
    FourBytes(size);
  }

  // Where a file's directory entry lies: in the fixed root directory or in a directory's cluster.
  datatype Place = InRoot(at: nat) | InCluster(cluster: nat, at: nat)

  ghost predicate PlaceOk(g: Geometry, fat: Fat, place: Place, ch: seq<nat>) {
    match place
    case InRoot(at) => FatBase(g, g.numFats) + at + 32 <= RootEnd(g)
    case InCluster(c, at) =>
      at + 32 <= ClusterSize(g) && InRange(fat, c) && fat[c] != 0 && c !in ch
  }

  function PlaceOffset(g: Geometry, place: Place): int {
    match place
    case InRoot(at) => FatBase(g, g.numFats) + at
    case InCluster(c, at) => ClusterOffset(g, c) + at
  }

  // The directory bytes around the entry.
  ghost function DirectoryBytes(g: Geometry, data: seq<byte>, fat: Fat, place: Place, ch: seq<nat>): (s: seq<byte>)
    requires WellFormed(g, |data|) && |fat| == g.totalClusters + 2 && PlaceOk(g, fat, place, ch)
    ensures place.at + DIR_ENTRY_SIZE <= |s|
  {
    match place
    case InRoot(_) => RootBytes(g, data)
    case InCluster(c, _) => ClusterBytes(g, data, c)
  }

  // ---------------------------------------------------------------- the plain file behind a write

  ghost predicate ZeroBetween(s: seq<byte>, lo: nat, hi: nat) {
    forall i :: lo <= i < hi && i < |s| ==> s[i] == 0
  }

  /**
   A write through clusters is the plain write exactly when the stored bytes between the old size
   and the offset are zeros: a gap is not cleared. If all bytes past the size are zeros before,
   they are afterwards.
   */
  lemma WriteIsFlat(stored: seq<byte>, size: nat, grow: nat, offset: nat, b: seq<byte>)
    requires size <= |stored| && b != [] && offset + |b| <= |stored| + grow
    ensures
      var after := Splice(stored + Zeros(grow), offset, b);
      && Max(size, offset + |b|) <= |after|
      && (after[..Max(size, offset + |b|)] == FlatWrite(stored[..size], offset, b)
          <==> ZeroBetween(stored, size, offset))
      && (ZeroBetween(stored, size, |stored|) ==> ZeroBetween(after, Max(size, offset + |b|), |after|))
  {
    hide Splice;
    var full := stored + Zeros(grow);
    var after := Splice(full, offset, b);
    var n := Max(size, offset + |b|);
    var flat := FlatWrite(stored[..size], offset, b);
    forall i: nat | i < |after|
      ensures after[i] == if offset <= i < offset + |b| then b[i - offset] else full[i]
    {
      SpliceAt(full, offset, b, i);
    }
    if after[..n] == flat {
      forall i: nat | size <= i < offset && i < |stored| ensures stored[i] == 0 {
        assert after[..n][i] == flat[i];
      }
    }
  }

  /** So it is not at this input: two old bytes lie past the end, and the first of them shows up. */
  lemma OldBytesShowUp()
    ensures Splice([1, 7, 7], 2, [9])[..3] == [1, 7, 9] != FlatWrite([1], 2, [9]) == [1, 0, 9]
  {
    var gap: seq<byte>, shown: seq<byte> := [1, 0, 9], [1, 7, 9];
    assert Splice([1, 7, 7], 2, [9]) == shown;
    assert FlatWrite([1], 2, [9]) == gap;
    assert gap[1] != shown[1];
  }

  /** A write that ends past 32 bits fails; the file is as before exactly when it put the same bytes there. */
  lemma FailedWriteShows(stored: seq<byte>, size: nat, grow: nat, offset: nat, b: seq<byte>)
    requires size <= |stored| && size <= offset + |b| <= |stored| + grow
    ensures
      var after := Splice(stored + Zeros(grow), offset, b);
      && size <= |after|
      && (after[..size] == stored[..size] <==> offset >= size || stored[offset..size] == b[..size - offset])
  {
    hide Splice;
    var full := stored + Zeros(grow);
    var after := Splice(full, offset, b);
    forall i: nat | i < |after|
      ensures after[i] == if offset <= i < offset + |b| then b[i - offset] else full[i]
    {
      SpliceAt(full, offset, b, i);
    }
    if offset < size && after[..size] == stored[..size] {
      forall i | 0 <= i < size - offset ensures stored[offset..size][i] == b[..size - offset][i] {
        assert after[..size][offset + i] == stored[..size][offset + i];
      }
    }
    if offset < size && stored[offset..size] == b[..size - offset] {
      forall i | offset <= i < size ensures after[i] == stored[i] {
        assert stored[offset..size][i - offset] == b[..size - offset][i - offset];
      }
    }
  }

  /** At this input the file reads [1, 7] after the failure, and [1, 2] before it. */
  lemma FailedWriteIsSeen()
    ensures
      var b: seq<byte> := [7] + Zeros(0xFFFF_FFFE);
      1 + |b| == 0x1_0000_0000 && Splice([1, 2] + Zeros(0xFFFF_FFFE), 1, b)[..2] == [1, 7] != [1, 2]
  {
    hide Splice;
    var b: seq<byte> := [7] + Zeros(0xFFFF_FFFE);
    var full: seq<byte> := [1, 2] + Zeros(0xFFFF_FFFE);
    SpliceAt(full, 1, b, 0);
    SpliceAt(full, 1, b, 1);
    FailedWriteShows([1, 2], 2, 0xFFFF_FFFE, 1, b);
  }

  // ---------------------------------------------------------------- walking a chain

  // The chain of a file that begins at cluster `first`; numbers below 2 mean no cluster.
  ghost predicate HasChain(t: FatType, fat: Fat, ch: seq<nat>, first: nat) {
    if ch == [] then first < 2 else IsChain(t, fat, ch) && ch[0] == first
  }

  lemma ChainInVolume(g: Geometry, fat: Fat, ch: seq<nat>, first: nat)
    requires |fat| == g.totalClusters + 2 && HasChain(g.fatType, fat, ch, first)
    ensures InVolume(g, ch) && Distinct(ch)
  {
    if ch != [] { ChainIsWhole(g.fatType, fat, ch); }
  }

  lemma ChainStep(t: FatType, fat: Fat, ch: seq<nat>, i: nat)
    requires IsChain(t, fat, ch) && i < |ch|
    ensures InRange(fat, ch[i])
    ensures (fat[ch[i]] < 2 || IsEoc(t, fat[ch[i]])) <==> i == |ch| - 1
    ensures i < |ch| - 1 ==> fat[ch[i]] == ch[i + 1]
  {
    if i < |ch| - 1 {
      assert Follow(t, fat, ch[i]) == Some(ch[i + 1]);
    }
  }

  // Positions as cluster index and offset within the cluster.
  lemma Position(p: nat, span: nat)
    requires span > 0
    ensures p == (p / span) * span + p % span && p % span < span
  {
  }

  lemma InsideChain(p: int, k: nat, at: nat, span: nat, n: nat)
    requires k * span + at == p && at < span
    ensures p < n * span <==> k < n
    ensures (k + 1) * span == k * span + span
  {
    if k < n { Multiples(span, k, n); } else { Multiples(span, n, k); }
  }

  class FatInode {
    const volume: Volume
    const isDirectory: bool
    const dirEntryOffset: Option<nat>
    ghost const place: Place
    var firstCluster: nat
    var size: nat
    var cache: Option<(nat, nat)>
    ghost var chain: seq<nat>

    ghost predicate Valid()
      reads this, volume, volume.device
    {
      && volume.Valid() && size < 0x1_0000_0000
      && HasChain(volume.g.fatType, volume.Table(), chain, firstCluster)
      && (cache.Some? ==> cache.value.0 < |chain| && chain[cache.value.0] == cache.value.1)
      && (dirEntryOffset.Some? ==>
            && PlaceOk(volume.g, volume.Table(), place, chain)
            && dirEntryOffset.value == PlaceOffset(volume.g, place))
    }

    // The bytes in the file's clusters, and those of them that belong to the file.
    ghost function Stored(): seq<byte>
      requires Valid()
      reads this, volume, volume.device
    {
      ChainInVolume(volume.g, volume.Table(), chain, firstCluster);
      ChainBytes(volume.g, volume.device.data, chain)
    }

    ghost function Contents(): seq<byte>
      requires Valid()
      reads this, volume, volume.device
    {
      Stored()[..Min(size, |Stored()|)]
    }

    // A file as the directory entry describes it.
    constructor Open(volume: Volume, isDirectory: bool, first: nat, size: nat, entry: Option<nat>,
                     ghost place: Place, ghost ch: seq<nat>)
      requires volume.Valid() && size < 0x1_0000_0000 && HasChain(volume.g.fatType, volume.Table(), ch, first)
      requires entry.Some? ==>
        PlaceOk(volume.g, volume.Table(), place, ch) && entry.value == PlaceOffset(volume.g, place)
      ensures Valid() && this.volume == volume && this.isDirectory == isDirectory && this.dirEntryOffset == entry
      ensures this.size == size && this.chain == ch && this.place == place
    {
      this.volume := volume;
      this.isDirectory := isDirectory;
      this.dirEntryOffset := entry;
      this.place := place;
      this.firstCluster := first;
      this.size := size;
      this.cache := None;
      this.chain := ch;
    }

    // One cluster's share of `read`.
    method ReadCluster(c: nat, at: nat, len: nat) returns (r: seq<byte>)
      requires volume.Valid() && 2 <= c <= MaxCluster(volume.g) && at + len <= ClusterSize(volume.g)
      ensures r == ClusterBytes(volume.g, volume.device.data, c)[at..at + len]
    {
      hide ClusterOffset, ClusterSize;
      ClusterPlace(volume.g, |volume.device.data|, c);
      ClusterToOffsetSucceeds(volume.g, |volume.device.data|, c);
      var offset := ClusterToOffset(volume.g, c).value;
      var bytes := volume.device.ReadBytes(offset + at, len);
      r := bytes.value;
      SliceOfSlice(volume.device.data, offset, offset + ClusterSize(volume.g), at, at + len);
    }

    // The first loop of `read`: from cluster `from` of the chain, on to cluster `target`.
    method Skip(from: nat, cluster: nat, target: nat) returns (found: Option<nat>)
      requires Valid() && from <= target && from < |chain| && chain[from] == cluster
      ensures found == if target < |chain| then Some(chain[target]) else None
    {
      hide FatOf, WellFormed, IsChain, IsEoc;
      var current := cluster;
      ghost var k: nat := from;
      var left: nat := target - from;
      while left > 0
        invariant k + left == target && k < |chain| && chain[k] == current
      {
        var next := Next(current, k);
        if next < 2 || IsEoc(volume.g.fatType, next) {
          return None;
        }
        current := next;
        k := k + 1;
        left := left - 1;
      }
      return Some(current);
    }

    // A step along the chain.
    method Next(cluster: nat, ghost i: nat) returns (next: nat)
      requires Valid() && i < |chain| && chain[i] == cluster
      ensures (next < 2 || IsEoc(volume.g.fatType, next)) <==> i == |chain| - 1
      ensures i < |chain| - 1 ==> next == chain[i + 1]
    {
      ChainStep(volume.g.fatType, volume.Table(), chain, i);
      next := volume.ReadFatEntry(cluster);
    }

    method CopyOne(cluster: nat, at: nat, len: nat, ghost i: nat) returns (r: seq<byte>)
      requires Valid() && i < |chain| && chain[i] == cluster && at + len <= ClusterSize(volume.g)
      ensures
        var p := i * ClusterSize(volume.g) + at;
        0 <= p && p + len <= |Stored()| && r == Stored()[p..p + len]
    {
      hide ClusterSize, ChainBytes, ClusterBytes, WellFormed;
      ChainInVolume(volume.g, volume.Table(), chain, firstCluster);
      r := ReadCluster(cluster, at, len);
      ChainSlice(volume.g, volume.device.data, chain, i, at, len);
    }

    // The second loop of `read`: copies from position `offset`, which lies in cluster k of the chain.
    method Copy(cluster: nat, at: nat, limit: nat, ghost k: nat, ghost offset: nat) returns (out: seq<byte>)
      requires Valid() && k < |chain| && chain[k] == cluster
      requires k * ClusterSize(volume.g) + at == offset && at < ClusterSize(volume.g)
      ensures offset <= |Stored()| && out == Stored()[offset..Min(offset + limit, |Stored()|)]
    {
      hide FatOf, WellFormed, IsChain, IsEoc, ClusterSize, ChainBytes, ClusterBytes, Valid, InVolume;
      ghost var s, ch := Stored(), chain;
      assert k < |ch| && ch[k] == cluster;
      var span := ClusterSize(volume.g);
      InsideChain(offset, k, at, span, |ch|);
      assert |s| == |ch| * span;
      out := [];
      var current, within: nat := cluster, at;
      ghost var i: nat := k;
      while |out| < limit
        invariant |out| <= limit && offset + |out| <= |s| && out == s[offset..offset + |out|]
        invariant |out| < limit ==> i < |ch| && ch[i] == current && within < span
        invariant |out| < limit ==> i * span + within == offset + |out|
      {
        var chunk: nat := Min(limit - |out|, span - within);
        var part := CopyOne(current, within, chunk, i);
        JoinSlices(s, offset, offset + |out|, offset + |out| + chunk);
        out := out + part;
        InsideChain(offset + |out| - chunk, i, within, span, |ch|);
        within := 0;
        if |out| >= limit {
          break;
        }
        var next := Next(current, i);
        if next < 2 || IsEoc(volume.g.fatType, next) {
          break;
        }
        current := next;
        i := i + 1;
      }
    }

    /**
     `read`: the file's bytes from the offset on, whatever the cache holds. A chain that is too
     short for the size ends the read early.
     */
    method Read(offset: nat, len: nat) returns (r: Result<seq<byte>, FsError>)
      requires Valid()
      modifies this`cache
      ensures Valid() && Stored() == old(Stored())
      ensures isDirectory ==> r == Err(IsADirectory)
      ensures !isDirectory ==>
        r == Ok(if offset < |Contents()| then Contents()[offset..Min(offset + len, |Contents()|)] else [])
      ensures !isDirectory && len > 0 && offset < |Contents()| ==>
        ClusterSize(volume.g) > 0 && cache.Some? && cache.value.0 == offset / ClusterSize(volume.g)
      ensures isDirectory || len == 0 || offset >= |Contents()| ==> cache == old(cache)
    {
      hide FatOf, WellFormed, IsChain, ClusterSize, ChainBytes, PlaceOk, PlaceOffset;
      if isDirectory {
        return Err(IsADirectory);
      }
      ReadSlice(Stored(), size, offset, len);
      if offset >= size || len == 0 {
        return Ok([]);
      }
      var limit := Min(len, size - offset);
      var start := Locate(offset);
      if start.None? {
        return Ok([]);
      }
      var (index, cluster) := start.value;
      var out := Copy(cluster, offset % ClusterSize(volume.g), limit, index, offset);
      cache := Some((index, cluster));
      return Ok(out);
    }

    // The cluster where a read begins, found from the cache or from the start of the chain.
    method Locate(offset: nat) returns (r: Option<(nat, nat)>)
      requires Valid()
      ensures ClusterSize(volume.g) > 0
      ensures r.Some? ==>
        var (index, cluster) := r.value;
        && index < |chain| && chain[index] == cluster && offset % ClusterSize(volume.g) < ClusterSize(volume.g)
        && index == offset / ClusterSize(volume.g)
        && index * ClusterSize(volume.g) + offset % ClusterSize(volume.g) == offset
      ensures r.None? <==> offset >= |Stored()|
    {
      hide FatOf, WellFormed, IsChain, ClusterSize, ChainBytes, PlaceOk, PlaceOffset;
      ChainInVolume(volume.g, volume.Table(), chain, firstCluster);
      SpanPositive(volume.g, |volume.device.data|);
      if firstCluster < 2 {
        assert chain == [] && |Stored()| == 0;
        return None;
      }
      var span := ClusterSize(volume.g);
      var target := offset / span;
      Position(offset, span);
      InsideChain(offset, target, offset % span, span, |chain|);
      var cluster, index := firstCluster, 0;
      if cache.Some? && cache.value.0 <= target && cache.value.1 >= 2 {
        index, cluster := cache.value.0, cache.value.1;
      }
      var start := Skip(index, cluster, target);
      return if start.None? then None else Some((target, start.value));
    }

    // One round of the loop of `write`.
    method WriteOne(ch: seq<nat>, k: nat, at: nat, part: seq<byte>)
      requires volume.Valid() && IsChain(volume.g.fatType, volume.Table(), ch) && InVolume(volume.g, ch) && Distinct(ch)
      requires k < |ch| && at + |part| <= ClusterSize(volume.g)
      modifies volume.device
      ensures volume.Valid() && |volume.device.data| == |old(volume.device.data)|
      ensures volume.Table() == old(volume.Table())
      ensures SameClusters(volume.g, old(volume.device.data), volume.device.data, Elements(ch))
      ensures
        var p := k * ClusterSize(volume.g) + at;
        && 0 <= p && p + |part| <= |ChainBytes(volume.g, old(volume.device.data), ch)|
        && ChainBytes(volume.g, volume.device.data, ch)
           == Splice(ChainBytes(volume.g, old(volume.device.data), ch), p, part)
    {
      hide FatOf, WellFormed, IsChain, ClusterSize, ChainBytes, ClusterBytes, RootBytes, IsEoc;
      var done := volume.WriteCluster(ch[k], at, part);
      ChainSplice(volume.g, old(volume.device.data), volume.device.data, ch, k, at, part);
    }

    // The loop of `write`: cluster by cluster along the chain.
    method WriteChain(ch: seq<nat>, offset: nat, buf: seq<byte>)
      requires volume.Valid() && IsChain(volume.g.fatType, volume.Table(), ch) && InVolume(volume.g, ch) && Distinct(ch)
      requires offset + |buf| <= |ChainBytes(volume.g, volume.device.data, ch)|
      modifies volume.device
      ensures volume.Valid() && |volume.device.data| == |old(volume.device.data)|
      ensures volume.Table() == old(volume.Table())
      ensures SameClusters(volume.g, old(volume.device.data), volume.device.data, Elements(ch))
      ensures ChainBytes(volume.g, volume.device.data, ch)
           == Splice(ChainBytes(volume.g, old(volume.device.data), ch), offset, buf)
    {
      hide FatOf, WellFormed, IsChain, ClusterSize, ChainBytes, ClusterBytes, RootBytes, IsEoc, Splice;
      SpanPositive(volume.g, |volume.device.data|);
      var span := ClusterSize(volume.g);
      Position(offset, span);
      InsideChain(offset, offset / span, offset % span, span, |ch|);
      ghost var s := ChainBytes(volume.g, volume.device.data, ch);
      SpliceNothing(s, offset);
      var written: nat, index: nat, within: nat := 0, offset / span, offset % span;
      while written < |buf| && index < |ch|
        invariant volume.Valid() && |volume.device.data| == |old(volume.device.data)|
        invariant volume.Table() == old(volume.Table())
        invariant SameClusters(volume.g, old(volume.device.data), volume.device.data, Elements(ch))
        invariant written <= |buf| && ChainBytes(volume.g, volume.device.data, ch) == Splice(s, offset, buf[..written])
        invariant written < |buf| ==> index < |ch| && within < span && index * span + within == offset + written
        decreases |buf| - written
      {
        var chunk: nat := Min(|buf| - written, span - within);
        ghost var data := volume.device.data;
        WriteOne(ch, index, within, buf[written..written + chunk]);
        ClustersTwice(volume.g, old(volume.device.data), data, volume.device.data, Elements(ch), Elements(ch),
                      Elements(ch));
        SpliceTwice(s, offset, buf[..written], buf[written..written + chunk]);
        assert buf[..written] + buf[written..written + chunk] == buf[..written + chunk];
        InsideChain(offset + written, index, within, span, |ch|);
        written := written + chunk;
        index := index + 1;
        within := 0;
        InsideChain(index * span, index, 0, span, |ch|);
      }
      assert buf[..written] == buf;
    }

    // The part of `write` on the volume's clusters: a chain long enough, then the bytes.
    method Store(offset: nat, buf: seq<byte>, ghost others: set<seq<nat>>)
      returns (r: Result<nat, FsError>, ghost grown: seq<nat>)
      requires Valid() && buf != [] && Apart(volume.g.fatType, volume.Table(), others, chain)
      modifies volume, volume.device
      ensures volume.Valid() && |volume.device.data| == |old(volume.device.data)|
      ensures chain <= grown && Distinct(grown) && (grown != [] ==> IsChain(volume.g.fatType, volume.Table(), grown))
      ensures Apart(volume.g.fatType, volume.Table(), others, grown)
      ensures forall c :: c in grown && c !in chain ==> InRange(old(volume.Table()), c) && old(volume.Table())[c] == 0
      ensures StillUsed(old(volume.Table()), volume.Table())
      ensures SameClusters(volume.g, old(volume.device.data), volume.device.data, Elements(grown))
      ensures FreeClusters(volume.Table()) == FreeClusters(old(volume.Table())) - Elements(grown[|chain|..])
      ensures r.Err? ==> FreeClusters(volume.Table()) == {}
      ensures r.Ok? <==> Enough(volume.g, |chain|, old(volume.Table()), offset + |buf|)
      ensures r.Ok? ==> grown != [] && r.value == grown[0] && |grown| == Max(|chain|, Needed(volume.g, offset + |buf|))
      ensures InVolume(volume.g, grown)
      ensures
        StoredAfter(volume.g, old(Stored()), |chain|, ChainBytes(volume.g, volume.device.data, grown), |grown|, offset,
                    buf, r.Ok?)
      ensures r.Err? ==> r.error == IoError
    {
      hide FatOf, WellFormed, IsChain, ClusterSize, ChainBytes, ClusterBytes, RootBytes, PlaceOk, Apart, FreeClusters;
      hide GrownFrom, Added, SameClusters, Distinct, StillUsed, StoredAfter, Needed;
      ghost var fat, data, stored := volume.Table(), volume.device.data, Stored();
      NeededFits(volume.g, |volume.device.data|, offset + |buf|);
      var span := ClusterSize(volume.g);
      var needed := (offset + |buf| + span - 1) / span;
      var result;
      result, grown := volume.EnsureChainLen(firstCluster, needed, chain, others);
      ghost var mid := volume.device.data;
      GrownParts(volume.g, data, mid, chain, grown);
      GrownInVolume(volume.g, fat, volume.Table(), mid, chain, grown);
      StoredGrew(volume.g, data, mid, fat, chain, grown, offset, buf);
      GrownExcept(volume.g, data, mid, chain, grown);
      if result.Err? {
        return Err(IoError), grown;
      }
      var ch := result.value.1;
      WriteChain(ch, offset, buf);
      ClustersTwice(volume.g, data, mid, volume.device.data, Elements(grown), Elements(grown), Elements(grown));
      return Ok(result.value.0), grown;
    }

    /** `update_dir_entry_metadata`: the entry takes the new first cluster and size; nothing else changes. */
    method UpdateEntry(offset: nat, first: nat, size: nat, ghost ch: seq<nat>)
      requires volume.Valid() && first < 0x1_0000_0000 && size < 0x1_0000_0000
      requires PlaceOk(volume.g, volume.Table(), place, ch) && offset == PlaceOffset(volume.g, place)
      modifies volume.device
      ensures volume.Valid() && |volume.device.data| == |old(volume.device.data)|
      ensures volume.Table() == old(volume.Table())
      ensures
        EntryUpdated(volume.g, old(volume.device.data), volume.device.data, volume.Table(), place, ch, first, size)
      ensures SameButPlace(volume.g, old(volume.device.data), volume.device.data, place)
    {
      hide FatOf, ClusterSize, Updated, ClusterOffset, FatBase, RootEnd, FatCopy;
      ghost var data, fat := volume.device.data, volume.Table();
      PlaceInside(volume.g, data, fat, place, ch);
      var bytes := volume.device.ReadBytes(offset, DIR_ENTRY_SIZE);
      var entry := Updated(bytes.value, first, size);
      var done := volume.device.WriteBytes(offset, entry);
      PlaceWritten(volume.g, data, fat, place, ch, entry);
    }

    /**
     `write`: the bytes go to the offset in the file, which grows if need be by zeroed clusters.
     It succeeds exactly when the end fits 32 bits and the volume has the clusters; a write that
     ends past 32 bits fails only after its bytes are stored. The contents become those of a plain
     write exactly when no old bytes show up in a gap left before the offset; zeros past the size
     are kept. Other files keep their chains and bytes.
     */
    method Write(offset: nat, buf: seq<byte>, ghost others: set<seq<nat>>) returns (r: Result<nat, FsError>)
      requires Valid() && Apart(volume.g.fatType, volume.Table(), others, chain)
      modifies this, volume, volume.device
      ensures Valid() && |volume.device.data| == |old(volume.device.data)|
      ensures Apart(volume.g.fatType, volume.Table(), others, chain)
      ensures isDirectory ==> r == Err(IsADirectory)
      ensures !isDirectory && buf == [] ==> r == Ok(0)
      ensures isDirectory || buf == [] || offset + |buf| >= 0x1_0000_0000_0000_0000 ==>
        && volume.device.data == old(volume.device.data) && chain == old(chain) && size == old(size)
        && firstCluster == old(firstCluster) && cache == old(cache)
      ensures !isDirectory && buf != [] ==>
        && (r.Ok? <==>
              offset + |buf| < 0x1_0000_0000 && Enough(volume.g, |old(chain)|, old(volume.Table()), offset + |buf|))
        && r == (if r.Ok? then Ok(|buf|) else Err(IoError))
        && size == (if r.Ok? then Max(old(size), offset + |buf|) else old(size))
        && cache == (if r.Ok? then None else old(cache)) && (r.Err? ==> firstCluster == old(firstCluster))
      ensures !isDirectory && buf != [] && offset + |buf| < 0x1_0000_0000_0000_0000 ==>
        var enough := Enough(volume.g, |old(chain)|, old(volume.Table()), offset + |buf|);
        && Grown(volume.g, old(chain), chain, offset + |buf|, enough && (r.Ok? || chain != []))
        && StoredAfter(volume.g, old(Stored()), |old(chain)|, Stored(), |chain|, offset, buf,
                       enough && (r.Ok? || chain != []))
      ensures r.Ok? && buf != [] && old(size) <= |old(Stored())| ==>
        && size <= |Stored()|
        && (Contents() == FlatWrite(old(Contents()), offset, buf) <==> ZeroBetween(old(Stored()), old(size), offset))
        && (ZeroBetween(old(Stored()), old(size), |old(Stored())|) ==> ZeroBetween(Stored(), size, |Stored()|))
      ensures !isDirectory && r.Err? && offset + |buf| < 0x1_0000_0000_0000_0000 && old(size) <= |old(Stored())| ==>
        && |Stored()| >= size
        && (Contents() == old(Contents()) <==>
              || old(chain) == [] || !Enough(volume.g, |old(chain)|, old(volume.Table()), offset + |buf|)
              || offset >= size || old(Contents())[offset..] == buf[..size - offset])
      ensures r.Ok? && buf != [] && dirEntryOffset.Some? ==>
        && PlaceOk(volume.g, old(volume.Table()), place, old(chain)) && firstCluster < 0x1_0000_0000
        && EntryUpdated(volume.g, old(volume.device.data), volume.device.data, old(volume.Table()), place, old(chain),
                        firstCluster, size)
      ensures
        OthersSame(volume.g, old(volume.device.data), volume.device.data, others,
                   dirEntryOffset.Some? && r.Ok? && buf != [], place)
      ensures StillUsed(old(volume.Table()), volume.Table())
      ensures TakesFree(old(volume.Table()), old(chain), chain)
      ensures
        Elsewhere(volume.g, old(volume.device.data), volume.device.data,
                  Elements(old(chain)) + FreeClusters(old(volume.Table())),
                  dirEntryOffset.Some? && r.Ok? && buf != [], place)
      ensures !isDirectory && buf != [] && offset + |buf| < 0x1_0000_0000_0000_0000 ==>
        && FreeAfter(volume.g, old(volume.Table()), volume.Table(), |old(chain)|, offset + |buf|)
        && (r.Ok? || old(chain) != [] ==>
              FreeClusters(volume.Table()) == FreeClusters(old(volume.Table())) - Elements(chain[|old(chain)|..]))
      ensures
        Lost(old(volume.Table()), volume.Table(), others + {chain}) != {} <==>
          (&& !isDirectory && buf != [] && offset + |buf| < 0x1_0000_0000_0000_0000
           && old(chain) == [] && FreeClusters(old(volume.Table())) != {}
           && (offset + |buf| >= 0x1_0000_0000 || !Enough(volume.g, 0, old(volume.Table()), offset + |buf|)))
      ensures Lost(old(volume.Table()), volume.Table(), others + {chain}) != {} ==>
        Lost(old(volume.Table()), volume.Table(), others + {chain})
        == FreeClusters(old(volume.Table())) - FreeClusters(volume.Table())
    {
      hide FatOf, WellFormed, IsChain, ClusterSize, ChainBytes, ClusterBytes, RootBytes;
      hide PlaceOffset, FreeClusters, Updated;
      hide Lost, Took, FreeAfter, Splice, FlatWrite, ZeroBetween, EntryUpdated, PlaceOk, Enough, Needed;
      OthersInVolume(volume.g, volume.Table(), others, chain);
      NothingLost(volume.Table(), others + {chain});
      if isDirectory {
        return Err(IsADirectory);
      }
      if buf == [] {
        return Ok(0);
      }
      if offset + |buf| >= USIZE_LIMIT {
        return Err(IoError);
      }
      ghost var grown;
      r, grown := WriteSome(offset, buf, others);
      ghost var fat, fat' := old(volume.Table()), volume.Table();
      SpanPositive(volume.g, |volume.device.data|);
      TookFree(volume.g, fat, fat', old(chain), grown, offset + |buf|);
      ElsewhereMore(volume.g, old(volume.device.data), volume.device.data, Elements(grown),
                    Elements(old(chain)) + FreeClusters(fat), dirEntryOffset.Some? && r.Ok?, place);
      OthersBeside(volume.g, old(volume.device.data), volume.device.data, fat, others, old(chain),
                   dirEntryOffset.Some? && r.Ok?, place);
      LostAfter(volume.g, fat, fat', others, old(chain), grown, chain, offset + |buf|);
      if r.Err? && old(size) <= |old(Stored())| {
        var grow := (|chain| - |old(chain)|) * ClusterSize(volume.g);
        if old(chain) != [] && Enough(volume.g, |old(chain)|, fat, offset + |buf|) {
          FailedWriteShows(old(Stored()), size, grow, offset, buf);
          assert old(Contents())[Min(offset, size)..] == old(Stored())[Min(offset, size)..size];
        } else {
          assert (old(Stored()) + Zeros(grow))[..size] == old(Stored())[..size];
        }
      }
      if r.Ok? && old(size) <= |old(Stored())| {
        WriteIsFlat(old(Stored()), old(size), (|chain| - |old(chain)|) * ClusterSize(volume.g), offset, buf);
      }
    }

    // `write` past its first checks.
    method WriteSome(offset: nat, buf: seq<byte>, ghost others: set<seq<nat>>)
      returns (r: Result<nat, FsError>, ghost grown: seq<nat>)
      requires Valid() && buf != [] && Apart(volume.g.fatType, volume.Table(), others, chain)
      modifies this, volume, volume.device
      ensures Valid() && |volume.device.data| == |old(volume.device.data)|
      ensures Apart(volume.g.fatType, volume.Table(), others, chain)
      ensures r.Ok? <==>
        offset + |buf| < 0x1_0000_0000 && Enough(volume.g, |old(chain)|, old(volume.Table()), offset + |buf|)
      ensures r == (if r.Ok? then Ok(|buf|) else Err(IoError))
      ensures size == (if r.Ok? then Max(old(size), offset + |buf|) else old(size))
      ensures cache == (if r.Ok? then None else old(cache)) && (r.Err? ==> firstCluster == old(firstCluster))
      ensures
        var enough := Enough(volume.g, |old(chain)|, old(volume.Table()), offset + |buf|);
        && Grown(volume.g, old(chain), chain, offset + |buf|, enough && (r.Ok? || chain != []))
        && StoredAfter(volume.g, old(Stored()), |old(chain)|, Stored(), |chain|, offset, buf,
                       enough && (r.Ok? || chain != []))
      ensures r.Ok? && dirEntryOffset.Some? ==>
        && PlaceOk(volume.g, old(volume.Table()), place, old(chain)) && firstCluster < 0x1_0000_0000
        && EntryUpdated(volume.g, old(volume.device.data), volume.device.data, old(volume.Table()), place, old(chain),
                        firstCluster, size)
      ensures Took(volume.g, old(volume.Table()), volume.Table(), old(chain), grown, offset + |buf|)
      ensures StillUsed(old(volume.Table()), volume.Table())
      ensures
        Elsewhere(volume.g, old(volume.device.data), volume.device.data, Elements(grown),
                  dirEntryOffset.Some? && r.Ok?, place)
      ensures Apart(volume.g.fatType, volume.Table(), others, grown)
      ensures chain == if r.Ok? || old(chain) != [] then grown else []
    {
      hide FatOf, WellFormed, IsChain, ClusterSize, ChainBytes, ClusterBytes, RootBytes;
      hide PlaceOffset, FreeClusters, Updated;
      hide Took, Elsewhere, Elements, StillUsed, Apart, PlaceOk, EntryUpdated, SameClusters, Enough;
      hide Needed, SameButPlace, Distinct, StoredAfter;
      ghost var data, fat, was := volume.device.data, volume.Table(), chain;
      ChainInVolume(volume.g, fat, was, firstCluster);
      var result;
      result, grown := Store(offset, buf, others);
      ghost var stored := volume.device.data;
      ItTook(volume.g, fat, volume.Table(), was, grown, offset + |buf|);
      if dirEntryOffset.Some? {
        PlaceStill(volume.g, fat, volume.Table(), place, was, grown);
      }
      if result.Err? || offset + |buf| >= 0x1_0000_0000 {
        ElsewhereAfter(volume.g, data, stored, stored, Elements(grown), false, place);
        ApartPart(volume.g.fatType, volume.Table(), others, was, grown);
        if chain != [] {
          chain := grown;
        } else {
          NothingStored(volume.g, data, stored, offset, buf);
        }
        return Err(IoError), grown;
      }
      Commit(result.value, Max(size, offset + |buf|), grown);
      ApartPart(volume.g.fatType, volume.Table(), others, grown, grown);
      if dirEntryOffset.Some? {
        EntryFromOld(volume.g, data, stored, volume.device.data, fat, volume.Table(), place, was, grown, firstCluster,
                     size);
      }
      ElsewhereAfter(volume.g, data, stored, volume.device.data, Elements(grown), dirEntryOffset.Some?, place);
      return Ok(|buf|), grown;
    }

    // The end of `write`: the directory entry and the state in memory.
    method Commit(first: nat, newSize: nat, ghost grown: seq<nat>)
      requires volume.Valid() && grown != [] && IsChain(volume.g.fatType, volume.Table(), grown) && grown[0] == first
      requires newSize < 0x1_0000_0000 && InVolume(volume.g, grown)
      requires dirEntryOffset.Some? ==>
        PlaceOk(volume.g, volume.Table(), place, grown) && dirEntryOffset.value == PlaceOffset(volume.g, place)
      modifies this, volume.device
      ensures Valid() && |volume.device.data| == |old(volume.device.data)| && volume.Table() == old(volume.Table())
      ensures chain == grown && size == newSize && firstCluster == first < 0x1_0000_0000 && cache == None
      ensures Stored() == ChainBytes(volume.g, old(volume.device.data), grown)
      ensures dirEntryOffset.Some? ==>
        && EntryUpdated(volume.g, old(volume.device.data), volume.device.data, volume.Table(), place, grown, first,
                        newSize)
        && SameButPlace(volume.g, old(volume.device.data), volume.device.data, place)
      ensures dirEntryOffset.None? ==> volume.device.data == old(volume.device.data)
    {
      hide FatOf, IsChain, ClusterSize, ChainBytes, ClusterBytes, RootBytes, PlaceOffset, EntryUpdated, SameClusters;
      assert first <= MaxCluster(volume.g) < 0x1_0000_0000;
      if dirEntryOffset.Some? {
        UpdateEntry(dirEntryOffset.value, first, newSize, grown);
        ChainBesidePlace(volume.g, old(volume.device.data), volume.device.data, place, grown);
      }
      firstCluster := first;
      size := newSize;
      cache := None;
      chain := grown;
    }
  }

  /**
   A volume with one cluster, all zeros, and an empty file: writing 513 bytes fails, and the cluster
   belongs to no file afterwards.
   */
  method LosesTheCluster() returns (f: FatInode, r: Result<nat, FsError>, ghost before: Fat)
    ensures fresh(f) && f.Valid() && r == Err(IoError) && f.chain == []
    ensures FreeClusters(before) == {2} == Lost(before, f.volume.Table(), {f.chain})
  {
    hide Lost, ClusterSize, WellFormed, FatOf;
    var g := Geometry(Fat12, 512, 1, 1, 1, 1, 2, 1);
    SmallVolume(g);
    var made := MemoryBlockDevice.New(Zeros(1536), 512);
    var volume := new Volume.Mount(g, made.value);
    f := new FatInode.Open(volume, false, 0, 0, None, InRoot(0), []);
    before := volume.Table();
    r := f.Write(0, Zeros(513), {});
    assert {} + {f.chain} == {f.chain};
  }

  lemma SmallVolume(g: Geometry)
    requires g == Geometry(Fat12, 512, 1, 1, 1, 1, 2, 1)
    ensures WellFormed(g, 1536) && FreeClusters(FatOf(g, Zeros(1536))) == {2}
    ensures !Enough(g, 0, FatOf(g, Zeros(1536)), 513)
  {
    var fat := FatOf(g, Zeros(1536));
    var table := TableBytes(g, Zeros(1536), 0);
    assert table[3] == table[4] == 0;
    assert fat[2] == EntryAt(Fat12, table, 2) == 0;
    assert FreeClusters(fat) == {2};
  }

  lemma ChainBesidePlace(g: Geometry, a: seq<byte>, b: seq<byte>, place: Place, ch: seq<nat>)
    requires WellFormed(g, |a|) && |a| == |b| && InVolume(g, ch)
    requires SameButPlace(g, a, b, place) && (place.InCluster? ==> place.cluster !in ch)
    ensures ChainBytes(g, b, ch) == ChainBytes(g, a, ch)
  {
    hide WellFormed, ClusterBytes, RootBytes, ChainBytes;
    ChainAlike(g, a, b, ch);
  }

  lemma ApartPart(t: FatType, fat: Fat, others: set<seq<nat>>, part: seq<nat>, ch: seq<nat>)
    requires Apart(t, fat, others, ch) && part <= ch
    ensures Apart(t, fat, others, part) && Apart(t, fat, others, [])
  {
  }

  // The directory did not change while the bytes were stored.
  lemma EntryFromOld(g: Geometry, a: seq<byte>, b: seq<byte>, c: seq<byte>, fat: Fat, fat': Fat, place: Place,
                     ch: seq<nat>, grown: seq<nat>, first: nat, size: nat)
    requires WellFormed(g, |a|) && |a| == |b| == |c| && |fat| == |fat'| == g.totalClusters + 2
    requires PlaceOk(g, fat, place, ch) && PlaceOk(g, fat', place, grown) && first < 0x1_0000_0000
    requires size < 0x1_0000_0000
    requires SameClusters(g, a, b, Elements(grown)) && EntryUpdated(g, b, c, fat', place, grown, first, size)
    ensures EntryUpdated(g, a, c, fat, place, ch, first, size)
  {
    hide WellFormed, ClusterBytes, RootBytes, ClusterSize, Updated;
  }

  // The clusters that growing a chain took; without enough of them it takes all there are.
  ghost predicate Took(g: Geometry, before: Fat, fat: Fat, was: seq<nat>, grown: seq<nat>, end: nat) {
    && was <= grown && Elements(grown[|was|..]) <= FreeClusters(before)
    && FreeClusters(fat) == FreeClusters(before) - Elements(grown[|was|..])
    && |FreeClusters(fat)| == |FreeClusters(before)| - (|grown| - |was|)
    && if Enough(g, |was|, before, end) then |grown| == Max(|was|, Needed(g, end)) else FreeClusters(fat) == {}
  }

  ghost predicate FreeAfter(g: Geometry, before: Fat, fat: Fat, have: nat, end: nat) {
    && FreeClusters(fat) <= FreeClusters(before)
    && |FreeClusters(fat)| ==
       if Enough(g, have, before, end) then |FreeClusters(before)| - (Max(have, Needed(g, end)) - have) else 0
  }

  lemma ItTook(g: Geometry, before: Fat, fat: Fat, was: seq<nat>, grown: seq<nat>, end: nat)
    requires was <= grown && Distinct(grown)
    requires forall c :: c in grown && c !in was ==> InRange(before, c) && before[c] == 0
    requires FreeClusters(fat) == FreeClusters(before) - Elements(grown[|was|..])
    requires if Enough(g, |was|, before, end) then |grown| == Max(|was|, Needed(g, end)) else FreeClusters(fat) == {}
    ensures Took(g, before, fat, was, grown, end)
  {
    hide Enough, Needed;
    var added := grown[|was|..];
    forall c | c in added ensures c in FreeClusters(before) {
      var i :| |was| <= i < |grown| && grown[i] == c;
      assert c !in was by { assert forall j :: 0 <= j < |was| ==> was[j] == grown[j]; }
    }
    DistinctSize(added);
    SetLess(FreeClusters(before), Elements(added));
  }

  lemma SetLess(a: set<nat>, b: set<nat>)
    requires b <= a
    ensures |a - b| == |a| - |b|
  {
    assert a == (a - b) + b;
  }

  lemma TookFree(g: Geometry, before: Fat, fat: Fat, was: seq<nat>, grown: seq<nat>, end: nat)
    requires Took(g, before, fat, was, grown, end)
    ensures FreeAfter(g, before, fat, |was|, end)
    ensures was <= grown && FreeClusters(fat) == FreeClusters(before) - Elements(grown[|was|..])
    ensures TakesFree(before, was, grown) && TakesFree(before, was, was)
    ensures Elements(grown) <= Elements(was) + FreeClusters(before)
  {
    hide FreeClusters, Needed;
    assert grown == was + grown[|was|..];
  }

  // Only free clusters are added to a chain.
  ghost predicate TakesFree(before: Fat, was: seq<nat>, grown: seq<nat>) {
    forall c :: c in grown && c !in was ==> c in FreeClusters(before)
  }

  // Clusters outside a set keep their bytes, and so does the root directory; only a directory entry may change.
  ghost predicate Elsewhere(g: Geometry, a: seq<byte>, b: seq<byte>, except: set<nat>, entry: bool, place: Place)
    requires WellFormed(g, |a|) && |a| == |b|
  {
    && ((entry && place.InRoot?) || RootBytes(g, b) == RootBytes(g, a))
    && forall c: nat ::
         2 <= c <= MaxCluster(g) && c !in except && !(entry && place.InCluster? && place.cluster == c) ==>
           ClusterBytes(g, b, c) == ClusterBytes(g, a, c)
  }

  lemma ElsewhereMore(g: Geometry, a: seq<byte>, b: seq<byte>, except: set<nat>, more: set<nat>, entry: bool,
                      place: Place)
    requires WellFormed(g, |a|) && |a| == |b| && Elsewhere(g, a, b, except, entry, place) && except <= more
    ensures Elsewhere(g, a, b, more, entry, place)
  {
    hide WellFormed, ClusterBytes, RootBytes;
  }

  lemma ElsewhereAfter(g: Geometry, a: seq<byte>, b: seq<byte>, c: seq<byte>, except: set<nat>, entry: bool,
                       place: Place)
    requires WellFormed(g, |a|) && |a| == |b| == |c| && SameClusters(g, a, b, except)
    requires if entry then SameButPlace(g, b, c, place) else b == c
    ensures Elsewhere(g, a, c, except, entry, place)
  {
    hide WellFormed, ClusterBytes, RootBytes;
  }

  lemma NothingLost(fat: Fat, chains: set<seq<nat>>)
    ensures Lost(fat, fat, chains) == {}
  {
  }

  // What is lost is what was taken, when the file does not keep it.
  lemma LostAfter(g: Geometry, before: Fat, fat: Fat, others: set<seq<nat>>, was: seq<nat>, grown: seq<nat>,
                  kept: seq<nat>, end: nat)
    requires Took(g, before, fat, was, grown, end) && end > 0 && ClusterSize(g) > 0
    requires forall o :: o in others ==> forall c :: c in grown ==> c !in o
    requires kept == grown || kept == was == []
    ensures
      var lost := Lost(before, fat, others + {kept});
      && lost == (if kept == grown then {} else FreeClusters(before) - FreeClusters(fat))
      && (kept != grown ==> FreeClusters(before) != {})
      && (kept == was == [] && FreeClusters(before) != {} ==> lost != {})
  {
    hide FreeClusters, ClusterSize;
    var added := grown[|was|..];
    assert forall c :: c in added ==> c in grown;
    if kept != grown {
      assert grown[0] in Elements(added);
    }
    CeilFits(end, ClusterSize(g));
  }

  // How a write changes the chain and the stored bytes; `stores` says whether the bytes are put there.
  ghost predicate Grown(g: Geometry, before: seq<nat>, after: seq<nat>, end: nat, stores: bool) {
    before <= after && (stores ==> |after| == Max(|before|, Needed(g, end)))
  }

  ghost predicate StoredAfter(g: Geometry, before: seq<byte>, clusters: nat, after: seq<byte>, clusters': nat,
                              offset: nat, buf: seq<byte>, stores: bool)
  {
    && 0 <= (clusters' - clusters) * ClusterSize(g)
    && var full := before + Zeros((clusters' - clusters) * ClusterSize(g));
    && (stores ==> offset + |buf| <= |full|)
    && after == if stores then Splice(full, offset, buf) else full
  }

  ghost predicate OthersSame(g: Geometry, a: seq<byte>, b: seq<byte>, others: set<seq<nat>>, hasEntry: bool,
                             place: Place)
    requires WellFormed(g, |a|) && |a| == |b|
  {
    forall o :: o in others ==>
      && InVolume(g, o)
      && (ChainBytes(g, b, o) == ChainBytes(g, a, o) || (hasEntry && place.InCluster? && place.cluster in o))
  }

  lemma OthersBeside(g: Geometry, a: seq<byte>, b: seq<byte>, fat: Fat, others: set<seq<nat>>, ch: seq<nat>,
                     entry: bool, place: Place)
    requires WellFormed(g, |a|) && |a| == |b| && |fat| == g.totalClusters + 2 && Apart(g.fatType, fat, others, ch)
    requires Elsewhere(g, a, b, Elements(ch) + FreeClusters(fat), entry, place)
    ensures OthersSame(g, a, b, others, entry, place)
  {
    hide WellFormed, ChainBytes, ClusterBytes, RootBytes, ClusterSize;
    forall o | o in others
      ensures InVolume(g, o)
      ensures ChainBytes(g, b, o) == ChainBytes(g, a, o) || (entry && place.InCluster? && place.cluster in o)
    {
      if !(entry && place.InCluster? && place.cluster in o) {
        ChainElsewhere(g, a, b, fat, o, Elements(ch), entry, place);
      }
    }
  }

  // A chain without the entry's cluster and the excepted ones keeps its bytes.
  lemma ChainElsewhere(g: Geometry, a: seq<byte>, b: seq<byte>, fat: Fat, o: seq<nat>, mine: set<nat>, entry: bool,
                       place: Place)
    requires WellFormed(g, |a|) && |a| == |b| && |fat| == g.totalClusters + 2 && IsChain(g.fatType, fat, o)
    requires Elsewhere(g, a, b, mine + FreeClusters(fat), entry, place)
    requires forall c :: c in o ==> c !in mine && !(entry && place.InCluster? && place.cluster == c)
    ensures InVolume(g, o) && ChainBytes(g, b, o) == ChainBytes(g, a, o)
  {
    hide WellFormed, ChainBytes, ClusterBytes, RootBytes, ClusterSize;
    ChainInVolume(g, fat, o, o[0]);
    forall i | 0 <= i < |o| ensures ClusterBytes(g, b, o[i]) == ClusterBytes(g, a, o[i]) {
      ChainIsNotFree(g.fatType, fat, o, o[i]);
    }
    ChainAlike(g, a, b, o);
  }

  lemma NothingStored(g: Geometry, data: seq<byte>, data': seq<byte>, offset: nat, buf: seq<byte>)
    requires WellFormed(g, |data|) && |data'| == |data|
    ensures StoredAfter(g, ChainBytes(g, data, []), 0, ChainBytes(g, data', []), 0, offset, buf, false)
  {
    hide WellFormed;
  }

  lemma PlaceStill(g: Geometry, fat: Fat, fat': Fat, place: Place, ch: seq<nat>, grown: seq<nat>)
    requires |fat| == |fat'| && PlaceOk(g, fat, place, ch)
    requires StillUsed(fat, fat')
    requires forall c :: c in grown && c !in ch ==> InRange(fat, c) && fat[c] == 0
    ensures PlaceOk(g, fat', place, grown) && PlaceOk(g, fat', place, ch)
  {
  }

  // One past the largest machine address.
  const USIZE_LIMIT: nat := 0x1_0000_0000_0000_0000

  lemma OthersInVolume(g: Geometry, fat: Fat, others: set<seq<nat>>, ch: seq<nat>)
    requires |fat| == g.totalClusters + 2 && Apart(g.fatType, fat, others, ch)
    ensures forall o :: o in others ==> InVolume(g, o)
  {
  }

  // The entry after a write, with everything around it in the directory unchanged.
  ghost predicate EntryUpdated(g: Geometry, data: seq<byte>, data': seq<byte>, fat: Fat, place: Place, ch: seq<nat>,
                               first: nat, size: nat)
    requires WellFormed(g, |data|) && |data'| == |data| && |fat| == g.totalClusters + 2 && PlaceOk(g, fat, place, ch)
    requires first < 0x1_0000_0000 && size < 0x1_0000_0000
  {
    var directory := DirectoryBytes(g, data, fat, place, ch);
    var entry := directory[place.at..place.at + DIR_ENTRY_SIZE];
    DirectoryBytes(g, data', fat, place, ch) == Splice(directory, place.at, Updated(entry, first, size))
  }

  ghost predicate SameButPlace(g: Geometry, a: seq<byte>, b: seq<byte>, place: Place)
    requires WellFormed(g, |a|) && |a| == |b|
  {
    match place
    case InCluster(d, _) => SameClusters(g, a, b, {d})
    case InRoot(_) =>
      forall c: nat :: 2 <= c <= MaxCluster(g) ==> ClusterBytes(g, b, c) == ClusterBytes(g, a, c)
  }

  lemma PlaceInside(g: Geometry, data: seq<byte>, fat: Fat, place: Place, ch: seq<nat>)
    requires WellFormed(g, |data|) && |fat| == g.totalClusters + 2 && PlaceOk(g, fat, place, ch)
    ensures 0 <= PlaceOffset(g, place) && PlaceOffset(g, place) + DIR_ENTRY_SIZE <= |data|
    ensures data[PlaceOffset(g, place)..PlaceOffset(g, place) + DIR_ENTRY_SIZE]
         == DirectoryBytes(g, data, fat, place, ch)[place.at..place.at + DIR_ENTRY_SIZE]
  {
    hide ClusterSize, ClusterOffset, FatBase, RootEnd, WellFormed;
    RootPlace(g, |data|);
    match place
    case InRoot(at) =>
      SliceOfSlice(data, FatBase(g, g.numFats), RootEnd(g), at, at + DIR_ENTRY_SIZE);
    case InCluster(c, at) =>
      ClusterPlace(g, |data|, c);
      SliceOfSlice(data, ClusterOffset(g, c), ClusterOffset(g, c) + ClusterSize(g), at, at + DIR_ENTRY_SIZE);
  }

  lemma PlaceWritten(g: Geometry, data: seq<byte>, fat: Fat, place: Place, ch: seq<nat>, entry: seq<byte>)
    requires WellFormed(g, |data|) && |fat| == g.totalClusters + 2 && PlaceOk(g, fat, place, ch)
    requires |entry| == DIR_ENTRY_SIZE
    requires 0 <= PlaceOffset(g, place) && PlaceOffset(g, place) + DIR_ENTRY_SIZE <= |data|
    ensures
      var data' := Splice(data, PlaceOffset(g, place), entry);
      && FatOf(g, data') == FatOf(g, data) && SameButPlace(g, data, data', place)
      && DirectoryBytes(g, data', fat, place, ch) == Splice(DirectoryBytes(g, data, fat, place, ch), place.at, entry)
  {
    hide ClusterSize, ClusterOffset, FatBase, RootEnd, WellFormed, FatCopy, ClusterBytes, RootBytes;
    var data' := Splice(data, PlaceOffset(g, place), entry);
    match place
    case InRoot(at) =>
      RootWritten(g, data, data', at, entry);
    case InCluster(c, at) =>
      TablePlaceFirst(g, |data|);
      ClusterWritten(g, data, data', c, at, entry);
  }

  // Clusters needed for a file that ends at `end`, and whether the volume has them.
  function Needed(g: Geometry, end: nat): int {
    if ClusterSize(g) > 0 then (end + ClusterSize(g) - 1) / ClusterSize(g) else 0
  }

  ghost predicate Enough(g: Geometry, have: nat, fat: Fat, end: nat) {
    Needed(g, end) <= have + |FreeClusters(fat)|
  }

  lemma NeededFits(g: Geometry, size: nat, end: nat)
    requires WellFormed(g, size)
    ensures ClusterSize(g) > 0 && 0 <= Needed(g, end) && end <= Needed(g, end) * ClusterSize(g)
    ensures end > 0 ==> Needed(g, end) > 0 && (Needed(g, end) - 1) * ClusterSize(g) < end
    ensures Needed(g, end) == (end + ClusterSize(g) - 1) / ClusterSize(g)
  {
    hide ClusterSize;
    SpanPositive(g, size);
    CeilFits(end, ClusterSize(g));
    var span := ClusterSize(g);
    Rounded(end, span);
    Products(Needed(g, end), -1, span);
  }

  lemma FitsGrown(g: Geometry, size: nat, end: nat, n: nat)
    requires WellFormed(g, size) && Needed(g, end) <= n
    ensures end <= n * ClusterSize(g)
  {
    hide ClusterSize, Needed;
    NeededFits(g, size, end);
    Multiples(ClusterSize(g), Needed(g, end), n);
  }

  // Stored bytes followed by the zeros of new clusters, then with bytes put among them.
  lemma StoredGrew(g: Geometry, data: seq<byte>, data': seq<byte>, before: Fat, ch: seq<nat>, grown: seq<nat>,
                   offset: nat, buf: seq<byte>)
    requires WellFormed(g, |data|) && |data'| == |data| && |before| == g.totalClusters + 2
    requires ch <= grown && InVolume(g, grown) && Distinct(grown)
    requires Added(before, g, data', ch, grown) && SameClusters(g, data, data', Elements(grown[|ch|..]))
    ensures InVolume(g, ch)
    ensures
      var stored, full := ChainBytes(g, data, ch), ChainBytes(g, data', grown);
      && StoredAfter(g, stored, |ch|, full, |grown|, offset, buf, false)
      && (Needed(g, offset + |buf|) <= |grown| ==>
            && offset + |buf| <= |full|
            && StoredAfter(g, stored, |ch|, Splice(full, offset, buf), |grown|, offset, buf, true))
  {
    hide WellFormed, ClusterSize, ChainBytes, Added, SameClusters, Distinct, Splice, Needed;
    ChainGrown(g, data, data', before, ch, grown);
    if Needed(g, offset + |buf|) <= |grown| {
      FitsGrown(g, |data|, offset + |buf|, |grown|);
    }
  }

  lemma CeilFits(end: nat, span: nat)
    requires span > 0
    ensures end <= ((end + span - 1) / span) * span && (end > 0 ==> (end + span - 1) / span > 0)
  {
    Position(end + span - 1, span);
  }

  lemma GrownParts(g: Geometry, data: seq<byte>, data': seq<byte>, ch: seq<nat>, grown: seq<nat>)
    requires WellFormed(g, |data|) && |data'| == |data| && GrownFrom(g, data, data', ch, grown)
    ensures
      var before, fat := FatOf(g, data), FatOf(g, data');
      && ch <= grown && Added(before, g, data', ch, grown)
      && SameClusters(g, data, data', Elements(grown[|ch|..]))
      && FreeClusters(fat) == FreeClusters(before) - Elements(grown[|ch|..])
      && StillUsed(before, fat)
  {
    hide WellFormed, FatOf, Added, SameClusters, FreeClusters, StillUsed;
  }

  lemma GrownInVolume(g: Geometry, before: Fat, fat: Fat, data: seq<byte>, ch: seq<nat>, grown: seq<nat>)
    requires WellFormed(g, |data|) && |fat| == |before| == g.totalClusters + 2 && ch <= grown
    requires grown != [] ==> IsChain(g.fatType, fat, grown)
    requires Added(before, g, data, ch, grown)
    ensures InVolume(g, grown) && Distinct(grown)
    ensures forall c :: c in grown && c !in ch ==> InRange(before, c) && before[c] == 0
  {
    hide WellFormed, ClusterBytes, ClusterSize;
    if grown != [] { ChainInVolume(g, fat, grown, grown[0]); }
    assert forall i :: 0 <= i < |ch| ==> grown[i] == ch[i];
    forall c | c in grown && c !in ch ensures InRange(before, c) && before[c] == 0 {
      var i :| 0 <= i < |grown| && grown[i] == c;
    }
  }

  lemma GrownExcept(g: Geometry, a: seq<byte>, b: seq<byte>, ch: seq<nat>, grown: seq<nat>)
    requires WellFormed(g, |a|) && |a| == |b| && ch <= grown && SameClusters(g, a, b, Elements(grown[|ch|..]))
    ensures SameClusters(g, a, b, Elements(grown))
  {
    hide WellFormed, ClusterBytes, RootBytes;
    assert forall c :: c in grown[|ch|..] ==> c in grown;
  }

  lemma SpliceNothing(s: seq<byte>, at: nat)
    requires at <= |s|
    ensures Splice(s, at, []) == s
  {
  }

  lemma SpanPositive(g: Geometry, size: nat)
    requires WellFormed(g, size)
    ensures ClusterSize(g) > 0
  {
    Multiples(g.sectorSize, 1, g.sectorsPerCluster);
  }

  // What a read takes from the stored bytes is what it should take from the file's.
  lemma ReadSlice(s: seq<byte>, size: nat, offset: nat, len: nat)
    ensures
      var contents := s[..Min(size, |s|)];
      && (offset >= |s| ==> offset >= |contents|)
      && (offset < |contents| ==>
            && contents[offset..Min(offset + len, |contents|)] == s[offset..Min(offset + Min(len, size - offset), |s|)]
            && (len == 0 ==> contents[offset..Min(offset + len, |contents|)] == []))
  {
  }

  lemma JoinSlices(s: seq<byte>, a: nat, b: nat, c: nat)
    requires a <= b <= c <= |s|
    ensures s[a..b] + s[b..c] == s[a..c]
  {
  }
}
