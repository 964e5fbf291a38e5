/**
 Several open files on one FAT volume, read and written in any order. The files share the volume's
 tables and clusters, and their entries may share a directory.
 */
module FatFiles {
  import opened Base
  import opened Bytes
  import opened FatTable
  import opened FatChain
  import opened FatVolume
  import opened FatFile

  // ---------------------------------------------------------------- one file beside another

  // What an open file holds on the volume.
  datatype Held = Held(chain: seq<nat>, first: nat, size: nat, entry: Option<Place>)

  ghost function HeldBy(f: FatInode): Held
    reads f
  {
    Held(f.chain, f.firstCluster, f.size, if f.dirEntryOffset.Some? then Some(f.place) else None)
  }

  // The directory entry on the volume says where the file begins and how long it is.
  ghost predicate EntrySays(g: Geometry, data: seq<byte>, fat: Fat, place: Place, ch: seq<nat>, first: nat, size: nat)
    requires WellFormed(g, |data|) && |fat| == g.totalClusters + 2 && PlaceOk(g, fat, place, ch)
  {
    var entry := DirectoryBytes(g, data, fat, place, ch)[place.at..place.at + DIR_ENTRY_SIZE];
    FirstClusterOf(entry) == first && SizeOf(entry) == size
  }

  ghost predicate HeldOk(g: Geometry, data: seq<byte>, h: Held)
    requires WellFormed(g, |data|)
  {
    && HasChain(g.fatType, FatOf(g, data), h.chain, h.first)
    && (h.entry.Some? ==>
          && PlaceOk(g, FatOf(g, data), h.entry.value, h.chain)
          && EntrySays(g, data, FatOf(g, data), h.entry.value, h.chain, h.first, h.size))
  }

  // Two entries do not overlap.
  predicate ClearOf(a: Place, b: Place) {
    match (a, b)
    case (InRoot(i), InRoot(j)) => i + DIR_ENTRY_SIZE <= j || j + DIR_ENTRY_SIZE <= i
    case (InCluster(c, i), InCluster(d, j)) => c != d || i + DIR_ENTRY_SIZE <= j || j + DIR_ENTRY_SIZE <= i
    case _ => true
  }

  /** That is: the 32 bytes of the one on the device are not among those of the other. */
  lemma ClearMeans(g: Geometry, size: nat, fat: Fat, a: Place, b: Place)
    requires WellFormed(g, size) && |fat| == g.totalClusters + 2 && PlaceOk(g, fat, a, []) && PlaceOk(g, fat, b, [])
    ensures ClearOf(a, b) <==>
      PlaceOffset(g, a) + 32 <= PlaceOffset(g, b) || PlaceOffset(g, b) + 32 <= PlaceOffset(g, a)
  {
    hide FatBase, ClusterOffset, ClusterSize, RootEnd;
    match (a, b) {
      case (InRoot(_), InRoot(_)) =>
      case (InRoot(_), InCluster(c, _)) => RootBeforeCluster(g, size, fat, c);
      case (InCluster(c, _), InRoot(_)) => RootBeforeCluster(g, size, fat, c);
      case (InCluster(c, _), InCluster(d, _)) =>
        if c < d {
          ClustersApart(g, c, d);
        } else if d < c {
          ClustersApart(g, d, c);
        }
    }
  }

  lemma RootBeforeCluster(g: Geometry, size: nat, fat: Fat, c: nat)
    requires WellFormed(g, size) && InRange(fat, c)
    ensures RootEnd(g) <= ClusterOffset(g, c)
  {
    Multiples(g.sectorsPerCluster, 0, c - 2);
    Multiples(g.sectorSize, g.firstDataSector, g.firstDataSector + (c - 2) * g.sectorsPerCluster);
  }

  predicate OutsideChain(entry: Option<Place>, ch: seq<nat>) {
    entry.Some? && entry.value.InCluster? ==> entry.value.cluster !in ch
  }

  // Two files share no cluster, no file holds the directory of the other, and their entries are apart.
  predicate Beside(a: Held, b: Held) {
    && (forall c :: c in a.chain ==> c !in b.chain)
    && OutsideChain(a.entry, b.chain) && OutsideChain(b.entry, a.chain)
    && (a.entry.Some? && b.entry.Some? ==> ClearOf(a.entry.value, b.entry.value))
  }

  lemma BesideBoth(a: Held, b: Held)
    ensures Beside(a, b) <==> Beside(b, a)
  {
  }

  lemma ApartChain(t: FatType, fat: Fat, others: set<seq<nat>>, ch: seq<nat>, o: seq<nat>)
    requires Apart(t, fat, others, ch)
    ensures o in others ==> IsChain(t, fat, o)
  {
  }

  // What a write to one file does to the volume.
  ghost predicate Wrote(g: Geometry, data: seq<byte>, data': seq<byte>, mine: Held, mine': Held, put: bool)
    requires WellFormed(g, |data|) && |data'| == |data|
  {
    var fat := FatOf(g, data);
    && mine'.entry == mine.entry
    && StillUsed(fat, FatOf(g, data')) && TakesFree(fat, mine.chain, mine'.chain)
    && (put ==> mine.entry.Some?)
    && Elsewhere(g, data, data', Elements(mine.chain) + FreeClusters(fat), put,
                 if put then mine.entry.value else InRoot(0))
    && (put ==>
          && PlaceOk(g, fat, mine.entry.value, mine.chain) && mine'.first < 0x1_0000_0000 && mine'.size < 0x1_0000_0000
          && EntryUpdated(g, data, data', fat, mine.entry.value, mine.chain, mine'.first, mine'.size))
    && (!put && mine.entry.Some? ==> mine'.first == mine.first && mine'.size == mine.size)
  }

  lemma AnyPlace(g: Geometry, a: seq<byte>, b: seq<byte>, except: set<nat>, put: bool, place: Place)
    requires WellFormed(g, |a|) && |a| == |b| && Elsewhere(g, a, b, except, put, place)
    ensures !put ==> Elsewhere(g, a, b, except, put, InRoot(0))
  {
    hide WellFormed, ClusterBytes, RootBytes;
  }

  // The file that was written agrees with its entry again.
  lemma WrittenAgrees(g: Geometry, data: seq<byte>, data': seq<byte>, mine: Held, mine': Held, put: bool)
    requires WellFormed(g, |data|) && |data'| == |data| && HeldOk(g, data, mine)
    requires Wrote(g, data, data', mine, mine', put)
    requires HasChain(g.fatType, FatOf(g, data'), mine'.chain, mine'.first)
    ensures HeldOk(g, data', mine')
  {
    hide WellFormed, FatOf, ClusterBytes, RootBytes, ClusterSize, HasChain, Updated, Splice;
    if mine.entry.Some? {
      var place, fat := mine.entry.value, FatOf(g, data);
      PlaceTaken(g, fat, FatOf(g, data'), place, mine.chain, mine'.chain);
      if put {
        var directory := DirectoryBytes(g, data, fat, place, mine.chain);
        var entry := directory[place.at..place.at + DIR_ENTRY_SIZE];
        UpdatedReadsBack(entry, mine'.first, mine'.size);
        SpliceBack(directory, place.at, Updated(entry, mine'.first, mine'.size));
      } else {
        DirectoryElsewhere(g, data, data', fat, place, mine.chain, Elements(mine.chain), false, InRoot(0));
      }
    }
  }

  lemma PlaceTaken(g: Geometry, fat: Fat, fat': Fat, place: Place, ch: seq<nat>, grown: seq<nat>)
    requires PlaceOk(g, fat, place, ch) && StillUsed(fat, fat') && TakesFree(fat, ch, grown)
    ensures PlaceOk(g, fat', place, grown)
  {
  }

  lemma SpliceBack(s: seq<byte>, at: nat, b: seq<byte>)
    requires at + |b| <= |s|
    ensures Splice(s, at, b)[at..at + |b|] == b
  {
  }

  // A directory that was not written to.
  lemma DirectoryElsewhere(g: Geometry, a: seq<byte>, b: seq<byte>, fat: Fat, place: Place, ch: seq<nat>,
                           mine: set<nat>, put: bool, at: Place)
    requires WellFormed(g, |a|) && |a| == |b| && |fat| == g.totalClusters + 2 && PlaceOk(g, fat, place, ch)
    requires Elsewhere(g, a, b, mine + FreeClusters(fat), put, at)
    requires place.InCluster? ==> place.cluster !in mine
    requires put ==> if place.InRoot? then !at.InRoot? else !(at.InCluster? && at.cluster == place.cluster)
    ensures DirectoryBytes(g, b, fat, place, ch) == DirectoryBytes(g, a, fat, place, ch)
  {
    hide WellFormed, ClusterBytes, RootBytes, ClusterSize;
  }

  // Any other file is as it was.
  lemma OtherStays(g: Geometry, data: seq<byte>, data': seq<byte>, mine: Held, mine': Held, put: bool, h: Held)
    requires WellFormed(g, |data|) && |data'| == |data| && Wrote(g, data, data', mine, mine', put)
    requires HeldOk(g, data, h) && Beside(mine, h) && (h.chain != [] ==> IsChain(g.fatType, FatOf(g, data'), h.chain))
    ensures HeldOk(g, data', h) && Beside(mine', h)
    ensures InVolume(g, h.chain) && ChainBytes(g, data', h.chain) == ChainBytes(g, data, h.chain)
  {
    hide WellFormed, FatOf, ClusterBytes, RootBytes, ClusterSize, IsChain, EntryUpdated, Elsewhere;
    hide FreeClusters, ChainBytes;
    var fat := FatOf(g, data);
    ChainsStayApart(g.fatType, fat, mine, mine', h);
    BytesStay(g, data, data', mine, put, h);
    if h.entry.Some? {
      EntryStays(g, data, data', mine, mine', put, h);
    }
  }

  lemma ChainsStayApart(t: FatType, fat: Fat, mine: Held, mine': Held, h: Held)
    requires TakesFree(fat, mine.chain, mine'.chain) && Beside(mine, h) && mine'.entry == mine.entry
    requires HasChain(t, fat, h.chain, h.first)
    requires h.entry.Some? && h.entry.value.InCluster? ==>
      InRange(fat, h.entry.value.cluster) && fat[h.entry.value.cluster] != 0
    ensures Beside(mine', h)
  {
    hide IsChain;
    forall c | c in mine'.chain ensures c !in h.chain {
      if c in h.chain { ChainIsNotFree(t, fat, h.chain, c); }
    }
  }

  lemma BytesStay(g: Geometry, data: seq<byte>, data': seq<byte>, mine: Held, put: bool, h: Held)
    requires WellFormed(g, |data|) && |data'| == |data| && Beside(mine, h) && (put ==> mine.entry.Some?)
    requires HasChain(g.fatType, FatOf(g, data), h.chain, h.first)
    requires
      Elsewhere(g, data, data', Elements(mine.chain) + FreeClusters(FatOf(g, data)), put,
                if put then mine.entry.value else InRoot(0))
    ensures InVolume(g, h.chain) && ChainBytes(g, data', h.chain) == ChainBytes(g, data, h.chain)
  {
    hide WellFormed, FatOf, ClusterBytes, RootBytes, ClusterSize, IsChain, FreeClusters, Elsewhere;
    ChainInVolume(g, FatOf(g, data), h.chain, h.first);
    if h.chain != [] {
      ChainElsewhere(g, data, data', FatOf(g, data), h.chain, Elements(mine.chain), put,
                     if put then mine.entry.value else InRoot(0));
    }
  }

  lemma EntryStays(g: Geometry, data: seq<byte>, data': seq<byte>, mine: Held, mine': Held, put: bool, h: Held)
    requires WellFormed(g, |data|) && |data'| == |data| && Wrote(g, data, data', mine, mine', put)
    requires HeldOk(g, data, h) && Beside(mine, h) && h.entry.Some?
    ensures PlaceOk(g, FatOf(g, data'), h.entry.value, h.chain)
    ensures EntrySays(g, data', FatOf(g, data'), h.entry.value, h.chain, h.first, h.size)
  {
    hide WellFormed, FatOf, ClusterBytes, RootBytes, ClusterSize, HasChain, Updated, Splice, Elsewhere, FreeClusters;
    var place, fat := h.entry.value, FatOf(g, data);
    PlaceTaken(g, fat, FatOf(g, data'), place, h.chain, h.chain);
    var at := if put then mine.entry.value else InRoot(0);
    if put && SameDirectory(place, at) {
      var directory := DirectoryBytes(g, data, fat, place, h.chain);
      var entry := directory[at.at..at.at + DIR_ENTRY_SIZE];
      SpliceSlice(directory, at.at, Updated(entry, mine'.first, mine'.size), place.at, place.at + DIR_ENTRY_SIZE);
    } else {
      DirectoryElsewhere(g, data, data', fat, place, h.chain, Elements(mine.chain), put, at);
    }
  }

  predicate SameDirectory(a: Place, b: Place) {
    if a.InRoot? then b.InRoot? else b.InCluster? && a.cluster == b.cluster
  }

  // ---------------------------------------------------------------- contents

  // The bytes in a file's clusters and its size; what of them can be read.
  datatype View = View(stored: seq<byte>, size: nat)

  function Shown(v: View): seq<byte> {
    v.stored[..Min(v.size, |v.stored|)]
  }

  ghost predicate Clean(v: View) {
    v.size <= |v.stored| && ZeroBetween(v.stored, v.size, |v.stored|)
  }

  ghost function ViewOf(f: FatInode): View
    requires f.Valid()
    reads f, f.volume, f.volume.device
  {
    View(f.Stored(), f.size)
  }

  // A write that fails only after its bytes were stored.
  predicate Spoils(offset: nat, buf: seq<byte>) {
    buf != [] && 0x1_0000_0000 <= offset + |buf| < 0x1_0000_0000_0000_0000
  }

  ghost predicate ReadSpec(v: View, dir: bool, offset: nat, len: nat, r: Result<seq<byte>, FsError>) {
    var s := Shown(v);
    r == if dir then Err(IsADirectory) else Ok(if offset < |s| then s[offset..Min(offset + len, |s|)] else [])
  }

  ghost predicate WriteSpec(v: View, v': View, dir: bool, offset: nat, buf: seq<byte>, r: Result<nat, FsError>) {
    && (dir ==> r == Err(IsADirectory))
    && (!dir ==> r == Ok(|buf|) || (buf != [] && r == Err(IoError)))
    && (Clean(v) && !Spoils(offset, buf) ==>
          Clean(v') && Shown(v') == if r.Ok? then FlatWrite(Shown(v), offset, buf) else Shown(v))
  }

  lemma WriteIsPlain(v: View, v': View, dir: bool, offset: nat, buf: seq<byte>, r: Result<nat, FsError>, grow: nat)
    requires if dir then r == Err(IsADirectory) else r == Ok(|buf|) || (buf != [] && r == Err(IoError))
    requires r.Ok? && buf != [] && v.size <= |v.stored| ==>
      && v'.size <= |v'.stored|
      && (Shown(v') == FlatWrite(Shown(v), offset, buf) <==> ZeroBetween(v.stored, v.size, offset))
      && (ZeroBetween(v.stored, v.size, |v.stored|) ==> ZeroBetween(v'.stored, v'.size, |v'.stored|))
    requires dir || buf == [] || (r.Err? && !Spoils(offset, buf)) ==>
      v'.size == v.size && v'.stored == v.stored + Zeros(grow)
    ensures WriteSpec(v, v', dir, offset, buf, r)
  {
    hide FlatWrite;
  }

  // A write to one file, as the others see it.
  method WriteOne(f: FatInode, offset: nat, buf: seq<byte>, ghost others: set<seq<nat>>)
    returns (r: Result<nat, FsError>, ghost put: bool)
    requires f.Valid() && HeldOk(f.volume.g, f.volume.device.data, HeldBy(f))
    requires Apart(f.volume.g.fatType, f.volume.Table(), others, f.chain)
    modifies f, f.volume, f.volume.device
    ensures f.Valid() && |f.volume.device.data| == |old(f.volume.device.data)|
    ensures Apart(f.volume.g.fatType, f.volume.Table(), others, f.chain)
    ensures HeldOk(f.volume.g, f.volume.device.data, HeldBy(f))
    ensures Wrote(f.volume.g, old(f.volume.device.data), f.volume.device.data, old(HeldBy(f)), HeldBy(f), put)
    ensures WriteSpec(old(ViewOf(f)), ViewOf(f), f.isDirectory, offset, buf, r)
  {
    hide FatOf, WellFormed, IsChain, HeldOk, Elsewhere, EntryUpdated, PlaceOk, TakesFree, StillUsed;
    hide FreeClusters, Apart;
    hide OthersSame, Lost, FreeAfter, FlatWrite, ZeroBetween, Enough, Grown, WriteSpec, ClusterSize, ChainBytes, Splice;
    ghost var data, mine, g, v := f.volume.device.data, HeldBy(f), f.volume.g, ViewOf(f);
    r := f.Write(offset, buf, others);
    assert v.stored == v.stored + Zeros(0);
    ghost var grow: nat := |f.Stored()| - |v.stored|;
    WriteIsPlain(v, ViewOf(f), f.isDirectory, offset, buf, r, grow);
    put := f.dirEntryOffset.Some? && r.Ok? && buf != [];
    AnyPlace(g, data, f.volume.device.data, Elements(mine.chain) + FreeClusters(FatOf(g, data)), put, f.place);
    WrittenAgrees(g, data, f.volume.device.data, mine, HeldBy(f), put);
  }

  // ---------------------------------------------------------------- all open files

  ghost predicate SideBySide(volume: Volume, files: seq<FatInode>)
    reads files, volume, volume.device
  {
    && volume.Valid()
    && (forall i :: 0 <= i < |files| ==>
          files[i].volume == volume && files[i].Valid() && HeldOk(volume.g, volume.device.data, HeldBy(files[i])))
    && (forall i, j :: 0 <= i < |files| && 0 <= j < |files| && i != j ==>
          files[i] != files[j] && Beside(HeldBy(files[i]), HeldBy(files[j])))
  }

  datatype Op = ReadAt(file: nat, offset: nat, len: nat) | WriteAt(file: nat, offset: nat, buf: seq<byte>)

  datatype Answer = Got(got: Result<seq<byte>, FsError>) | Put(put: Result<nat, FsError>)

  // Plain files: a write that succeeds is the plain write to its file, and nothing else changes any.
  function PlainStep(p: seq<seq<byte>>, op: Op, answer: Answer): (q: seq<seq<byte>>)
    requires op.file < |p|
    ensures |q| == |p|
  {
    if op.WriteAt? && answer.Put? && answer.put.Ok?
    then p[op.file := FlatWrite(p[op.file], op.offset, op.buf)]
    else p
  }

  predicate Below(ops: seq<Op>, n: nat) {
    forall k :: 0 <= k < |ops| ==> ops[k].file < n
  }

  function PlainRun(p: seq<seq<byte>>, ops: seq<Op>, answers: seq<Answer>): (q: seq<seq<byte>>)
    requires |answers| == |ops| && Below(ops, |p|)
    ensures |q| == |p|
  {
    if ops == [] then p
    else
      var k := |ops| - 1;
      PlainStep(PlainRun(p, ops[..k], answers[..k]), ops[k], answers[k])
  }

  // What a plain file answers.
  predicate PlainAnswer(s: seq<byte>, dir: bool, op: Op, answer: Answer) {
    match op
    case ReadAt(_, offset, len) =>
      answer == Got(if dir then Err(IsADirectory)
                    else Ok(if offset < |s| then s[offset..Min(offset + len, |s|)] else []))
    case WriteAt(_, _, buf) =>
      answer.Put? && if dir then answer.put == Err(IsADirectory)
                     else answer.put == Ok(|buf|) || (buf != [] && answer.put == Err(IoError))
  }

  // A write to the file failed only after its bytes were stored.
  predicate Spoilt(ops: seq<Op>, i: nat) {
    && ops != []
    && var op := ops[|ops| - 1];
    (op.WriteAt? && op.file == i && Spoils(op.offset, op.buf)) || Spoilt(ops[..|ops| - 1], i)
  }

  // What one operation does to the view of each file.
  ghost predicate StepSpec(v: View, v': View, dir: bool, i: nat, op: Op, answer: Answer) {
    if op.file != i then v' == v
    else match op
      case ReadAt(_, offset, len) => v' == v && answer.Got? && ReadSpec(v, dir, offset, len, answer.got)
      case WriteAt(_, offset, buf) => answer.Put? && WriteSpec(v, v', dir, offset, buf, answer.put)
  }

  // A file with zeros past its size that is not spoilt is the plain file, and answers like it.
  ghost predicate IsPlain(v0: View, v: View, i: nat, p0: seq<seq<byte>>, ops: seq<Op>, answers: seq<Answer>)
    requires |answers| == |ops| && i < |p0| && Below(ops, |p0|)
  {
    Clean(v0) && !Spoilt(ops, i) ==> Clean(v) && Shown(v) == PlainRun(p0, ops, answers)[i]
  }

  ghost predicate AnswersPlainly(v0: View, dir: bool, p0: seq<seq<byte>>, ops: seq<Op>, answers: seq<Answer>, op: Op,
                                 answer: Answer)
    requires |answers| == |ops| && op.file < |p0| && Below(ops, |p0|)
  {
    Clean(v0) && !Spoilt(ops, op.file) ==> PlainAnswer(PlainRun(p0, ops, answers)[op.file], dir, op, answer)
  }

  lemma StepIsPlain(v0: View, v: View, v': View, dir: bool, i: nat, p0: seq<seq<byte>>, ops: seq<Op>,
                    answers: seq<Answer>, op: Op, answer: Answer)
    requires |answers| == |ops| && i < |p0| && op.file < |p0| && Below(ops, |p0|)
    requires IsPlain(v0, v, i, p0, ops, answers) && StepSpec(v, v', dir, i, op, answer)
    ensures Below(ops + [op], |p0|) && IsPlain(v0, v', i, p0, ops + [op], answers + [answer])
    ensures op.file == i ==> AnswersPlainly(v0, dir, p0, ops, answers, op, answer)
  {
    hide Clean, FlatWrite, Spoils, PlainRun, Spoilt;
    OneMore(i, p0, ops, answers, op, answer);
  }

  lemma OneMore(i: nat, p0: seq<seq<byte>>, ops: seq<Op>, answers: seq<Answer>, op: Op, answer: Answer)
    requires |answers| == |ops| && op.file < |p0| && Below(ops, |p0|)
    ensures Below(ops + [op], |p0|)
    ensures PlainRun(p0, ops + [op], answers + [answer]) == PlainStep(PlainRun(p0, ops, answers), op, answer)
    ensures Spoilt(ops + [op], i) <==> (op.WriteAt? && op.file == i && Spoils(op.offset, op.buf)) || Spoilt(ops, i)
  {
    hide PlainStep, Spoils;
    assert (ops + [op])[..|ops|] == ops && (answers + [answer])[..|ops|] == answers;
  }

  // A file's own fields fit together.
  ghost predicate InMemory(f: FatInode)
    reads f
  {
    && f.size < 0x1_0000_0000
    && (f.cache.Some? ==> f.cache.value.0 < |f.chain| && f.chain[f.cache.value.0] == f.cache.value.1)
    && (f.dirEntryOffset.Some? ==> f.dirEntryOffset.value == PlaceOffset(f.volume.g, f.place))
  }

  lemma ValidInMemory(f: FatInode)
    requires f.Valid()
    ensures InMemory(f)
  {
    hide FatOf, WellFormed, IsChain, PlaceOk, PlaceOffset;
  }

  lemma HeldIsValid(f: FatInode)
    requires f.volume.Valid() && InMemory(f) && HeldOk(f.volume.g, f.volume.device.data, HeldBy(f))
    ensures f.Valid()
  {
    hide FatOf, WellFormed, IsChain, PlaceOk, PlaceOffset, EntrySays;
  }

  class OpenFiles {
    const volume: Volume
    const files: seq<FatInode>

    ghost predicate Valid()
      reads files, volume, volume.device
    {
      SideBySide(volume, files)
    }

    constructor (volume: Volume, files: seq<FatInode>)
      requires SideBySide(volume, files)
      ensures Valid() && this.volume == volume && this.files == files
    {
      this.volume := volume;
      this.files := files;
    }

    // The chains of all files but one.
    ghost function Others(i: nat): set<seq<nat>>
      reads files
    {
      set j | 0 <= j < |files| && j != i && files[j].chain != [] :: files[j].chain
    }

    lemma OthersApart(i: nat)
      requires Valid() && i < |files|
      ensures Apart(volume.g.fatType, volume.Table(), Others(i), files[i].chain)
    {
      hide FatOf, WellFormed, IsChain;
    }

    /** A write changes the file it is made to and no other; every directory entry still says what its file is. */
    method Write(i: nat, offset: nat, buf: seq<byte>) returns (r: Result<nat, FsError>)
      requires Valid() && i < |files|
      modifies files[i], volume, volume.device
      ensures Valid()
      ensures forall j :: 0 <= j < |files| && j != i ==> ViewOf(files[j]) == old(ViewOf(files[j]))
      ensures WriteSpec(old(ViewOf(files[i])), ViewOf(files[i]), files[i].isDirectory, offset, buf, r)
    {
      hide FatOf, WellFormed, IsChain, HeldOk, Beside, Wrote, WriteSpec, Apart, InMemory;
      forall j | 0 <= j < |files| ensures InMemory(files[j]) {
        ValidInMemory(files[j]);
      }
      var f := files[i];
      ghost var data, mine, g := volume.device.data, HeldBy(f), volume.g;
      OthersApart(i);
      ghost var put;
      ghost var others := Others(i);
      r, put := WriteOne(f, offset, buf, others);
      forall j | 0 <= j < |files| && j != i
        ensures files[j].Valid() && HeldOk(g, volume.device.data, HeldBy(files[j]))
        ensures Beside(HeldBy(f), HeldBy(files[j])) && Beside(HeldBy(files[j]), HeldBy(f))
        ensures ViewOf(files[j]) == old(ViewOf(files[j]))
      {
        assert files[j].chain != [] ==> files[j].chain in others;
        ApartChain(g.fatType, volume.Table(), others, f.chain, files[j].chain);
        BesideBoth(HeldBy(f), HeldBy(files[j]));
        OtherStays(g, data, volume.device.data, mine, HeldBy(f), put, HeldBy(files[j]));
        HeldIsValid(files[j]);
      }
    }

    /** A read changes nothing but the cache of its file. */
    method Read(i: nat, offset: nat, len: nat) returns (r: Result<seq<byte>, FsError>)
      requires Valid() && i < |files|
      modifies files[i]
      ensures Valid()
      ensures forall j :: 0 <= j < |files| ==> ViewOf(files[j]) == old(ViewOf(files[j]))
      ensures ReadSpec(ViewOf(files[i]), files[i].isDirectory, offset, len, r)
    {
      hide FatOf, WellFormed, IsChain, HeldOk, Beside;
      r := files[i].Read(offset, len);
    }

    method Do(op: Op) returns (answer: Answer)
      requires Valid() && op.file < |files|
      modifies files, volume, volume.device
      ensures Valid()
      ensures forall j :: 0 <= j < |files| ==>
        StepSpec(old(ViewOf(files[j])), ViewOf(files[j]), files[j].isDirectory, j, op, answer)
    {
      hide Valid, ViewOf, ReadSpec, WriteSpec;
      match op
      case ReadAt(i, offset, len) =>
        var r := Read(i, offset, len);
        return Got(r);
      case WriteAt(i, offset, buf) =>
        var r := Write(i, offset, buf);
        return Put(r);
    }

    ghost function Views(): (v: seq<View>)
      requires Valid()
      reads files, volume, volume.device
      ensures |v| == |files| && forall i :: 0 <= i < |files| ==> v[i] == ViewOf(files[i])
    {
      ViewsOf(files, volume)
    }

    /**
     Any run of reads and writes: each file is the plain file that its own successful writes give,
     and reads answer from it, whatever is done to the other files. It needs zeros past the file's
     size to begin with, and no write to the file that ends past 32 bits.
     */
    method Run(ops: seq<Op>) returns (answers: seq<Answer>)
      requires Valid() && Below(ops, |files|)
      modifies files, volume, volume.device
      ensures Valid() && |answers| == |ops|
      ensures forall i :: 0 <= i < |files| ==>
        IsPlain(old(Views())[i], Views()[i], i, AllShown(old(Views())), ops, answers)
      ensures forall k :: 0 <= k < |ops| ==> AnswersAt(old(Views()), ops, answers, k)
    {
      hide Valid, ViewOf, IsPlain, AnswersAt, StepSpec;
      ghost var v0 := Views();
      answers := [];
      StartsPlain(v0);
      assert ops[..0] == [];
      for k := 0 to |ops|
        invariant Valid() && |answers| == k
        invariant forall i :: 0 <= i < |files| ==> IsPlain(v0[i], Views()[i], i, AllShown(v0), ops[..k], answers)
        invariant forall m :: 0 <= m < k ==> AnswersAt(v0, ops[..k], answers, m)
      {
        ghost var v, before := Views(), answers;
        var answer := Do(ops[k]);
        assert ops[..k + 1] == ops[..k] + [ops[k]];
        OneMoreAnswer(v0, v, Views(), ops[..k], before, ops[k], answer);
        answers := answers + [answer];
      }
      assert ops[..|ops|] == ops;
    }

    // The answer at place k of a run is that of the plain file.
    ghost predicate AnswersAt(v0: seq<View>, ops: seq<Op>, answers: seq<Answer>, k: nat)
      requires |v0| == |files| && |answers| == |ops| && Below(ops, |files|) && k < |ops|
    {
      assert Below(ops[..k], |files|);
      var i := ops[k].file;
      AnswersPlainly(v0[i], files[i].isDirectory, AllShown(v0), ops[..k], answers[..k], ops[k], answers[k])
    }

    lemma OneMoreAnswer(v0: seq<View>, v: seq<View>, v': seq<View>, ops: seq<Op>, answers: seq<Answer>, op: Op,
                        answer: Answer)
      requires |v0| == |v| == |v'| == |files| == |AllShown(v0)| && |answers| == |ops| && Below(ops, |files|)
      requires op.file < |files|
      requires forall i :: 0 <= i < |files| ==> IsPlain(v0[i], v[i], i, AllShown(v0), ops, answers)
      requires forall m :: 0 <= m < |ops| ==> AnswersAt(v0, ops, answers, m)
      requires forall i :: 0 <= i < |files| ==> StepSpec(v[i], v'[i], files[i].isDirectory, i, op, answer)
      ensures Below(ops + [op], |files|)
      ensures forall i :: 0 <= i < |files| ==> IsPlain(v0[i], v'[i], i, AllShown(v0), ops + [op], answers + [answer])
      ensures forall m :: 0 <= m <= |ops| ==> AnswersAt(v0, ops + [op], answers + [answer], m)
    {
      hide IsPlain, AnswersPlainly, StepSpec;
      assert Below(ops + [op], |files|);
      forall i | 0 <= i < |files|
        ensures IsPlain(v0[i], v'[i], i, AllShown(v0), ops + [op], answers + [answer])
        ensures op.file == i ==> AnswersPlainly(v0[i], files[i].isDirectory, AllShown(v0), ops, answers, op, answer)
      {
        StepIsPlain(v0[i], v[i], v'[i], files[i].isDirectory, i, AllShown(v0), ops, answers, op, answer);
      }
      forall m | 0 <= m <= |ops| ensures AnswersAt(v0, ops + [op], answers + [answer], m) {
        assert (ops + [op])[..m] == ops[..m] && (answers + [answer])[..m] == answers[..m];
        if m < |ops| {
          assert AnswersAt(v0, ops, answers, m);
        } else {
          assert ops[..m] == ops && answers[..m] == answers;
        }
      }
    }
  }

  ghost function ViewsOf(files: seq<FatInode>, volume: Volume): (v: seq<View>)
    requires forall i :: 0 <= i < |files| ==> files[i].volume == volume && files[i].Valid()
    reads files, volume, volume.device
    ensures |v| == |files| && forall i :: 0 <= i < |files| ==> v[i] == ViewOf(files[i])
  {
    if files == [] then []
    else
      var k := |files| - 1;
      ViewsOf(files[..k], volume) + [ViewOf(files[k])]
  }

  function AllShown(v: seq<View>): (p: seq<seq<byte>>)
    ensures |p| == |v| && forall i :: 0 <= i < |v| ==> p[i] == Shown(v[i])
  {
    seq(|v|, i requires 0 <= i < |v| => Shown(v[i]))
  }

  lemma StartsPlain(v: seq<View>)
    ensures forall i :: 0 <= i < |v| ==> IsPlain(v[i], v[i], i, AllShown(v), [], [])
  {
    hide Clean;
  }
}
