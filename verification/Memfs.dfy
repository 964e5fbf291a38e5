/**
 The in-memory filesystem of kernel/src/fs/memfs.rs: the inode table with its quota counters, the
 weak list of inodes that `rename` searches, and the handles through which callers hold inodes.
 An inode lives while it is attached to the tree or held; its charges live with it. Every operation
 is one atomic step. Allocation failures are arguments or arbitrary choices.
 */
module Memfs {
  import opened Base
  import opened Bytes
  import opened MemfsTree
  import opened MemfsRename
  import opened SparseFile

  const USIZE_MAX: nat := 0xffff_ffff_ffff_ffff

  datatype Limits = Limits(size: nat, nrInodes: nat)

  function PageLimit(limits: Option<Limits>): nat {
    if limits.Some? then limits.value.size / PAGE_SIZE else USIZE_MAX
  }

  function InodeLimit(limits: Option<Limits>): nat {
    if limits.Some? then limits.value.nrInodes else USIZE_MAX
  }

  datatype FsStats = FsStats(blocks: nat, blocksFree: nat, files: nat, filesFree: nat)

  datatype Destination = Here(ino: Ino) | OtherFilesystem

  // ---------------------------------------------------------------- pages held by a table

  function PageCount(n: Inode): nat {
    if n.storage.Sparse? then |n.storage.pages| else 0
  }

  ghost function SumPages(t: Table): nat {
    if exists k :: k in t then
      var k :| k in t;
      PageCount(t[k]) + SumPages(t - {k})
    else 0
  }

  lemma {:induction false} SumWithout(t: Table, k: Ino)
    requires k in t
    ensures SumPages(t) == PageCount(t[k]) + SumPages(t - {k})
    decreases |t|
  {
    var c :| c in t && SumPages(t) == PageCount(t[c]) + SumPages(t - {c});
    if c != k {
      SumWithout(t - {c}, k);
      SumWithout(t - {k}, c);
      assert t - {c} - {k} == t - {k} - {c};
    }
  }

  lemma SumUpdate(t: Table, k: Ino, n: Inode)
    ensures SumPages(t[k := n]) == SumPages(t) + PageCount(n) - if k in t then PageCount(t[k]) else 0
  {
    SumWithout(t[k := n], k);
    if k in t {
      SumWithout(t, k);
      assert t[k := n] - {k} == t - {k};
    } else {
      assert t[k := n] - {k} == t;
    }
  }

  lemma {:induction false} SumSame(t: Table, t': Table)
    requires t.Keys == t'.Keys && forall n :: n in t ==> PageCount(t'[n]) == PageCount(t[n])
    ensures SumPages(t) == SumPages(t')
    decreases |t|
  {
    if k :| k in t {
      SumWithout(t, k);
      SumWithout(t', k);
      SumSame(t - {k}, t' - {k});
    }
  }

  // ---------------------------------------------------------------- invariants

  // Names that are no names of entries, and those too long.
  predicate BadName(name: Name) {
    name == [] || name == [0x2E] || name == [0x2E, 0x2E] || 0x2F in name || 0 in name
  }

  function NameRefusal(name: Name): Option<FsError> {
    if BadName(name) then Some(InvalidArgument) else if |name| > 255 then Some(NameTooLong) else None
  }

  /** `validate_name`. */
  method ValidateName(name: Name) returns (r: Result<(), FsError>)
    ensures r == if NameRefusal(name).Some? then Err(NameRefusal(name).value) else Ok(())
  {
    if |name| == 0 || name == DOT || name == DOT_DOT || SLASH in name || 0 in name {
      return Err(InvalidArgument);
    }
    if |name| > 255 {
      return Err(NameTooLong);
    }
    return Ok(());
  }

  // A directory lists only names that pass.
  predicate NamesOk(es: Entries) {
    forall i :: 0 <= i < |es| ==> NameRefusal(es[i].0).None?
  }

  ghost predicate StorageRight(s: Storage, tmpfs: bool) {
    match s
    case Dir(entries) => NamesOk(entries)
    case Ram(_) => !tmpfs
    case Sparse(size, pages) => tmpfs && ValidFile(size, pages)
  }

  ghost predicate FilesRight(t: Table, tmpfs: bool) {
    forall n {:trigger StorageRight(t[n].storage, tmpfs)} :: n in t ==> StorageRight(t[n].storage, tmpfs)
  }

  // Every inode is attached or held, and every held inode is there.
  ghost predicate Live(t: Table, handles: multiset<Ino>) {
    && (forall n {:trigger Attached(t, n)} :: n in t ==> Attached(t, n) || n in handles)
    && (forall n :: n in handles ==> n in t)
  }

  // The weak list knows every inode, and numbers are handed out upwards from 1.
  ghost predicate Known(t: Table, nodes: seq<Ino>, nextIno: Ino) {
    forall n {:trigger n in t} :: n in t ==> n in nodes && 0 < n < nextIno
  }

  ghost predicate Counted(t: Table, limits: Option<Limits>, pagesUsed: nat, inodesUsed: nat) {
    && inodesUsed == |t| <= InodeLimit(limits)
    && pagesUsed == SumPages(t) <= PageLimit(limits)
  }

  // The bytes of a file, whichever form it has.
  ghost function Contents(s: Storage): seq<byte> {
    match s
    case Dir(_) => []
    case Ram(data) => data
    case Sparse(size, pages) => if Sorted(pages) then Flat(size, pages) else []
  }

  // ---------------------------------------------------------------- why an operation is refused

  // What may go wrong once the request itself is fine: memory for the name, the entry and the
  // list of nodes, then the quota, then memory for the inode.
  ghost function CreateFailure(t: Table, dir: Ino, name: Name, fileType: FileType, limit: nat, memory: nat)
    : Option<FsError>
    requires dir in t
  {
    if CreateRefusal(t, dir, name, fileType).Some? then CreateRefusal(t, dir, name, fileType)
    else if memory < 3 then Some(OutOfMemory)
    else if |t| >= limit then Some(NoSpace)
    else if memory < 4 then Some(OutOfMemory)
    else None
  }

  ghost function CreateRefusal(t: Table, dir: Ino, name: Name, fileType: FileType): Option<FsError>
    requires dir in t
  {
    if NameRefusal(name).Some? then NameRefusal(name)
    else if fileType != Regular && fileType != Directory && fileType != Symlink then Some(NotSupported)
    else if t[dir].links == 0 then Some(NotFound)
    else if !t[dir].storage.Dir? then Some(NotADirectory)
    else if Child(t, Some(dir), name).Some? then Some(AlreadyExists)
    else None
  }

  ghost function UnlinkRefusal(t: Table, dir: Ino, name: Name, directory: bool): Option<FsError>
    requires dir in t
  {
    if NameRefusal(name).Some? then NameRefusal(name)
    else if !t[dir].storage.Dir? then Some(NotADirectory)
    else match Child(t, Some(dir), name)
      case None => Some(NotFound)
      case Some(child) =>
        if IsDir(t, child) then
          if !directory then Some(IsADirectory) else if List(t, child) != [] then Some(NotEmpty) else None
        else if directory then Some(NotADirectory) else None
  }

  // Why an inode may not take the place of another.
  ghost function ReplaceRefusal(t: Table, source: Ino, target: Ino): Option<FsError> {
    if IsDir(t, source) then
      if !IsDir(t, target) then Some(NotADirectory) else if List(t, target) != [] then Some(NotEmpty) else None
    else if IsDir(t, target) then Some(IsADirectory) else None
  }

  // A directory is never moved into itself or below itself.
  ghost predicate AtOrBelow(t: Table, root: Ino, source: Ino, dest: Ino) {
    exists p: Path, k: nat :: k <= |p| && Resolve(t, root, p) == Some(dest) && Resolve(t, root, p[..k]) == Some(source)
  }

  ghost function RenameRefusal(t: Table, root: Ino, dir: Ino, name: Name, dest: Destination, newName: Name,
                               memory: nat): Option<FsError>
    requires dir in t && (dest.Here? ==> dest.ino in t)
  {
    if NameRefusal(name).Some? then NameRefusal(name)
    else if NameRefusal(newName).Some? then NameRefusal(newName)
    else if dest.OtherFilesystem? then Some(CrossDevice)
    else if t[dest.ino].links == 0 then Some(NotFound)
    else if !t[dir].storage.Dir? then Some(NotADirectory)
    else match Child(t, Some(dir), name)
      case None => Some(NotFound)
      case Some(source) =>
        if dir == dest.ino && name == newName then None
        else if IsDir(t, source) && AtOrBelow(t, root, source, dest.ino) then Some(InvalidArgument)
        else if memory < 1 then Some(OutOfMemory)
        else if !t[dest.ino].storage.Dir? then Some(NotADirectory)
        else match Child(t, Some(dest.ino), newName)
          case None => if dir != dest.ino && memory < 2 then Some(OutOfMemory) else None
          case Some(target) => ReplaceRefusal(t, source, target)
  }

  // Good names, an attached directory to move to, and a source that is there, elsewhere and not above it.
  ghost predicate MayMove(t: Table, root: Ino, dir: Ino, name: Name, destination: Destination, newName: Name)
    requires dir in t && (destination.Here? ==> destination.ino in t)
  {
    && !BadName(name) && |name| <= 255 && !BadName(newName) && |newName| <= 255
    && destination.Here? && t[destination.ino].links > 0 && IsDir(t, destination.ino)
    && IsDir(t, dir) && Child(t, Some(dir), name).Some? && !(dir == destination.ino && name == newName)
    && !(IsDir(t, Child(t, Some(dir), name).value)
         && AtOrBelow(t, root, Child(t, Some(dir), name).value, destination.ino))
  }

  // A file may take a file's place, and a directory that of a directory that lists nothing.
  predicate Replaceable(t: Table, source: Ino, target: Ino) {
    || (!IsDir(t, source) && !IsDir(t, target))
    || (IsDir(t, source) && IsDir(t, target) && List(t, target) == [])
  }

  lemma MoveDecided(t: Table, root: Ino, dir: Ino, name: Name, destination: Destination, newName: Name, memory: nat)
    requires dir in t && (destination.Here? ==> destination.ino in t)
    ensures MayMove(t, root, dir, name, destination, newName) && memory >= 2 ==>
      var refusal := RenameRefusal(t, root, dir, name, destination, newName, memory);
      var source, target := Child(t, Some(dir), name).value, Child(t, Some(destination.ino), newName);
      && (refusal.None? <==> target.None? || Replaceable(t, source, target.value))
      && (refusal == Some(NotADirectory) <==> target.Some? && IsDir(t, source) && !IsDir(t, target.value))
      && (refusal == Some(IsADirectory) <==> target.Some? && !IsDir(t, source) && IsDir(t, target.value))
      && (refusal == Some(NotEmpty) <==>
            target.Some? && IsDir(t, source) && IsDir(t, target.value) && List(t, target.value) != [])
  {
    hide Child, List, AtOrBelow;
  }

  // An inode as `new` makes it.
  function NewInode(fileType: FileType, parent: Ino, tmpfs: bool): Inode {
    var storage := if fileType == Directory then Dir([]) else if tmpfs then Sparse(0, []) else Ram([]);
    Inode(fileType, parent, if fileType == Directory then 2 else 1, storage)
  }

  // ---------------------------------------------------------------- the filesystem

  class MemoryFs {
    const limits: Option<Limits>
    const root: Ino
    var inodes: Table
    var handles: multiset<Ino>
    var nodes: seq<Ino>
    var pagesUsed: nat
    var inodesUsed: nat
    var nextIno: Ino

    // Everything but the liveness of inodes.
    ghost predicate Sound()
      reads this
    {
      && IsTree(inodes, root)
      && FilesRight(inodes, limits.Some?)
      && Known(inodes, nodes, nextIno)
      && Counted(inodes, limits, pagesUsed, inodesUsed)
    }

    ghost predicate Valid()
      reads this
    {
      Sound() && Live(inodes, handles)
    }

    constructor Build(limits: Option<Limits>)
      requires InodeLimit(limits) > 0
      ensures Valid() && this.limits == limits
      ensures inodes == map[root := Inode(Directory, 0, 2, Dir([]))] && handles == multiset{}
      ensures nodes == [root] && nextIno == root + 1 && pagesUsed == 0 && inodesUsed == 1
    {
      this.limits := limits;
      root := 1;
      inodes := map[1 := Inode(Directory, 0, 2, Dir([]))];
      handles := multiset{};
      nodes := [1];
      pagesUsed := 0;
      inodesUsed := 1;
      nextIno := 2;
      new;
      RootAlone(root);
      SumUpdate(map[], root, inodes[root]);
    }

    /** `tmpfs`: refuses an empty or unaligned size, an empty inode quota and a mode that is none. */
    static method Tmpfs(size: nat, nrInodes: nat, mode: nat, memory: nat) returns (r: Result<MemoryFs, FsError>)
      ensures size == 0 || size % 4096 != 0 || nrInodes == 0 || mode > 0xfff <==> r == Err(InvalidArgument)
      ensures r.Err? && r.error != InvalidArgument <==> r == Err(OutOfMemory)
      ensures r == Err(OutOfMemory) ==> memory < 3
      ensures r.Ok? ==> memory >= 3
      ensures r.Ok? ==> fresh(r.value) && r.value.Valid() && r.value.limits == Some(Limits(size, nrInodes))
    {
      if size == 0 || size % PAGE_SIZE != 0 || nrInodes == 0 || mode > 0xfff {
        return Err(InvalidArgument);
      }
      if memory < 3 {
        return Err(OutOfMemory);
      }
      var fs := new MemoryFs.Build(Some(Limits(size, nrInodes)));
      return Ok(fs);
    }

    /** `statfs`: the free counts complement the live pages and inodes; nothing saturates. */
    method Statfs() returns (r: Result<FsStats, FsError>)
      requires Valid()
      ensures limits.None? ==> r == Err(NotSupported)
      ensures limits.Some? ==>
        && r.Ok?
        && r.value.blocks == limits.value.size / 4096 && r.value.files == limits.value.nrInodes
        && r.value.blocksFree + SumPages(inodes) == r.value.blocks
        && r.value.filesFree + |inodes| == r.value.files
    {
      if limits.None? {
        return Err(NotSupported);
      }
      var pages := limits.value.size / PAGE_SIZE;
      return Ok(FsStats(pages, SaturatingSub(pages, pagesUsed), limits.value.nrInodes,
                        SaturatingSub(limits.value.nrInodes, inodesUsed)));
    }

    /** An inode that is neither attached nor held goes, with its charges. */
    method DropIfUnused(n: Ino)
      requires Sound() && n in inodes
      requires forall m :: m in inodes && m != n ==> Attached(inodes, m) || m in handles
      requires forall m :: m in handles ==> m in inodes
      modifies `inodes, `pagesUsed, `inodesUsed
      ensures Valid()
      ensures inodes == if Attached(old(inodes), n) || n in handles then old(inodes) else old(inodes) - {n}
      ensures forall p: Path :: Resolve(inodes, root, p) == Resolve(old(inodes), root, p)
      ensures forall m :: Attached(old(inodes), m) ==> m in inodes && inodes[m] == old(inodes)[m]
    {
      if inodes[n].links == 0 && n !in handles {
        SumWithout(inodes, n);
        DropDetached(inodes, root, n);
        pagesUsed := pagesUsed - PageCount(inodes[n]);
        inodesUsed := inodesUsed - 1;
        inodes := inodes - {n};
        assert FilesRight(inodes, limits.Some?) by {
          forall m | m in inodes ensures StorageRight(inodes[m].storage, limits.Some?) {
            assert StorageRight(old(inodes)[m].storage, limits.Some?);
          }
        }
      } else {
        assert LinksRight(inodes, n);
      }
    }

    /** Taking one more handle to an inode: `lookup` and the clones callers make. */
    method Hold(n: Ino)
      requires Valid() && n in inodes
      modifies `handles
      ensures Valid() && handles == old(handles) + multiset{n}
    {
      handles := handles + multiset{n};
    }

    /** Dropping a handle; the last one of an unlinked inode frees it. */
    method DropHandle(n: Ino)
      requires Valid() && n in handles
      modifies `handles, `inodes, `pagesUsed, `inodesUsed
      ensures Valid() && handles == old(handles) - multiset{n}
      ensures inodes == if Attached(old(inodes), n) || n in handles then old(inodes) else old(inodes) - {n}
      ensures forall p: Path :: Resolve(inodes, root, p) == Resolve(old(inodes), root, p)
    {
      handles := handles - multiset{n};
      assert forall m :: m != n ==> handles[m] == old(handles)[m];
      DropIfUnused(n);
    }

    /**
     `create`: on success one path is added, which names the new inode, and the caller holds it.
     `memory` is the number of heap allocations that succeed before one fails.
     */
    method Create(dir: Ino, name: Name, fileType: FileType, memory: nat) returns (r: Result<Ino, FsError>)
      requires Valid() && dir in inodes
      modifies `inodes, `handles, `nodes, `inodesUsed, `nextIno
      ensures Valid()
      ensures r.Err? ==> inodes == old(inodes) && handles == old(handles)
      ensures CreateFailure(old(inodes), dir, name, fileType,
                            if limits.Some? then limits.value.nrInodes else 0xffff_ffff_ffff_ffff, memory)
           == if r.Err? then Some(r.error) else None
      ensures r.Ok? ==>
        && inodes == Grafted(old(inodes), dir, name, r.value, NewInode(fileType, dir, limits.Some?))
        && r.value == old(nextIno) && r.value !in old(inodes) && handles == old(handles) + multiset{r.value}
        && (forall n :: n in nodes ==> n in inodes)
        && inodes.Keys == old(inodes).Keys + {r.value}
        && inodes[r.value].fileType == fileType && Contents(inodes[r.value].storage) == []
        && (forall n :: n in old(inodes) && n != dir ==> inodes[n] == old(inodes)[n])
        && AddsPath(old(inodes), inodes, root, dir, name, r.value)
    {
      hide IsTree, Resolve, FilesRight, SumPages, AddsPath, List, Child, NameRefusal, Grafted;
      var valid := ValidateName(name);
      if valid.Err? {
        return Err(valid.error);
      }
      if !(fileType == Regular || fileType == Directory || fileType == Symlink) {
        return Err(NotSupported);
      }
      if inodes[dir].links == 0 {
        return Err(NotFound);
      }
      if !inodes[dir].storage.Dir? {
        return Err(NotADirectory);
      }
      if Child(inodes, Some(dir), name).Some? {
        return Err(AlreadyExists);
      }
      if memory < 3 {
        return Err(OutOfMemory);
      }
      nodes := Alive(nodes, inodes);
      AliveKnows(old(nodes), inodes);
      if inodesUsed >= InodeLimit(limits) {
        return Err(NoSpace);
      }
      var ino := nextIno;
      nextIno := nextIno + 1;
      if memory < 4 {
        return Err(OutOfMemory);
      }
      Attach(dir, name, fileType, ino);
      return Ok(ino);
    }

    // The end of `create`: the new inode is charged, listed and held.
    method Attach(dir: Ino, name: Name, fileType: FileType, ino: Ino)
      requires Valid() && dir in inodes && CreateRefusal(inodes, dir, name, fileType).None?
      requires inodesUsed < InodeLimit(limits) && ino + 1 == nextIno && ino !in inodes && ino != 0
      modifies `inodes, `handles, `nodes, `inodesUsed
      ensures Valid()
      ensures handles == old(handles) + multiset{ino} && inodes.Keys == old(inodes).Keys + {ino}
      ensures nodes == old(nodes) + [ino]
      ensures inodes == Grafted(old(inodes), dir, name, ino, NewInode(fileType, dir, limits.Some?))
      ensures inodes[ino].fileType == fileType && Contents(inodes[ino].storage) == []
      ensures forall n :: n in old(inodes) && n != dir ==> inodes[n] == old(inodes)[n]
      ensures AddsPath(old(inodes), inodes, root, dir, name, ino)
    {
      hide IsTree, Resolve, FilesRight, SumPages, AddsPath, List, Grafted, CreateRefusal, NewInode, Contents;
      RoomFor(inodes, dir, name, fileType);
      var node := NewInode(fileType, dir, limits.Some?);
      ghost var t := inodes;
      inodesUsed := inodesUsed + 1;
      nodes := nodes + [ino];
      inodes := Grafted(inodes, dir, name, ino, node);
      handles := handles + multiset{ino};
      CreateSound(t, inodes, root, dir, name, fileType, ino, node, limits.Some?);
    }

    /** `unlink`: on success the entry's path is gone and no other path changes. */
    method Unlink(dir: Ino, name: Name, directory: bool) returns (r: Result<(), FsError>)
      requires Valid() && dir in inodes
      modifies `inodes, `pagesUsed, `inodesUsed
      ensures Valid()
      ensures r.Err? ==> UnlinkRefusal(old(inodes), dir, name, directory) == Some(r.error) && inodes == old(inodes)
      ensures r.Ok? ==>
        && UnlinkRefusal(old(inodes), dir, name, directory).None?
        && var child := Child(old(inodes), Some(dir), name).value;
        && var left := Detached(old(inodes), dir, Position(List(old(inodes), dir), name).value);
        && inodes == (if child in handles then left else left - {child})
        && Goes(old(inodes), inodes, handles, Child(old(inodes), Some(dir), name).value)
        && RemovesPath(old(inodes), inodes, root, dir, name)
    {
      hide IsTree, Resolve, FilesRight, SumPages, List, NameRefusal, Detached, RemovesPath;
      var valid := ValidateName(name);
      if valid.Err? {
        return Err(valid.error);
      }
      if !inodes[dir].storage.Dir? {
        return Err(NotADirectory);
      }
      var found := Position(List(inodes, dir), name);
      if found.None? {
        return Err(NotFound);
      }
      var index := found.value;
      var child := List(inodes, dir)[index].1;
      ListedKind(inodes, root, dir, name, child);
      if inodes[child].fileType == Directory {
        if !directory {
          return Err(IsADirectory);
        }
        if |List(inodes, child)| > 0 {
          return Err(NotEmpty);
        }
      } else if directory {
        return Err(NotADirectory);
      }
      RefusedNot(inodes, root, dir, name, directory);
      ghost var t := inodes;
      inodes := Detached(inodes, dir, index);
      UnlinkSound(t, inodes, root, dir, name, index, limits.Some?);
      ghost var t2 := inodes;
      DropIfUnused(child);
      SamePathsRemove(t, t2, inodes, root, dir, name);
      return Ok(());
    }

    /**
     The walk of `rename` from the destination up to the root. It ends, finds every ancestor in
     the weak list, and answers whether the destination is the source or lies below it.
     */
    method IsAncestor(source: Ino, dest: Ino) returns (found: bool)
      requires Valid() && Attached(inodes, dest) && source in inodes
      ensures found <==> AtOrBelow(inodes, root, source, dest)
    {
      hide IsTree, FilesRight, Counted, Live, Resolve, AtOrBelow, HasPath;
      ghost var dp := PathTo(inodes, root, dest);
      ghost var k := |dp|;
      var ancestor := dest;
      assert dp[..|dp|] == dp;
      while ancestor != 0
        invariant 0 <= k <= |dp|
        invariant ancestor != 0 ==> Resolve(inodes, root, dp[..k]) == Some(ancestor)
        invariant ancestor == 0 ==> k == 0 && Resolve(inodes, root, dp[..0]) != Some(source)
        invariant forall j :: k < j <= |dp| ==> Resolve(inodes, root, dp[..j]) != Some(source)
        decreases k, ancestor != 0
      {
        if ancestor == source {
          Above(inodes, root, source, dest, dp, k);
          return true;
        }
        ParentOnPath(inodes, root, dp, k);
        assert ancestor in nodes && ancestor in inodes;
        ancestor := inodes[ancestor].parent;
        k := if k == 0 then 0 else k - 1;
      }
      NotAbove(inodes, root, source, dest, dp);
      return false;
    }

    /**
     `rename`: on success every path under the old name is re-rooted at the new one, what was at
     the new name is gone, and all other paths are unchanged; an error changes nothing.
     */
    method Rename(dir: Ino, name: Name, destination: Destination, newName: Name, memory: nat)
      returns (r: Result<(), FsError>)
      requires Valid() && dir in inodes && (destination.Here? ==> destination.ino in inodes)
      modifies `inodes, `pagesUsed, `inodesUsed
      ensures Valid()
      ensures r.Err? ==> inodes == old(inodes)
      ensures RenameRefusal(old(inodes), root, dir, name, destination, newName, memory)
           == if r.Err? then Some(r.error) else None
      // a request that is fine otherwise is decided by the kinds of the inodes and by what the replaced one lists
      ensures
        MayMove(old(inodes), root, dir, name, destination, newName) && memory >= 2 ==>
          var source := Child(old(inodes), Some(dir), name).value;
          var target := Child(old(inodes), Some(destination.ino), newName);
          && (r.Ok? <==> target.None? || Replaceable(old(inodes), source, target.value))
          && (r == Err(NotADirectory) <==>
                target.Some? && IsDir(old(inodes), source) && !IsDir(old(inodes), target.value))
          && (r == Err(IsADirectory) <==>
                target.Some? && !IsDir(old(inodes), source) && IsDir(old(inodes), target.value))
          && (r == Err(NotEmpty) <==>
                && target.Some? && IsDir(old(inodes), source) && IsDir(old(inodes), target.value)
                && List(old(inodes), target.value) != [])
      ensures r.Ok? && destination == Here(dir) && name == newName ==> inodes == old(inodes)
      ensures r.Ok? && !(destination == Here(dir) && name == newName) ==>
        && MovesPaths(old(inodes), inodes, root, dir, name, destination.ino, newName)
        && IsRenamed(old(inodes), inodes, handles, dir, name, destination.ino, newName)
        && (match Child(old(inodes), Some(destination.ino), newName)
            case None => inodes.Keys == old(inodes).Keys
            case Some(target) => Goes(old(inodes), inodes, handles, target))
        && (forall n :: n in inodes && !inodes[n].storage.Dir? ==> inodes[n].storage == old(inodes)[n].storage)
    {
      hide IsTree, Resolve, Child, List, Renamed, NameRefusal, AtOrBelow, ReplaceRefusal;
      hide FilesRight, MovesPaths, SumPages, MayMove, Replaceable;
      MoveDecided(inodes, root, dir, name, destination, newName, memory);
      var valid := ValidateName(name);
      if valid.Err? {
        return Err(valid.error);
      }
      valid := ValidateName(newName);
      if valid.Err? {
        return Err(valid.error);
      }
      if destination.OtherFilesystem? {
        return Err(CrossDevice);
      }
      var dest := destination.ino;
      if inodes[dest].links == 0 {
        return Err(NotFound);
      }
      if !inodes[dir].storage.Dir? {
        return Err(NotADirectory);
      }
      if Child(inodes, Some(dir), name).None? {
        return Err(NotFound);
      }
      var source := Child(inodes, Some(dir), name).value;
      if dir == dest && name == newName {
        return Ok(());
      }
      LinksNatural(inodes, root, dest);
      ListedIsAttached(inodes, root, dir, name, source);
      if IsDir(inodes, source) {
        var below := IsAncestor(source, dest);
        if below {
          return Err(InvalidArgument);
        }
      }
      if memory < 1 {
        return Err(OutOfMemory);
      }
      if !inodes[dest].storage.Dir? {
        return Err(NotADirectory);
      }
      var target := Child(inodes, Some(dest), newName);
      if target.Some? {
        ListedIsAttached(inodes, root, dest, newName, target.value);
        var replaced := CanReplace(source, target.value);
        if replaced.Err? {
          return Err(replaced.error);
        }
      } else {
        if dir != dest && memory < 2 {
          return Err(OutOfMemory);
        }
      }
      Relocate(dir, name, source, dest, newName);
      return Ok(());
    }

    /** `can_replace`. */
    method CanReplace(source: Ino, target: Ino) returns (r: Result<(), FsError>)
      requires Valid() && source in inodes && target in inodes
      ensures r == match ReplaceRefusal(inodes, source, target) case Some(e) => Err(e) case None => Ok(())
    {
      hide Resolve, FilesRight, SumPages;
      assert LinksRight(inodes, source) && LinksRight(inodes, target);
      if inodes[source].fileType == Directory && inodes[target].fileType == Directory {
        if |inodes[target].storage.entries| > 0 {
          return Err(NotEmpty);
        }
      } else if inodes[source].fileType == Directory {
        return Err(NotADirectory);
      } else if inodes[target].fileType == Directory {
        return Err(IsADirectory);
      }
      return Ok(());
    }

    // The end of `rename`: the replaced entry is detached, the renamed one is moved.
    method Relocate(dir: Ino, name: Name, source: Ino, dest: Ino, newName: Name)
      requires Valid() && Child(inodes, Some(dir), name) == Some(source) && Attached(inodes, dest)
      requires IsDir(inodes, dest)
      requires !(dir == dest && name == newName) && NameRefusal(newName).None?
      requires IsDir(inodes, source) ==> !AtOrBelow(inodes, root, source, dest)
      requires Child(inodes, Some(dest), newName).Some? ==>
        ReplaceRefusal(inodes, source, Child(inodes, Some(dest), newName).value).None?
      modifies `inodes, `pagesUsed, `inodesUsed
      ensures Valid()
      ensures MovesPaths(old(inodes), inodes, root, dir, name, dest, newName)
      ensures IsRenamed(old(inodes), inodes, handles, dir, name, dest, newName)
      ensures match Child(old(inodes), Some(dest), newName)
              case None => inodes.Keys == old(inodes).Keys
              case Some(target) => Goes(old(inodes), inodes, handles, target)
      ensures forall n :: n in inodes ==> n in old(inodes)
      ensures forall n :: n in inodes && !inodes[n].storage.Dir? ==> inodes[n].storage == old(inodes)[n].storage
    {
      hide IsTree, Resolve, Child, List, Renamed, AtOrBelow, ReplaceRefusal, FilesRight, MovesPaths, SumPages;
      ghost var t := inodes;
      var target := Child(inodes, Some(dest), newName);
      ghost var m := RenameMove(inodes, root, dir, name, source, dest, newName);
      inodes := Renamed(inodes, dir, source, dest, newName);
      RenameSound(t, inodes, root, m, limits.Some?);
      ghost var t2 := inodes;
      if target.Some? {
        DropIfUnused(target.value);
      }
      SamePathsMove(t, t2, inodes, root, dir, name, dest, newName);
    }

    /** `read`: the exact slice of the file, as far as the buffer and the file go. */
    method Read(n: Ino, offset: nat, buf: array<byte>) returns (r: Result<nat, FsError>)
      requires Valid() && n in inodes
      modifies buf
      ensures inodes[n].storage.Dir? ==> r == Err(IsADirectory)
      ensures !inodes[n].storage.Dir? ==>
        && r.Ok? && var s := Contents(inodes[n].storage);
        && r.value == Min(buf.Length, SaturatingSub(|s|, offset))
        && (r.value > 0 ==> buf[..r.value] == s[offset..offset + r.value])
        && buf[r.value..] == old(buf[r.value..])
    {
      assert StorageRight(inodes[n].storage, limits.Some?);
      match inodes[n].storage
      case Dir(_) =>
        return Err(IsADirectory);
      case Ram(data) =>
        var count := Min(buf.Length, SaturatingSub(|data|, offset));
        forall i | 0 <= i < count { buf[i] := data[offset + i]; }
        return Ok(count);
      case Sparse(size, pages) =>
        var count := SparseFile.Read(size, pages, offset, buf);
        return Ok(count);
    }

    // Puts new contents behind a file.
    method SetStorage(n: Ino, s: Storage, used: nat)
      requires Valid() && n in inodes && !inodes[n].storage.Dir? && !s.Dir? && StorageRight(s, limits.Some?)
      requires used <= PageLimit(limits)
      requires used == pagesUsed + PageCount(inodes[n].(storage := s)) - PageCount(inodes[n])
      modifies `inodes, `pagesUsed
      ensures Valid() && pagesUsed == used
      ensures inodes == old(inodes)[n := old(inodes)[n].(storage := s)]
      ensures forall p: Path :: Resolve(inodes, root, p) == Resolve(old(inodes), root, p)
    {
      hide IsTree, Resolve;
      SumUpdate(inodes, n, inodes[n].(storage := s));
      FileTree(inodes, root, n, s);
      inodes := inodes[n := inodes[n].(storage := s)];
      pagesUsed := used;
      assert inodes.Keys == old(inodes).Keys;
      assert forall m :: m in inodes ==> Attached(inodes, m) == Attached(old(inodes), m);
      assert FilesRight(inodes, limits.Some?) by {
        forall m | m in inodes ensures StorageRight(inodes[m].storage, limits.Some?) {
          assert StorageRight(old(inodes)[m].storage, limits.Some?);
        }
      }
    }

    /**
     `write`: reports k bytes, after which the file holds the flat write of those k; an error, and
     every other inode, leaves things as they were. `slots` and `frames` are how often a vector can
     grow and a page can be had before that fails.
     */
    method Write(n: Ino, offset: nat, buf: seq<byte>, slots: nat, frames: nat) returns (r: Result<nat, FsError>)
      requires Valid() && n in inodes
      modifies `inodes, `pagesUsed
      ensures Valid()
      ensures forall p: Path :: Resolve(inodes, root, p) == Resolve(old(inodes), root, p)
      ensures OnlyContents(old(inodes), inodes, n)
      ensures r.Err? ==> inodes == old(inodes)
      ensures inodes[n].storage.Dir? ==> r == Err(IsADirectory)
      ensures r.Ok? ==>
        && r.value <= |buf|
        && Contents(inodes[n].storage) == FlatWrite(Contents(old(inodes)[n].storage), offset, buf[..r.value])
      ensures !inodes[n].storage.Dir? ==>
        && (buf == [] ==> r == Ok(0))
        && (buf != [] && offset + |buf| > 0x7fff_ffff_ffff_ffff ==> r == Err(FileTooLarge))
        && (buf != [] && offset + |buf| <= 0x7fff_ffff_ffff_ffff && limits.None? ==>
              var grows := offset + |buf| > |Contents(old(inodes)[n].storage)|;
              r == if grows && slots == 0 then Err(OutOfMemory) else Ok(|buf|))
        && (buf != [] && offset + |buf| <= 0x7fff_ffff_ffff_ffff && limits.Some? ==>
              && inodes[n].storage.Sparse?
              && Stops(Supply(slots, frames, old(pagesUsed), limits.value.size / 4096), pagesUsed,
                       inodes[n].storage.pages, offset, |buf|, r))
    {
      hide IsTree, Resolve, FlatWrite, FilesRight;
      StorageIsRight(inodes, limits.Some?, n);
      match inodes[n].storage
      case Dir(_) =>
        return Err(IsADirectory);
      case Ram(data) =>
        if buf == [] {
          EmptyWrite(data, offset, buf);
          return Ok(0);
        }
        var end := offset + |buf|;
        if end > ISIZE_MAX {
          return Err(FileTooLarge);
        }
        if end > |data| && slots == 0 {
          return Err(OutOfMemory);
        }
        assert buf[..|buf|] == buf;
        SetStorage(n, Ram(FlatWrite(data, offset, buf)), pagesUsed);
        return Ok(|buf|);
      case Sparse(size, pages) =>
        var supply := Supply(slots, frames, pagesUsed, PageLimit(limits));
        var size', pages', supply', w := WriteData(size, pages, supply, offset, buf);
        SetStorage(n, Sparse(size', pages'), supply'.used);
        assert w.Err? ==> inodes == old(inodes);
        return w;
    }

    /** `append`: a write at the end, which it reports. */
    method Append(n: Ino, buf: seq<byte>, slots: nat, frames: nat) returns (r: Result<(nat, nat), FsError>)
      requires Valid() && n in inodes
      modifies `inodes, `pagesUsed
      ensures Valid()
      ensures forall p: Path :: Resolve(inodes, root, p) == Resolve(old(inodes), root, p)
      ensures OnlyContents(old(inodes), inodes, n)
      ensures r.Err? ==> inodes == old(inodes)
      ensures r.Ok? ==>
        var s := Contents(old(inodes)[n].storage);
        r.value.0 == |s| && r.value.1 <= |buf| && Contents(inodes[n].storage) == s + buf[..r.value.1]
      ensures inodes[n].storage.Dir? ==> r == Err(IsADirectory)
      ensures !inodes[n].storage.Dir? ==>
        var size := |Contents(old(inodes)[n].storage)|;
        && (buf == [] ==> r == Ok((size, 0)))
        && (buf != [] && size + |buf| > 0x7fff_ffff_ffff_ffff ==> r == Err(FileTooLarge))
        && (buf != [] && size + |buf| <= 0x7fff_ffff_ffff_ffff && limits.None? ==>
              r == if slots == 0 then Err(OutOfMemory) else Ok((size, |buf|)))
        && (buf != [] && size + |buf| <= 0x7fff_ffff_ffff_ffff && limits.Some? ==>
              && inodes[n].storage.Sparse?
              && Stops(Supply(slots, frames, old(pagesUsed), limits.value.size / 4096), pagesUsed,
                       inodes[n].storage.pages, size, |buf|, if r.Ok? then Ok(r.value.1) else Err(r.error)))
    {
      hide IsTree, Resolve, FlatWrite, FilesRight;
      StorageIsRight(inodes, limits.Some?, n);
      if inodes[n].storage.Dir? {
        return Err(IsADirectory);
      }
      var offset := if inodes[n].storage.Ram? then |inodes[n].storage.data| else inodes[n].storage.size;
      var w := Write(n, offset, buf, slots, frames);
      if w.Err? {
        return Err(w.error);
      }
      AppendIsWriteAtEnd(Contents(old(inodes)[n].storage), buf[..w.value]);
      return Ok((offset, w.value));
    }

    /** `truncate`: the flat resize; pages past the new end are given back. */
    method Truncate(n: Ino, newSize: nat, slots: nat) returns (r: Result<(), FsError>)
      requires Valid() && n in inodes
      modifies `inodes, `pagesUsed
      ensures Valid() && pagesUsed <= old(pagesUsed)
      ensures forall p: Path :: Resolve(inodes, root, p) == Resolve(old(inodes), root, p)
      ensures OnlyContents(old(inodes), inodes, n)
      ensures r.Err? ==> inodes == old(inodes)
      ensures r.Ok? ==> Contents(inodes[n].storage) == FlatResize(Contents(old(inodes)[n].storage), newSize)
      ensures r == (
        if newSize > 0x7fff_ffff_ffff_ffff then Err(FileTooLarge)
        else if old(inodes)[n].storage.Dir? then Err(IsADirectory)
        else if limits.None? && newSize > |Contents(old(inodes)[n].storage)| && slots == 0 then Err(OutOfMemory)
        else Ok(()))
    {
      hide IsTree, Resolve, FilesRight;
      StorageIsRight(inodes, limits.Some?, n);
      if newSize > ISIZE_MAX {
        return Err(FileTooLarge);
      }
      match inodes[n].storage
      case Dir(_) =>
        return Err(IsADirectory);
      case Ram(data) =>
        if newSize > |data| && slots == 0 {
          return Err(OutOfMemory);
        }
        SetStorage(n, Ram(FlatResize(data, newSize)), pagesUsed);
        return Ok(());
      case Sparse(size, pages) =>
        var size', pages', done := SparseFile.Truncate(size, pages, newSize);
        HoldsPages(inodes, n);
        SetStorage(n, Sparse(size', pages'), pagesUsed - (|pages| - |pages'|));
        return Ok(());
    }

    /**
     Any run: whatever is called on whatever inode, in any order and with any allocation failing,
     the filesystem stays valid. A step on an inode that is no longer there does nothing.
     */
    method Run(steps: seq<Step>)
      requires Valid()
      modifies this
      ensures Valid()
    {
      for k := 0 to |steps|
        invariant Valid()
      {
        hide Valid;
        Take(steps[k]);
      }
    }

    method Take(step: Step)
      requires Valid()
      modifies this
      ensures Valid()
    {
      hide Sound;
      if step.n in inodes {
        match step {
          case Make(dir, name, fileType, memory) =>
            var made := Create(dir, name, fileType, memory);
          case Remove(dir, name, directory) =>
            var removed := Unlink(dir, name, directory);
          case MoveTo(dir, name, destination, newName, memory) =>
            if destination.Here? ==> destination.ino in inodes {
              var moved := Rename(dir, name, destination, newName, memory);
            }
          case Put(n, offset, data, slots, frames) =>
            var put := Write(n, offset, data, slots, frames);
          case AddTo(n, data, slots, frames) =>
            var added := Append(n, data, slots, frames);
          case Cut(n, size, slots) =>
            var cut := Truncate(n, size, slots);
          case Open(n) =>
            Hold(n);
          case Close(n) =>
            if n in handles {
              DropHandle(n);
            }
        }
      }
    }
  }

  function SaturatingSub(a: nat, b: nat): nat {
    if a >= b then a - b else 0
  }

  lemma RootAlone(root: Ino)
    requires root != 0
    ensures IsTree(map[root := Inode(Directory, 0, 2, Dir([]))], root)
  {
    var t := map[root := Inode(Directory, 0, 2, Dir([]))];
    assert Resolve(t, root, []) == Some(root);
    assert forall d :: List(t, d) == [];
  }

  lemma DropDetached(t: Table, root: Ino, n: Ino)
    requires IsTree(t, root) && n in t && t[n].links == 0
    ensures IsTree(t - {n}, root)
    ensures forall p: Path :: Resolve(t - {n}, root, p) == Resolve(t, root, p)
  {
    assert LinksRight(t, n);
    SameTreeKeepsTree(t, t - {n}, root);
  }

  // ---------------------------------------------------------------- what the operations do to paths

  // Exactly one path is added: the directory's followed by the name, and it names n.
  ghost predicate AddsPath(t: Table, t': Table, root: Ino, dir: Ino, name: Name, n: Ino) {
    exists dp: Path :: Resolve(t, root, dp) == Some(dir) &&
      forall p: Path :: Resolve(t', root, p) == if p == dp + [name] then Some(n) else Resolve(t, root, p)
  }

  ghost predicate RemovesPath(t: Table, t': Table, root: Ino, dir: Ino, name: Name) {
    exists dp: Path :: Resolve(t, root, dp) == Some(dir) &&
      forall p: Path :: Resolve(t', root, p) == if dp + [name] <= p then None else Resolve(t, root, p)
  }

  ghost predicate MovesPaths(t: Table, t': Table, root: Ino, dir: Ino, name: Name, dest: Ino, newName: Name) {
    exists dp: Path, ep: Path :: Resolve(t, root, dp) == Some(dir) && Resolve(t, root, ep) == Some(dest) &&
      forall p: Path :: Resolve(t', root, p) == Rerooted(t, root, dp + [name], ep + [newName], p)
  }

  // The table after a rename, without the replaced inode unless it is held.
  ghost predicate IsRenamed(t: Table, t': Table, handles: multiset<Ino>, dir: Ino, name: Name, dest: Ino, newName: Name)
  {
    && var source := Child(t, Some(dir), name);
    && source.Some?
    && var left, target := Renamed(t, dir, source.value, dest, newName), Child(t, Some(dest), newName);
    && t' == if target.Some? && target.value !in handles then left - {target.value} else left
  }

  // An inode that lost its last name stays, detached, while it is held, and goes otherwise.
  ghost predicate Goes(t: Table, t': Table, handles: multiset<Ino>, n: Ino) {
    && t'.Keys == (if n in handles then t.Keys else t.Keys - {n})
    && (n in handles && n in t' ==> t'[n].links == 0)
  }

  datatype Step =
    | Make(n: Ino, name: Name, fileType: FileType, memory: nat)
    | Remove(n: Ino, name: Name, directory: bool)
    | MoveTo(n: Ino, name: Name, destination: Destination, newName: Name, memory: nat)
    | Put(n: Ino, offset: nat, data: seq<byte>, slots: nat, frames: nat)
    | AddTo(n: Ino, data: seq<byte>, slots: nat, frames: nat)
    | Cut(n: Ino, size: nat, slots: nat)
    | Open(n: Ino)
    | Close(n: Ino)

  // Where a write to a sparse file stops: at a page that is missing and cannot be had.
  ghost predicate Stops(supply: Supply, used: nat, pages: seq<Page>, offset: nat, len: nat, r: Result<nat, FsError>) {
    var left := supply.Left(used);
    && left.Some?
    && match r
       case Ok(k) => 0 < k <= len && (k < len ==> left.value.Refusal().Some? && !Has(pages, (offset + k) / 4096))
       case Err(e) => supply.Refusal() == Some(e) && !Has(pages, offset / 4096)
  }

  // Nothing but the contents of n may differ.
  ghost predicate OnlyContents(t: Table, t': Table, n: Ino) {
    && t'.Keys == t.Keys && n in t
    && (forall m :: m in t && m != n ==> t'[m] == t[m])
    && t'[n] == t[n].(storage := t'[n].storage)
    && t'[n].storage.Dir? == t[n].storage.Dir?
  }

  lemma FileTree(t: Table, root: Ino, n: Ino, s: Storage)
    requires IsTree(t, root) && n in t && !t[n].storage.Dir? && !s.Dir?
    ensures IsTree(t[n := t[n].(storage := s)], root)
    ensures forall p: Path :: Resolve(t[n := t[n].(storage := s)], root, p) == Resolve(t, root, p)
  {
    SameTreeKeepsTree(t, t[n := t[n].(storage := s)], root);
  }

  lemma StorageIsRight(t: Table, tmpfs: bool, n: Ino)
    requires FilesRight(t, tmpfs) && n in t
    ensures StorageRight(t[n].storage, tmpfs)
  {
  }

  lemma EmptyWrite(s: seq<byte>, offset: nat, buf: seq<byte>)
    ensures FlatWrite(s, offset, buf[..0]) == s
  {
  }

  lemma HoldsPages(t: Table, n: Ino)
    requires n in t
    ensures PageCount(t[n]) <= SumPages(t)
  {
    SumWithout(t, n);
  }

  // ---------------------------------------------------------------- lemmas for the operations

  // `nodes.retain(|node| node.strong_count() > 0)`.
  function Alive(nodes: seq<Ino>, t: Table): seq<Ino> {
    if nodes == [] then []
    else (if nodes[0] in t then [nodes[0]] else []) + Alive(nodes[1..], t)
  }

  lemma AliveKnows(nodes: seq<Ino>, t: Table)
    ensures forall n :: n in Alive(nodes, t) <==> n in nodes && n in t
  {
    if nodes != [] {
      AliveKnows(nodes[1..], t);
    }
  }

  lemma ListedIsAttached(t: Table, root: Ino, dir: Ino, name: Name, source: Ino)
    requires IsTree(t, root) && Child(t, Some(dir), name) == Some(source)
    ensures Attached(t, source) && dir in t && Attached(t, dir)
  {
    var i := Position(List(t, dir), name).value;
    assert IsChildOf(t, root, dir, List(t, dir)[i].1);
    assert LinksRight(t, dir);
  }

  lemma ListedKind(t: Table, root: Ino, dir: Ino, name: Name, child: Ino)
    requires IsTree(t, root) && Child(t, Some(dir), name) == Some(child)
    ensures child in t && (t[child].fileType == Directory <==> t[child].storage.Dir?)
  {
    ListedIsAttached(t, root, dir, name, child);
    assert LinksRight(t, child);
  }

  // A path of an attached inode.
  lemma PathTo(t: Table, root: Ino, n: Ino) returns (p: Path)
    requires IsTree(t, root) && Attached(t, n)
    ensures Resolve(t, root, p) == Some(n)
  {
    assert HasPath(t, root, n);
    p :| Resolve(t, root, p) == Some(n);
  }

  lemma LinksNatural(t: Table, root: Ino, n: Ino)
    requires IsTree(t, root) && n in t
    ensures t[n].links >= 0
  {
    assert LinksRight(t, n);
  }

  lemma RoomFor(t: Table, dir: Ino, name: Name, fileType: FileType)
    requires dir in t && CreateRefusal(t, dir, name, fileType).None?
    ensures IsDir(t, dir)
  {
  }

  // What a creation that is not refused keeps and does.
  lemma CreateSound(t: Table, t': Table, root: Ino, dir: Ino, name: Name, fileType: FileType, ino: Ino, node: Inode,
                    tmpfs: bool)
    requires IsTree(t, root) && FilesRight(t, tmpfs) && dir in t && CreateRefusal(t, dir, name, fileType).None?
    requires ino !in t && ino != 0 && node == NewInode(fileType, dir, tmpfs)
    requires IsDir(t, dir) && t' == Grafted(t, dir, name, ino, node)
    ensures IsTree(t', root) && FilesRight(t', tmpfs) && SumPages(t') == SumPages(t)
    ensures t'.Keys == t.Keys + {ino} && |t'| == |t| + 1 && t'[ino] == node
    ensures forall n :: n in t && n != dir ==> t'[n] == t[n]
    ensures forall n :: n in t ==> Attached(t', n) == Attached(t, n)
    ensures Attached(t', ino) && AddsPath(t, t', root, dir, name, ino)
    ensures t'[ino].fileType == fileType && Contents(t'[ino].storage) == []
  {
    hide IsTree, Resolve, Child, FilesRight, Grafted, NameRefusal, AddsPath, SumPages;
    LinksNatural(t, root, dir);
    var dp := PathTo(t, root, dir);
    GraftSound(t, t', root, dir, dp, name, ino, node, tmpfs);
  }

  lemma GraftSound(t: Table, t': Table, root: Ino, dir: Ino, dp: Path, name: Name, ino: Ino, node: Inode, tmpfs: bool)
    requires IsGraft(t, t', root, dir, dp, name, ino, node) && FilesRight(t, tmpfs) && NameRefusal(name).None?
    requires StorageRight(node.storage, tmpfs) && PageCount(node) == 0
    ensures IsTree(t', root) && FilesRight(t', tmpfs) && SumPages(t') == SumPages(t)
    ensures t'.Keys == t.Keys + {ino} && |t'| == |t| + 1 && t'[ino] == node
    ensures forall n :: n in t && n != dir ==> t'[n] == t[n]
    ensures forall n :: n in t ==> Attached(t', n) == Attached(t, n)
    ensures Attached(t', ino) && AddsPath(t, t', root, dir, name, ino)
  {
    hide IsTree, Resolve, Child;
    forall p: Path ensures Resolve(t', root, p) == if p == dp + [name] then Some(ino) else Resolve(t, root, p) {
      GraftResolve(t, t', root, dir, dp, name, ino, node, p);
    }
    GraftKeepsTree(t, t', root, dir, dp, name, ino, node);
    GraftLists(t, t', root, dir, dp, name, ino, node);
    FilesNames(t, tmpfs);
    forall n | n in t' ensures StorageRight(t'[n].storage, tmpfs) {
      if n != ino {
        assert StorageRight(t[n].storage, tmpfs) && NamesOk(List(t, n));
        assert t'[n].storage.Dir? ==> t'[n].storage.entries == List(t', n);
      }
    }
    var mid := t[dir := t'[dir]];
    assert t' == mid[ino := node];
    SumUpdate(t, dir, t'[dir]);
    SumUpdate(mid, ino, node);
    forall n | n in t ensures Attached(t', n) == Attached(t, n) {
      GraftLinks(t, t', root, dir, dp, name, ino, node, n);
    }
    assert t'.Keys == t.Keys + {ino};
  }

  lemma RefusedNot(t: Table, root: Ino, dir: Ino, name: Name, directory: bool)
    requires IsTree(t, root) && dir in t && UnlinkRefusal(t, dir, name, directory).None?
    ensures IsDir(t, dir) && Position(List(t, dir), name).Some?
    ensures
      var child := List(t, dir)[Position(List(t, dir), name).value].1;
      && Child(t, Some(dir), name) == Some(child) && child in t && List(t, child) == []
  {
    hide NameRefusal, Resolve;
    var child := Child(t, Some(dir), name).value;
    ListedIsAttached(t, root, dir, name, child);
  }

  // What an unlink that is not refused keeps and does.
  lemma UnlinkSound(t: Table, t': Table, root: Ino, dir: Ino, name: Name, j: nat, tmpfs: bool)
    requires IsTree(t, root) && FilesRight(t, tmpfs) && IsDir(t, dir) && Position(List(t, dir), name) == Some(j)
    requires List(t, dir)[j].1 in t && List(t, List(t, dir)[j].1) == [] && t' == Detached(t, dir, j)
    ensures IsTree(t', root) && FilesRight(t', tmpfs) && SumPages(t') == SumPages(t)
    ensures t'.Keys == t.Keys && t'[List(t, dir)[j].1].links == 0
    ensures forall n :: n in t && n != List(t, dir)[j].1 ==> Attached(t', n) == Attached(t, n)
    ensures RemovesPath(t, t', root, dir, name)
  {
    hide IsTree, Resolve, FilesRight, SumPages, Detached;
    ListedIsAttached(t, root, dir, name, List(t, dir)[j].1);
    var dp := PathTo(t, root, dir);
    DetachSound(t, t', root, dir, dp, j, tmpfs);
    forall p: Path ensures Resolve(t', root, p) == if dp + [name] <= p then None else Resolve(t, root, p) {
      DetachResolve(t, t', root, dir, dp, j, p);
    }
  }

  lemma SamePathsRemove(t: Table, t2: Table, t3: Table, root: Ino, dir: Ino, name: Name)
    requires RemovesPath(t, t2, root, dir, name)
    requires forall p: Path :: Resolve(t3, root, p) == Resolve(t2, root, p)
    ensures RemovesPath(t, t3, root, dir, name)
  {
  }

  lemma DetachSound(t: Table, t': Table, root: Ino, dir: Ino, dp: Path, j: nat, tmpfs: bool)
    requires IsDetach(t, t', root, dir, dp, j) && FilesRight(t, tmpfs)
    ensures IsTree(t', root) && FilesRight(t', tmpfs) && SumPages(t') == SumPages(t)
    ensures t'.Keys == t.Keys && t'[List(t, dir)[j].1].links == 0
    ensures forall n :: n in t && n != List(t, dir)[j].1 ==> Attached(t', n) == Attached(t, n)
  {
    hide IsTree, Resolve, Child;
    DetachKeepsTree(t, t', root, dir, dp, j);
    DetachLists(t, t', root, dir, dp, j);
    FilesNames(t, tmpfs);
    forall n | n in t' ensures StorageRight(t'[n].storage, tmpfs) && PageCount(t'[n]) == PageCount(t[n]) {
      assert StorageRight(t[n].storage, tmpfs) && NamesOk(List(t, n));
      assert t'[n].storage.Dir? ==> t'[n].storage.entries == List(t', n);
      DetachedFields(t, dir, j, n);
    }
    SumSame(t, t');
    forall n | n in t && n != List(t, dir)[j].1 ensures Attached(t', n) == Attached(t, n) {
      DetachLinks(t, t', root, dir, dp, j, n);
    }
  }

  // The paths and conditions of a rename that is not refused.
  lemma RenameMove(t: Table, root: Ino, dir: Ino, name: Name, source: Ino, dest: Ino, newName: Name) returns (m: Move)
    requires IsTree(t, root) && Child(t, Some(dir), name) == Some(source) && Attached(t, dest) && IsDir(t, dest)
    requires !(dir == dest && name == newName)
    requires IsDir(t, source) ==> !AtOrBelow(t, root, source, dest)
    requires Child(t, Some(dest), newName).Some? ==>
      ReplaceRefusal(t, source, Child(t, Some(dest), newName).value).None?
    ensures CanRename(t, root, m)
    ensures m.dir == dir && m.name == name && m.source == source && m.dest == dest && m.newName == newName
  {
    hide IsTree, Child, Resolve, AtOrBelow;
    ListedIsAttached(t, root, dir, name, source);
    var dp := PathTo(t, root, dir);
    var ep := PathTo(t, root, dest);
    m := Move(dir, dp, name, source, dest, ep, newName);
    NotBelowSource(t, root, m);
    if Child(t, Some(dest), newName).Some? && !IsDir(t, source) {
      assert List(t, Child(t, Some(dest), newName).value) == [];
    }
    ListsIsDir(t, dir, name);
  }

  lemma ListsIsDir(t: Table, dir: Ino, name: Name)
    requires Child(t, Some(dir), name).Some?
    ensures IsDir(t, dir)
  {
  }

  // A directory that is not above the destination, or a file, is not on the destination's path.
  lemma NotBelowSource(t: Table, root: Ino, m: Move)
    requires Resolve(t, root, m.dirPath) == Some(m.dir) && Resolve(t, root, m.destPath) == Some(m.dest)
    requires Child(t, Some(m.dir), m.name) == Some(m.source) && IsDir(t, m.dest)
    requires IsDir(t, m.source) ==> !AtOrBelow(t, root, m.source, m.dest)
    ensures !(m.From() <= m.destPath)
  {
    hide Child;
    var ep := m.destPath;
    ResolveSnoc(t, root, m.dirPath, m.name);
    assert m.From() <= ep ==> ep[..|m.From()|] == m.From();
    assert m.From() <= ep && |m.From()| == |ep| ==> m.From() == ep;
    if m.From() <= ep {
      if !IsDir(t, m.source) && |m.From()| < |ep| { NothingBelowLeaf(t, root, m.From(), ep); }
      assert false;
    }
  }

  lemma RenameSound(t: Table, t2: Table, root: Ino, m: Move, tmpfs: bool)
    requires CanRename(t, root, m) && t2 == Renamed(t, m.dir, m.source, m.dest, m.newName) && FilesRight(t, tmpfs)
    requires NameRefusal(m.newName).None?
    ensures IsTree(t2, root) && FilesRight(t2, tmpfs) && SumPages(t2) == SumPages(t) && t2.Keys == t.Keys
    ensures forall n :: n in t ==> (Attached(t2, n) <==> Attached(t, n) && Some(n) != Child(t, Some(m.dest), m.newName))
    ensures Child(t, Some(m.dest), m.newName).Some? ==> Child(t, Some(m.dest), m.newName).value in t
    ensures Child(t, Some(m.dest), m.newName).Some? ==> t2[Child(t, Some(m.dest), m.newName).value].links == 0
    ensures forall n :: n in t && !t[n].storage.Dir? ==> t2[n].storage == t[n].storage
    ensures forall n :: n in t ==> t2[n].storage.Dir? == t[n].storage.Dir?
    ensures MovesPaths(t, t2, root, m.dir, m.name, m.dest, m.newName)
  {
    hide IsTree, Child, Renamed, NamesOk, List;
    FilesNames(t, tmpfs);
    RenamedNames(t, m.dir, m.source, m.dest, m.newName);
    RenameKeepsTree(t, root, m);
    RenameLeaves(t, root, m, root);
    if Child(t, Some(m.dest), m.newName).Some? {
      ReplacedIsThere(t, root, m);
    }
    forall n | n in t
      ensures StorageRight(t2[n].storage, tmpfs) && PageCount(t2[n]) == PageCount(t[n])
      ensures t2[n].storage.Dir? == t[n].storage.Dir? && (!t[n].storage.Dir? ==> t2[n].storage == t[n].storage)
      ensures Attached(t2, n) <==> Attached(t, n) && Some(n) != Child(t, Some(m.dest), m.newName)
    {
      assert StorageRight(t[n].storage, tmpfs);
      RenameLeaves(t, root, m, n);
      ListedHere(t2, n);
    }
    SumSame(t, t2);
    forall p: Path
      ensures Resolve(t2, root, p) == Rerooted(t, root, m.dirPath + [m.name], m.destPath + [m.newName], p)
    {
      RenamePaths(t, root, m, p);
    }
  }

  ghost predicate NamesRight(t: Table) {
    forall d {:trigger NamesOk(List(t, d))} :: NamesOk(List(t, d))
  }

  lemma FilesNames(t: Table, tmpfs: bool)
    requires FilesRight(t, tmpfs)
    ensures NamesRight(t)
  {
    forall d ensures NamesOk(List(t, d)) {
      if d in t {
        assert StorageRight(t[d].storage, tmpfs);
      }
    }
  }

  lemma ListedHere(t: Table, n: Ino)
    requires NamesRight(t) && n in t
    ensures t[n].storage.Dir? ==> NamesOk(t[n].storage.entries)
  {
    assert NamesOk(List(t, n));
  }

  lemma DetachedNames(t: Table, d: Ino, j: nat)
    requires NamesRight(t) && IsDir(t, d) && j < |List(t, d)| && List(t, d)[j].1 in t
    ensures NamesRight(Detached(t, d, j))
  {
    hide NameRefusal;
    var t' := Detached(t, d, j);
    forall n ensures NamesOk(List(t', n)) {
      assert NamesOk(List(t, n)) && NamesOk(List(t, d));
    }
  }

  lemma MovedNames(t: Table, s: Ino, i: nat, d: Ino, b: Name)
    requires NamesRight(t) && IsDir(t, s) && IsDir(t, d) && i < |List(t, s)| && List(t, s)[i].1 in t
    requires NameRefusal(b).None?
    ensures NamesRight(Moved(t, s, i, d, b))
  {
    hide NameRefusal;
    var t' := Moved(t, s, i, d, b);
    forall n ensures NamesOk(List(t', n)) {
      assert NamesOk(List(t, n)) && NamesOk(List(t, s)) && NamesOk(List(t, d));
    }
  }

  lemma RenamedNames(t: Table, dir: Ino, source: Ino, dest: Ino, newName: Name)
    requires NamesRight(t) && NameRefusal(newName).None?
    ensures NamesRight(Renamed(t, dir, source, dest, newName))
  {
    hide NameRefusal, NamesRight, Moved, Detached;
    var j := Position(List(t, dest), newName);
    if j.Some? && List(t, dest)[j.value].1 in t {
      DetachedNames(t, dest, j.value);
    }
    var t1 := Cleared(t, dest, newName);
    var i := IndexOf(List(t1, dir), source);
    if i.Some? && IsDir(t1, dest) && source in t1 {
      MovedNames(t1, dir, i.value, dest, newName);
    }
  }

  lemma ReplacedIsThere(t: Table, root: Ino, m: Move)
    requires CanRename(t, root, m) && Child(t, Some(m.dest), m.newName).Some?
    ensures Child(t, Some(m.dest), m.newName).value in t
    ensures
      var t2 := Renamed(t, m.dir, m.source, m.dest, m.newName);
      var target := Child(t, Some(m.dest), m.newName).value;
      target in t2 && t2[target].links == 0
  {
    var target := Child(t, Some(m.dest), m.newName).value;
    ListedIsAttached(t, root, m.dest, m.newName, target);
    RenameLeaves(t, root, m, target);
  }

  lemma SamePathsMove(t: Table, t2: Table, t3: Table, root: Ino, dir: Ino, name: Name, dest: Ino, newName: Name)
    requires MovesPaths(t, t2, root, dir, name, dest, newName)
    requires forall p: Path :: Resolve(t3, root, p) == Resolve(t2, root, p)
    ensures MovesPaths(t, t3, root, dir, name, dest, newName)
  {
  }

  // One step of the walk towards the root.
  lemma ParentOnPath(t: Table, root: Ino, dp: Path, k: nat)
    requires IsTree(t, root) && k <= |dp| && Resolve(t, root, dp[..k]).Some?
    ensures
      var n := Resolve(t, root, dp[..k]).value;
      && n in t
      && if k == 0 then t[n].parent == 0
         else t[n].parent != 0 && Resolve(t, root, dp[..k - 1]) == Some(t[n].parent)
  {
    if k > 0 {
      assert dp[..k] == dp[..k - 1] + [dp[k - 1]];
      StepUp(t, root, dp[..k - 1], dp[k - 1]);
      var d := Resolve(t, root, dp[..k - 1]).value;
      OneParent(t, root, d, dp[k - 1], d, dp[k - 1], Resolve(t, root, dp[..k]).value);
      ResolvedIsAttached(t, root, dp[..k - 1]);
    }
  }

  lemma Above(t: Table, root: Ino, source: Ino, dest: Ino, dp: Path, k: nat)
    requires k <= |dp| && Resolve(t, root, dp) == Some(dest) && Resolve(t, root, dp[..k]) == Some(source)
    ensures AtOrBelow(t, root, source, dest)
  {
  }

  // Paths being unique, one path decides what lies above an inode.
  lemma NotAbove(t: Table, root: Ino, source: Ino, dest: Ino, dp: Path)
    requires IsTree(t, root) && Resolve(t, root, dp) == Some(dest)
    requires forall j :: 0 <= j <= |dp| ==> Resolve(t, root, dp[..j]) != Some(source)
    ensures !AtOrBelow(t, root, source, dest)
  {
    forall p: Path, k: nat | k <= |p| && Resolve(t, root, p) == Some(dest)
      ensures Resolve(t, root, p[..k]) != Some(source)
    {
      PathUnique(t, root, p, dp);
    }
  }
}
