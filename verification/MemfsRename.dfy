/**
 `rename` of kernel/src/fs/memfs.rs as an edit of the inode table: the entry it replaces, if any,
 is detached, then the renamed entry is moved. The results are the whole effect on paths, and that
 the tree is kept.
 */
module MemfsRename {
  import opened Base
  import opened Bytes
  import opened MemfsTree

  // `find(|(_, node)| node.ino == ino)` over the entries of a directory.
  function IndexOf(es: Entries, ino: Ino): (r: Option<nat>)
    ensures r.Some? ==> r.value < |es| && es[r.value].1 == ino
    ensures r.None? ==> forall i :: 0 <= i < |es| ==> es[i].1 != ino
  {
    if es == [] then None
    else if es[0].1 == ino then Some(0)
    else match IndexOf(es[1..], ino)
      case None => None
      case Some(i) => Some(i + 1)
  }

  // The inode at the place an entry is renamed to, when there is one.
  function Replaced(t: Table, dest: Ino, newName: Name): Option<Ino> {
    Child(t, Some(dest), newName)
  }

  // The table once the replaced entry is out of the way.
  function Cleared(t: Table, dest: Ino, newName: Name): Table {
    match Position(List(t, dest), newName)
    case None => t
    case Some(j) => if List(t, dest)[j].1 in t then Detached(t, dest, j) else t
  }

  // The table after a rename that is carried out.
  function Renamed(t: Table, dir: Ino, source: Ino, dest: Ino, newName: Name): Table {
    var t1 := Cleared(t, dest, newName);
    match IndexOf(List(t1, dir), source)
    case None => t
    case Some(i) => if IsDir(t1, dest) && source in t1 then Moved(t1, dir, i, dest, newName) else t
  }

  // What the source has established when it starts to edit.
  ghost predicate CanRename(t: Table, root: Ino, m: Move) {
    && IsTree(t, root)
    && Resolve(t, root, m.dirPath) == Some(m.dir) && Resolve(t, root, m.destPath) == Some(m.dest)
    && IsDir(t, m.dir) && IsDir(t, m.dest)
    && Child(t, Some(m.dir), m.name) == Some(m.source)
    && !(m.dir == m.dest && m.name == m.newName)
    && !(m.From() <= m.destPath)
    && (Replaced(t, m.dest, m.newName).Some? ==> List(t, Replaced(t, m.dest, m.newName).value) == [])
  }

  lemma IndexOfIs(es: Entries, i: nat)
    requires DistinctEntries(es) && i < |es|
    ensures IndexOf(es, es[i].1) == Some(i)
  {
  }

  // How the new place and the places below the old one can overlap.
  lemma Overlap(m: Move, suffix: Path)
    ensures m.To() <= m.From() + suffix ==>
      (m.To() <= m.From() && |m.To()| < |m.From()|) || m.To() == m.From() || m.From() <= m.destPath
    ensures m.To() == m.From() ==> m.destPath == m.dirPath && m.newName == m.name
    ensures m.To() <= m.dirPath ==> m.To() <= m.From() && |m.To()| < |m.From()|
  {
    var from, to := m.From(), m.To();
    if to <= from + suffix {
      if |to| <= |from| {
        assert to == (from + suffix)[..|to|] == from[..|to|];
      } else {
        assert from == (from + suffix)[..|from|] == to[..|from|] == m.destPath[..|from|];
      }
    }
    if to == from {
      assert m.destPath == to[..|to| - 1] && m.dirPath == from[..|from| - 1];
    }
  }

  // The replaced place is neither on the way to the source nor below it.
  lemma ToApart(t: Table, root: Ino, m: Move, suffix: Path)
    requires CanRename(t, root, m)
    ensures Resolve(t, root, m.From()) == Some(m.source)
    ensures Resolve(t, root, m.To()) == Replaced(t, m.dest, m.newName)
    ensures Replaced(t, m.dest, m.newName).Some? ==> !(m.To() <= m.From() + suffix) && !(m.To() <= m.dirPath)
  {
    hide Child, IsTree;
    ResolveSnoc(t, root, m.dirPath, m.name);
    ResolveSnoc(t, root, m.destPath, m.newName);
    Overlap(m, suffix);
    if Replaced(t, m.dest, m.newName).Some? && m.To() <= m.From() && |m.To()| < |m.From()| {
      NothingBelowLeaf(t, root, m.To(), m.From());
      assert false;
    }
  }

  lemma ClearedIsDetach(t: Table, root: Ino, m: Move) returns (j: nat)
    requires CanRename(t, root, m) && Replaced(t, m.dest, m.newName).Some?
    ensures j < |List(t, m.dest)| && List(t, m.dest)[j] == (m.newName, Replaced(t, m.dest, m.newName).value)
    ensures Cleared(t, m.dest, m.newName) != t
    ensures IsDetach(t, Cleared(t, m.dest, m.newName), root, m.dest, m.destPath, j)
  {
    j := Position(List(t, m.dest), m.newName).value;
    assert IsChildOf(t, root, m.dest, List(t, m.dest)[j].1);
  }

  // The first half of a rename.
  lemma ClearedTree(t: Table, root: Ino, m: Move)
    requires CanRename(t, root, m)
    ensures IsTree(Cleared(t, m.dest, m.newName), root)
    ensures CanMove(Cleared(t, m.dest, m.newName), root, m)
    ensures IsDir(Cleared(t, m.dest, m.newName), m.dir) && IsDir(Cleared(t, m.dest, m.newName), m.dest)
  {
    hide Child, Cleared, Detached;
    var t1 := Cleared(t, m.dest, m.newName);
    ToApart(t, root, m, []);
    if Replaced(t, m.dest, m.newName).Some? {
      var j := ClearedIsDetach(t, root, m);
      DetachKeepsTree(t, t1, root, m.dest, m.destPath, j);
      DetachLists(t, t1, root, m.dest, m.destPath, j);
      DetachResolve(t, t1, root, m.dest, m.destPath, j, m.dirPath);
      DetachResolve(t, t1, root, m.dest, m.destPath, j, m.destPath);
      DetachChild(t, t1, root, m.dest, m.destPath, j, m.dir, m.name);
      DetachChild(t, t1, root, m.dest, m.destPath, j, m.dest, m.newName);
    } else {
      NotCleared(t, m.dest, m.newName);
    }
  }

  lemma NotCleared(t: Table, dest: Ino, newName: Name)
    requires Replaced(t, dest, newName).None?
    ensures Cleared(t, dest, newName) == t
  {
  }

  lemma RenamedIsMove(t: Table, root: Ino, m: Move) returns (i: nat)
    requires CanRename(t, root, m)
    ensures
      var t1, t2 := Cleared(t, m.dest, m.newName), Renamed(t, m.dir, m.source, m.dest, m.newName);
      IsMove(t1, t2, root, m, i)
  {
    hide Cleared;
    var t1 := Cleared(t, m.dest, m.newName);
    ClearedTree(t, root, m);
    assert (m.name, m.source) in List(t1, m.dir);
    i :| 0 <= i < |List(t1, m.dir)| && List(t1, m.dir)[i] == (m.name, m.source);
    assert DistinctEntries(List(t1, m.dir));
    IndexOfIs(List(t1, m.dir), i);
    assert IsChildOf(t1, root, m.dir, List(t1, m.dir)[i].1);
  }

  /**
   A rename acts exactly on the path-to-inode map: every path under the old name is re-rooted at
   the new one, whatever was at the new name is gone, and all other paths are unchanged.
   */
  lemma RenamePaths(t: Table, root: Ino, m: Move, p: Path)
    requires CanRename(t, root, m)
    ensures Resolve(Renamed(t, m.dir, m.source, m.dest, m.newName), root, p)
         == Rerooted(t, root, m.From(), m.To(), p)
  {
    hide Child, Cleared, Renamed;
    var t1, t2 := Cleared(t, m.dest, m.newName), Renamed(t, m.dir, m.source, m.dest, m.newName);
    var i := RenamedIsMove(t, root, m);
    MoveRelocates(t1, t2, root, m, i);
    MoveResolve(t1, t2, root, m, p);
    var suffix := if m.To() <= p then p[|m.To()|..] else [];
    ToApart(t, root, m, suffix);
    if Replaced(t, m.dest, m.newName).Some? {
      var j := ClearedIsDetach(t, root, m);
      DetachResolve(t, t1, root, m.dest, m.destPath, j, m.From() + suffix);
      DetachResolve(t, t1, root, m.dest, m.destPath, j, p);
    } else {
      NotCleared(t, m.dest, m.newName);
    }
  }

  /** A rename keeps the tree. */
  lemma RenameKeepsTree(t: Table, root: Ino, m: Move)
    requires CanRename(t, root, m)
    ensures IsTree(Renamed(t, m.dir, m.source, m.dest, m.newName), root)
  {
    hide Child, Cleared, Renamed;
    var i := RenamedIsMove(t, root, m);
    MoveKeepsTree(Cleared(t, m.dest, m.newName), Renamed(t, m.dir, m.source, m.dest, m.newName), root, m, i);
  }

  // What a rename leaves alone: the inodes there are, what they are, file contents, and every
  // link but the replaced inode's and those counting the moved and replaced directories.
  lemma RenameLeaves(t: Table, root: Ino, m: Move, n: Ino)
    requires CanRename(t, root, m)
    ensures
      var t2 := Renamed(t, m.dir, m.source, m.dest, m.newName);
      && t2.Keys == t.Keys
      && (n in t ==>
          && t2[n].fileType == t[n].fileType && t2[n].storage.Dir? == t[n].storage.Dir?
          && (!t[n].storage.Dir? ==> t2[n].storage == t[n].storage)
          && t2[n].parent == (if n == m.source then m.dest else t[n].parent)
          && (Some(n) == Replaced(t, m.dest, m.newName) ==> t2[n].links == 0)
          && (Attached(t2, n) <==> Attached(t, n) && Some(n) != Replaced(t, m.dest, m.newName)))
  {
    var t1, t2 := Cleared(t, m.dest, m.newName), Renamed(t, m.dir, m.source, m.dest, m.newName);
    var i := RenamedIsMove(t, root, m);
    MoveLists(t1, t2, root, m, i);
    RenameKeys(t, root, m);
    if n in t {
      MoveLinks(t1, t2, root, m, i, n);
      RenameFields(t, t1, t2, root, m, i, n);
      if Replaced(t, m.dest, m.newName).Some? {
        var j := ClearedIsDetach(t, root, m);
        DetachLinks(t, t1, root, m.dest, m.destPath, j, n);
      }
    }
  }

  lemma RenameKeys(t: Table, root: Ino, m: Move)
    requires CanRename(t, root, m)
    ensures Cleared(t, m.dest, m.newName).Keys == t.Keys
  {
    if Replaced(t, m.dest, m.newName).Some? {
      var j := ClearedIsDetach(t, root, m);
      DetachLists(t, Cleared(t, m.dest, m.newName), root, m.dest, m.destPath, j);
    }
  }

  lemma RenameFields(t: Table, t1: Table, t2: Table, root: Ino, m: Move, i: nat, n: Ino)
    requires CanRename(t, root, m) && t1 == Cleared(t, m.dest, m.newName) && IsMove(t1, t2, root, m, i)
    requires n in t && n in t1 && n in t2
    ensures t2[n].fileType == t[n].fileType && t2[n].storage.Dir? == t[n].storage.Dir?
    ensures !t[n].storage.Dir? ==> t2[n].storage == t[n].storage
    ensures t2[n].parent == if n == m.source then m.dest else t[n].parent
    ensures Replaced(t, m.dest, m.newName).None? ==> t1 == t
  {
    hide Child, IsTree, Resolve, Detached, Moved;
    MoveLists(t1, t2, root, m, i);
    MovedFields(t1, m.dir, i, m.dest, m.newName, n);
    if Replaced(t, m.dest, m.newName).Some? {
      var j := ClearedIsDetach(t, root, m);
      DetachLists(t, t1, root, m.dest, m.destPath, j);
      DetachedFields(t, m.dest, j, n);
    } else {
      NotCleared(t, m.dest, m.newName);
    }
  }

  lemma DetachedFields(t: Table, d: Ino, j: nat, n: Ino)
    requires IsDir(t, d) && j < |List(t, d)| && List(t, d)[j].1 in t && n in t
    requires List(t, d)[j].1 != d
    ensures
      var t' := Detached(t, d, j);
      && t'[n].fileType == t[n].fileType && t'[n].parent == t[n].parent
      && t'[n].storage.Dir? == t[n].storage.Dir?
      && (!t[n].storage.Dir? ==> t'[n].storage == t[n].storage)
  {
  }

  lemma MovedFields(t: Table, s: Ino, i: nat, d: Ino, b: Name, n: Ino)
    requires IsDir(t, s) && IsDir(t, d) && i < |List(t, s)| && List(t, s)[i].1 in t && n in t
    requires List(t, s)[i].1 != s && List(t, s)[i].1 != d && t[List(t, s)[i].1].parent == s
    ensures
      var t' := Moved(t, s, i, d, b);
      && t'[n].fileType == t[n].fileType && t'[n].storage.Dir? == t[n].storage.Dir?
      && t'[n].parent == (if n == List(t, s)[i].1 then d else t[n].parent)
      && (!t[n].storage.Dir? ==> t'[n].storage == t[n].storage)
  {
  }
}
