/**
 The inode graph of kernel/src/fs/memfs.rs as a value: a table from inode number to inode, in
 which directories list their children by name. Paths are resolved by repeated lookup from the
 root. The three edits the operations are made of (attach a new inode, detach an entry, move an
 entry) are functions on the table; the lemmas say what each does to every path, and that each
 keeps the attached inodes a tree.
 */
module MemfsTree {
  import opened Base
  import opened Bytes

  type Ino = int
  type Path = seq<Name>
  type Entries = seq<(Name, Ino)>

  datatype Page = Page(index: nat, data: seq<byte>)

  datatype Storage =
    | Dir(entries: Entries)
    | Ram(data: seq<byte>)
    | Sparse(size: nat, pages: seq<Page>)

  datatype Inode = Inode(fileType: FileType, parent: Ino, links: int, storage: Storage)

  type Table = map<Ino, Inode>

  predicate IsDir(t: Table, n: Ino) {
    n in t && t[n].storage.Dir?
  }

  // The children of an inode; none when it is missing or not a directory.
  function List(t: Table, n: Ino): Entries {
    if IsDir(t, n) then t[n].storage.entries else []
  }

  predicate Attached(t: Table, n: Ino) {
    n in t && t[n].links > 0
  }

  // `position` over the entries of a directory: the first entry with the name.
  function Position(es: Entries, name: Name): (r: Option<nat>)
    ensures r.Some? ==> r.value < |es| && es[r.value].0 == name
    ensures r.None? ==> forall i :: 0 <= i < |es| ==> es[i].0 != name
  {
    if es == [] then None
    else if es[0].0 == name then Some(0)
    else match Position(es[1..], name)
      case None => None
      case Some(i) => Some(i + 1)
  }

  function Find(es: Entries, name: Name): (r: Option<Ino>)
    ensures r.Some? ==> (name, r.value) in es
    ensures r.None? ==> forall c :: (name, c) !in es
  {
    match Position(es, name)
    case None => None
    case Some(i) => assert es[i] == (name, es[i].1); Some(es[i].1)
  }

  function Child(t: Table, n: Option<Ino>, name: Name): Option<Ino> {
    if n.None? then None else Find(List(t, n.value), name)
  }

  // The inode a path names: one lookup for each name, starting at the root.
  function Resolve(t: Table, root: Ino, path: Path): Option<Ino> {
    if path == [] then Some(root)
    else Child(t, Resolve(t, root, path[..|path| - 1]), path[|path| - 1])
  }

  function WithoutIndex(es: Entries, i: nat): Entries
    requires i < |es|
  {
    es[..i] + es[i + 1..]
  }

  function DirCount(t: Table, es: Entries): nat {
    if es == [] then 0
    else DirCount(t, es[..|es| - 1]) + if IsDir(t, es[|es| - 1].1) then 1 else 0
  }

  ghost predicate DistinctEntries(es: Entries) {
    && (forall i, j :: 0 <= i < j < |es| ==> es[i].0 != es[j].0)
    && (forall i, j :: 0 <= i < j < |es| ==> es[i].1 != es[j].1)
  }

  ghost predicate AllDistinct(t: Table) {
    forall d {:trigger DistinctEntries(List(t, d))} :: DistinctEntries(List(t, d))
  }

  // Every listed inode exists, is attached, and has the listing directory as its parent.
  ghost predicate ChildrenPoint(t: Table, root: Ino) {
    forall d, i {:trigger List(t, d)[i]} :: 0 <= i < |List(t, d)| ==> IsChildOf(t, root, d, List(t, d)[i].1)
  }

  ghost predicate IsChildOf(t: Table, root: Ino, d: Ino, c: Ino) {
    Attached(t, c) && t[c].parent == d && c != root
  }

  ghost predicate Lists(t: Table, d: Ino, c: Ino) {
    exists i :: 0 <= i < |List(t, d)| && List(t, d)[i].1 == c
  }

  // Every attached inode but the root is listed by its parent.
  ghost predicate ParentsList(t: Table, root: Ino) {
    forall n {:trigger Lists(t, t[n].parent, n)} :: Attached(t, n) && n != root ==> Lists(t, t[n].parent, n)
  }

  // A directory has links = 2 + child directories, and is empty once detached.
  ghost predicate LinksRight(t: Table, n: Ino)
    requires n in t
  {
    && t[n].links >= 0
    && (t[n].storage.Dir? <==> t[n].fileType == Directory)
    && (t[n].links == 0 ==> List(t, n) == [])
    && (t[n].links > 0 ==> t[n].links == if t[n].storage.Dir? then 2 + DirCount(t, List(t, n)) else 1)
  }

  ghost predicate LinksCount(t: Table) {
    forall n {:trigger LinksRight(t, n)} :: n in t ==> LinksRight(t, n)
  }

  ghost predicate HasPath(t: Table, root: Ino, n: Ino) {
    exists p: Path :: Resolve(t, root, p) == Some(n)
  }

  ghost predicate AllReachable(t: Table, root: Ino) {
    forall n {:trigger HasPath(t, root, n)} :: Attached(t, n) ==> HasPath(t, root, n)
  }

  // The attached inodes form a tree below the root.
  ghost predicate IsTree(t: Table, root: Ino) {
    && Attached(t, root) && IsDir(t, root) && t[root].parent == 0 && 0 !in t
    && AllDistinct(t)
    && ChildrenPoint(t, root)
    && ParentsList(t, root)
    && LinksCount(t)
    && AllReachable(t, root)
  }

  // ---------------------------------------------------------------- lookups and paths

  lemma FindIs(es: Entries, i: nat)
    requires DistinctEntries(es) && i < |es|
    ensures Find(es, es[i].0) == Some(es[i].1)
  {
  }

  lemma FindWithout(es: Entries, i: nat, x: Name)
    requires DistinctEntries(es) && i < |es|
    ensures DistinctEntries(WithoutIndex(es, i))
    ensures Find(WithoutIndex(es, i), x) == if x == es[i].0 then None else Find(es, x)
  {
    var es' := WithoutIndex(es, i);
    match Position(es, x) {
      case None =>
      case Some(j) =>
        if j != i {
          var k := if j > i then j - 1 else j;
          assert es'[k] == es[j];
          FindIs(es', k);
        }
    }
  }

  lemma FindAppend(es: Entries, e: (Name, Ino), x: Name)
    requires DistinctEntries(es) && Find(es, e.0).None? && (forall i :: 0 <= i < |es| ==> es[i].1 != e.1)
    ensures DistinctEntries(es + [e])
    ensures Find(es + [e], x) == if x == e.0 then Some(e.1) else Find(es, x)
  {
    var es' := es + [e];
    assert forall i :: 0 <= i < |es| ==> es[i] in es && es[i] == (es[i].0, es[i].1);
    if x == e.0 {
      FindIs(es', |es|);
    } else {
      match Position(es, x) {
        case None =>
        case Some(j) => assert es'[j] == es[j]; FindIs(es', j);
      }
    }
  }

  lemma FindRenamed(es: Entries, i: nat, b: Name, x: Name)
    requires DistinctEntries(es) && i < |es| && Find(es, b).None?
    ensures DistinctEntries(es[i := (b, es[i].1)])
    ensures Find(es[i := (b, es[i].1)], x)
         == if x == b then Some(es[i].1) else if x == es[i].0 then None else Find(es, x)
  {
    var es' := es[i := (b, es[i].1)];
    assert forall j :: 0 <= j < |es| ==> es[j] in es && es[j] == (es[j].0, es[j].1);
    if x == b {
      FindIs(es', i);
    } else {
      match Position(es, x) {
        case None =>
        case Some(j) => if j != i { assert es'[j] == es[j]; FindIs(es', j); }
      }
    }
  }

  // A path that resolves does so at every prefix.
  lemma {:induction false} PrefixResolves(t: Table, root: Ino, q: Path, p: Path)
    requires q <= p && Resolve(t, root, p).Some?
    ensures Resolve(t, root, q).Some?
    decreases |p|
  {
    if |q| < |p| {
      PrefixResolves(t, root, q, p[..|p| - 1]);
    } else {
      assert q == p;
    }
  }

  lemma OneParent(t: Table, root: Ino, d: Ino, a: Name, e: Ino, b: Name, n: Ino)
    requires AllDistinct(t) && ChildrenPoint(t, root)
    requires Child(t, Some(d), a) == Some(n) == Child(t, Some(e), b)
    ensures d == e && a == b && IsChildOf(t, root, d, n)
  {
    assert (a, n) in List(t, d) && (b, n) in List(t, e);
    assert DistinctEntries(List(t, d));
  }

  // In a tree no inode has two paths.
  lemma {:induction false} PathUnique(t: Table, root: Ino, p: Path, q: Path)
    requires AllDistinct(t) && ChildrenPoint(t, root)
    requires Resolve(t, root, p).Some? && Resolve(t, root, p) == Resolve(t, root, q)
    ensures p == q
    decreases |p|
  {
    hide Child, AllDistinct, ChildrenPoint;
    if p != [] {
      var p', a := p[..|p| - 1], p[|p| - 1];
      assert p == p' + [a];
      StepUp(t, root, p', a);
      if q != [] {
        var q', b := q[..|q| - 1], q[|q| - 1];
        assert q == q' + [b];
        StepUp(t, root, q', b);
        OneParent(t, root, Resolve(t, root, p').value, a, Resolve(t, root, q').value, b, Resolve(t, root, p).value);
        PathUnique(t, root, p', q');
      }
    } else if q != [] {
      assert q == q[..|q| - 1] + [q[|q| - 1]];
      StepUp(t, root, q[..|q| - 1], q[|q| - 1]);
    }
  }

  // A path of at least one name ends with a lookup, and never at the root.
  lemma StepUp(t: Table, root: Ino, q: Path, x: Name)
    requires AllDistinct(t) && ChildrenPoint(t, root) && Resolve(t, root, q + [x]).Some?
    ensures Resolve(t, root, q).Some?
    ensures Child(t, Some(Resolve(t, root, q).value), x) == Resolve(t, root, q + [x])
    ensures Resolve(t, root, q + [x]) != Some(root)
  {
    ResolveSnoc(t, root, q, x);
    var d := Resolve(t, root, q).value;
    OneParent(t, root, d, x, d, x, Resolve(t, root, q + [x]).value);
  }

  lemma ResolveSnoc(t: Table, root: Ino, q: Path, x: Name)
    ensures Resolve(t, root, q + [x]) == Child(t, Resolve(t, root, q), x)
    ensures Resolve(t, root, q).None? ==> Resolve(t, root, q + [x]).None?
  {
    assert (q + [x])[..|q|] == q;
  }

  // What a path resolves to, if anything, is attached.
  lemma ResolvedIsAttached(t: Table, root: Ino, p: Path)
    requires IsTree(t, root) && Resolve(t, root, p).Some?
    ensures Attached(t, Resolve(t, root, p).value)
  {
    if p != [] {
      var d := Resolve(t, root, p[..|p| - 1]).value;
      assert (p[|p| - 1], Resolve(t, root, p).value) in List(t, d);
    }
  }

  // Nothing lies below an inode that lists nothing.
  lemma {:induction false} NothingBelowLeaf(t: Table, root: Ino, q: Path, p: Path)
    requires q <= p && |q| < |p|
    requires Resolve(t, root, q).Some? ==> List(t, Resolve(t, root, q).value) == []
    ensures Resolve(t, root, p).None?
    decreases |p|
  {
    if |q| + 1 < |p| {
      NothingBelowLeaf(t, root, q, p[..|p| - 1]);
    } else {
      assert p[..|p| - 1] == q;
    }
  }

  // Tables whose directories list the same children resolve every path alike.
  lemma {:induction false} SameLists(t: Table, t': Table, root: Ino, p: Path)
    requires forall d :: List(t, d) == List(t', d)
    ensures Resolve(t, root, p) == Resolve(t', root, p)
    decreases |p|
  {
    if p != [] {
      SameLists(t, t', root, p[..|p| - 1]);
    }
  }

  // ---------------------------------------------------------------- counting child directories

  lemma {:induction false} DirCountConcat(t: Table, a: Entries, b: Entries)
    ensures DirCount(t, a + b) == DirCount(t, a) + DirCount(t, b)
    decreases |b|
  {
    if b == [] {
      assert a + b == a;
    } else {
      var b' := b[..|b| - 1];
      assert (a + b)[..|a + b| - 1] == a + b';
      DirCountConcat(t, a, b');
    }
  }

  lemma DirCountWithout(t: Table, es: Entries, i: nat)
    requires i < |es|
    ensures DirCount(t, es) == DirCount(t, WithoutIndex(es, i)) + if IsDir(t, es[i].1) then 1 else 0
  {
    assert es == es[..i] + ([es[i]] + es[i + 1..]);
    DirCountConcat(t, es[..i], [es[i]] + es[i + 1..]);
    DirCountConcat(t, [es[i]], es[i + 1..]);
    DirCountConcat(t, es[..i], es[i + 1..]);
  }

  lemma DirCountAppend(t: Table, es: Entries, e: (Name, Ino))
    ensures DirCount(t, es + [e]) == DirCount(t, es) + if IsDir(t, e.1) then 1 else 0
  {
    assert (es + [e])[..|es|] == es;
  }

  lemma {:induction false} DirCountSame(t: Table, t': Table, es: Entries, es': Entries)
    requires |es| == |es'|
    requires forall i :: 0 <= i < |es| ==> es[i].1 == es'[i].1 && IsDir(t, es[i].1) == IsDir(t', es[i].1)
    ensures DirCount(t, es) == DirCount(t', es')
    decreases |es|
  {
    if es != [] {
      DirCountSame(t, t', es[..|es| - 1], es'[..|es| - 1]);
    }
  }

  // ---------------------------------------------------------------- moving an entry

  function SetList(n: Inode, es: Entries, links: int): Inode {
    n.(storage := Dir(es), links := links)
  }

  // Entry i of directory s becomes the entry b of directory d: the last part of `rename`.
  function Moved(t: Table, s: Ino, i: nat, d: Ino, b: Name): Table
    requires IsDir(t, s) && IsDir(t, d) && i < |List(t, s)| && List(t, s)[i].1 in t
  {
    var source := List(t, s)[i].1;
    var weight := if IsDir(t, source) then 1 else 0;
    if s == d then
      t[s := SetList(t[s], List(t, s)[i := (b, source)], t[s].links)]
    else
      t[s := SetList(t[s], WithoutIndex(List(t, s), i), t[s].links - weight)]
       [d := SetList(t[d], List(t, d) + [(b, source)], t[d].links + weight)]
       [source := t[source].(parent := d)]
  }

  // A move: the entry `name` of the directory `dir` at path `dirPath`, holding inode `source`,
  // becomes the entry `newName` of the directory `dest` at path `destPath`.
  datatype Move = Move(dir: Ino, dirPath: Path, name: Name, source: Ino, dest: Ino, destPath: Path, newName: Name)
  {
    function From(): Path { dirPath + [name] }
    function To(): Path { destPath + [newName] }
  }

  // What a move asks for: both directories have paths, the destination is not below
  // the moved inode, and the new name is free in the destination.
  ghost predicate CanMove(t: Table, root: Ino, m: Move) {
    && AllDistinct(t) && ChildrenPoint(t, root)
    && Resolve(t, root, m.dirPath) == Some(m.dir)
    && Resolve(t, root, m.destPath) == Some(m.dest)
    && Child(t, Some(m.dir), m.name) == Some(m.source)
    && Child(t, Some(m.dest), m.newName) == None
    && !(m.From() <= m.destPath)
  }

  // How lookups change.
  ghost predicate Relocates(t: Table, t': Table, m: Move) {
    forall n: Ino, x: Name {:trigger Child(t', Some(n), x)} :: Child(t', Some(n), x) ==
      if n == m.dest && x == m.newName then Some(m.source)
      else if n == m.dir && x == m.name then None
      else Child(t, Some(n), x)
  }

  // The path-to-inode map after a move from `from` to `to`.
  function Rerooted(t: Table, root: Ino, from: Path, to: Path, p: Path): Option<Ino> {
    if to <= p then Resolve(t, root, from + p[|to|..])
    else if from <= p then None
    else Resolve(t, root, p)
  }

  /**
   A move acts exactly on the paths: those under the new place resolve as those under the old
   one did, nothing is left under the old place, and all other paths are unchanged.
   */
  lemma {:induction false} MoveResolve(t: Table, t': Table, root: Ino, m: Move, p: Path)
    requires CanMove(t, root, m) && Relocates(t, t', m)
    ensures Resolve(t', root, p) == Rerooted(t, root, m.From(), m.To(), p)
    decreases |p|
  {
    if p != [] {
      var q, x := p[..|p| - 1], p[|p| - 1];
      assert p == q + [x];
      MoveResolve(t, t', root, m, q);
      if m.To() <= q {
        MoveBelow(t, t', root, m, q, x);
      } else {
        MoveElsewhere(t, t', root, m, q, x);
      }
    }
  }

  // The step of MoveResolve below the new place.
  lemma MoveBelow(t: Table, t': Table, root: Ino, m: Move, q: Path, x: Name)
    requires CanMove(t, root, m) && Relocates(t, t', m)
    requires m.To() <= q && Resolve(t', root, q) == Rerooted(t, root, m.From(), m.To(), q)
    ensures Resolve(t', root, q + [x]) == Rerooted(t, root, m.From(), m.To(), q + [x])
  {
    hide Child;
    var was := m.From() + q[|m.To()|..];
    assert m.From() <= was && m.To() <= q + [x];
    assert m.From() + (q + [x])[|m.To()|..] == was + [x];
    ResolveSnoc(t, root, was, x);
    ResolveSnoc(t', root, q, x);
    var above := Resolve(t, root, was);
    assert Resolve(t', root, q) == above;
    assert Rerooted(t, root, m.From(), m.To(), q + [x]) == Child(t, above, x);
    if above.Some? {
      var n := above.value;
      if n == m.dir { PathUnique(t, root, was, m.dirPath); assert false; }
      if n == m.dest { PathUnique(t, root, was, m.destPath); assert false; }
      assert Child(t', Some(n), x) == Child(t, Some(n), x);
    }
  }

  // The step of MoveResolve at the new place and away from it.
  lemma MoveElsewhere(t: Table, t': Table, root: Ino, m: Move, q: Path, x: Name)
    requires CanMove(t, root, m) && Relocates(t, t', m)
    requires !(m.To() <= q) && Resolve(t', root, q) == Rerooted(t, root, m.From(), m.To(), q)
    ensures Resolve(t', root, q + [x]) == Rerooted(t, root, m.From(), m.To(), q + [x])
  {
    hide Child;
    ResolveSnoc(t, root, q, x);
    ResolveSnoc(t', root, q, x);
    ResolveSnoc(t, root, m.dirPath, m.name);
    ResolveSnoc(t, root, m.destPath, m.newName);
    var p, above := q + [x], Resolve(t', root, q);
    if above.Some? { assert Child(t', above, x) == Child(t', Some(above.value), x); }
    if m.To() <= p {
      assert p == m.To() && q == m.destPath && x == m.newName;
      assert m.From() + p[|m.To()|..] == m.From();
    } else if m.From() <= q {
      assert m.From() <= p;
    } else if m.From() <= p {
      assert p == m.From() && q == m.dirPath && x == m.name;
    } else if above.Some? {
      assert above == Resolve(t, root, q);
      if above == Some(m.dir) && x == m.name { PathUnique(t, root, q, m.dirPath); assert false; }
      if above == Some(m.dest) && x == m.newName { PathUnique(t, root, q, m.destPath); assert false; }
      var n := above.value;
      assert Child(t', Some(n), x) == Child(t, Some(n), x);
    }
  }

  // An inode that had a path has one after the move.
  lemma MoveKeepsPath(t: Table, t': Table, root: Ino, m: Move, n: Ino)
    requires CanMove(t, root, m) && Relocates(t, t', m) && HasPath(t, root, n)
    ensures HasPath(t', root, n)
  {
    hide Child;
    var p: Path :| Resolve(t, root, p) == Some(n);
    var p' := if m.From() <= p then m.To() + p[|m.From()|..] else p;
    MoveResolve(t, t', root, m, p');
    ResolveSnoc(t, root, m.destPath, m.newName);
    if m.From() <= p {
      assert m.To() <= p' && m.From() + p'[|m.To()|..] == p;
    } else if m.To() <= p {
      PrefixResolves(t, root, m.To(), p);
      assert false;
    }
    assert Resolve(t', root, p') == Some(n);
  }

  // ---------------------------------------------------------------- the moved table is a tree

  // The inode at a path other than the root's is a child; neither end of a move is the source.
  lemma SourceApart(t: Table, root: Ino, m: Move, i: nat)
    requires CanMove(t, root, m) && i < |List(t, m.dir)| && List(t, m.dir)[i] == (m.name, m.source)
    ensures m.source != m.dir && m.source != m.dest && IsChildOf(t, root, m.dir, m.source)
  {
    assert IsChildOf(t, root, m.dir, List(t, m.dir)[i].1);
    ResolveSnoc(t, root, m.dirPath, m.name);
    if m.source == m.dir { PathUnique(t, root, m.From(), m.dirPath); }
    if m.source == m.dest { PathUnique(t, root, m.From(), m.destPath); }
  }

  ghost predicate IsMove(t: Table, t': Table, root: Ino, m: Move, i: nat) {
    && IsTree(t, root) && CanMove(t, root, m)
    && IsDir(t, m.dir) && IsDir(t, m.dest)
    && i < |List(t, m.dir)| && List(t, m.dir)[i] == (m.name, m.source)
    && m.source in t && t' == Moved(t, m.dir, i, m.dest, m.newName)
  }

  lemma MovedLists(t: Table, s: Ino, i: nat, d: Ino, b: Name)
    requires IsDir(t, s) && IsDir(t, d) && i < |List(t, s)| && List(t, s)[i].1 in t
    requires List(t, s)[i].1 != s && List(t, s)[i].1 != d
    ensures
      var t' := Moved(t, s, i, d, b);
      var source := List(t, s)[i].1;
      && t'.Keys == t.Keys
      && (forall n {:trigger t'[n]} :: n in t && n != source ==> t'[n].parent == t[n].parent)
      && (forall n {:trigger List(t', n)} :: n != s && n != d ==> List(t', n) == List(t, n))
      && (s == d ==> List(t', s) == List(t, s)[i := (b, source)])
      && (s != d ==> List(t', s) == WithoutIndex(List(t, s), i) && List(t', d) == List(t, d) + [(b, source)])
      && (forall n {:trigger IsDir(t', n)} :: IsDir(t', n) == IsDir(t, n))
  {
  }

  // The lists of the moved table.
  lemma MoveLists(t: Table, t': Table, root: Ino, m: Move, i: nat)
    requires IsMove(t, t', root, m, i)
    ensures m.source != m.dir && m.source != m.dest && IsChildOf(t, root, m.dir, m.source)
    ensures t'.Keys == t.Keys && t'[root].parent == 0
    ensures forall n {:trigger List(t', n)} :: n != m.dir && n != m.dest ==> List(t', n) == List(t, n)
    ensures m.dir == m.dest ==> List(t', m.dir) == List(t, m.dir)[i := (m.newName, m.source)]
    ensures m.dir != m.dest ==>
      && List(t', m.dir) == WithoutIndex(List(t, m.dir), i)
      && List(t', m.dest) == List(t, m.dest) + [(m.newName, m.source)]
    ensures forall n {:trigger IsDir(t', n)} :: IsDir(t', n) == IsDir(t, n)
  {
    hide Child, Moved;
    SourceApart(t, root, m, i);
    MovedLists(t, m.dir, i, m.dest, m.newName);
  }

  lemma MoveChild(t: Table, t': Table, root: Ino, m: Move, i: nat, n: Ino, x: Name)
    requires IsMove(t, t', root, m, i)
    ensures DistinctEntries(List(t', n))
    ensures Child(t', Some(n), x) ==
        if n == m.dest && x == m.newName then Some(m.source)
        else if n == m.dir && x == m.name then None
        else Child(t, Some(n), x)
  {
    MoveLists(t, t', root, m, i);
    assert DistinctEntries(List(t, n));
    if m.dir == m.dest == n {
      FindRenamed(List(t, n), i, m.newName, x);
    } else if n == m.dir {
      FindWithout(List(t, n), i, x);
    } else if n == m.dest {
      assert forall j :: 0 <= j < |List(t, n)| ==> IsChildOf(t, root, n, List(t, n)[j].1);
      FindAppend(List(t, n), (m.newName, m.source), x);
    }
  }

  lemma MoveRelocates(t: Table, t': Table, root: Ino, m: Move, i: nat)
    requires IsMove(t, t', root, m, i)
    ensures Relocates(t, t', m) && AllDistinct(t')
  {
    hide Child;
    forall n ensures DistinctEntries(List(t', n)) {
      MoveChild(t, t', root, m, i, n, m.newName);
    }
    forall n: Ino, x: Name
      ensures Child(t', Some(n), x) ==
        if n == m.dest && x == m.newName then Some(m.source)
        else if n == m.dir && x == m.name then None
        else Child(t, Some(n), x)
    {
      MoveChild(t, t', root, m, i, n, x);
    }
  }

  lemma MoveLinks(t: Table, t': Table, root: Ino, m: Move, i: nat, n: Ino)
    requires IsMove(t, t', root, m, i) && n in t
    ensures n in t' && LinksRight(t', n) && Attached(t', n) == Attached(t, n)
  {
    MoveLists(t, t', root, m, i);
    ResolvedIsAttached(t, root, m.dirPath);
    ResolvedIsAttached(t, root, m.destPath);
    assert LinksRight(t, n);
    DirCountSame(t, t', List(t', n), List(t', n));
    if m.dir == m.dest {
      if n == m.dir {
        DirCountSame(t, t', List(t, n), List(t', n));
      }
    } else if n == m.dir {
      DirCountWithout(t, List(t, n), i);
    } else if n == m.dest {
      DirCountAppend(t, List(t, n), (m.newName, m.source));
    }
  }

  lemma MoveListed(t: Table, t': Table, root: Ino, m: Move, i: nat, n: Ino)
    requires IsMove(t, t', root, m, i) && Attached(t, n) && n != root
    ensures n in t' && Lists(t', t'[n].parent, n)
  {
    hide Child;
    MoveLists(t, t', root, m, i);
    if n == m.source {
      var k := if m.dir == m.dest then i else |List(t, m.dest)|;
      assert List(t', m.dest)[k].1 == n;
    } else {
      var e := t[n].parent;
      assert Lists(t, e, n);
      var j :| 0 <= j < |List(t, e)| && List(t, e)[j].1 == n;
      var k := if m.dir != m.dest && e == m.dir && j > i then j - 1 else j;
      assert List(t', e)[k].1 == n;
    }
  }

  // The moved inode is listed by its new parent only.
  lemma MovedOnce(t: Table, t': Table, root: Ino, m: Move, i: nat, d: Ino, k: nat)
    requires IsMove(t, t', root, m, i) && k < |List(t', d)| && List(t', d)[k].1 == m.source
    ensures d == m.dest && t'[m.source].parent == d
  {
    hide Child;
    MoveLists(t, t', root, m, i);
    assert DistinctEntries(List(t, m.dir));
    assert k < |List(t, d)| ==> IsChildOf(t, root, d, List(t, d)[k].1);
  }

  lemma MoveChildrenPoint(t: Table, t': Table, root: Ino, m: Move, i: nat)
    requires IsMove(t, t', root, m, i)
    ensures ChildrenPoint(t', root)
  {
    hide Child;
    MoveLists(t, t', root, m, i);
    forall d, k | 0 <= k < |List(t', d)| ensures IsChildOf(t', root, d, List(t', d)[k].1) {
      var c := List(t', d)[k].1;
      MoveLinks(t, t', root, m, i, m.source);
      if c != m.source {
        var j := if m.dir != m.dest && d == m.dir && k >= i then k + 1 else k;
        assert List(t, d)[j].1 == c;
        assert IsChildOf(t, root, d, List(t, d)[j].1);
        MoveLinks(t, t', root, m, i, c);
      } else {
        MovedOnce(t, t', root, m, i, d, k);
      }
    }
  }

  lemma MoveKeepsTree(t: Table, t': Table, root: Ino, m: Move, i: nat)
    requires IsMove(t, t', root, m, i)
    ensures IsTree(t', root)
  {
    hide Child, Moved, LinksRight, Lists, HasPath, Resolve, List;
    MoveLists(t, t', root, m, i);
    MoveRelocates(t, t', root, m, i);
    MoveChildrenPoint(t, t', root, m, i);
    forall n | n in t' ensures LinksRight(t', n) {
      MoveLinks(t, t', root, m, i, n);
    }
    forall n | Attached(t', n) && n != root ensures Lists(t', t'[n].parent, n) {
      MoveLinks(t, t', root, m, i, n);
      MoveListed(t, t', root, m, i, n);
    }
    forall n | Attached(t', n) ensures HasPath(t', root, n) {
      MoveLinks(t, t', root, m, i, n);
      assert HasPath(t, root, n);
      MoveKeepsPath(t, t', root, m, n);
    }
    MoveLinks(t, t', root, m, i, root);
  }

  // ---------------------------------------------------------------- detaching an entry

  // Entry j of directory d goes and its inode loses its links: `detach` and the removal beside it.
  function Detached(t: Table, d: Ino, j: nat): Table
    requires IsDir(t, d) && j < |List(t, d)| && List(t, d)[j].1 in t
  {
    var child := List(t, d)[j].1;
    var weight := if IsDir(t, child) then 1 else 0;
    t[d := SetList(t[d], WithoutIndex(List(t, d), j), t[d].links - weight)]
     [child := t[child].(links := 0)]
  }

  // The detached inode lists nothing: it is a file or an empty directory.
  ghost predicate IsDetach(t: Table, t': Table, root: Ino, d: Ino, dp: Path, j: nat) {
    && IsTree(t, root) && Resolve(t, root, dp) == Some(d)
    && IsDir(t, d) && j < |List(t, d)| && List(t, d)[j].1 in t
    && List(t, List(t, d)[j].1) == []
    && t' == Detached(t, d, j)
  }

  lemma DetachLists(t: Table, t': Table, root: Ino, d: Ino, dp: Path, j: nat)
    requires IsDetach(t, t', root, d, dp, j)
    ensures
      var child := List(t, d)[j].1;
      && child != d && IsChildOf(t, root, d, child)
      && t'.Keys == t.Keys
      && (forall n {:trigger t'[n]} :: n in t ==> t'[n].parent == t[n].parent && t'[n].fileType == t[n].fileType)
      && (forall n {:trigger List(t', n)} :: n != d ==> List(t', n) == List(t, n))
      && List(t', d) == WithoutIndex(List(t, d), j)
      && (forall n {:trigger IsDir(t', n)} :: IsDir(t', n) == IsDir(t, n))
      && !Attached(t', child)
  {
    hide Child, Resolve;
    assert IsChildOf(t, root, d, List(t, d)[j].1);
  }

  lemma DetachChild(t: Table, t': Table, root: Ino, d: Ino, dp: Path, j: nat, n: Ino, x: Name)
    requires IsDetach(t, t', root, d, dp, j)
    ensures DistinctEntries(List(t', n))
    ensures Child(t', Some(n), x) == if n == d && x == List(t, d)[j].0 then None else Child(t, Some(n), x)
  {
    hide Detached, Resolve;
    DetachLists(t, t', root, d, dp, j);
    assert DistinctEntries(List(t, n));
    if n == d {
      FindWithout(List(t, n), j, x);
    }
  }

  /** Detaching an entry removes its path and no other. */
  lemma {:induction false} DetachResolve(t: Table, t': Table, root: Ino, d: Ino, dp: Path, j: nat, p: Path)
    requires IsDetach(t, t', root, d, dp, j)
    ensures Resolve(t', root, p) == if dp + [List(t, d)[j].0] <= p then None else Resolve(t, root, p)
    decreases |p|
  {
    hide Child, Detached, List;
    if p != [] {
      var q, x := p[..|p| - 1], p[|p| - 1];
      assert p == q + [x];
      DetachResolve(t, t', root, d, dp, j, q);
      ResolveSnoc(t', root, q, x);
      ResolveSnoc(t, root, q, x);
      var above := Resolve(t', root, q);
      var gone := dp + [List(t, d)[j].0];
      if above.Some? {
        var n := above.value;
        assert above == Some(n) == Resolve(t, root, q) && !(gone <= q);
        DetachChild(t, t', root, d, dp, j, n, x);
        if n == d {
          PathUnique(t, root, q, dp);
          assert gone <= p <==> x == List(t, d)[j].0;
        } else {
          assert gone <= p ==> q == dp;
        }
      } else if !(gone <= p) {
        assert !(gone <= q);
      }
    }
  }

  lemma DetachLinks(t: Table, t': Table, root: Ino, d: Ino, dp: Path, j: nat, n: Ino)
    requires IsDetach(t, t', root, d, dp, j) && n in t
    ensures n in t' && LinksRight(t', n)
    ensures Attached(t', n) <==> Attached(t, n) && n != List(t, d)[j].1
  {
    hide Child, Resolve;
    DetachLists(t, t', root, d, dp, j);
    ResolvedIsAttached(t, root, dp);
    assert LinksRight(t, n);
    DirCountSame(t, t', List(t', n), List(t', n));
    if n == d {
      DirCountWithout(t, List(t, n), j);
    }
  }

  lemma DetachListed(t: Table, t': Table, root: Ino, d: Ino, dp: Path, j: nat, n: Ino)
    requires IsDetach(t, t', root, d, dp, j) && Attached(t, n) && n != root && n != List(t, d)[j].1
    ensures n in t' && Lists(t', t'[n].parent, n)
  {
    hide Child, Resolve;
    DetachLists(t, t', root, d, dp, j);
    var e := t[n].parent;
    assert Lists(t, e, n);
    var i :| 0 <= i < |List(t, e)| && List(t, e)[i].1 == n;
    var k := if e == d && i > j then i - 1 else i;
    assert List(t', e)[k].1 == n;
  }

  lemma DetachChildrenPoint(t: Table, t': Table, root: Ino, d: Ino, dp: Path, j: nat)
    requires IsDetach(t, t', root, d, dp, j)
    ensures ChildrenPoint(t', root)
  {
    hide Child, Detached, Resolve;
    DetachLists(t, t', root, d, dp, j);
    assert DistinctEntries(List(t, d));
    forall e, k | 0 <= k < |List(t', e)| ensures IsChildOf(t', root, e, List(t', e)[k].1) {
      var i := if e == d && k >= j then k + 1 else k;
      assert List(t, e)[i] == List(t', e)[k];
      assert IsChildOf(t, root, e, List(t, e)[i].1);
      DetachLinks(t, t', root, d, dp, j, List(t', e)[k].1);
    }
  }

  lemma DetachKeepsTree(t: Table, t': Table, root: Ino, d: Ino, dp: Path, j: nat)
    requires IsDetach(t, t', root, d, dp, j)
    ensures IsTree(t', root)
  {
    hide Child, Detached, LinksRight, Lists, HasPath, List;
    DetachLists(t, t', root, d, dp, j);
    DetachChildrenPoint(t, t', root, d, dp, j);
    forall n ensures DistinctEntries(List(t', n)) {
      DetachChild(t, t', root, d, dp, j, n, List(t, d)[j].0);
    }
    forall n | n in t' ensures LinksRight(t', n) {
      DetachLinks(t, t', root, d, dp, j, n);
    }
    forall n | Attached(t', n) && n != root ensures Lists(t', t'[n].parent, n) {
      DetachLinks(t, t', root, d, dp, j, n);
      DetachListed(t, t', root, d, dp, j, n);
    }
    forall n | Attached(t', n) ensures HasPath(t', root, n) {
      DetachLinks(t, t', root, d, dp, j, n);
      DetachKeepsPath(t, t', root, d, dp, j, n);
    }
    DetachLinks(t, t', root, d, dp, j, root);
  }

  lemma DetachKeepsPath(t: Table, t': Table, root: Ino, d: Ino, dp: Path, j: nat, n: Ino)
    requires IsDetach(t, t', root, d, dp, j) && Attached(t, n) && n != List(t, d)[j].1
    ensures HasPath(t', root, n)
  {
    hide Child, Detached;
    assert HasPath(t, root, n);
    var p: Path :| Resolve(t, root, p) == Some(n);
    var child, gone := List(t, d)[j].1, dp + [List(t, d)[j].0];
    DetachResolve(t, t', root, d, dp, j, p);
    assert Resolve(t, root, gone) == Some(child) by {
      ResolveSnoc(t, root, dp, List(t, d)[j].0);
      ChildIs(t, d, j);
    }
    assert gone <= p && |p| == |gone| ==> p == gone;
    if gone <= p {
      if |p| > |gone| { NothingBelowLeaf(t, root, gone, p); }
      assert false;
    }
  }

  lemma ChildIs(t: Table, d: Ino, i: nat)
    requires AllDistinct(t) && i < |List(t, d)|
    ensures Child(t, Some(d), List(t, d)[i].0) == Some(List(t, d)[i].1)
  {
    assert DistinctEntries(List(t, d));
    FindIs(List(t, d), i);
  }

  // ---------------------------------------------------------------- attaching a new inode

  // A fresh inode becomes the last entry of directory d: the end of `create`.
  function Grafted(t: Table, d: Ino, name: Name, ino: Ino, node: Inode): Table
    requires IsDir(t, d)
  {
    var weight := if node.storage.Dir? then 1 else 0;
    t[d := SetList(t[d], List(t, d) + [(name, ino)], t[d].links + weight)][ino := node]
  }

  ghost predicate IsGraft(t: Table, t': Table, root: Ino, d: Ino, dp: Path, name: Name, ino: Ino, node: Inode) {
    && IsTree(t, root) && Resolve(t, root, dp) == Some(d) && IsDir(t, d)
    && Child(t, Some(d), name).None? && ino !in t && ino != 0
    && node.parent == d && (node.storage.Dir? <==> node.fileType == Directory)
    && (node.storage.Dir? ==> node.storage.entries == [])
    && node.links == (if node.storage.Dir? then 2 else 1)
    && t' == Grafted(t, d, name, ino, node)
  }

  lemma GraftLists(t: Table, t': Table, root: Ino, d: Ino, dp: Path, name: Name, ino: Ino, node: Inode)
    requires IsGraft(t, t', root, d, dp, name, ino, node)
    ensures ino != d && t'.Keys == t.Keys + {ino} && t'[ino] == node
    ensures forall n {:trigger t'[n]} :: n in t ==> t'[n].parent == t[n].parent
    ensures forall n {:trigger List(t', n)} :: n != d ==> List(t', n) == List(t, n)
    ensures List(t', d) == List(t, d) + [(name, ino)]
    ensures forall n {:trigger IsDir(t', n)} :: n != ino ==> IsDir(t', n) == IsDir(t, n)
  {
    hide Child, Resolve;
  }

  lemma GraftChild(t: Table, t': Table, root: Ino, d: Ino, dp: Path, name: Name, ino: Ino, node: Inode, n: Ino, x: Name)
    requires IsGraft(t, t', root, d, dp, name, ino, node)
    ensures DistinctEntries(List(t', n))
    ensures Child(t', Some(n), x) == if n == d && x == name then Some(ino) else Child(t, Some(n), x)
  {
    hide Grafted, Resolve;
    GraftLists(t, t', root, d, dp, name, ino, node);
    assert DistinctEntries(List(t, n));
    if n == d {
      assert forall j :: 0 <= j < |List(t, n)| ==> IsChildOf(t, root, n, List(t, n)[j].1);
      FindAppend(List(t, n), (name, ino), x);
    }
  }

  /** Creating an entry adds its path and changes no other. */
  lemma {:induction false} GraftResolve(t: Table, t': Table, root: Ino, d: Ino, dp: Path, name: Name, ino: Ino,
                                        node: Inode, p: Path)
    requires IsGraft(t, t', root, d, dp, name, ino, node)
    ensures Resolve(t', root, p) == if p == dp + [name] then Some(ino) else Resolve(t, root, p)
    decreases |p|
  {
    hide Child, Grafted, List;
    if p != [] {
      var q, x := p[..|p| - 1], p[|p| - 1];
      assert p == q + [x];
      GraftResolve(t, t', root, d, dp, name, ino, node, q);
      ResolveSnoc(t', root, q, x);
      ResolveSnoc(t, root, q, x);
      ResolveSnoc(t, root, dp, name);
      var above := Resolve(t', root, q);
      if above.Some? {
        var n := above.value;
        assert above == Some(n);
        GraftChild(t, t', root, d, dp, name, ino, node, n, x);
        if q == dp + [name] {
          assert Child(t, Some(ino), x).None? by { NoChildren(t, ino, x); }
        } else if n == d {
          PathUnique(t, root, q, dp);
        }
      }
    }
  }

  lemma NoChildren(t: Table, n: Ino, x: Name)
    requires List(t, n) == [] || n !in t
    ensures Child(t, Some(n), x).None?
  {
  }

  lemma GraftLinks(t: Table, t': Table, root: Ino, d: Ino, dp: Path, name: Name, ino: Ino, node: Inode, n: Ino)
    requires IsGraft(t, t', root, d, dp, name, ino, node) && n in t'
    ensures LinksRight(t', n)
    ensures Attached(t', n) <==> Attached(t, n) || n == ino
  {
    hide Child, Resolve;
    GraftLists(t, t', root, d, dp, name, ino, node);
    ResolvedIsAttached(t, root, dp);
    if n != ino {
      assert LinksRight(t, n);
      assert forall j :: 0 <= j < |List(t, n)| ==> IsChildOf(t, root, n, List(t, n)[j].1);
      DirCountSame(t, t', List(t, n), List(t, n));
      if n == d {
        DirCountAppend(t', List(t, d), (name, ino));
      }
    }
  }

  lemma GraftChildrenPoint(t: Table, t': Table, root: Ino, d: Ino, dp: Path, name: Name, ino: Ino, node: Inode)
    requires IsGraft(t, t', root, d, dp, name, ino, node)
    ensures ChildrenPoint(t', root)
  {
    hide Child, Grafted, Resolve;
    GraftLists(t, t', root, d, dp, name, ino, node);
    forall e, k | 0 <= k < |List(t', e)| ensures IsChildOf(t', root, e, List(t', e)[k].1) {
      var c := List(t', e)[k].1;
      if c != ino {
        assert List(t, e)[k] == List(t', e)[k];
        assert IsChildOf(t, root, e, List(t, e)[k].1);
        GraftLinks(t, t', root, d, dp, name, ino, node, c);
      } else {
        assert k < |List(t, e)| ==> IsChildOf(t, root, e, List(t, e)[k].1);
      }
    }
  }

  lemma GraftKeepsTree(t: Table, t': Table, root: Ino, d: Ino, dp: Path, name: Name, ino: Ino, node: Inode)
    requires IsGraft(t, t', root, d, dp, name, ino, node)
    ensures IsTree(t', root)
  {
    hide Child, Grafted, LinksRight, Lists, HasPath, List;
    GraftLists(t, t', root, d, dp, name, ino, node);
    GraftChildrenPoint(t, t', root, d, dp, name, ino, node);
    forall n ensures DistinctEntries(List(t', n)) {
      GraftChild(t, t', root, d, dp, name, ino, node, n, name);
    }
    forall n | n in t' ensures LinksRight(t', n) {
      GraftLinks(t, t', root, d, dp, name, ino, node, n);
    }
    forall n | Attached(t', n) && n != root ensures Lists(t', t'[n].parent, n) {
      GraftLinks(t, t', root, d, dp, name, ino, node, n);
      GraftListed(t, t', root, d, dp, name, ino, node, n);
    }
    forall n | Attached(t', n) ensures HasPath(t', root, n) {
      GraftLinks(t, t', root, d, dp, name, ino, node, n);
      GraftHasPath(t, t', root, d, dp, name, ino, node, n);
    }
    GraftLinks(t, t', root, d, dp, name, ino, node, root);
  }

  lemma GraftListed(t: Table, t': Table, root: Ino, d: Ino, dp: Path, name: Name, ino: Ino, node: Inode, n: Ino)
    requires IsGraft(t, t', root, d, dp, name, ino, node) && ((Attached(t, n) && n != root) || n == ino)
    ensures n in t' && Lists(t', t'[n].parent, n)
  {
    hide Child, Resolve;
    GraftLists(t, t', root, d, dp, name, ino, node);
    if n == ino {
      assert List(t', d)[|List(t, d)|].1 == n;
    } else {
      var e := t[n].parent;
      assert Lists(t, e, n);
      var i :| 0 <= i < |List(t, e)| && List(t, e)[i].1 == n;
      assert List(t', e)[i].1 == n;
    }
  }

  lemma GraftHasPath(t: Table, t': Table, root: Ino, d: Ino, dp: Path, name: Name, ino: Ino, node: Inode, n: Ino)
    requires IsGraft(t, t', root, d, dp, name, ino, node) && (Attached(t, n) || n == ino)
    ensures HasPath(t', root, n)
  {
    hide Child, Grafted;
    if n == ino {
      GraftResolve(t, t', root, d, dp, name, ino, node, dp + [name]);
    } else {
      assert HasPath(t, root, n);
      var p: Path :| Resolve(t, root, p) == Some(n);
      ResolveSnoc(t, root, dp, name);
      GraftResolve(t, t', root, d, dp, name, ino, node, p);
    }
  }

  // ---------------------------------------------------------------- edits that no path sees

  // File contents may change and detached inodes may go: the tree stays as it is.
  ghost predicate SameTree(t: Table, t': Table) {
    && t'.Keys <= t.Keys
    && (forall n {:trigger List(t', n)} :: List(t', n) == List(t, n))
    && (forall n {:trigger t'[n]} :: n in t' ==>
         && t'[n].parent == t[n].parent && t'[n].links == t[n].links && t'[n].fileType == t[n].fileType
         && t'[n].storage.Dir? == t[n].storage.Dir?)
    && (forall n {:trigger Attached(t, n)} :: Attached(t, n) ==> n in t')
  }

  lemma SameTreeKeepsTree(t: Table, t': Table, root: Ino)
    requires IsTree(t, root) && SameTree(t, t')
    ensures IsTree(t', root)
    ensures forall p: Path :: Resolve(t', root, p) == Resolve(t, root, p)
  {
    hide Child, Resolve;
    forall p: Path ensures Resolve(t', root, p) == Resolve(t, root, p) {
      SameLists(t', t, root, p);
    }
    forall n ensures DistinctEntries(List(t', n)) {
      assert DistinctEntries(List(t, n));
    }
    forall d, i | 0 <= i < |List(t', d)| ensures IsChildOf(t', root, d, List(t', d)[i].1) {
      assert IsChildOf(t, root, d, List(t, d)[i].1);
    }
    forall n | n in t' ensures LinksRight(t', n) {
      assert LinksRight(t, n);
      assert forall i :: 0 <= i < |List(t, n)| ==> IsChildOf(t, root, n, List(t, n)[i].1);
      DirCountSame(t, t', List(t, n), List(t', n));
    }
    forall n | Attached(t', n) && n != root ensures Lists(t', t'[n].parent, n) {
      assert Lists(t, t[n].parent, n);
      assert List(t', t[n].parent) == List(t, t[n].parent);
    }
    forall n | Attached(t', n) ensures HasPath(t', root, n) {
      assert HasPath(t, root, n);
      var p: Path :| Resolve(t, root, p) == Some(n);
      assert Resolve(t', root, p) == Some(n);
    }
  }
}
