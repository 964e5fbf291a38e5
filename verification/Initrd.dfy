/**
 The boot filesystem (kernel/src/fs/initrd.rs): the tree that the reader builds from the entries of
 an archive, and the round trip from the writer in src/main.rs.
 */
module Initrd {
  import opened Base
  import opened Bytes
  import opened Paths
  import opened Utf8
  import opened Cpio

  // ---------------------------------------------------------------- paths

  function TrimStart(s: Name): Name {
    if s != [] && s[0] == SLASH then TrimStart(s[1..]) else s
  }

  function TrimEnd(s: Name): Name {
    if s != [] && s[|s| - 1] == SLASH then TrimEnd(s[..|s| - 1]) else s
  }

  function Kept(parts: seq<Name>): (kept: seq<Name>)
    requires forall i :: 0 <= i < |parts| ==> SLASH !in parts[i]
    ensures Proper(kept)
  {
    if parts == [] then []
    else if parts[0] == [] || parts[0] == DOT then Kept(parts[1..])
    else [parts[0]] + Kept(parts[1..])
  }

  // `normalize_path`.
  function Normalize(path: Name): Name {
    var trimmed := TrimEnd(TrimStart(path));
    if trimmed == DOT then [] else Join(Kept(Split(trimmed)))
  }

  // Directory and file names along a path.
  predicate Proper(parts: seq<Name>) {
    Named(parts) && forall i :: 0 <= i < |parts| ==> parts[i] != DOT
  }

  // The names a path is made of.
  function Segments(path: Name): (parts: seq<Name>)
    ensures Proper(parts)
  {
    var trimmed := TrimEnd(TrimStart(path));
    if trimmed == DOT then [] else Kept(Split(trimmed))
  }

  /** The names that the tree is walked by are those of the path, whatever its slashes and dots. */
  lemma NormalizeSplits(path: Name)
    ensures Normalize(path) == [] <==> Segments(path) == []
    ensures Segments(path) != [] ==> Split(Normalize(path)) == Segments(path)
  {
    if Segments(path) != [] {
      SplitJoin(Segments(path));
    }
  }

  // Of a list of parts, the empty ones and the single dots are left out.
  lemma {:induction false} KeptJoins(a: seq<Name>, b: seq<Name>)
    requires forall i :: 0 <= i < |a + b| ==> SLASH !in (a + b)[i]
    requires forall i :: 0 <= i < |a| ==> SLASH !in a[i]
    requires forall i :: 0 <= i < |b| ==> SLASH !in b[i]
    ensures Kept(a + b) == Kept(a) + Kept(b)
  {
    if a == [] {
      assert a + b == b;
    } else {
      assert (a + b)[1..] == a[1..] + b;
      KeptJoins(a[1..], b);
    }
  }

  lemma KeptOne(part: Name)
    requires SLASH !in part
    ensures Kept([part]) == if part == [] || part == [0x2E] then [] else [part]
  {
    assert [part][1..] == [];
  }

  lemma {:induction false} TrimsNothing(path: Name)
    ensures Kept(Split(TrimStart(path))) == Kept(Split(path))
    ensures Kept(Split(TrimEnd(path))) == Kept(Split(path))
  {
    hide Split, Kept;
    KeptOne([]);
    SplitEmpty();
    if path != [] && path[0] == SLASH {
      TrimsNothing(path[1..]);
      SplitStep(path);
      KeptJoins([[]], Split(path[1..]));
    }
    if path != [] && path[|path| - 1] == SLASH {
      var front := path[..|path| - 1];
      TrimsNothing(front);
      assert path == front + [SLASH] + [];
      SplitConcat(front, []);
      KeptJoins(Split(front), [[]]);
    }
  }

  /** The names of a path are the parts between its slashes that are neither empty nor a dot. */
  lemma SegmentsAre(path: Name)
    ensures Segments(path) == Kept(Split(path))
  {
    TrimsNothing(path);
    TrimsNothing(TrimStart(path));
    SplitName(DOT);
    KeptOne(DOT);
  }

  /** A path that is just names with slashes between them is made of these names. */
  lemma CanonicalSegments(parts: seq<Name>)
    requires parts != [] && Proper(parts)
    ensures Segments(Join(parts)) == parts
  {
    SplitJoin(parts);
    KeptAll(parts);
    SplitName(DOT);
  }

  lemma {:induction false} KeptAll(parts: seq<Name>)
    requires Proper(parts)
    ensures Kept(parts) == parts
  {
    if parts != [] {
      KeptAll(parts[1..]);
    }
  }

  // ---------------------------------------------------------------- the tree

  datatype Node =
    | File(kind: FileType, contents: seq<byte>)
    | Dir(children: seq<(Name, Node)>)

  function Position(children: seq<(Name, Node)>, name: Name): (r: Option<nat>)
    ensures r.Some? ==> r.value < |children| && children[r.value].0 == name
    ensures r.None? <==> forall i :: 0 <= i < |children| ==> children[i].0 != name
    ensures r.Some? ==> forall i :: 0 <= i < r.value ==> children[i].0 != name
  {
    if children == [] then None
    else if children[0].0 == name then Some(0)
    else
      var rest := Position(children[1..], name);
      if rest.Some? then Some(rest.value + 1) else None
  }

  // `insert_child`.
  function InsertChild(node: Node, name: Name, kind: FileType, contents: seq<byte>): Result<Node, FsError> {
    match node
    case File(_, _) => Err(NotADirectory)
    case Dir(children) =>
      var i := Position(children, name);
      if i.Some? then
        if children[i.value].1.Dir? && kind == FileType.Directory then Ok(node) else Err(AlreadyExists)
      else Ok(Dir(children + [(name, if kind == FileType.Directory then Dir([]) else File(kind, contents))]))
  }

  // `insert`, with `get_or_create_dir` at every name but the last.
  function Insert(node: Node, path: seq<Name>, kind: FileType, contents: seq<byte>): Result<Node, FsError>
    requires path != []
    decreases |path|
  {
    if |path| == 1 then InsertChild(node, path[0], kind, contents)
    else if node.File? then Err(NotADirectory)
    else
      var i := Position(node.children, path[0]);
      if i.Some? then
        var child := node.children[i.value].1;
        if child.File? then Err(NotADirectory)
        else
          var r := Insert(child, path[1..], kind, contents);
          if r.Err? then r else Ok(Dir(node.children[i.value := (path[0], r.value)]))
      else
        var r := Insert(Dir([]), path[1..], kind, contents);
        if r.Err? then r else Ok(Dir(node.children + [(path[0], r.value)]))
  }

  // What `lookup` finds along a path.
  function Find(node: Node, path: seq<Name>): Option<Node>
    decreases |path|
  {
    if path == [] then Some(node)
    else if node.File? then None
    else
      var i := Position(node.children, path[0]);
      if i.None? then None else Find(node.children[i.value].1, path[1..])
  }

  predicate IsDir(node: Node, path: seq<Name>) {
    Find(node, path).Some? && Find(node, path).value.Dir?
  }

  predicate IsFile(node: Node, path: seq<Name>) {
    Find(node, path).Some? && Find(node, path).value.File?
  }

  function FileAt(node: Node, path: seq<Name>): Option<Node> {
    if IsFile(node, path) then Find(node, path) else None
  }

  // ---------------------------------------------------------------- what an insertion does

  lemma PositionIs(children: seq<(Name, Node)>, name: Name, p: Option<nat>)
    requires p.Some? ==>
      p.value < |children| && children[p.value].0 == name && forall i :: 0 <= i < p.value ==> children[i].0 != name
    requires p.None? ==> forall i :: 0 <= i < |children| ==> children[i].0 != name
    ensures Position(children, name) == p
  {
  }

  // A new last child is found under its name; nothing else changes.
  lemma AppendedFinds(children: seq<(Name, Node)>, name: Name, child: Node, q: seq<Name>)
    requires Position(children, name) == None && q != []
    ensures Find(Dir(children + [(name, child)]), q)
         == if q[0] == name then Find(child, q[1..]) else Find(Dir(children), q)
  {
    hide Position;
    var more := children + [(name, child)];
    PositionIs(more, q[0], if q[0] == name then Some(|children|) else Position(children, q[0]));
  }

  // A child put in the place of another one is found there; nothing else changes.
  lemma ReplacedFinds(children: seq<(Name, Node)>, i: nat, name: Name, child: Node, q: seq<Name>)
    requires Position(children, name) == Some(i) && q != []
    ensures Find(Dir(children[i := (name, child)]), q)
         == if q[0] == name then Find(child, q[1..]) else Find(Dir(children), q)
  {
    hide Position;
    PositionIs(children[i := (name, child)], q[0], Position(children, q[0]));
  }

  lemma ChildFinds(children: seq<(Name, Node)>, name: Name, q: seq<Name>)
    requires q != [] && q[0] == name
    ensures
      var i := Position(children, name);
      Find(Dir(children), q) == if i.None? then None else Find(children[i.value].1, q[1..])
  {
  }

  // The file or directory that an insertion puts in place.
  function Leaf(kind: FileType, contents: seq<byte>): Node {
    if kind == FileType.Directory then Dir([]) else File(kind, contents)
  }

  lemma LeafFinds(kind: FileType, contents: seq<byte>, q: seq<Name>)
    ensures Find(Leaf(kind, contents), q) == if q == [] then Some(Leaf(kind, contents)) else None
    ensures Find(Dir([]), q) == if q == [] then Some(Dir([])) else None
  {
  }

  // The difference an insertion makes at q.
  ghost predicate Placed(node: Node, node': Node, path: seq<Name>, kind: FileType, contents: seq<byte>, q: seq<Name>) {
    && FileAt(node', q)
       == (if q == path && kind != FileType.Directory then Some(File(kind, contents)) else FileAt(node, q))
    && (IsDir(node', q) <==> IsDir(node, q) || q < path || (q == path && kind == FileType.Directory))
  }

  /** After an insertion: the new file, every file there was, and directories on the way to it. */
  lemma {:induction false} InsertFinds(node: Node, path: seq<Name>, kind: FileType, contents: seq<byte>, q: seq<Name>)
    requires path != [] && Insert(node, path, kind, contents).Ok?
    ensures Placed(node, Insert(node, path, kind, contents).value, path, kind, contents, q)
    decreases |path|
  {
    hide Find, Position;
    if q == [] {
      RootFinds(node, path, kind, contents);
      return;
    }
    Peel(q, path);
    ChildFinds(node.children, q[0], q);
    var i := Position(node.children, path[0]);
    LeafFinds(kind, contents, q[1..]);
    if |path| == 1 {
      if i.None? {
        AppendedFinds(node.children, path[0], Leaf(kind, contents), q);
      } else {
        assert q == path ==> q[1..] == [];
        LeafHere(node.children[i.value].1);
      }
    } else if i.Some? {
      var child := node.children[i.value].1;
      InsertFinds(child, path[1..], kind, contents, q[1..]);
      ReplacedFinds(node.children, i.value, path[0], Insert(child, path[1..], kind, contents).value, q);
    } else {
      InsertFinds(Dir([]), path[1..], kind, contents, q[1..]);
      AppendedFinds(node.children, path[0], Insert(Dir([]), path[1..], kind, contents).value, q);
    }
  }

  lemma LeafHere(node: Node)
    ensures Find(node, []) == Some(node)
  {
  }

  lemma RootFinds(node: Node, path: seq<Name>, kind: FileType, contents: seq<byte>)
    requires path != [] && Insert(node, path, kind, contents).Ok?
    ensures Placed(node, Insert(node, path, kind, contents).value, path, kind, contents, [])
  {
  }

  lemma Peel(q: seq<Name>, path: seq<Name>)
    requires q != [] && path != []
    ensures q == path <==> q[0] == path[0] && q[1..] == path[1..]
    ensures q < path <==> q[0] == path[0] && q[1..] < path[1..]
  {
    assert q == [q[0]] + q[1..] && path == [path[0]] + path[1..];
  }

  // No file lies on the way to a path, or at its end.
  ghost predicate Clear(node: Node, path: seq<Name>) {
    forall k {:trigger path[..k]} :: 0 <= k <= |path| ==> !IsFile(node, path[..k])
  }

  lemma ClearStep(node: Node, path: seq<Name>)
    requires node.Dir? && path != []
    ensures
      var i := Position(node.children, path[0]);
      Clear(node, path) <==> i.None? || Clear(node.children[i.value].1, path[1..])
  {
    hide Find, Position;
    var i := Position(node.children, path[0]);
    LeafHere(node);
    forall k | 1 <= k <= |path|
      ensures IsFile(node, path[..k]) <==> i.Some? && IsFile(node.children[i.value].1, path[1..][..k - 1])
    {
      assert path[..k][1..] == path[1..][..k - 1];
      ChildFinds(node.children, path[0], path[..k]);
    }
    if i.Some? && Clear(node, path) {
      forall j | 0 <= j <= |path[1..]| ensures !IsFile(node.children[i.value].1, path[1..][..j]) {
        var k := j + 1;
        assert !IsFile(node, path[..k]);
      }
    }
    if i.None? || Clear(node.children[i.value].1, path[1..]) {
      forall k | 0 <= k <= |path| ensures !IsFile(node, path[..k]) {
        if k == 0 {
          assert path[..k] == [];
        }
      }
    }
  }

  /** An insertion fails exactly when a file is in the way or something else has the name already. */
  lemma {:induction false} InsertSucceeds(node: Node, path: seq<Name>, kind: FileType, contents: seq<byte>)
    requires path != [] && node.Dir?
    ensures Insert(node, path, kind, contents).Ok? <==>
      Clear(node, path) && (IsDir(node, path) ==> kind == FileType.Directory)
    decreases |path|
  {
    hide Position, Find, Clear;
    var i := Position(node.children, path[0]);
    ChildFinds(node.children, path[0], path);
    ClearStep(node, path);
    if i.Some? {
      var child := node.children[i.value].1;
      LeafHere(child);
      ClearFrom(child, path[1..]);
      if |path| > 1 && child.Dir? {
        InsertSucceeds(child, path[1..], kind, contents);
      }
    } else if |path| > 1 {
      InsertSucceeds(Dir([]), path[1..], kind, contents);
      ClearEmpty(path[1..]);
    }
  }

  /** Which error: a file on the way is not a directory; otherwise the name exists already. */
  lemma {:induction false} InsertFails(node: Node, path: seq<Name>, kind: FileType, contents: seq<byte>)
    requires path != [] && node.Dir?
    ensures Insert(node, path, kind, contents) == Err(NotADirectory) <==> !Clear(node, path[..|path| - 1])
    ensures Insert(node, path, kind, contents).Err? ==>
      Insert(node, path, kind, contents).error in {NotADirectory, AlreadyExists}
    decreases |path|
  {
    hide Position, Find, Clear;
    var front := path[..|path| - 1];
    ClearFrom(node, front);
    if |path| > 1 {
      var i := Position(node.children, path[0]);
      ClearStep(node, front);
      assert front[1..] == path[1..][..|path[1..]| - 1];
      if i.Some? {
        var child := node.children[i.value].1;
        ClearFrom(child, front[1..]);
        if child.Dir? {
          InsertFails(child, path[1..], kind, contents);
        }
      } else {
        InsertFails(Dir([]), path[1..], kind, contents);
        ClearEmpty(front[1..]);
      }
    }
  }

  // A file is in its own way.
  lemma ClearFrom(node: Node, path: seq<Name>)
    ensures Clear(node, path) ==> node.Dir?
    ensures path == [] && node.Dir? ==> Clear(node, path)
  {
    assert path[..0] == [];
    LeafHere(node);
    assert path == [] ==> forall k :: 0 <= k <= |path| ==> path[..k] == [];
  }

  lemma ClearEmpty(path: seq<Name>)
    ensures Clear(Dir([]), path) && (path != [] ==> !IsDir(Dir([]), path))
  {
    LeafFinds(Regular, [], path);
    forall k | 0 <= k <= |path| ensures !IsFile(Dir([]), path[..k]) {
      LeafFinds(Regular, [], path[..k]);
    }
  }

  // ---------------------------------------------------------------- reading an archive

  // One entry of the archive.
  function Placing(node: Node, name: Name, kind: FileType, contents: seq<byte>): Result<Node, FsError> {
    var path := Normalize(name);
    if path == [] then (if kind == FileType.Directory then Ok(node) else Err(IoError))
    else Insert(node, Split(path), kind, contents)
  }

  // `InitrdFs::new` from an offset on.
  function ParseFrom(data: seq<byte>, offset: nat, node: Node): Result<Node, FsError>
    decreases |data| - offset
  {
    if offset >= |data| then Err(IoError)
    else
      var entry := ParseEntry(data, offset);
      if entry.Err? then Err(entry.error)
      else if entry.value.name == TRAILER then Ok(node)
      else
        var next := Placing(node, entry.value.name, entry.value.fileType, entry.value.contents);
        if next.Err? then next else ParseFrom(data, entry.value.next, next.value)
  }

  /** `InitrdFs::new`. */
  method Parse(data: seq<byte>) returns (r: Result<Node, FsError>)
    ensures r == ParseFrom(data, 0, Dir([]))
  {
    var builder := Dir([]);
    var offset := 0;
    var foundTrailer := false;
    while offset < |data| && !foundTrailer
      invariant foundTrailer ==> ParseFrom(data, 0, Dir([])) == Ok(builder)
      invariant !foundTrailer ==> ParseFrom(data, 0, Dir([])) == ParseFrom(data, offset, builder)
      decreases !foundTrailer, |data| - offset
    {
      var parsed := ParseEntry(data, offset);
      if parsed.Err? {
        return Err(parsed.error);
      }
      var entry := parsed.value;
      if entry.name == TRAILER {
        foundTrailer := true;
      } else {
        var path := Normalize(entry.name);
        if path == [] {
          if entry.fileType != FileType.Directory {
            return Err(IoError);
          }
        } else {
          var inserted := Insert(builder, Split(path), entry.fileType, entry.contents);
          if inserted.Err? {
            return inserted;
          }
          builder := inserted.value;
        }
        offset := entry.next;
      }
    }
    if !foundTrailer {
      return Err(IoError);
    }
    return Ok(builder);
  }

  // The tree of a list of files, and the part of the list that the reader gets to see.
  function Build(node: Node, items: seq<Item>): Result<Node, FsError>
    decreases |items|
  {
    if items == [] then Ok(node)
    else
      var next := Placing(node, items[0].name, Regular, items[0].data);
      if next.Err? then next else Build(next.value, items[1..])
  }

  function Before(items: seq<Item>): seq<Item> {
    if items == [] || items[0].name == TRAILER then [] else [items[0]] + Before(items[1..])
  }

  ghost predicate AllWritable(items: seq<Item>) {
    forall i :: 0 <= i < |items| ==> Writable(items[i].name, items[i].data)
  }

  /** The reader builds the tree of the files that the writer was given, up to one named as the trailer. */
  lemma {:induction false} ReadsBack(before: seq<byte>, items: seq<Item>, ino: nat, node: Node)
    requires |before| % 4 == 0 && AllWritable(items)
    ensures ParseFrom(before + Archive(items, ino), |before|, node) == Build(node, Before(items))
    decreases |items|
  {
    hide ParseEntry, EntryBytes, Placing, Writable, IsUtf8;
    if items == [] {
      AsciiIsUtf8(TRAILER);
      TrailerReads(before, ino);
    } else {
      var name, data, rest := items[0].name, items[0].data, Archive(items[1..], ino + 1);
      var entry := EntryBytes(ino, name, data);
      EntryRoundTrip(before, ino, name, data, rest);
      EntryLength(ino, name, data);
      assert before + entry + rest == before + Archive(items, ino);
      if name != TRAILER {
        var next := Placing(node, name, Regular, data);
        if next.Ok? {
          Words(before, entry);
          ReadsBack(before + entry, items[1..], ino + 1, next.value);
          assert Before(items)[1..] == Before(items[1..]);
        }
      }
    }
  }

  lemma TrailerReads(before: seq<byte>, ino: nat)
    requires |before| % 4 == 0
    ensures forall node :: ParseFrom(before + EntryBytes(ino, TRAILER, []), |before|, node) == Ok(node)
  {
    hide EntryBytes, ParseEntry, Placing, IsUtf8;
    AsciiIsUtf8(TRAILER);
    EntryRoundTrip(before, ino, TRAILER, [], []);
    EntryLength(ino, TRAILER, []);
    assert before + EntryBytes(ino, TRAILER, []) + [] == before + EntryBytes(ino, TRAILER, []);
  }

  lemma EntryLength(ino: nat, name: Name, data: seq<byte>)
    ensures |EntryBytes(ino, name, data)| >= HEADER_LEN
  {
  }

  lemma Words(a: seq<byte>, b: seq<byte>)
    requires |a| % 4 == 0 && |b| % 4 == 0
    ensures |a + b| % 4 == 0
  {
  }

  // ---------------------------------------------------------------- what the tree holds

  // Paths that can be files of one tree: none is empty, none lies on the way to another.
  ghost predicate Compatible(items: seq<Item>) {
    && (forall i :: 0 <= i < |items| ==> Segments(items[i].name) != [])
    && (forall i, j :: 0 <= i < j < |items| ==>
          && !(Segments(items[i].name) <= Segments(items[j].name))
          && !(Segments(items[j].name) <= Segments(items[i].name)))
  }

  // The tree's files are the given ones, with their bytes, and its directories those on the way.
  ghost predicate Holds(node: Node, items: seq<Item>) {
    && node.Dir?
    && (forall q :: IsFile(node, q) <==> exists i :: 0 <= i < |items| && Segments(items[i].name) == q)
    && (forall i :: 0 <= i < |items| ==> FileAt(node, Segments(items[i].name)) == Some(File(Regular, items[i].data)))
    && (forall q :: IsDir(node, q) <==> q == [] || exists i :: 0 <= i < |items| && q < Segments(items[i].name))
  }

  lemma HoldsNothing()
    ensures Holds(Dir([]), [])
  {
    forall q: seq<Name> ensures Find(Dir([]), q) == if q == [] then Some(Dir([])) else None {
      LeafFinds(Regular, [], q);
    }
  }

  // A new path is free exactly when it is compatible with those that are there.
  lemma FreeWhenCompatible(node: Node, items: seq<Item>, path: seq<Name>)
    requires Holds(node, items) && path != []
    ensures Clear(node, path) && !IsDir(node, path) <==>
      forall i :: 0 <= i < |items| ==> !(Segments(items[i].name) <= path) && !(path <= Segments(items[i].name))
  {
    hide IsFile, IsDir, FileAt, Segments;
    if i :| 0 <= i < |items| && Segments(items[i].name) <= path {
      assert path[..|Segments(items[i].name)|] == Segments(items[i].name);
      assert IsFile(node, Segments(items[i].name));
    }
    if i :| 0 <= i < |items| && path < Segments(items[i].name) {
      assert IsDir(node, path);
    }
    if !Clear(node, path) {
      var k :| 0 <= k <= |path| && IsFile(node, path[..k]);
      var i :| 0 <= i < |items| && Segments(items[i].name) == path[..k];
      assert Segments(items[i].name) <= path;
    }
  }

  // One more file in the tree.
  lemma HoldsMore(node: Node, items: seq<Item>, item: Item)
    requires Holds(node, items) && Segments(item.name) != []
    requires Insert(node, Segments(item.name), Regular, item.data).Ok?
    ensures Holds(Insert(node, Segments(item.name), Regular, item.data).value, items + [item])
  {
    hide Segments, Find;
    var path := Segments(item.name);
    var node' := Insert(node, path, Regular, item.data).value;
    var more := items + [item];
    InsertSucceeds(node, path, Regular, item.data);
    FreeWhenCompatible(node, items, path);
    forall q: seq<Name> ensures Placed(node, node', path, Regular, item.data, q) {
      InsertFinds(node, path, Regular, item.data, q);
    }
    assert IsDir(node', []) by { assert Placed(node, node', path, Regular, item.data, []); }
    LeafHere(node');
    forall q: seq<Name> ensures IsFile(node', q) <==> exists i :: 0 <= i < |more| && Segments(more[i].name) == q {
      assert Placed(node, node', path, Regular, item.data, q);
      Among(items, item, q);
    }
    forall q: seq<Name>
      ensures IsDir(node', q) <==> q == [] || exists i :: 0 <= i < |more| && q < Segments(more[i].name)
    {
      assert Placed(node, node', path, Regular, item.data, q);
      AmongPrefixes(items, item, q);
    }
    forall i | 0 <= i < |more| ensures FileAt(node', Segments(more[i].name)) == Some(File(Regular, more[i].data)) {
      assert Placed(node, node', path, Regular, item.data, Segments(more[i].name));
      assert i < |items| ==> more[i] == items[i] && !(Segments(items[i].name) <= path);
    }
  }

  lemma Among(items: seq<Item>, item: Item, q: seq<Name>)
    ensures (exists i :: 0 <= i < |items + [item]| && Segments((items + [item])[i].name) == q)
       <==> q == Segments(item.name) || exists i :: 0 <= i < |items| && Segments(items[i].name) == q
  {
    hide Segments;
    var more := items + [item];
    assert more[|items|] == item;
    assert forall i :: 0 <= i < |items| ==> more[i] == items[i];
  }

  lemma AmongPrefixes(items: seq<Item>, item: Item, q: seq<Name>)
    ensures (exists i :: 0 <= i < |items + [item]| && q < Segments((items + [item])[i].name))
       <==> q < Segments(item.name) || exists i :: 0 <= i < |items| && q < Segments(items[i].name)
  {
    hide Segments;
    var more := items + [item];
    assert more[|items|] == item;
    assert forall i :: 0 <= i < |items| ==> more[i] == items[i];
  }

  lemma PlacingIs(node: Node, item: Item)
    requires node.Dir?
    ensures Placing(node, item.name, Regular, item.data)
         == if Segments(item.name) == [] then Err(IoError) else Insert(node, Segments(item.name), Regular, item.data)
  {
    NormalizeSplits(item.name);
  }

  lemma {:induction false} BuildsExactly(node: Node, done: seq<Item>, items: seq<Item>)
    requires Holds(node, done) && Compatible(done)
    ensures Build(node, items).Ok? <==> Compatible(done + items)
    ensures Build(node, items).Ok? ==> Holds(Build(node, items).value, done + items)
    decreases |items|
  {
    hide Segments, Placing, Insert, Holds;
    if items == [] {
      assert done + items == done;
    } else {
      var item := items[0];
      assert done + items == done + [item] + items[1..];
      IsDirectory(node, done);
      PlacingIs(node, item);
      CompatibleStep(done, item, items[1..]);
      if Segments(item.name) != [] {
        InsertSucceeds(node, Segments(item.name), Regular, item.data);
        FreeWhenCompatible(node, done, Segments(item.name));
        if Placing(node, item.name, Regular, item.data).Ok? {
          HoldsMore(node, done, item);
          BuildsExactly(Placing(node, item.name, Regular, item.data).value, done + [item], items[1..]);
        }
      }
    }
  }

  lemma IsDirectory(node: Node, items: seq<Item>)
    requires Holds(node, items)
    ensures node.Dir?
  {
  }

  lemma CompatibleStep(done: seq<Item>, item: Item, rest: seq<Item>)
    requires Compatible(done)
    ensures Compatible(done + [item]) <==>
      && Segments(item.name) != []
      && forall i :: 0 <= i < |done| ==>
           !(Segments(done[i].name) <= Segments(item.name)) && !(Segments(item.name) <= Segments(done[i].name))
    ensures Compatible(done + [item] + rest) ==> Compatible(done + [item])
  {
    hide Segments;
    var more, all := done + [item], done + [item] + rest;
    assert more[|done|] == item;
    assert forall i :: 0 <= i < |done| ==> more[i] == done[i];
    assert forall i :: 0 <= i < |more| ==> all[i] == more[i];
  }

  /**
   The round trip: the reader accepts the archive of some files exactly when their paths can be the
   files of one tree, and then the tree holds these files with these bytes and no others.
   */
  lemma ArchiveRoundTrip(items: seq<Item>)
    requires AllWritable(items)
    ensures ParseFrom(Archive(items, 1), 0, Dir([])).Ok? <==> Compatible(Before(items))
    ensures ParseFrom(Archive(items, 1), 0, Dir([])).Ok? ==>
      Holds(ParseFrom(Archive(items, 1), 0, Dir([])).value, Before(items))
  {
    assert [] + Archive(items, 1) == Archive(items, 1);
    ReadsBack([], items, 1, Dir([]));
    HoldsNothing();
    assert [] + Before(items) == Before(items);
    BuildsExactly(Dir([]), [], Before(items));
  }

  /** In particular for distinct canonical names, none a path prefix of another, none the trailer. */
  lemma CanonicalRoundTrip(items: seq<Item>, paths: seq<seq<Name>>)
    requires AllWritable(items) && |paths| == |items|
    requires forall i :: 0 <= i < |items| ==>
      paths[i] != [] && Proper(paths[i]) && items[i].name == Join(paths[i]) && items[i].name != TRAILER
    requires forall i, j :: 0 <= i < |items| && 0 <= j < |items| && i != j ==> !(paths[i] <= paths[j])
    ensures ParseFrom(Archive(items, 1), 0, Dir([])).Ok?
    ensures Holds(ParseFrom(Archive(items, 1), 0, Dir([])).value, items)
  {
    hide Segments, Join, ParseFrom, Archive, Holds, Compatible;
    forall i | 0 <= i < |items| ensures Segments(items[i].name) == paths[i] {
      CanonicalSegments(paths[i]);
    }
    CompatiblePaths(items, paths);
    BeforeAll(items);
    ArchiveRoundTrip(items);
  }

  lemma CompatiblePaths(items: seq<Item>, paths: seq<seq<Name>>)
    requires |paths| == |items| && forall i :: 0 <= i < |items| ==>
      Segments(items[i].name) == paths[i] && paths[i] != []
    requires forall i, j :: 0 <= i < |items| && 0 <= j < |items| && i != j ==> !(paths[i] <= paths[j])
    ensures Compatible(items)
  {
    hide Segments;
  }

  lemma {:induction false} BeforeAll(items: seq<Item>)
    requires forall i :: 0 <= i < |items| ==> items[i].name != TRAILER
    ensures Before(items) == items
  {
    if items != [] {
      BeforeAll(items[1..]);
    }
  }
}
