/**
 Path lookup in kernel/src/fs/vfs.rs: normalising paths, choosing the mount, and expanding symbolic
 links. The code works on strings and starts over after every link; the meaning is given on lists
 of names, without starting over.
 */
module Vfs {
  import opened Base
  import opened Bytes
  import opened Paths
  import opened Utf8

  // ---------------------------------------------------------------- segments of a path

  function Names(parts: seq<Name>): (r: seq<Name>)
    requires forall i :: 0 <= i < |parts| ==> SLASH !in parts[i]
    ensures Named(r)
  {
    if parts == [] then [] else if parts[0] == [] then Names(parts[1..]) else [parts[0]] + Names(parts[1..])
  }

  // `split_segments`.
  function Segments(s: Name): (r: seq<Name>)
    ensures Named(r)
  {
    Names(Split(s))
  }

  // `join_absolute_segments`.
  function Absolute(parts: seq<Name>): Name {
    [SLASH] + Join(parts)
  }

  lemma {:induction false} NamesConcat(a: seq<Name>, b: seq<Name>)
    requires forall i :: 0 <= i < |a| ==> SLASH !in a[i]
    requires forall i :: 0 <= i < |b| ==> SLASH !in b[i]
    ensures Names(a + b) == Names(a) + Names(b)
  {
    if a == [] {
      assert a + b == b;
    } else {
      NamesConcat(a[1..], b);
      assert (a + b)[1..] == a[1..] + b;
    }
  }

  lemma {:induction false} NamesAll(parts: seq<Name>)
    requires Named(parts)
    ensures Names(parts) == parts
  {
    if parts != [] {
      NamesAll(parts[1..]);
    }
  }

  lemma SegmentsConcat(a: Name, b: Name)
    ensures Segments(a + [SLASH] + b) == Segments(a) + Segments(b)
  {
    hide Split, Names;
    SplitConcat(a, b);
    NamesConcat(Split(a), Split(b));
  }

  lemma SegmentsEmpty()
    ensures Segments([]) == []
  {
    assert Split([]) == [[]];
  }

  lemma SegmentsJoin(parts: seq<Name>)
    requires Named(parts)
    ensures Segments(Join(parts)) == parts
  {
    hide Split, Names;
    if parts == [] {
      SegmentsEmpty();
    } else {
      SplitJoin(parts);
      NamesAll(parts);
    }
  }

  // A slash in front changes nothing.
  lemma SegmentsRooted(s: Name)
    ensures Segments([SLASH] + s) == Segments(s)
  {
    hide Segments;
    SegmentsConcat([], s);
    SegmentsEmpty();
    assert [] + [SLASH] + s == [SLASH] + s;
  }

  /** A path written out of names has these names. */
  lemma SegmentsAbsolute(parts: seq<Name>)
    requires Named(parts)
    ensures Segments(Absolute(parts)) == parts
  {
    SegmentsRooted(Join(parts));
    SegmentsJoin(parts);
  }

  lemma AbsoluteMore(parts: seq<Name>, name: Name)
    requires Named(parts) && name != []
    ensures Absolute(parts + [name]) == Absolute(parts) + (if parts == [] then [] else [SLASH]) + name
    ensures |Absolute(parts)| > 1 <==> parts != []
  {
    JoinMore(parts, name);
    if parts != [] { SplitJoin(parts); }
  }

  // ---------------------------------------------------------------- normal form

  predicate Plain(parts: seq<Name>) {
    Named(parts) && forall i :: 0 <= i < |parts| ==> parts[i] != DOT && parts[i] != DOT_DOT
  }

  // Single dots go; two dots take back the name before them, if there is one.
  function Cleaned(parts: seq<Name>): (r: seq<Name>)
    requires Named(parts)
    ensures Plain(r)
  {
    if parts == [] then []
    else
      var r, last := Cleaned(parts[..|parts| - 1]), parts[|parts| - 1];
      if last == DOT then r
      else if last == DOT_DOT then (if r == [] then [] else r[..|r| - 1])
      else r + [last]
  }

  lemma CleanedMore(a: seq<Name>, b: seq<Name>)
    requires Named(a) && Plain(b)
    ensures Named(a + b) && Cleaned(a + b) == Cleaned(a) + b
  {
    hide Named, Plain, Cleaned, Back, Kept;
    PlainNamed(b);
    CleanedJoin(a, b);
    PlainKept(b);
    var c := Cleaned(a);
    assert c[..|c|] == c;
  }

  lemma CleanedPlain(parts: seq<Name>)
    requires Plain(parts)
    ensures Cleaned(parts) == parts
  {
    CleanedMore([], parts);
    assert [] + parts == parts;
  }

  /** Two dots take back a name without looking at it, be it a link, a file or missing. */
  lemma DotsAreLexical(parts: seq<Name>, name: Name)
    requires Named(parts) && Plain([name])
    ensures Named(parts + [name, DOT_DOT]) && Cleaned(parts + [name, DOT_DOT]) == Cleaned(parts)
  {
    var all := parts + [name, DOT_DOT];
    CleanedMore(parts, [name]);
    assert all[..|all| - 1] == parts + [name];
    assert forall i :: 0 <= i < |DOT_DOT| ==> DOT_DOT[i] != SLASH;
  }

  // The UTF-8 form of a character with the Unicode property White_Space.
  predicate IsSpace(c: seq<byte>) {
    || (|c| == 1 && (9 <= c[0] <= 13 || c[0] == 32))
    || (|c| == 2 && c[0] == 0xC2 && (c[1] == 0x85 || c[1] == 0xA0))
    || c == [0xE1, 0x9A, 0x80]
    || (|c| == 3 && c[0] == 0xE2 && c[1] == 0x80
        && (0x80 <= c[2] <= 0x8A || c[2] == 0xA8 || c[2] == 0xA9 || c[2] == 0xAF))
    || c == [0xE2, 0x81, 0x9F] || c == [0xE3, 0x80, 0x80]
  }

  predicate StartsIn(s: Name, n: nat) { n <= |s| && IsSpace(s[..n]) }

  predicate EndsIn(s: Name, n: nat) { n <= |s| && IsSpace(s[|s| - n..]) }

  // The length of the white-space character a string begins or ends with; 0 if there is none.
  function SpaceStart(s: Name): (n: nat)
    ensures n <= |s|
  {
    if StartsIn(s, 1) then 1 else if StartsIn(s, 2) then 2 else if StartsIn(s, 3) then 3 else 0
  }

  function SpaceEnd(s: Name): (n: nat)
    ensures n <= |s|
  {
    if EndsIn(s, 1) then 1 else if EndsIn(s, 2) then 2 else if EndsIn(s, 3) then 3 else 0
  }

  function TrimStart(s: Name): Name {
    if SpaceStart(s) > 0 then TrimStart(s[SpaceStart(s)..]) else s
  }

  function TrimEnd(s: Name): (t: Name)
    ensures |t| <= |s| && (SpaceEnd(s) > 0 ==> |t| < |s|)
  {
    if SpaceEnd(s) > 0 then TrimEnd(s[..|s| - SpaceEnd(s)]) else s
  }

  function Trim(s: Name): Name { TrimEnd(TrimStart(s)) }

  // The characters with the Unicode property White_Space.
  predicate WhiteSpace(cp: nat) {
    || 9 <= cp <= 13 || cp == 0x20 || cp == 0x85 || cp == 0xA0 || cp == 0x1680 || 0x2000 <= cp <= 0x200A
    || cp == 0x2028 || cp == 0x2029 || cp == 0x202F || cp == 0x205F || cp == 0x3000
  }

  /** The byte strings that are trimmed are these characters. */
  lemma SpacesAre(c: seq<byte>)
    ensures IsSpace(c) <==> exists cp: nat :: WhiteSpace(cp) && Encode(cp) == c
  {
    if IsSpace(c) {
      var cp := CharIsEncoded(c);
      assert Encode(cp) == c by { assert c[..|c|] == c; }
      assert WhiteSpace(cp);
    }
  }

  // White-space characters, one after the other.
  ghost predicate AllSpaces(s: Name)
    decreases |s|
  {
    s == [] || exists n :: 1 <= n <= |s| && IsSpace(s[..n]) && AllSpaces(s[n..])
  }

  lemma {:induction false} SpacesJoin(a: Name, b: Name)
    requires AllSpaces(a) && AllSpaces(b)
    ensures AllSpaces(a + b)
    decreases |a|
  {
    hide IsSpace;
    if a == [] {
      assert a + b == b;
    } else {
      var n :| 1 <= n <= |a| && IsSpace(a[..n]) && AllSpaces(a[n..]);
      SpacesJoin(a[n..], b);
      assert (a + b)[..n] == a[..n] && (a + b)[n..] == a[n..] + b;
    }
  }

  lemma SpaceIsSpaces(c: Name)
    requires IsSpace(c)
    ensures AllSpaces(c)
  {
    hide IsSpace;
    assert |c| > 0 by { SpaceLength(c); }
    assert c[..|c|] == c && c[|c|..] == [];
  }

  lemma SpaceLength(c: Name)
    ensures IsSpace(c) ==> 1 <= |c| <= 3
  {
  }

  lemma {:induction false} TrimStartIs(s: Name) returns (i: nat)
    ensures i <= |s| && TrimStart(s) == s[i..] && AllSpaces(s[..i]) && SpaceStart(s[i..]) == 0
    decreases |s|
  {
    hide IsSpace;
    var n := SpaceStart(s);
    if n == 0 {
      return 0;
    }
    var j := TrimStartIs(s[n..]);
    i := n + j;
    assert s[n..][j..] == s[i..];
    assert s[..i] == s[..n] + s[n..][..j];
    SpaceIsSpaces(s[..n]);
    SpacesJoin(s[..n], s[n..][..j]);
  }

  lemma {:induction false} TrimEndIs(s: Name) returns (j: nat)
    ensures j <= |s| && TrimEnd(s) == s[..j] && AllSpaces(s[j..]) && SpaceEnd(s[..j]) == 0
    decreases |s|
  {
    hide IsSpace, AllSpaces, SpaceEnd;
    var n := SpaceEnd(s);
    if n == 0 {
      assert s[..|s|] == s;
      assert s[|s|..] == [];
      NoSpaces();
      return |s|;
    }
    var front := s[..|s| - n];
    j := TrimEndIs(front);
    assert front[..j] == s[..j];
    SpaceAtEnd(s);
    SpacesTo(s, j, |s| - n);
  }

  lemma NoSpaces()
    ensures AllSpaces([])
  {
  }

  lemma SpaceAtEnd(s: Name)
    requires SpaceEnd(s) > 0
    ensures IsSpace(s[|s| - SpaceEnd(s)..])
  {
    hide IsSpace;
  }

  lemma SpacesTo(s: Name, i: nat, j: nat)
    requires i <= j <= |s| && AllSpaces(s[..j][i..]) && IsSpace(s[j..])
    ensures AllSpaces(s[i..])
  {
    hide IsSpace, AllSpaces;
    SpaceIsSpaces(s[j..]);
    SpacesJoin(s[..j][i..], s[j..]);
    assert s[..j][i..] + s[j..] == s[i..];
  }

  /** Trimming takes white space off both ends, and all of it. */
  lemma TrimIs(s: Name) returns (i: nat, j: nat)
    ensures i <= j <= |s| && Trim(s) == s[i..j] && AllSpaces(s[..i]) && AllSpaces(s[j..])
    ensures forall n :: 0 <= n <= |Trim(s)| ==> !IsSpace(Trim(s)[..n]) && !IsSpace(Trim(s)[|Trim(s)| - n..])
  {
    hide IsSpace, SpaceStart, SpaceEnd, AllSpaces;
    i := TrimStartIs(s);
    var k := TrimEndIs(s[i..]);
    j := i + k;
    assert s[i..][..k] == s[i..j] && s[i..][k..] == s[j..];
    var t := Trim(s);
    forall n | 0 <= n <= |t| ensures !IsSpace(t[..n]) && !IsSpace(t[|t| - n..]) {
      assert s[i..][..n] == t[..n];
      NoSpaceStart(s[i..], n);
      NoSpaceEnd(t, n);
    }
  }

  lemma NoSpaceStart(s: Name, n: nat)
    requires SpaceStart(s) == 0 && n <= |s|
    ensures !IsSpace(s[..n])
  {
    hide IsSpace;
    SpaceLength(s[..n]);
    assert n == 1 || n == 2 || n == 3 ==> !StartsIn(s, n);
  }

  lemma NoSpaceEnd(s: Name, n: nat)
    requires SpaceEnd(s) == 0 && n <= |s|
    ensures !IsSpace(s[|s| - n..])
  {
    hide IsSpace;
    SpaceLength(s[|s| - n..]);
    assert n == 1 || n == 2 || n == 3 ==> !EndsIn(s, n);
  }

  /** A path is refused exactly when it is nothing but white space. */
  lemma NormalRefused(path: Name)
    ensures Normal(path).Err? <==> AllSpaces(path)
    ensures Normal(path).Err? ==> Normal(path) == Err(NotFound)
  {
    hide IsSpace, Cleaned, Segments;
    var i, j := TrimIs(path);
    if Trim(path) == [] {
      SpacesJoin(path[..i], path[j..]);
      assert path == path[..i] + path[j..];
    }
    if AllSpaces(path) {
      SpacesTrim(path);
    }
  }

  lemma {:induction false} SpacesTrim(s: Name)
    requires AllSpaces(s)
    ensures Trim(s) == []
    decreases |s|
  {
    hide IsSpace;
    if s != [] {
      var n :| 1 <= n <= |s| && IsSpace(s[..n]) && AllSpaces(s[n..]);
      SpaceLength(s[..n]);
      SpacesTrim(s[n..]);
      OneStart(s, n);
    }
  }

  // No white-space character begins another one.
  lemma OneStart(s: Name, n: nat)
    requires n <= |s| && IsSpace(s[..n])
    ensures SpaceStart(s) == n
  {
    if k :| 1 <= k <= 3 && StartsIn(s, k) {
      assert s[..k][0] == s[0] == s[..n][0];
    }
  }

  // `normalize_absolute_path`.
  function Normal(path: Name): Result<seq<Name>, FsError> {
    var trimmed := Trim(path);
    if trimmed == [] then Err(NotFound) else Ok(Cleaned(Segments(trimmed)))
  }

  // The index of the last slash.
  function LastSlash(s: Name): (i: nat)
    requires SLASH in s
    ensures i < |s| && s[i] == SLASH && forall j :: i < j < |s| ==> s[j] != SLASH
  {
    if s[|s| - 1] == SLASH then |s| - 1 else LastSlash(s[..|s| - 1])
  }

  // Cutting at the last slash drops the last name.
  lemma CutLast(parts: seq<Name>)
    requires Named(parts) && parts != []
    ensures
      var s := Absolute(parts);
      SLASH in s && s[..Max(LastSlash(s), 1)] == Absolute(parts[..|parts| - 1])
  {
    var front, last := parts[..|parts| - 1], parts[|parts| - 1];
    assert parts == front + [last];
    AbsoluteMore(front, last);
    var s := Absolute(parts);
    assert s[0] == SLASH;
    var at := |s| - |last| - 1;
    assert s[at] == SLASH && s[at + 1..] == last;
    assert forall j :: at < j < |s| ==> s[j] == last[j - at - 1] && last[j - at - 1] in last;
    assert LastSlash(s) == at;
  }

  /** `normalize_absolute_path` builds the normal form as a string, taking names back at the last slash. */
  method NormalizeAbsolutePath(path: Name) returns (r: Result<Name, FsError>)
    ensures r == if Normal(path).Err? then Err(Normal(path).error) else Ok(Absolute(Normal(path).value))
  {
    hide Segments, Trim;
    var trimmed := Trim(path);
    if trimmed == [] {
      return Err(NotFound);
    }
    var absolute := if trimmed[0] == SLASH then trimmed else [SLASH] + trimmed;
    assert absolute == [SLASH] + absolute[1..];
    SegmentsRooted(absolute[1..]);
    SegmentsRooted(trimmed);
    var segments := Segments(absolute[1..]);
    var normalized := [SLASH];
    ghost var stack: seq<Name> := [];
    assert normalized == Absolute([]);
    for i := 0 to |segments|
      invariant stack == Cleaned(segments[..i]) && normalized == Absolute(stack)
    {
      var segment := segments[i];
      assert segments[..i + 1][..i] == segments[..i];
      AbsoluteMore(stack, segment);
      if segment == DOT {
      } else if segment == DOT_DOT {
        if |normalized| > 1 {
          CutLast(stack);
          normalized := normalized[..Max(LastSlash(normalized), 1)];
          stack := stack[..|stack| - 1];
        }
      } else {
        if |normalized| > 1 {
          normalized := normalized + [SLASH];
        }
        normalized := normalized + segment;
        stack := stack + [segment];
      }
    }
    assert segments[..|segments|] == segments;
    return Ok(normalized);
  }

  // ---------------------------------------------------------------- mounts

  datatype Mount = Mount(path: Name, root: nat)

  // Inodes are numbers here; what the filesystems answer about them is given.
  datatype World = World(root: nat, mounts: seq<Mount>, child: (nat, Name) -> Result<nat, FsError>,
                         kind: nat -> FileType, target: nat -> Result<Name, FsError>)

  // Mounts lie at paths in normal form, none at the root.
  ghost predicate WellMounted(w: World) {
    forall i :: 0 <= i < |w.mounts| ==>
      Segments(w.mounts[i].path) != [] && w.mounts[i].path == Absolute(Segments(w.mounts[i].path))
  }

  // `resolve_path`: the test for a mount.
  predicate Covers(mount: Name, path: Name) {
    path == mount || (|path| > |mount| && mount <= path && path[|mount|] == SLASH)
  }

  lemma {:induction false} JoinConcat(a: seq<Name>, b: seq<Name>)
    requires a != [] && b != []
    ensures Join(a + b) == Join(a) + [SLASH] + Join(b)
  {
    if |a| == 1 {
      assert (a + b)[1..] == b;
    } else {
      JoinConcat(a[1..], b);
      assert (a + b)[1..] == a[1..] + b;
    }
  }

  /** A mount covers a path exactly when its names are the first names of the path; the rest are the others. */
  lemma CoversIsPrefix(q: seq<Name>, p: seq<Name>)
    requires Named(q) && Named(p) && q != []
    ensures Covers(Absolute(q), Absolute(p)) <==> q <= p
    ensures q < p ==> |Absolute(p)| > |Absolute(q)| && Segments(Absolute(p)[|Absolute(q)| + 1..]) == p[|q|..]
  {
    hide Segments, Join;
    var m, s := Absolute(q), Absolute(p);
    SegmentsAbsolute(q);
    SegmentsAbsolute(p);
    if q < p {
      var rest := p[|q|..];
      assert p == q + rest;
      JoinConcat(q, rest);
      assert s == m + [SLASH] + Join(rest);
      assert s[|m| + 1..] == Join(rest);
      SegmentsJoin(rest);
    }
    if |s| > |m| && m <= s && s[|m|] == SLASH {
      var tail := s[|m| + 1..];
      assert s == m + [SLASH] + tail;
      SegmentsConcat(m, tail);
    }
    assert q <= p && !(q < p) ==> q == p;
  }

  // Of two mounts that cover a path, the one with the longer string has more names.
  lemma LongerIsDeeper(a: seq<Name>, b: seq<Name>, p: seq<Name>)
    requires Named(a) && Named(b) && a != [] && b != [] && a <= p && b <= p && Named(p)
    ensures |Absolute(a)| <= |Absolute(b)| <==> |a| <= |b|
  {
    if |a| < |b| {
      assert a == p[..|a|] && b == p[..|b|];
      assert a < b;
      CoversIsPrefix(a, b);
    } else if |b| < |a| {
      assert a == p[..|a|] && b == p[..|b|];
      assert b < a;
      CoversIsPrefix(b, a);
    } else {
      assert a == b;
    }
  }

  // The mount of the first n that covers the names p with most names.
  ghost function Best(mounts: seq<Mount>, p: seq<Name>, n: nat): (b: Option<nat>)
    requires n <= |mounts|
    ensures b.Some? ==> b.value < n && Segments(mounts[b.value].path) <= p
  {
    if n == 0 then None
    else
      var b := Best(mounts, p, n - 1);
      var names := Segments(mounts[n - 1].path);
      if names <= p && (b.None? || |Segments(mounts[b.value].path)| <= |names|) then Some(n - 1) else b
  }

  /** The chosen mount covers the path, and no mount that does lies deeper; without one, none covers it. */
  lemma {:induction false} BestIsDeepest(mounts: seq<Mount>, p: seq<Name>, n: nat)
    requires n <= |mounts|
    ensures
      var b := Best(mounts, p, n);
      && (b.None? ==> forall i :: 0 <= i < n ==> !(Segments(mounts[i].path) <= p))
      && (b.Some? ==> forall i :: 0 <= i < n && Segments(mounts[i].path) <= p ==>
            |Segments(mounts[i].path)| <= |Segments(mounts[b.value].path)|)
  {
    hide Segments;
    if n > 0 {
      BestIsDeepest(mounts, p, n - 1);
    }
  }

  // Where a lookup begins, and the names that remain.
  ghost function Start(w: World, p: seq<Name>): (nat, seq<Name>) {
    var b := Best(w.mounts, p, |w.mounts|);
    if b.Some? then (w.mounts[b.value].root, p[|Segments(w.mounts[b.value].path)|..]) else (w.root, p)
  }

  ghost function Walk(w: World, ino: nat, names: seq<Name>): Result<nat, FsError>
    decreases |names|
  {
    if names == [] then Ok(ino)
    else
      var next := w.child(ino, names[0]);
      if next.Err? then next else Walk(w, next.value, names[1..])
  }

  ghost function Lookup(w: World, p: seq<Name>): Result<nat, FsError> {
    var (ino, rest) := Start(w, p);
    Walk(w, ino, rest)
  }

  // `max_by_key` over the mounts that cover the path.
  method SelectMount(w: World, path: Name, ghost p: seq<Name>) returns (selected: Option<nat>)
    requires WellMounted(w) && Named(p) && path == Absolute(p)
    ensures selected == Best(w.mounts, p, |w.mounts|)
  {
    hide Segments, Covers, Absolute;
    selected := None;
    for i := 0 to |w.mounts|
      invariant selected == Best(w.mounts, p, i)
    {
      var mount := w.mounts[i];
      CoversIsPrefix(Segments(mount.path), p);
      if selected.Some? && Segments(mount.path) <= p {
        LongerIsDeeper(Segments(w.mounts[selected.value].path), Segments(mount.path), p);
      }
      if Covers(mount.path, path) && (selected.None? || |w.mounts[selected.value].path| <= |mount.path|) {
        selected := Some(i);
      }
    }
  }

  /** `resolve_path`: the deepest mount that covers the path, and the rest of the path below it. */
  method ResolvePath(w: World, path: Name, ghost p: seq<Name>) returns (ino: nat, rest: Name)
    requires WellMounted(w) && Named(p) && path == Absolute(p)
    ensures (ino, Segments(rest)) == Start(w, p)
  {
    hide Segments, Covers;
    SegmentsEmpty();
    if path == [SLASH] {
      SegmentsAbsolute(p);
      SegmentsRooted([]);
      assert [SLASH] + [] == [SLASH];
      return w.root, [];
    }
    var selected := SelectMount(w, path, p);
    if selected.Some? {
      var mount := w.mounts[selected.value];
      CoversIsPrefix(Segments(mount.path), p);
      if path == mount.path {
        SegmentsAbsolute(p);
        assert p[|p|..] == [];
        return mount.root, [];
      }
      assert mount.path == Absolute(Segments(mount.path));
      assert Segments(mount.path) != p && Segments(mount.path) <= p;
      assert Segments(mount.path) < p;
      return mount.root, path[|mount.path| + 1..];
    }
    SegmentsJoin(p);
    assert path[1..] == Join(p);
    return w.root, path[1..];
  }

  /** `lookup_path_without_symlink_resolution`. */
  method LookupRaw(w: World, path: Name, ghost p: seq<Name>) returns (r: Result<nat, FsError>)
    requires WellMounted(w) && Named(p) && path == Absolute(p)
    ensures r == Lookup(w, p)
  {
    hide Segments, Start;
    var ino, rest := ResolvePath(w, path, p);
    var segments := Segments(rest);
    assert segments[0..] == segments;
    for i := 0 to |segments|
      invariant Walk(w, ino, segments[i..]) == Lookup(w, p)
    {
      assert segments[i..][0] == segments[i] && segments[i..][1..] == segments[i + 1..];
      var next := w.child(ino, segments[i]);
      if next.Err? {
        return next;
      }
      ino := next.value;
    }
    return Ok(ino);
  }

  // ---------------------------------------------------------------- symbolic links

  const MAX_FOLLOWS: nat := 10

  // The length of the shortest prefix, of k names or more, that is a link; None if there is none.
  ghost function FirstLink(w: World, p: seq<Name>, k: nat): (r: Result<Option<nat>, FsError>)
    ensures r.Ok? && r.value.Some? ==> k <= r.value.value <= |p| && Lookup(w, p[..r.value.value]).Ok?
    decreases |p| - k
  {
    if k > |p| then Ok(None)
    else
      var found := Lookup(w, p[..k]);
      if found.Err? then Err(found.error)
      else if w.kind(found.value) == Symlink then Ok(Some(k))
      else FirstLink(w, p, k + 1)
  }

  // The string that takes the place of a path whose link lies in `parent`.
  function Expanded(parent: Name, target: Name, suffix: Name): Name {
    var start :=
      if target != [] && target[0] == SLASH then target
      else if parent == [SLASH] then [SLASH] + target
      else parent + (if parent != [] && parent[|parent| - 1] == SLASH then [] else [SLASH]) + target;
    if suffix == [] then start
    else start + (if start != [] && start[|start| - 1] == SLASH then [] else [SLASH]) + suffix
  }

  // The string put together when the link at length k is followed, and the path it gives.
  function Spelled(p: seq<Name>, k: nat, target: Name): Name
    requires 1 <= k <= |p|
  {
    Expanded(Absolute(p[..k - 1]), target, Join(p[k..]))
  }

  // Nothing is trimmed off its end.
  predicate Untrimmed(p: seq<Name>, k: nat, target: Name)
    requires 1 <= k <= |p|
  {
    SpaceEnd(Spelled(p, k, target)) == 0
  }

  function Followed(p: seq<Name>, k: nat, target: Name): Result<seq<Name>, FsError>
    requires 1 <= k <= |p|
  {
    Normal(Spelled(p, k, target))
  }

  // `resolve_symlink_path` on names: look for the first link, follow it, start over.
  ghost function Resolved(w: World, p: seq<Name>, follows: nat): Result<seq<Name>, FsError>
    decreases MAX_FOLLOWS - follows
  {
    var link := FirstLink(w, p, 1);
    if link.Err? then Err(link.error)
    else if link.value.None? then Ok(p)
    else if follows >= MAX_FOLLOWS then Err(NotSupported)
    else
      var k := link.value.value;
      var target := w.target(Lookup(w, p[..k]).value);
      if target.Err? then Err(target.error)
      else
        var next := Followed(p, k, target.value);
        if next.Err? then next else Resolved(w, next.value, follows + 1)
  }

  // One pass of the outer loop: the path's first link, with its inode.
  method FindLink(w: World, segments: seq<Name>) returns (r: Result<Option<(nat, nat)>, FsError>)
    requires WellMounted(w) && Named(segments)
    ensures
      var link := FirstLink(w, segments, 1);
      && (link.Err? ==> r == Err(link.error))
      && (link.Ok? && link.value.None? ==> r == Ok(None))
      && (link.Ok? && link.value.Some? ==>
            r == Ok(Some((link.value.value - 1, Lookup(w, segments[..link.value.value]).value))))
  {
    hide Lookup, Segments, WellMounted, Join;
    for index := 0 to |segments|
      invariant FirstLink(w, segments, 1) == FirstLink(w, segments, index + 1)
    {
      var found := LookupRaw(w, Absolute(segments[..index + 1]), segments[..index + 1]);
      if found.Err? {
        return Err(found.error);
      }
      if w.kind(found.value) == Symlink {
        return Ok(Some((index, found.value)));
      }
    }
    return Ok(None);
  }

  /** `resolve_symlink_path`: the loop over strings is the resolution on names. */
  method ResolveSymlinkPath(w: World, path: Name) returns (r: Result<Name, FsError>)
    requires WellMounted(w)
    ensures
      var resolved := if Normal(path).Err? then Normal(path) else Resolved(w, Normal(path).value, 0);
      r == if resolved.Err? then Err(resolved.error) else Ok(Absolute(resolved.value))
  {
    hide Segments, Expanded, FirstLink, Normal, Lookup;
    var normalized := NormalizeAbsolutePath(path);
    if normalized.Err? {
      return normalized;
    }
    var current := normalized.value;
    ghost var p := Normal(path).value;
    NormalIsPlain(path);
    var followed := 0;
    while true
      invariant followed <= MAX_FOLLOWS && Plain(p) && current == Absolute(p)
      invariant Resolved(w, Normal(path).value, 0) == Resolved(w, p, followed)
      decreases MAX_FOLLOWS - followed
    {
      SegmentsAbsolute(p);
      var segments := Segments(current);
      var link := FindLink(w, segments);
      if link.Err? {
        return Err(link.error);
      }
      if link.value.None? {
        return Ok(current);
      }
      if followed >= MAX_FOLLOWS {
        return Err(NotSupported);
      }
      var (index, ino) := link.value.value;
      var target := w.target(ino);
      if target.Err? {
        return Err(target.error);
      }
      var expanded := Expanded(Absolute(segments[..index]), target.value, Join(segments[index + 1..]));
      var next := NormalizeAbsolutePath(expanded);
      if next.Err? {
        return next;
      }
      NormalIsPlain(expanded);
      current, p := next.value, Normal(expanded).value;
      followed := followed + 1;
    }
  }

  lemma NormalIsPlain(path: Name)
    ensures Normal(path).Ok? ==> Plain(Normal(path).value)
  {
  }

  /** `lookup_path_with_options`. */
  method LookupPath(w: World, path: Name, resolveSymlinks: bool) returns (r: Result<nat, FsError>)
    requires WellMounted(w)
    ensures
      var resolved :=
        if Normal(path).Err? || !resolveSymlinks then Normal(path) else Resolved(w, Normal(path).value, 0);
      r == if resolved.Err? then Err(resolved.error) else Lookup(w, resolved.value)
  {
    hide Normal, Lookup, Resolved;
    NormalIsPlain(path);
    if !resolveSymlinks {
      var normalized := NormalizeAbsolutePath(path);
      if normalized.Err? {
        return Err(normalized.error);
      }
      r := LookupRaw(w, normalized.value, Normal(path).value);
      return;
    }
    var resolved := ResolveSymlinkPath(w, path);
    if resolved.Err? {
      return Err(resolved.error);
    }
    ResolvedIsPlain(w, Normal(path).value, 0);
    r := LookupRaw(w, resolved.value, Resolved(w, Normal(path).value, 0).value);
  }

  lemma {:induction false} ResolvedIsPlain(w: World, p: seq<Name>, follows: nat)
    requires Plain(p) && follows <= MAX_FOLLOWS
    ensures Resolved(w, p, follows).Ok? ==> Plain(Resolved(w, p, follows).value)
    decreases MAX_FOLLOWS - follows
  {
    hide Normal, Lookup, FirstLink;
    var link := FirstLink(w, p, 1);
    if link.Ok? && link.value.Some? && follows < MAX_FOLLOWS {
      var k := link.value.value;
      var target := w.target(Lookup(w, p[..k]).value);
      if target.Ok? && Followed(p, k, target.value).Ok? {
        NormalIsPlain(Expanded(Absolute(p[..k - 1]), target.value, Join(p[k..])));
        ResolvedIsPlain(w, Followed(p, k, target.value).value, follows + 1);
      }
    }
  }

  // ---------------------------------------------------------------- following a link, on names

  // The names in a path put together from a directory, a target and the rest.
  lemma ExpandedSegments(parent: seq<Name>, target: Name, suffix: seq<Name>)
    requires Named(parent) && Named(suffix)
    ensures
      var base := if target != [] && target[0] == SLASH then [] else parent;
      Segments(Expanded(Absolute(parent), target, Join(suffix))) == base + Segments(target) + suffix
  {
    hide Segments, Join;
    var dir := Absolute(parent);
    SegmentsAbsolute(parent);
    SegmentsRooted(target);
    SegmentsConcat(dir, target);
    AbsoluteEnds(parent);
    var start := Expanded(dir, target, []);
    var base := if target != [] && target[0] == SLASH then [] else parent;
    assert Segments(start) == base + Segments(target) by {
      assert parent == [] ==> base + Segments(target) == Segments(target);
    }
    SegmentsJoin(suffix);
    Appended(start, Join(suffix));
    if Join(suffix) == [] {
      SegmentsEmpty();
      assert suffix == [];
      assert base + Segments(target) + suffix == base + Segments(target);
    }
  }

  lemma AbsoluteEnds(parent: seq<Name>)
    requires Named(parent)
    ensures Absolute(parent) == [SLASH] <==> parent == []
    ensures parent != [] ==> Absolute(parent)[|Absolute(parent)| - 1] != SLASH
  {
    if parent != [] { SplitJoin(parent); }
  }

  lemma Appended(start: Name, suffix: Name)
    ensures
      var all := start + (if start != [] && start[|start| - 1] == SLASH then [] else [SLASH]) + suffix;
      Segments(all) == Segments(start) + Segments(suffix)
  {
    hide Segments;
    if start != [] && start[|start| - 1] == SLASH {
      var front := start[..|start| - 1];
      assert start == front + [SLASH] + [];
      assert start + [] + suffix == front + [SLASH] + suffix;
      SegmentsConcat(front, []);
      SegmentsConcat(front, suffix);
      SegmentsEmpty();
    } else {
      SegmentsConcat(start, suffix);
    }
  }

  // The names a link stands for: from the root, or from the directory that holds it.
  function Meaning(dir: seq<Name>, target: Name): (r: seq<Name>)
    requires Named(dir)
    ensures Plain(r)
  {
    Cleaned((if target != [] && target[0] == SLASH then [] else dir) + Segments(target))
  }

  lemma RootStarts(s: Name, n: nat)
    requires s != [] && s[0] == SLASH && n > 0
    ensures !StartsIn(s, n)
  {
    hide IsSpace;
    if StartsIn(s, n) {
      assert s[..n][0] == SLASH;
      SpaceBytes(s[..n]);
    }
  }

  lemma RootedTrims(s: Name)
    requires s != [] && s[0] == SLASH
    ensures TrimStart(s) == s && Trim(s) == TrimEnd(s)
  {
    hide StartsIn, EndsIn, SpaceEnd;
    RootStarts(s, 1);
    RootStarts(s, 2);
    RootStarts(s, 3);
  }

  // Trimming stops at a slash.
  lemma {:induction false} TrimLast(front: Name, last: Name)
    requires SLASH !in last
    ensures TrimEnd(front + [SLASH] + last) == front + [SLASH] + TrimEnd(last)
    ensures SpaceEnd(front + [SLASH] + last) == SpaceEnd(last) && SLASH !in TrimEnd(last)
    decreases |last|
  {
    hide SpaceEnd;
    var s := front + [SLASH] + last;
    EndsAlike(front, last);
    if SpaceEnd(last) > 0 {
      var n := SpaceEnd(last);
      TrimLast(front, last[..|last| - n]);
      assert s[..|s| - n] == front + [SLASH] + last[..|last| - n];
    }
  }

  lemma EndsAlike(front: Name, last: Name)
    requires SLASH !in last
    ensures SpaceEnd(front + [SLASH] + last) == SpaceEnd(last)
  {
    hide EndsIn;
    EndAlike(front, last, 1);
    EndAlike(front, last, 2);
    EndAlike(front, last, 3);
  }

  lemma EndAlike(front: Name, last: Name, n: nat)
    requires SLASH !in last && n > 0
    ensures EndsIn(front + [SLASH] + last, n) <==> EndsIn(last, n)
  {
    hide IsSpace;
    var s := front + [SLASH] + last;
    if n <= |last| {
      assert s[|s| - n..] == last[|last| - n..];
    } else if EndsIn(s, n) {
      assert s[|s| - n..][n - |last| - 1] == SLASH;
      SpaceBytes(s[|s| - n..]);
    }
  }

  // Neither a slash nor a dot is part of a white-space character.
  lemma SpaceBytes(c: Name)
    requires IsSpace(c)
    ensures c != [] && SLASH !in c && c[|c| - 1] != DOT[0]
  {
  }

  // White space at the end is trimmed off the last name, which then is another one or none.
  lemma TrimmedNames(s: Name)
    requires s != [] && s[0] == SLASH && SpaceEnd(s) > 0
    ensures Trim(s) != [] && Cleaned(Segments(Trim(s))) != Cleaned(Segments(s))
  {
    hide Segments, Join, Trim, TrimEnd, SpaceEnd;
    var at := LastSlash(s);
    var front, last := s[..at], s[at + 1..];
    assert s == front + [SLASH] + last;
    assert SLASH !in last;
    RootedTrims(s);
    TrimLast(front, last);
    var u := TrimEnd(last);
    SegmentsConcat(front, last);
    SegmentsConcat(front, u);
    OneSegment(last);
    OneSegment(u);
    SpacesAreNames(last);
    CleanedMore(Segments(front), [last]);
    var base: seq<Name> := Cleaned(Segments(front));
    if u == [] {
      assert Segments(front) + [] == Segments(front);
    } else if u != DOT && u != DOT_DOT {
      CleanedMore(Segments(front), [u]);
      assert base + [u] != base + [last] by { assert (base + [u])[|base|] == u; }
    } else {
      assert (Segments(front) + [u])[..|Segments(front)|] == Segments(front);
    }
  }

  lemma OneSegment(name: Name)
    requires SLASH !in name
    ensures Segments(name) == if name == [] then [] else [name]
  {
    hide Split;
    SplitName(name);
    assert [name][1..] == [];
    assert Names([]) == [];
  }

  lemma SpacesAreNames(name: Name)
    requires SpaceEnd(name) > 0
    ensures name != [] && name != DOT && name != DOT_DOT
  {
    hide IsSpace;
    SpaceBytes(name[|name| - SpaceEnd(name)..]);
  }

  /**
   Following a link puts the names it stands for in front of the rest of the path, exactly when the
   string put together for it does not end in white space.
   */
  lemma FollowedNames(p: seq<Name>, k: nat, target: Name)
    requires Plain(p) && 1 <= k <= |p|
    ensures Followed(p, k, target).Ok? && Plain(Followed(p, k, target).value)
    ensures
      var dir, rest := p[..k - 1], p[k..];
      Followed(p, k, target) == Ok(Meaning(dir, target) + rest) <==> Untrimmed(p, k, target)
  {
    hide Segments, Join, Cleaned, Expanded, Absolute, SpaceEnd, Normal;
    var dir, rest := p[..k - 1], p[k..];
    var from := if target != [] && target[0] == SLASH then [] else dir;
    ExpandedSegments(dir, target, rest);
    ExpandedRooted(dir, target, rest);
    CleanedMore(from + Segments(target), rest);
    NormalNames(Expanded(Absolute(dir), target, Join(rest)));
  }

  lemma NormalNames(s: Name)
    requires s != [] && s[0] == SLASH
    ensures Normal(s).Ok? && Plain(Normal(s).value)
    ensures Normal(s) == Ok(Cleaned(Segments(s))) <==> SpaceEnd(s) == 0
  {
    hide Segments, Cleaned, Trim, SpaceEnd;
    if SpaceEnd(s) == 0 {
      TrimsNothing(s);
    } else {
      TrimmedNames(s);
    }
  }

  /** At this input something is trimmed: a link at `/a` to the name `b` and a space leads to `/b`. */
  lemma SpaceIsTrimmed()
    ensures Meaning([], [98, 32]) == [[98, 32]] && Followed([[97]], 1, [98, 32]) == Ok([[98]])
  {
    hide Segments, Cleaned, Trim, TrimEnd, SpaceEnd;
    var target: Name, path: Name := [98, 32], [SLASH, 98, 32];
    OneSegment(target);
    OneSegment([98]);
    CleanedPlain([target]);
    CleanedPlain([[98]]);
    assert [] + [target] == [target];
    assert Spelled([[97]], 1, target) == path;
    RootedTrims(path);
    TrimLast([], target);
    OneSpace();
    assert [] + [SLASH] + target == path && [] + [SLASH] + [98] == [SLASH, 98] == [SLASH] + [98];
    SegmentsRooted([98]);
  }

  lemma OneSpace()
    ensures TrimEnd([98, 32]) == [98]
  {
    var s: Name := [98, 32];
    assert s[1..] == [32] && s[..1] == [98];
    assert EndsIn(s, 1);
    var t: Name := [98];
    assert t[0..] == [98];
    assert !EndsIn(t, 1);
  }

  // A path that begins with a slash and ends in no white space is not trimmed.
  lemma TrimsNothing(s: Name)
    requires s != [] && s[0] == SLASH && SpaceEnd(s) == 0
    ensures Trim(s) == s
  {
    hide Trim, SpaceEnd;
    RootedTrims(s);
  }

  lemma ExpandedRooted(dir: seq<Name>, target: Name, rest: seq<Name>)
    ensures
      var s := Expanded(Absolute(dir), target, Join(rest));
      s != [] && s[0] == SLASH
  {
    hide Join;
  }

  // ---------------------------------------------------------------- without starting over

  // How many names two lists begin with alike.
  function Common(a: seq<Name>, b: seq<Name>): (k: nat)
    ensures k <= |a| && k <= |b| && a[..k] == b[..k]
  {
    if a == [] || b == [] || a[0] != b[0] then 0 else 1 + Common(a[1..], b[1..])
  }

  // The path after a link: there is always one.
  ghost function Next(p: seq<Name>, k: nat, target: Name): (r: seq<Name>)
    requires Plain(p) && 1 <= k <= |p|
    ensures Plain(r) && Followed(p, k, target) == Ok(r)
  {
    FollowedNames(p, k, target);
    Followed(p, k, target).value
  }

  /**
   The walk that looks at each name once: `done` is known to hold no link, and after a link it goes
   on from the directories that the link leaves in place.
   */
  ghost function Walked(w: World, done: seq<Name>, todo: seq<Name>, follows: nat): Result<seq<Name>, FsError>
    requires Plain(done) && Plain(todo)
    decreases MAX_FOLLOWS - follows, |todo|
  {
    if todo == [] then Ok(done)
    else
      var found := Lookup(w, done + [todo[0]]);
      if found.Err? then Err(found.error)
      else if w.kind(found.value) != Symlink then Walked(w, done + [todo[0]], todo[1..], follows)
      else if follows >= MAX_FOLLOWS then Err(NotSupported)
      else
        var target := w.target(found.value);
        if target.Err? then Err(target.error)
        else
          JoinPlain(done, todo);
          var next := Next(done + todo, |done| + 1, target.value);
          var k := Common(done, next);
          Walked(w, done[..k], next[k..], follows + 1)
  }

  // Every prefix of the path is there and none is a link.
  ghost predicate LinkFree(w: World, p: seq<Name>) {
    forall k {:trigger p[..k]} :: 1 <= k <= |p| ==> Lookup(w, p[..k]).Ok? && w.kind(Lookup(w, p[..k]).value) != Symlink
  }

  lemma {:induction false} LinkFreeSkips(w: World, p: seq<Name>, d: nat, k: nat)
    requires d <= |p| && LinkFree(w, p[..d]) && 1 <= k <= d + 1
    ensures FirstLink(w, p, k) == FirstLink(w, p, d + 1)
    decreases d + 1 - k
  {
    hide Lookup;
    if k <= d {
      assert p[..d][..k] == p[..k];
      LinkFreeSkips(w, p, d, k + 1);
    }
  }

  /** Starting over after each link gives what the walk without starting over gives. */
  lemma {:induction false} StartingOverIsRedundant(w: World, done: seq<Name>, todo: seq<Name>, follows: nat)
    requires Plain(done + todo) && LinkFree(w, done) && follows <= MAX_FOLLOWS
    ensures Plain(done) && Plain(todo) && Resolved(w, done + todo, follows) == Walked(w, done, todo, follows)
    decreases MAX_FOLLOWS - follows, |todo|
  {
    hide Lookup, Followed, FirstLink, Next, Named, Plain;
    var p := done + todo;
    assert p[..|done|] == done;
    PlainParts(done, todo);
    LinkFreeSkips(w, p, |done|, 1);
    FirstLinkAt(w, p, |done| + 1);
    if todo == [] {
      assert p == done;
    } else {
      var here := done + [todo[0]];
      assert p[..|done| + 1] == here;
      var found := Lookup(w, here);
      if found.Ok? && w.kind(found.value) != Symlink {
        assert here + todo[1..] == p;
        JoinPlain(done, [todo[0]]);
        LinkFreeMore(w, done, todo[0]);
        StartingOverIsRedundant(w, here, todo[1..], follows);
      } else if found.Ok? && follows < MAX_FOLLOWS && w.target(found.value).Ok? {
        var target := w.target(found.value).value;
        var next := Next(p, |done| + 1, target);
        var k := Common(done, next);
        assert done[..k] + next[k..] == next;
        PlainParts(done[..k], next[k..]);
        LinkFreePart(w, done, k);
        StartingOverIsRedundant(w, done[..k], next[k..], follows + 1);
      }
    }
  }

  lemma PlainParts(a: seq<Name>, b: seq<Name>)
    requires Plain(a + b)
    ensures Plain(a) && Plain(b) && (b != [] ==> Plain([b[0]]) && Plain(b[1..]))
  {
    var p := a + b;
    assert forall i :: 0 <= i < |a| ==> p[i] == a[i];
    assert forall i :: 0 <= i < |b| ==> p[|a| + i] == b[i];
  }

  lemma JoinPlain(a: seq<Name>, b: seq<Name>)
    requires Plain(a) && Plain(b)
    ensures Plain(a + b)
  {
  }

  lemma FirstLinkAt(w: World, p: seq<Name>, k: nat)
    ensures FirstLink(w, p, k) ==
      if k > |p| then Ok(None)
      else if Lookup(w, p[..k]).Err? then Err(Lookup(w, p[..k]).error)
      else if w.kind(Lookup(w, p[..k]).value) == Symlink then Ok(Some(k))
      else FirstLink(w, p, k + 1)
  {
  }

  lemma LinkFreeMore(w: World, done: seq<Name>, name: Name)
    requires LinkFree(w, done) && Lookup(w, done + [name]).Ok? && w.kind(Lookup(w, done + [name]).value) != Symlink
    ensures LinkFree(w, done + [name])
  {
    hide Lookup;
    var here := done + [name];
    forall k | 1 <= k <= |here| ensures Lookup(w, here[..k]).Ok? && w.kind(Lookup(w, here[..k]).value) != Symlink {
      if k <= |done| {
        assert here[..k] == done[..k];
      } else {
        assert here[..k] == here;
      }
    }
  }

  lemma LinkFreePart(w: World, done: seq<Name>, k: nat)
    requires LinkFree(w, done) && k <= |done|
    ensures LinkFree(w, done[..k])
  {
    hide Lookup;
    forall j | 1 <= j <= k ensures Lookup(w, done[..k][..j]).Ok? && w.kind(Lookup(w, done[..k][..j]).value) != Symlink {
      assert done[..k][..j] == done[..j];
    }
  }

  // ---------------------------------------------------------------- what a resolved path is

  /** A resolved path leads through no link. */
  lemma {:induction false} ResolvedIsLinkFree(w: World, p: seq<Name>, follows: nat)
    requires follows <= MAX_FOLLOWS
    ensures Resolved(w, p, follows).Ok? ==> LinkFree(w, Resolved(w, p, follows).value)
    decreases MAX_FOLLOWS - follows
  {
    hide Lookup, Followed;
    var link := FirstLink(w, p, 1);
    if link.Ok? && link.value.None? {
      NoLink(w, p, 1);
    } else if link.Ok? && follows < MAX_FOLLOWS {
      var target := w.target(Lookup(w, p[..link.value.value]).value);
      if target.Ok? && Followed(p, link.value.value, target.value).Ok? {
        ResolvedIsLinkFree(w, Followed(p, link.value.value, target.value).value, follows + 1);
      }
    }
  }

  lemma {:induction false} NoLink(w: World, p: seq<Name>, k: nat)
    requires FirstLink(w, p, k) == Ok(None) && k >= 1
    ensures forall j {:trigger p[..j]} :: k <= j <= |p| ==>
      Lookup(w, p[..j]).Ok? && w.kind(Lookup(w, p[..j]).value) != Symlink
    decreases |p| - k
  {
    hide Lookup;
    if k <= |p| {
      NoLink(w, p, k + 1);
    }
  }

  /** A path that leads through no link resolves to itself; so resolving twice is resolving once. */
  lemma LinkFreeStays(w: World, p: seq<Name>, follows: nat)
    requires LinkFree(w, p)
    ensures Resolved(w, p, follows) == Ok(p)
  {
    hide Lookup;
    assert p[..|p|] == p;
    LinkFreeSkips(w, p, |p|, 1);
  }

  // ---------------------------------------------------------------- dots before or after links

  // How many names two dots in the list take back from what stands before it, and what it leaves.
  function Back(parts: seq<Name>): nat {
    if parts == [] then 0
    else if parts[0] == DOT then Back(parts[1..])
    else if parts[0] == DOT_DOT then Back(parts[1..]) + 1
    else Max(Back(parts[1..]), 1) - 1
  }

  function Kept(parts: seq<Name>): (r: seq<Name>)
    requires Named(parts)
    ensures Plain(r)
  {
    if parts == [] then []
    else if parts[0] == DOT || parts[0] == DOT_DOT || Back(parts[1..]) > 0 then Kept(parts[1..])
    else [parts[0]] + Kept(parts[1..])
  }

  function Parent(p: seq<Name>): seq<Name> { if p == [] then [] else p[..|p| - 1] }

  function Drop(p: seq<Name>, n: nat): seq<Name> { if n > |p| then [] else p[..|p| - n] }

  lemma DropMore(p: seq<Name>, n: nat)
    ensures Drop(Parent(p), n) == Drop(p, n + 1)
  {
  }

  lemma CleanedStep(a: seq<Name>, name: Name)
    requires Named(a + [name])
    ensures Named(a)
    ensures Cleaned(a + [name]) ==
      if name == DOT then Cleaned(a) else if name == DOT_DOT then Parent(Cleaned(a)) else Cleaned(a) + [name]
  {
    assert (a + [name])[..|a|] == a;
  }

  lemma NamedParts(a: seq<Name>, b: seq<Name>)
    ensures Named(a + b) <==> Named(a) && Named(b)
  {
    assert forall i :: 0 <= i < |a| ==> (a + b)[i] == a[i];
    assert forall i :: 0 <= i < |b| ==> (a + b)[|a| + i] == b[i];
  }

  /** Cleaning a list that follows another one takes back and adds what the list alone says. */
  lemma {:induction false} CleanedJoin(a: seq<Name>, b: seq<Name>)
    requires Named(a) && Named(b)
    ensures Named(a + b) && Cleaned(a + b) == Drop(Cleaned(a), Back(b)) + Kept(b)
    decreases |b|
  {
    hide Named, Cleaned, Back, Kept, Drop;
    NamedParts(a, b);
    DropNothing(Cleaned(a));
    DropNothing(a);
    if b == [] {
      NothingKept();
    } else {
      var name, rest := b[0], b[1..];
      Regroup(a, b);
      NamedParts([name], rest);
      NamedParts(a, [name]);
      CleanedStep(a, name);
      KeptStep(b);
      DropMore(Cleaned(a), Back(rest));
      DropNamed(Cleaned(a), name, Back(rest));
      CleanedJoin(a + [name], rest);
      Associate(Cleaned(a), [name], Kept(rest));
    }
  }

  lemma Regroup(a: seq<Name>, b: seq<Name>)
    requires b != []
    ensures b == [b[0]] + b[1..] && a + b == a + [b[0]] + b[1..]
  {
  }

  lemma Associate(a: seq<Name>, b: seq<Name>, c: seq<Name>)
    ensures a + b + c == a + (b + c)
  {
  }

  lemma DropNothing(p: seq<Name>)
    ensures Drop(p, 0) == p && p + [] == p
  {
  }

  lemma DropNamed(p: seq<Name>, name: Name, n: nat)
    ensures Drop(p + [name], n) == if n == 0 then p + [name] else Drop(p, n - 1)
  {
  }

  lemma NothingKept()
    ensures Back([]) == 0 && Kept([]) == []
  {
  }

  lemma {:induction false} PlainKept(b: seq<Name>)
    requires Plain(b)
    ensures Back(b) == 0 && Kept(b) == b
  {
    if b != [] {
      PlainParts([], b);
      assert [] + b == b;
      PlainKept(b[1..]);
    }
  }

  lemma WalkParts(done: seq<Name>, todo: seq<Name>)
    requires Plain(done) && Named(todo) && todo != []
    ensures Named(todo[1..]) && Plain(Parent(done)) && Plain([])
    ensures todo[0] != DOT && todo[0] != DOT_DOT ==> Plain([todo[0]]) && Plain(done + [todo[0]])
  {
    assert todo == [todo[0]] + todo[1..];
    NamedParts([todo[0]], todo[1..]);
  }

  /**
   The walk that takes each name as it comes: two dots lead to the directory above the place that
   was reached, and the names of a link's target are walked before the rest.
   */
  ghost function Physical(w: World, done: seq<Name>, todo: seq<Name>,
                          follows: nat): (r: Result<(seq<Name>, nat), FsError>)
    requires Plain(done) && Named(todo)
    ensures r.Ok? ==> Plain(r.value.0) && follows <= r.value.1 <= Max(follows, MAX_FOLLOWS)
    decreases MAX_FOLLOWS - follows, |todo|
  {
    if todo == [] then Ok((done, follows))
    else
      var name, rest := todo[0], todo[1..];
      if name == DOT then Physical(w, done, rest, follows)
      else if name == DOT_DOT then Physical(w, Parent(done), rest, follows)
      else
        var found := Lookup(w, done + [name]);
        if found.Err? then Err(found.error)
        else if w.kind(found.value) != Symlink then Physical(w, done + [name], rest, follows)
        else if follows >= MAX_FOLLOWS then Err(NotSupported)
        else
          var target := w.target(found.value);
          if target.Err? then Err(target.error)
          else
            Physical(w, From(done, target.value), Segments(target.value) + rest, follows + 1)
  }

  // Where a link's target is walked from.
  function From(done: seq<Name>, target: Name): seq<Name> {
    if target != [] && target[0] == SLASH then [] else done
  }

  function Place(r: Result<(seq<Name>, nat), FsError>): Result<seq<Name>, FsError> {
    if r.Err? then Err(r.error) else Ok(r.value.0)
  }

  /**
   No name that two dots take back is missing or a link, along the whole walk, and no link that is
   followed gives a string with white space at its end.
   */
  ghost predicate Lexical(w: World, done: seq<Name>, todo: seq<Name>, follows: nat)
    requires Plain(done) && Named(todo)
    decreases MAX_FOLLOWS - follows, |todo|
  {
    if todo == [] then true
    else
      var name, rest := todo[0], todo[1..];
      if name == DOT then Lexical(w, done, rest, follows)
      else if name == DOT_DOT then Lexical(w, Parent(done), rest, follows)
      else
        var found := Lookup(w, done + [name]);
        if found.Err? then Back(rest) == 0
        else if w.kind(found.value) != Symlink then Lexical(w, done + [name], rest, follows)
        else if Back(rest) > 0 then false
        else if follows >= MAX_FOLLOWS || w.target(found.value).Err? then true
        else
          var target := w.target(found.value).value;
          && Untrimmed(done + [name] + Kept(rest), |done| + 1, target)
          && Lexical(w, From(done, target), Segments(target) + rest, follows + 1)
  }

  // Both ways of taking the list lead to the same place.
  ghost predicate Agree(w: World, done: seq<Name>, todo: seq<Name>, follows: nat)
    requires Plain(done) && Named(todo) && Named(done + todo)
  {
    Place(Physical(w, done, todo, follows)) == Resolved(w, Cleaned(done + todo), follows)
  }

  lemma KeptStep(todo: seq<Name>)
    requires Named(todo) && todo != []
    ensures
      var name, rest := todo[0], todo[1..];
      && Named(rest)
      && Back(todo)
         == (if name == DOT then Back(rest) else if name == DOT_DOT then Back(rest) + 1 else Max(Back(rest), 1) - 1)
      && Kept(todo) == (if name == DOT || name == DOT_DOT || Back(rest) > 0 then Kept(rest) else [name] + Kept(rest))
  {
  }

  lemma PlainNamed(p: seq<Name>)
    requires Plain(p)
    ensures Named(p)
  {
  }

  lemma SkipDot(w: World, done: seq<Name>, todo: seq<Name>, follows: nat)
    requires Plain(done) && Named(todo) && todo != [] && todo[0] == DOT
    ensures Named(done + todo) && Named(todo[1..]) && Named(done + todo[1..])
    ensures Agree(w, done, todo[1..], follows) ==> Agree(w, done, todo, follows)
  {
    hide Cleaned, Resolved, Lookup, Back, Kept;
    KeptStep(todo);
    CleanedJoin(done, todo);
    CleanedJoin(done, todo[1..]);
  }

  lemma OneUp(w: World, done: seq<Name>, todo: seq<Name>, follows: nat)
    requires Plain(done) && Named(todo) && LinkFree(w, done) && todo != [] && todo[0] == DOT_DOT
    ensures LinkFree(w, Parent(done)) && Plain(Parent(done)) && Named(done + todo)
    ensures Named(todo[1..]) && Named(Parent(done) + todo[1..])
    ensures Agree(w, Parent(done), todo[1..], follows) ==> Agree(w, done, todo, follows)
  {
    hide Cleaned, Resolved, Lookup, LinkFree, Back, Kept;
    KeptStep(todo);
    LinkFreePart(w, done, |Parent(done)|);
    CleanedPlain(done);
    CleanedPlain(Parent(done));
    CleanedJoin(done, todo);
    CleanedJoin(Parent(done), todo[1..]);
    DropMore(done, Back(todo[1..]));
  }

  lemma NameStays(done: seq<Name>, todo: seq<Name>)
    requires Plain(done) && Named(todo) && todo != []
    requires todo[0] != DOT && todo[0] != DOT_DOT && Back(todo[1..]) == 0
    ensures Named(done + todo) && Named(todo[1..]) && Cleaned(done + todo) == done + [todo[0]] + Kept(todo[1..])
  {
    hide Cleaned, Named, Plain, Back, Kept;
    PlainNamed(done);
    KeptStep(todo);
    CleanedJoin(done, todo);
    CleanedPlain(done);
    assert done[..|done|] == done;
    assert done + [todo[0]] + Kept(todo[1..]) == done + ([todo[0]] + Kept(todo[1..]));
  }

  // A name that is missing, or a link that cannot be followed, ends both.
  lemma StopsHere(w: World, done: seq<Name>, todo: seq<Name>, follows: nat)
    requires Plain(done) && Named(todo) && LinkFree(w, done) && todo != [] && follows <= MAX_FOLLOWS
    requires todo[0] != DOT && todo[0] != DOT_DOT && Back(todo[1..]) == 0
    requires
      var found := Lookup(w, done + [todo[0]]);
      found.Err? || (w.kind(found.value) == Symlink && (follows == MAX_FOLLOWS || w.target(found.value).Err?))
    ensures Named(done + todo) && Agree(w, done, todo, follows)
  {
    hide Cleaned, Resolved, Lookup, LinkFree, Back, Kept, Followed;
    NameStays(done, todo);
    FirstOnTheWay(w, done, todo[0], Kept(todo[1..]), follows);
  }

  lemma GoesOn(w: World, done: seq<Name>, todo: seq<Name>, follows: nat)
    requires Plain(done) && Named(todo) && LinkFree(w, done) && todo != [] && follows < MAX_FOLLOWS
    requires todo[0] != DOT && todo[0] != DOT_DOT && Back(todo[1..]) == 0
    requires
      var found := Lookup(w, done + [todo[0]]);
      && found.Ok? && w.kind(found.value) == Symlink && w.target(found.value).Ok?
      && Untrimmed(done + [todo[0]] + Kept(todo[1..]), |done| + 1, w.target(found.value).value)
    ensures
      var target := w.target(Lookup(w, done + [todo[0]]).value).value;
      var from, more := From(done, target), Segments(target) + todo[1..];
      && Named(done + todo) && LinkFree(w, from) && Plain(from) && Named(more) && Named(from + more)
      && (Agree(w, from, more, follows + 1) ==> Agree(w, done, todo, follows))
  {
    hide Cleaned, Resolved, Lookup, LinkFree, Back, Kept, Followed, Segments, Untrimmed;
    var name, rest := todo[0], todo[1..];
    NameStays(done, todo);
    FirstOnTheWay(w, done, name, Kept(rest), follows);
    var target := w.target(Lookup(w, done + [name]).value).value;
    FollowedOnTheWay(done, name, rest, target);
    NamedParts(Segments(target), rest);
    LinkFreePart(w, done, |From(done, target)|);
    assert done[..|done|] == done;
  }

  /** Taking dots back before following links is then the same as walking name by name. */
  lemma {:induction false} DotsFirstIsPhysical(w: World, done: seq<Name>, todo: seq<Name>, follows: nat)
    requires Plain(done) && Named(todo) && LinkFree(w, done) && follows <= MAX_FOLLOWS
    requires Lexical(w, done, todo, follows)
    ensures Named(done + todo) && Agree(w, done, todo, follows)
    decreases MAX_FOLLOWS - follows, |todo|
  {
    hide Lookup, LinkFree, Cleaned, Resolved, Untrimmed, Segments, Named, Plain, Agree, Back, Kept, From;
    PlainNamed(done);
    NamedParts(done, todo);
    if todo == [] {
      NothingLeft(w, done, follows);
    } else {
      var name, rest := todo[0], todo[1..];
      WalkParts(done, todo);
      if name == DOT {
        SkipDot(w, done, todo, follows);
        DotsFirstIsPhysical(w, done, rest, follows);
      } else if name == DOT_DOT {
        OneUp(w, done, todo, follows);
        DotsFirstIsPhysical(w, Parent(done), rest, follows);
      } else {
        var found := Lookup(w, done + [name]);
        if found.Ok? && w.kind(found.value) != Symlink {
          StepsIn(w, done, todo, follows);
          DotsFirstIsPhysical(w, done + [name], rest, follows);
        } else if found.Err? || follows == MAX_FOLLOWS || w.target(found.value).Err? {
          StopsHere(w, done, todo, follows);
        } else {
          GoesOn(w, done, todo, follows);
          var target := w.target(found.value).value;
          DotsFirstIsPhysical(w, From(done, target), Segments(target) + rest, follows + 1);
        }
      }
    }
  }

  lemma NothingLeft(w: World, done: seq<Name>, follows: nat)
    requires Plain(done) && LinkFree(w, done)
    ensures Named(done + []) && Agree(w, done, [], follows)
  {
    hide Lookup, LinkFree, Cleaned, Resolved;
    assert done + [] == done;
    CleanedPlain(done);
    LinkFreeStays(w, done, follows);
  }

  lemma StepsIn(w: World, done: seq<Name>, todo: seq<Name>, follows: nat)
    requires Plain(done) && Named(todo) && LinkFree(w, done) && todo != []
    requires todo[0] != DOT && todo[0] != DOT_DOT
    requires Lookup(w, done + [todo[0]]).Ok? && w.kind(Lookup(w, done + [todo[0]]).value) != Symlink
    ensures
      var here, rest := done + [todo[0]], todo[1..];
      && LinkFree(w, here) && Plain(here) && Named(rest) && Named(done + todo) && Named(here + rest)
      && (Agree(w, here, rest, follows) ==> Agree(w, done, todo, follows))
  {
    hide Lookup, LinkFree, Cleaned, Resolved;
    LinkFreeMore(w, done, todo[0]);
    NamedParts(done, todo);
    assert done + [todo[0]] + todo[1..] == done + todo;
  }

  // What resolving meets first, past the names that hold no link.
  lemma FirstOnTheWay(w: World, done: seq<Name>, name: Name, kept: seq<Name>, follows: nat)
    requires LinkFree(w, done) && follows <= MAX_FOLLOWS
    requires Lookup(w, done + [name]).Ok? ==> w.kind(Lookup(w, done + [name]).value) == Symlink
    ensures
      var p, found := done + [name] + kept, Lookup(w, done + [name]);
      Resolved(w, p, follows) ==
        if found.Err? then Err(found.error)
        else if follows >= MAX_FOLLOWS then Err(NotSupported)
        else
          var target := w.target(found.value);
          if target.Err? then Err(target.error)
          else
            var next := Followed(p, |done| + 1, target.value);
            if next.Err? then Err(next.error) else Resolved(w, next.value, follows + 1)
  {
    hide Lookup, LinkFree, Followed, FirstLink;
    var p := done + [name] + kept;
    assert p[..|done|] == done && p[..|done| + 1] == done + [name];
    LinkFreeSkips(w, p, |done|, 1);
    FirstLinkAt(w, p, |done| + 1);
  }

  lemma FromPlain(done: seq<Name>, target: Name)
    requires Plain(done)
    ensures Plain(From(done, target)) && Named(From(done, target)) && Named(done)
  {
  }

  // Following that link gives the path whose names the walk has before it.
  lemma FollowedOnTheWay(done: seq<Name>, name: Name, rest: seq<Name>, target: Name)
    requires Plain(done) && Plain([name]) && Named(rest) && Back(rest) == 0
    requires Untrimmed(done + [name] + Kept(rest), |done| + 1, target)
    ensures Named(From(done, target) + (Segments(target) + rest))
    ensures Followed(done + [name] + Kept(rest), |done| + 1, target)
         == Ok(Cleaned(From(done, target) + (Segments(target) + rest)))
  {
    hide Segments, Cleaned, Untrimmed, Followed, Named, Plain, Back, Kept;
    var kept, from := Kept(rest), From(done, target);
    var p := done + [name] + kept;
    assert p[..|done|] == done && p[|done| + 1..] == kept;
    JoinPlain(done, [name]);
    JoinPlain(done + [name], kept);
    FollowedNames(p, |done| + 1, target);
    FromPlain(done, target);
    NamedParts(from, Segments(target));
    CleanedJoin(from + Segments(target), rest);
    var led := Cleaned(from + Segments(target));
    assert led[..|led|] == led;
    assert from + Segments(target) + rest == from + (Segments(target) + rest);
  }

  /** The walk over two lists in a row is the walk over the second from where the first led. */
  lemma {:induction false} PhysicalJoin(w: World, done: seq<Name>, a: seq<Name>, b: seq<Name>, follows: nat)
    requires Plain(done) && Named(a) && Named(b) && follows <= MAX_FOLLOWS
    ensures Named(a + b)
    ensures
      var first := Physical(w, done, a, follows);
      Physical(w, done, a + b, follows) == if first.Err? then first else Physical(w, first.value.0, b, first.value.1)
    decreases MAX_FOLLOWS - follows, |a|
  {
    hide Lookup, Segments;
    NamedParts(a, b);
    if a == [] {
      assert a + b == b;
    } else {
      var name, rest := a[0], a[1..];
      assert (a + b)[0] == name && (a + b)[1..] == rest + b;
      if name == DOT {
        PhysicalJoin(w, done, rest, b, follows);
      } else if name == DOT_DOT {
        PhysicalJoin(w, Parent(done), rest, b, follows);
      } else {
        var found := Lookup(w, done + [name]);
        if found.Ok? && w.kind(found.value) != Symlink {
          PhysicalJoin(w, done + [name], rest, b, follows);
        } else if found.Ok? && follows < MAX_FOLLOWS && w.target(found.value).Ok? {
          var target := w.target(found.value).value;
          NamedParts(Segments(target), rest);
          assert Segments(target) + (rest + b) == (Segments(target) + rest) + b;
          PhysicalJoin(w, From(done, target), Segments(target) + rest, b, follows + 1);
        }
      }
    }
  }

  /**
   Two dots right after a name mean the same to both exactly when the directory before it is not
   reached, or the name is there and, if it is a link, leads to a place in that directory.
   */
  lemma DotsAfterName(w: World, q: seq<Name>, name: Name)
    requires Plain(q) && Plain([name]) && Lexical(w, [], q, 0)
    ensures Named(q + [name, DOT_DOT])
    ensures
      var reached := Physical(w, [], q, 0);
      (Place(Physical(w, [], q + [name, DOT_DOT], 0)) == Resolved(w, Cleaned(q + [name, DOT_DOT]), 0))
        <==> (reached.Ok? ==> LeadsBack(w, reached.value.0, name, reached.value.1))
  {
    hide Lookup, Resolved, Cleaned, Lexical;
    assert Named([DOT_DOT]) by { DotsAreNames(); }
    DotsAreLexical(q, name);
    CleanedPlain(q);
    assert q + [name, DOT_DOT] == q + ([name] + [DOT_DOT]);
    assert [] + q == q;
    DotsFirstIsPhysical(w, [], q, 0);
    assert Agree(w, [], q, 0);
    NamedParts([name], [DOT_DOT]);
    PhysicalJoin(w, [], q, [name] + [DOT_DOT], 0);
    var reached := Physical(w, [], q, 0);
    if reached.Ok? {
      StepAndBack(w, reached.value.0, name, reached.value.1);
    }
  }

  // From a directory, the name is there and is no link, or it is one that leads to a place in the directory.
  ghost predicate LeadsBack(w: World, dir: seq<Name>, name: Name, follows: nat)
    requires Plain(dir) && Plain([name])
  {
    var found, led := Lookup(w, dir + [name]), Physical(w, dir, [name], follows);
    found.Ok? && (w.kind(found.value) == Symlink ==> led.Ok? && Parent(led.value.0) == dir)
  }

  lemma StepAndBack(w: World, dir: seq<Name>, name: Name, follows: nat)
    requires Plain(dir) && Plain([name]) && follows <= MAX_FOLLOWS
    ensures Named([name] + [DOT_DOT])
    ensures Place(Physical(w, dir, [name] + [DOT_DOT], follows)) == Ok(dir) <==> LeadsBack(w, dir, name, follows)
  {
    hide Lookup;
    assert Named([DOT_DOT]) by { DotsAreNames(); }
    PhysicalJoin(w, dir, [name], [DOT_DOT], follows);
    var led := Physical(w, dir, [name], follows);
    if led.Ok? {
      assert Physical(w, Parent(led.value.0), [], led.value.1) == Ok((Parent(led.value.0), led.value.1));
    }
  }

  lemma DotsAreNames()
    ensures Named([DOT_DOT])
  {
  }

  // A root directory with a link `a` to `/x/y`, and the directories x and y.
  const A: Name := [97]
  const X: Name := [120]
  const Y: Name := [121]

  const SMALL: World := World(
    0, [],
    (ino, name) =>
      if ino == 0 && name == A then Ok(1)
      else if ino == 0 && name == X then Ok(2)
      else if ino == 2 && name == Y then Ok(3)
      else Err(NotFound),
    ino => if ino == 1 then Symlink else Directory,
    ino => if ino == 1 then Ok(Absolute([X, Y])) else Err(NotFound))

  lemma SmallLookups()
    ensures Lookup(SMALL, [A]) == Ok(1) && Lookup(SMALL, [X]) == Ok(2) && Lookup(SMALL, [X, Y]) == Ok(3)
  {
    assert A[0] != X[0];
    assert [A][1..] == [] && [X][1..] == [] && [X, Y][1..] == [Y] && [Y][1..] == [];
    assert SMALL.child(0, A) == Ok(1) && SMALL.child(0, X) == Ok(2) && SMALL.child(2, Y) == Ok(3);
    assert Walk(SMALL, 0, [A]) == Walk(SMALL, 1, []) == Ok(1);
    assert Walk(SMALL, 0, [X]) == Walk(SMALL, 2, []) == Ok(2);
    assert Walk(SMALL, 2, [Y]) == Walk(SMALL, 3, []) == Ok(3);
    assert Walk(SMALL, 0, [X, Y]) == Walk(SMALL, 2, [Y]);
  }

  /** There `a/..` is the root to `normalize_absolute_path`, and x to a walk name by name. */
  lemma DotsAfterLink()
    ensures Named([A, DOT_DOT])
    ensures Resolved(SMALL, Cleaned([A, DOT_DOT]), 0) == Ok([])
    ensures Place(Physical(SMALL, [], [A, DOT_DOT], 0)) == Ok([X])
  {
    hide Lookup, Segments, Absolute, Resolved, Cleaned;
    var w := SMALL;
    DotsAreNames();
    DotsAreLexical([], A);
    assert [] + [A, DOT_DOT] == [A, DOT_DOT];
    CleanedPlain([]);
    LinkFreeStays(w, [], 0);
    SmallLookups();
    SegmentsAbsolute([X, Y]);
    assert [A, DOT_DOT][1..] == [DOT_DOT] && [] + [A] == [A];
    var todo := [X, Y] + [DOT_DOT];
    assert todo[1..] == [Y, DOT_DOT] && [Y, DOT_DOT][1..] == [DOT_DOT] && [DOT_DOT][1..] == [];
    assert [] + [X] == [X] && [X] + [Y] == [X, Y] && Parent([X, Y]) == [X];
    assert Physical(w, [X], [], 1) == Ok(([X], 1));
    assert Physical(w, [X, Y], [DOT_DOT], 1) == Ok(([X], 1));
    assert Physical(w, [X], [Y, DOT_DOT], 1) == Ok(([X], 1));
    assert Physical(w, [], todo, 1) == Ok(([X], 1));
    assert From([], Absolute([X, Y])) == [];
  }

  // ---------------------------------------------------------------- how many links are followed

  // The names a, aa, aaa and so on.
  function Letters(i: nat): (r: Name)
    ensures |r| == i + 1 && forall k :: 0 <= k <= i ==> r[k] == 97
  {
    seq(i + 1, _ => 97)
  }

  // A root directory in which each of these names up to the n-th is a link to the next, and the n-th is a file.
  function LinksInARow(n: nat): World {
    World(
      0, [],
      (ino, name) =>
        if ino == 0 && 1 <= |name| <= n + 1 && name == Letters(|name| - 1) then Ok(|name|) else Err(NotFound),
      ino => if 1 <= ino <= n then Symlink else Regular,
      ino => if 1 <= ino <= n then Ok(Letters(ino)) else Err(NotFound))
  }

  lemma LettersArePlain(i: nat)
    ensures Plain([Letters(i)]) && Segments(Letters(i)) == [Letters(i)] && Untrimmed([Letters(i)], 1, Letters(i + 1))
  {
    hide Segments, SpaceEnd, Untrimmed;
    var s, t := Letters(i), Letters(i + 1);
    assert s[0] != SLASH && s[0] != DOT[0];
    OneSegment(s);
    LettersEnd(t, i);
  }

  lemma LettersEnd(t: Name, i: nat)
    requires t == Letters(i + 1)
    ensures Untrimmed([Letters(i)], 1, t)
  {
    hide IsSpace, SpaceEnd;
    assert Join([]) == [];
    assert [Letters(i)][..0] == [] && [Letters(i)][1..] == [];
    assert Spelled([Letters(i)], 1, t) == [] + [SLASH] + t;
    EndsAlike([], t);
    NoSpaceAtEnd(t);
  }

  lemma NoSpaceAtEnd(t: Name)
    requires t != [] && t[|t| - 1] == 97
    ensures SpaceEnd(t) == 0
  {
    hide IsSpace;
    NoLetterIsSpace(t, 1);
    NoLetterIsSpace(t, 2);
    NoLetterIsSpace(t, 3);
  }

  lemma NoLetterIsSpace(t: Name, k: nat)
    requires t != [] && t[|t| - 1] == 97 && k > 0
    ensures !EndsIn(t, k)
  {
    if k <= |t| {
      var c := t[|t| - k..];
      assert c[|c| - 1] == 97;
    }
  }

  lemma LinkLookup(n: nat, i: nat)
    requires i <= n
    ensures Lookup(LinksInARow(n), [Letters(i)]) == Ok(i + 1)
  {
    var w := LinksInARow(n);
    assert [Letters(i)][1..] == [] && [Letters(i)][0] == Letters(i);
    assert w.child(0, Letters(i)) == Ok(i + 1);
    assert Walk(w, 0, [Letters(i)]) == Walk(w, i + 1, []);
  }

  /** Ten links in a row are followed, and no more. */
  lemma {:induction false} TenLinks(n: nat, i: nat, follows: nat)
    requires i <= n && follows <= 10
    ensures Resolved(LinksInARow(n), [Letters(i)], follows)
         == if n - i <= 10 - follows then Ok([Letters(n)]) else Err(NotSupported)
    decreases n - i
  {
    hide Lookup, Followed, Segments, Untrimmed, Letters;
    var w, p := LinksInARow(n), [Letters(i)];
    LinkLookup(n, i);
    assert p[..1] == p;
    assert w.kind(i + 1) == if i < n then Symlink else Regular;
    FirstLinkAt(w, p, 1);
    FirstLinkAt(w, p, 2);
    if i < n {
      LettersArePlain(i);
      LettersArePlain(i + 1);
      FollowedNames(p, 1, Letters(i + 1));
      assert p[..0] == [] && p[1..] == [];
      CleanedPlain([Letters(i + 1)]);
      assert [] + [Letters(i + 1)] == [Letters(i + 1)] && [Letters(i + 1)] + [] == [Letters(i + 1)];
      if follows < 10 {
        TenLinks(n, i + 1, follows + 1);
      }
    }
  }

  /** So a path through n links in a row resolves to where the last one leads exactly when n is at most ten. */
  lemma TenLinksFromTheFirst(n: nat)
    ensures Resolved(LinksInARow(n), [Letters(0)], 0) == if n <= 10 then Ok([Letters(n)]) else Err(NotSupported)
  {
    TenLinks(n, 0, 0);
  }
}
