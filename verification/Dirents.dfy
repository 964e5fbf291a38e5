/**
 Listing a directory through `getdents64` (kernel/src/syscall/impls.rs) on a memory filesystem's
 directory (kernel/src/fs/memfs.rs), and the shell's reader of its records
 (kernel/src/shell/commands.rs). The directory does not change while it is listed.
 */
module Dirents {
  import opened Base
  import opened Bytes
  import MemfsTree
  import Memfs

  datatype DirEntry = DirEntry(name: Name, kind: FileType, ino: nat)

  const NAME_OFFSET: nat := 19

  // `DT_REG` and its like.
  function TypeCode(kind: FileType): (code: byte)
    ensures kind.Regular? <==> code == 8
    ensures kind.Directory? <==> code == 4
    ensures kind.CharDevice? <==> code == 2
    ensures kind.BlockDevice? <==> code == 6
    ensures kind.Symlink? <==> code == 10
  {
    match kind
    case Regular => 8
    case Directory => 4
    case CharDevice => 2
    case BlockDevice => 6
    case Symlink => 10
  }

  // `align_up_8` of the record without padding.
  function RecordLength(e: DirEntry): (n: nat)
    ensures n % 8 == 0 && 19 + |e.name| + 1 <= n < 19 + |e.name| + 9
  {
    (NAME_OFFSET + |e.name| + 1 + 7) / 8 * 8
  }

  // A name that memfs lets into a directory.
  predicate ValidEntry(e: DirEntry) {
    Memfs.NameRefusal(e.name).None?
  }

  predicate ValidEntries(entries: seq<DirEntry>) {
    forall i :: 0 <= i < |entries| ==> ValidEntry(entries[i])
  }

  // ---------------------------------------------------------------- records

  // The n low bytes of v, lowest first.
  function LeBytes(v: nat, n: nat): (s: seq<byte>)
    ensures |s| == n
  {
    if n == 0 then [] else [v % 256] + LeBytes(v / 256, n - 1)
  }

  function Power256(n: nat): (p: nat)
    ensures p > 0
  {
    if n == 0 then 1 else 256 * Power256(n - 1)
  }

  lemma {:induction false} LeBytesValue(v: nat, n: nat)
    ensures LeValue(LeBytes(v, n)) == v % Power256(n)
  {
    if n > 0 {
      LeBytesValue(v / 256, n - 1);
      assert LeBytes(v, n)[1..] == LeBytes(v / 256, n - 1);
      LowByte(v, Power256(n - 1));
    }
  }

  lemma LowByte(v: nat, p: nat)
    requires p > 0
    ensures v % 256 + 256 * (v / 256 % p) == v % (256 * p)
  {
    var q, r := v / 256 / p, v % 256 + 256 * (v / 256 % p);
    assert v == v / 256 * 256 + v % 256;
    assert v / 256 == q * p + v / 256 % p;
    assert v == q * (256 * p) + r by {
      assert q * p * 256 == q * (256 * p);
    }
    assert 0 <= r < 256 * p;
    Remainder(v, 256 * p, q);
  }

  lemma EightBytes()
    ensures Power256(8) == 0x1_0000_0000_0000_0000
  {
    assert Power256(2) == 0x1_0000;
    assert Power256(4) == 0x1_0000_0000;
    assert Power256(6) == 0x1_0000_0000_0000;
  }

  function Record(e: DirEntry, offset: nat): (s: seq<byte>)
    requires ValidEntry(e)
    ensures |s| == RecordLength(e)
  {
    LeBytes(e.ino, 8) + LeBytes(offset, 8) + ToLe16(RecordLength(e)) + [TypeCode(e.kind)] + e.name
      + Zeros(RecordLength(e) - NAME_OFFSET - |e.name|)
  }

  // The records of entries from..to, each with the cursor that follows it.
  function Records(entries: seq<DirEntry>, from: nat, to: nat): seq<byte>
    requires ValidEntries(entries) && from <= to <= |entries|
    decreases |entries| - from
  {
    if from == to then [] else Record(entries[from], from + 1) + Records(entries, from + 1, to)
  }

  lemma {:induction false} RecordsMore(entries: seq<DirEntry>, from: nat, to: nat)
    requires ValidEntries(entries) && from <= to < |entries|
    ensures Records(entries, from, to + 1) == Records(entries, from, to) + Record(entries[to], to + 1)
    decreases |entries| - from
  {
    hide Record;
    if from < to {
      RecordsMore(entries, from + 1, to);
    }
  }

  // ---------------------------------------------------------------- the reader of records

  function UntilNul(s: seq<byte>): (r: Name)
    ensures |r| <= |s| && r == s[..|r|]
  {
    if s == [] || s[0] == 0 then [] else [s[0]] + UntilNul(s[1..])
  }

  // The inner loop of `read_dirents`: names and types, or an error for records that do not fit.
  function Decode(s: seq<byte>): Result<seq<(Name, byte)>, int>
    decreases |s|
  {
    if |s| < NAME_OFFSET then Ok([])
    else
      var length := Le16(s[16], s[17]);
      if length < NAME_OFFSET || length > |s| then Err(-5)
      else
        var rest := Decode(s[length..]);
        if rest.Err? then rest else Ok([(UntilNul(s[NAME_OFFSET..length]), s[18])] + rest.value)
  }

  // What a reader should see.
  function Listing(entries: seq<DirEntry>, from: nat, to: nat): (l: seq<(Name, byte)>)
    requires from <= to <= |entries|
    ensures |l| == to - from
    ensures forall i :: 0 <= i < |l| ==>
      l[i] == (entries[from + i].name, TypeCode(entries[from + i].kind))
  {
    seq(to - from, i requires 0 <= i < to - from => (entries[from + i].name, TypeCode(entries[from + i].kind)))
  }

  lemma {:induction false} NameEnds(name: Name, rest: seq<byte>)
    requires 0 !in name && rest != [] && rest[0] == 0
    ensures UntilNul(name + rest) == name
  {
    if name != [] {
      assert (name + rest)[1..] == name[1..] + rest;
      NameEnds(name[1..], rest);
    }
  }

  /** The fields of a record read back; inode number and offset are 64 bits wide. */
  lemma RecordFields(e: DirEntry, offset: nat)
    requires ValidEntry(e)
    ensures
      var s := Record(e, offset);
      && LeValue(s[..8]) == e.ino % 0x1_0000_0000_0000_0000
      && LeValue(s[8..16]) == offset % 0x1_0000_0000_0000_0000
      && LeValue(s[16..18]) == |s| == Le16(s[16], s[17])
      && s[18] == TypeCode(e.kind) && UntilNul(s[19..]) == e.name
  {
    hide UntilNul, LeBytes, LeValue, ToLe16, Le16, RecordLength, Power256;
    var s := Record(e, offset);
    EightBytes();
    LeBytesValue(e.ino, 8);
    LeBytesValue(offset, 8);
    assert s[..8] == LeBytes(e.ino, 8) && s[8..16] == LeBytes(offset, 8);
    var length := ToLe16(RecordLength(e));
    assert s[16..18] == length && s[16] == length[0] && s[17] == length[1];
    TwoBytes(RecordLength(e));
    var rest := Zeros(RecordLength(e) - NAME_OFFSET - |e.name|);
    assert s[NAME_OFFSET..] == e.name + rest;
    NameEnds(e.name, rest);
  }

  lemma {:induction false} RecordsJoin(entries: seq<DirEntry>, from: nat, mid: nat, to: nat)
    requires ValidEntries(entries) && from <= mid <= to <= |entries|
    ensures Records(entries, from, to) == Records(entries, from, mid) + Records(entries, mid, to)
    decreases |entries| - from
  {
    hide Record;
    if from < mid {
      RecordsJoin(entries, from + 1, mid, to);
    }
  }

  /**
   In a page of records, the record of each entry is where those before it end, and its second
   number is the cursor of the entry after it.
   */
  lemma PageFields(entries: seq<DirEntry>, from: nat, to: nat, i: nat)
    requires ValidEntries(entries) && from <= i < to <= |entries| <= 0x1_0000_0000_0000_0000 - 1
    ensures
      var page, at := Records(entries, from, to), |Records(entries, from, i)|;
      && at + 19 < |page|
      && LeValue(page[at..at + 8]) == entries[i].ino % 0x1_0000_0000_0000_0000
      && LeValue(page[at + 8..at + 16]) == i + 1
  {
    hide Record, LeValue, RecordLength;
    var before, rest := Records(entries, from, i), Records(entries, i + 1, to);
    var r := Record(entries[i], i + 1);
    RecordsJoin(entries, from, i, to);
    RecordFields(entries[i], i + 1);
    FieldOf(before, r, rest, 0, 8);
    FieldOf(before, r, rest, 8, 16);
  }

  lemma FieldOf(before: seq<byte>, r: seq<byte>, rest: seq<byte>, lo: nat, hi: nat)
    requires lo <= hi <= |r|
    ensures (before + (r + rest))[|before| + lo..|before| + hi] == r[lo..hi]
  {
    var a, b := (before + (r + rest))[|before| + lo..|before| + hi], r[lo..hi];
    assert forall k :: 0 <= k < |a| ==> a[k] == b[k];
  }

  lemma DecodeOne(e: DirEntry, offset: nat, rest: seq<byte>)
    requires ValidEntry(e)
    ensures Decode(Record(e, offset) + rest)
         == if Decode(rest).Err? then Decode(rest) else Ok([(e.name, TypeCode(e.kind))] + Decode(rest).value)
  {
    hide Record, UntilNul, Le16, RecordLength;
    var s := Record(e, offset);
    RecordFields(e, offset);
    var all := s + rest;
    assert all[|s|..] == rest && all[NAME_OFFSET..|s|] == s[NAME_OFFSET..];
    assert all[16] == s[16] && all[17] == s[17] && all[18] == s[18];
  }

  /** Decoding written records gives back each entry's name and type, in order. */
  lemma {:induction false} DecodeRecords(entries: seq<DirEntry>, from: nat, to: nat)
    requires ValidEntries(entries) && from <= to <= |entries|
    ensures Decode(Records(entries, from, to)) == Ok(Listing(entries, from, to))
    decreases |entries| - from
  {
    hide Record, TypeCode;
    if from < to {
      DecodeRecords(entries, from + 1, to);
      DecodeOne(entries[from], from + 1, Records(entries, from + 1, to));
      ListingStep(entries, from, to);
    }
  }

  lemma ListingStep(entries: seq<DirEntry>, from: nat, to: nat)
    requires from < to <= |entries|
    ensures Listing(entries, from, to)
         == [(entries[from].name, TypeCode(entries[from].kind))] + Listing(entries, from + 1, to)
  {
    hide TypeCode;
  }

  // ---------------------------------------------------------------- pages

  // How far one call gets with `room` bytes left.
  function Fill(entries: seq<DirEntry>, from: nat, room: nat): (to: nat)
    ensures from <= to && (from <= |entries| ==> to <= |entries|) && (from > |entries| ==> to == from)
    decreases |entries| - from
  {
    if from < |entries| && RecordLength(entries[from]) <= room
    then Fill(entries, from + 1, room - RecordLength(entries[from]))
    else from
  }

  // The first entry from `from` on whose record alone is larger than the buffer.
  function Stop(entries: seq<DirEntry>, from: nat, size: nat): (to: nat)
    requires from <= |entries|
    ensures from <= to <= |entries|
    ensures forall i :: from <= i < to ==> RecordLength(entries[i]) <= size
    ensures to < |entries| ==> RecordLength(entries[to]) > size
    decreases |entries| - from
  {
    if from < |entries| && RecordLength(entries[from]) <= size then Stop(entries, from + 1, size) else from
  }

  // A page break does not move the end of the listing.
  lemma {:induction false} StopAfterPage(entries: seq<DirEntry>, from: nat, room: nat, size: nat)
    requires from <= |entries| && room <= size
    ensures Stop(entries, Fill(entries, from, room), size) == Stop(entries, from, size)
    ensures room == size && Fill(entries, from, room) == from ==> Stop(entries, from, size) == from
    decreases |entries| - from
  {
    hide RecordLength;
    if from < |entries| && RecordLength(entries[from]) <= room {
      StopAfterPage(entries, from + 1, room - RecordLength(entries[from]), size);
    }
  }

  /** A buffer of 280 bytes is large enough for every entry. */
  lemma NothingTooLarge(entries: seq<DirEntry>, from: nat, size: nat)
    requires ValidEntries(entries) && from <= |entries| && size >= 280
    ensures Stop(entries, from, size) == |entries|
  {
    forall i | 0 <= i < |entries| ensures RecordLength(entries[i]) <= 280 {
      assert ValidEntry(entries[i]);
    }
  }

  // ---------------------------------------------------------------- filling the buffer

  // Copies bytes into a buffer.
  method Put(out: array<byte>, at: nat, b: seq<byte>)
    requires at + |b| <= out.Length
    modifies out
    ensures out[..] == Splice(old(out[..]), at, b)
  {
    for i := 0 to |b|
      invariant forall k :: 0 <= k < out.Length ==> out[k] == if at <= k < at + i then b[k - at] else old(out[k])
    {
      out[at + i] := b[i];
    }
  }

  // A splice inside what was spliced in.
  lemma SpliceNested(s: seq<byte>, at: nat, r: seq<byte>, k: nat, b: seq<byte>)
    requires at + |r| <= |s| && k + |b| <= |r|
    ensures Splice(Splice(s, at, r), at + k, b) == Splice(s, at, Splice(r, k, b))
  {
    var x, y := Splice(Splice(s, at, r), at + k, b), Splice(s, at, Splice(r, k, b));
    assert |x| == |y|;
    assert forall i :: 0 <= i < |x| ==> x[i] == y[i];
  }

  // Fields put one after the other into a cleared record.
  lemma FieldPut(done: seq<byte>, n: nat, b: seq<byte>)
    requires |b| <= n
    ensures Splice(done + Zeros(n), |done|, b) == done + b + Zeros(n - |b|)
  {
    var x, y := Splice(done + Zeros(n), |done|, b), done + b + Zeros(n - |b|);
    assert forall i :: 0 <= i < |x| ==> x[i] == y[i];
  }

  // One more field of the record at `written`, at offset k.
  method PutField(out: array<byte>, written: nat, k: nat, b: seq<byte>, ghost start: seq<byte>, ghost done: seq<byte>,
                  ghost left: nat)
    requires |done| == k && |start| == out.Length && written + |done| + left <= out.Length && |b| <= left
    requires out[..] == Splice(start, written, done + Zeros(left))
    modifies out
    ensures out[..] == Splice(start, written, done + b + Zeros(left - |b|))
  {
    Put(out, written + k, b);
    SpliceNested(start, written, done + Zeros(left), |done|, b);
    FieldPut(done, left, b);
  }

  /** The record of an entry, written into the buffer; the rest of the buffer stays. */
  method WriteRecord(out: array<byte>, written: nat, e: DirEntry, offset: nat)
    requires ValidEntry(e) && written + RecordLength(e) <= out.Length
    modifies out
    ensures out[..] == Splice(old(out[..]), written, Record(e, offset))
  {
    hide RecordLength, LeBytes, ToLe16, Splice;
    ghost var start := out[..];
    var reclen := RecordLength(e);
    Put(out, written, Zeros(reclen));
    ghost var done: seq<byte> := [];
    assert done + Zeros(reclen) == Zeros(reclen);
    PutField(out, written, 0, LeBytes(e.ino, 8), start, done, reclen);
    done := done + LeBytes(e.ino, 8);
    PutField(out, written, 8, LeBytes(offset, 8), start, done, reclen - 8);
    done := done + LeBytes(offset, 8);
    PutField(out, written, 16, ToLe16(reclen), start, done, reclen - 16);
    done := done + ToLe16(reclen);
    PutField(out, written, 18, [TypeCode(e.kind)], start, done, reclen - 18);
    done := done + [TypeCode(e.kind)];
    PutField(out, written, NAME_OFFSET, e.name, start, done, reclen - 19);
    assert done + e.name + Zeros(reclen - 19 - |e.name|) == Record(e, offset);
  }

  // An open file; a directory's entries are those of the memfs inode.
  class Handle {
    const entries: seq<DirEntry>
    const isDirectory: bool
    var position: nat

    constructor Open(entries: seq<DirEntry>, isDirectory: bool)
      requires ValidEntries(entries)
      ensures this.entries == entries && this.isDirectory == isDirectory && position == 0
    {
      this.entries := entries;
      this.isDirectory := isDirectory;
      position := 0;
    }

    /**
     `readdir` of a memfs directory: the visitor gets the entries from the cursor on, in order, until
     it wants no more, and the cursor moves past them. `more` is what the visitor answers once it
     has seen some entries.
     */
    method ReadDir(cursor: nat, more: seq<DirEntry> -> bool) returns (next: nat, visited: seq<DirEntry>)
      ensures cursor >= |entries| ==> next == cursor && visited == []
      ensures cursor < |entries| ==> cursor < next <= |entries| && visited == entries[cursor..next]
      ensures forall k :: cursor < k < next ==> more(entries[cursor..k])
      ensures cursor < next < |entries| ==> !more(entries[cursor..next])
    {
      next := cursor;
      visited := [];
      var going := true;
      while going && next < |entries|
        invariant cursor <= next && (next > cursor ==> next <= |entries|) && (!going ==> next > cursor)
        invariant cursor < |entries| ==> visited == entries[cursor..next]
        invariant cursor >= |entries| ==> visited == []
        invariant forall k :: cursor < k < next ==> more(entries[cursor..k])
        invariant cursor < next ==> going == more(entries[cursor..next])
        decreases |entries| - next, going
      {
        visited := visited + [entries[next]];
        next := next + 1;
        going := more(visited);
      }
    }

    /**
     `getdents64`: whole records, as many as fit, from the position on, which moves past them; the
     rest of the buffer stays.
     */
    method GetDents64(out: array<byte>) returns (r: Result<nat, int>)
      requires ValidEntries(entries)
      modifies this`position, out
      ensures out.Length == 0 ==> r == Err(-22)
      ensures out.Length > 0 && !isDirectory ==> r == Err(-20)
      ensures r.Err? ==> position == old(position) && out[..] == old(out[..])
      ensures out.Length > 0 && isDirectory ==>
        && r.Ok? && position == Fill(entries, old(position), out.Length)
      ensures r.Ok? ==> r.value <= out.Length && out[r.value..] == old(out[..])[r.value..]
      ensures r.Ok? && old(position) <= |entries| ==>
        out[..r.value] == Records(entries, old(position), position)
    {
      hide RecordLength, Record, ValidEntries;
      if out.Length == 0 {
        return Err(-22);
      }
      if !isDirectory {
        return Err(-20);
      }
      var cursor := position;
      var written: nat := 0;
      var full := false;
      while !full
        invariant old(position) <= cursor && written <= out.Length
        invariant cursor > |entries| ==> cursor == old(position) && written == 0
        invariant out[written..] == old(out[..])[written..]
        invariant old(position) <= |entries| ==>
          cursor <= |entries| && out[..written] == Records(entries, old(position), cursor)
        invariant full ==> Fill(entries, old(position), out.Length) == cursor
        invariant !full ==> Fill(entries, old(position), out.Length) == Fill(entries, cursor, out.Length - written)
        decreases !full, |entries| - cursor
      {
        var stop := (_: seq<DirEntry>) => false;
        var next, visited := ReadDir(cursor, stop);
        if visited == [] {
          full := true;
        } else {
          assert !stop(entries[cursor..cursor + 1]);
          var reclen := RecordLength(visited[0]);
          if reclen > out.Length - written {
            full := true;
          } else {
            RecordsMore(entries, old(position), cursor);
            WriteNext(out, written, cursor);
            written := written + reclen;
            cursor := next;
          }
        }
      }
      position := cursor;
      return Ok(written);
    }

    // A record behind those already in the buffer.
    method WriteNext(out: array<byte>, written: nat, cursor: nat)
      requires ValidEntries(entries) && cursor < |entries| && written + RecordLength(entries[cursor]) <= out.Length
      modifies out
      ensures out[..written + RecordLength(entries[cursor])]
           == old(out[..written]) + Record(entries[cursor], cursor + 1)
      ensures out[written + RecordLength(entries[cursor])..] == old(out[written + RecordLength(entries[cursor])..])
    {
      hide RecordLength, Record;
      ghost var start := out[..];
      WriteRecord(out, written, entries[cursor], cursor + 1);
      assert out[..written + RecordLength(entries[cursor])] == start[..written] + Record(entries[cursor], cursor + 1);
    }
  }

  // ---------------------------------------------------------------- `read_dirents`

  function Shown(l: seq<(Name, byte)>, showAll: bool): seq<(Name, byte)> {
    if l == [] then []
    else
      var rest := Shown(l[..|l| - 1], showAll);
      var last := l[|l| - 1];
      if showAll || (last.0 != DOT && last.0 != DOT_DOT) then rest + [last] else rest
  }

  lemma {:induction false} ShownJoins(a: seq<(Name, byte)>, b: seq<(Name, byte)>, showAll: bool)
    ensures Shown(a + b, showAll) == Shown(a, showAll) + Shown(b, showAll)
    decreases |b|
  {
    if b == [] {
      assert a + b == a;
    } else {
      var k := |b| - 1;
      assert (a + b)[..|a + b| - 1] == a + b[..k];
      ShownJoins(a, b[..k], showAll);
    }
  }

  lemma {:induction false} ShownAll(l: seq<(Name, byte)>, showAll: bool)
    requires showAll || forall i :: 0 <= i < |l| ==> l[i].0 != DOT && l[i].0 != DOT_DOT
    ensures Shown(l, showAll) == l
  {
    if l != [] {
      ShownAll(l[..|l| - 1], showAll);
    }
  }

  // The inner loop: decodes the first n bytes of the buffer, whatever they are.
  method DecodePage(buf: array<byte>, n: nat, showAll: bool) returns (r: Result<(nat, seq<(Name, byte)>), int>)
    requires n <= buf.Length
    ensures
      var d := Decode(buf[..n]);
      r == if d.Err? then Err(d.error) else Ok((|d.value|, Shown(d.value, showAll)))
  {
    hide Decode, UntilNul, Shown, Le16, DecodedTo;
    var s := buf[..n];
    ghost var l: seq<(Name, byte)> := [];
    var pos, seen: nat := 0, 0;
    var out := [];
    DecodeStart(s, showAll);
    while pos + NAME_OFFSET <= n
      invariant pos <= n && seen == |l| && out == Shown(l, showAll) && DecodedTo(s, pos, l)
    {
      var reclen := Le16(s[pos + 16], s[pos + 17]);
      if reclen < NAME_OFFSET || pos + reclen > n {
        DecodeFails(s, pos, l);
        return Err(-5);
      }
      var kind := s[pos + 18];
      var name := UntilNul(s[pos + NAME_OFFSET..pos + reclen]);
      DecodeStep(s, pos, reclen, l);
      ShownMore(l, (name, kind), showAll);
      seen := seen + 1;
      if showAll || (name != DOT && name != DOT_DOT) {
        out := out + [(name, kind)];
      }
      l := l + [(name, kind)];
      pos := pos + reclen;
    }
    DecodeEnds(s, pos, l);
    return Ok((seen, out));
  }

  // Up to a position, the records decode to l.
  ghost predicate DecodedTo(s: seq<byte>, pos: nat, l: seq<(Name, byte)>)
    requires pos <= |s|
  {
    var rest := Decode(s[pos..]);
    Decode(s) == if rest.Err? then rest else Ok(l + rest.value)
  }

  lemma DecodeStart(s: seq<byte>, showAll: bool)
    ensures DecodedTo(s, 0, []) && Shown([], showAll) == []
  {
    assert s[0..] == s;
    assert Decode(s).Ok? ==> [] + Decode(s).value == Decode(s).value;
  }

  lemma DecodeFails(s: seq<byte>, pos: nat, l: seq<(Name, byte)>)
    requires pos + NAME_OFFSET <= |s| && DecodedTo(s, pos, l)
    requires Le16(s[pos + 16], s[pos + 17]) < NAME_OFFSET || pos + Le16(s[pos + 16], s[pos + 17]) > |s|
    ensures Decode(s) == Err(-5)
  {
    var t := s[pos..];
    assert t[16] == s[pos + 16] && t[17] == s[pos + 17];
  }

  lemma DecodeStep(s: seq<byte>, pos: nat, reclen: nat, l: seq<(Name, byte)>)
    requires pos + NAME_OFFSET <= |s| && NAME_OFFSET <= reclen && pos + reclen <= |s| && DecodedTo(s, pos, l)
    requires reclen == Le16(s[pos + 16], s[pos + 17])
    ensures DecodedTo(s, pos + reclen, l + [(UntilNul(s[pos + NAME_OFFSET..pos + reclen]), s[pos + 18])])
  {
    hide UntilNul, Le16;
    var t := s[pos..];
    assert t[16] == s[pos + 16] && t[17] == s[pos + 17] && t[18] == s[pos + 18];
    assert t[reclen..] == s[pos + reclen..];
    SliceOfSlice(s, pos, |s|, NAME_OFFSET, reclen);
    assert s[pos..|s|] == t;
    var one := (UntilNul(s[pos + NAME_OFFSET..pos + reclen]), s[pos + 18]);
    var rest := Decode(s[pos + reclen..]);
    assert rest.Ok? ==> l + ([one] + rest.value) == l + [one] + rest.value;
  }

  lemma DecodeEnds(s: seq<byte>, pos: nat, l: seq<(Name, byte)>)
    requires pos <= |s| < pos + NAME_OFFSET && DecodedTo(s, pos, l)
    ensures Decode(s) == Ok(l)
  {
    assert l + [] == l;
  }

  lemma ShownMore(l: seq<(Name, byte)>, one: (Name, byte), showAll: bool)
    ensures Shown(l + [one], showAll)
         == if showAll || (one.0 != DOT && one.0 != DOT_DOT) then Shown(l, showAll) + [one] else Shown(l, showAll)
  {
    assert (l + [one])[..|l|] == l;
  }

  /**
   `read_dirents`, with a buffer of any size: it lists each entry once, in order, with its name and
   type, up to the first whose record alone is larger than the buffer; with 280 bytes, all of them.
   */
  method ReadDirents(file: Handle, size: nat, showAll: bool) returns (r: Result<(nat, seq<(Name, byte)>), int>)
    requires ValidEntries(file.entries) && file.position <= |file.entries|
    modifies file
    ensures size == 0 ==> r == Err(-22)
    ensures size > 0 && !file.isDirectory ==> r == Err(-20)
    ensures size > 0 && file.isDirectory ==>
      var stop := Stop(file.entries, old(file.position), size);
      && file.position == stop
      && r == Ok((stop - old(file.position), Shown(Listing(file.entries, old(file.position), stop), showAll)))
    ensures size >= 280 && file.isDirectory ==>
      r == Ok((|file.entries| - old(file.position), Listing(file.entries, old(file.position), |file.entries|)))
  {
    hide Records, RecordLength, Decode, Fill, Stop, Shown;
    ghost var entries, from := file.entries, file.position;
    if size >= 280 {
      NothingTooLarge(entries, from, size);
      ShownAll(Listing(entries, from, |entries|), showAll);
    }
    var seen: nat := 0;
    var out := [];
    var buf := new byte[size](_ => 0);
    var done := false;
    ShownNothing(entries, from, showAll);
    while !done
      invariant from <= file.position <= |entries|
      invariant file.position > from || done ==> size > 0 && file.isDirectory
      invariant seen == file.position - from && out == Shown(Listing(entries, from, file.position), showAll)
      invariant Stop(entries, file.position, size) == Stop(entries, from, size)
      invariant done ==> Stop(entries, file.position, size) == file.position
      decreases !done, |entries| - file.position
    {
      ghost var at := file.position;
      var page := ReadPage(file, buf, showAll);
      if page.Err? {
        return Err(page.error);
      }
      if page.value.None? {
        done := true;
      } else {
        seen := seen + page.value.value.0;
        out := out + page.value.value.1;
        ShownJoins(Listing(entries, from, at), Listing(entries, at, file.position), showAll);
        assert Listing(entries, from, file.position)
            == Listing(entries, from, at) + Listing(entries, at, file.position);
      }
    }
    return Ok((seen, out));
  }

  lemma ShownNothing(entries: seq<DirEntry>, from: nat, showAll: bool)
    requires from <= |entries|
    ensures Shown(Listing(entries, from, from), showAll) == []
  {
  }

  // One round of the outer loop: a call and its records; None when the call gives none.
  method ReadPage(file: Handle, buf: array<byte>, showAll: bool)
    returns (r: Result<Option<(nat, seq<(Name, byte)>)>, int>)
    requires ValidEntries(file.entries) && file.position <= |file.entries|
    modifies file, buf
    ensures buf.Length == 0 ==> r == Err(-22)
    ensures buf.Length > 0 && !file.isDirectory ==> r == Err(-20)
    ensures buf.Length > 0 && file.isDirectory ==>
      && r.Ok? && old(file.position) <= file.position <= |file.entries|
      && Stop(file.entries, file.position, buf.Length) == Stop(file.entries, old(file.position), buf.Length)
      && (r.value.None? ==> file.position == old(file.position) == Stop(file.entries, file.position, buf.Length))
      && (r.value.Some? ==>
            && old(file.position) < file.position && r.value.value.0 == file.position - old(file.position)
            && r.value.value.1 == Shown(Listing(file.entries, old(file.position), file.position), showAll))
  {
    hide Records, RecordLength, Decode, Fill, Stop, Shown;
    ghost var entries, at := file.entries, file.position;
    var n := file.GetDents64(buf);
    if n.Err? {
      return Err(n.error);
    }
    StopAfterPage(entries, at, buf.Length, buf.Length);
    DecodeRecords(entries, at, file.position);
    PageEmpty(entries, at, file.position);
    if n.value == 0 {
      return Ok(None);
    }
    var page := DecodePage(buf, n.value, showAll);
    if page.Err? {
      assert false;
    }
    return Ok(Some(page.value));
  }

  lemma PageEmpty(entries: seq<DirEntry>, from: nat, to: nat)
    requires ValidEntries(entries) && from <= to <= |entries|
    ensures |Records(entries, from, to)| == 0 <==> from == to
  {
    if from < to {
      assert |Records(entries, from, to)| == |Record(entries[from], from + 1)| + |Records(entries, from + 1, to)|;
    }
  }

  // ---------------------------------------------------------------- directories of a memory filesystem

  ghost predicate Listable(t: MemfsTree.Table, n: MemfsTree.Ino) {
    forall i :: 0 <= i < |MemfsTree.List(t, n)| ==> MemfsTree.List(t, n)[i].1 in t && MemfsTree.List(t, n)[i].1 > 0
  }

  // What `readdir` of a memfs directory hands out: its entries in order, each with its inode's type and number.
  function EntriesOf(t: MemfsTree.Table, n: MemfsTree.Ino): (r: seq<DirEntry>)
    requires Listable(t, n)
    ensures |r| == |MemfsTree.List(t, n)|
    ensures forall i :: 0 <= i < |r| ==>
      var (name, c) := MemfsTree.List(t, n)[i];
      r[i] == DirEntry(name, t[c].fileType, c)
  {
    var es := MemfsTree.List(t, n);
    seq(|es|, i requires 0 <= i < |es| => DirEntry(es[i].0, t[es[i].1].fileType, es[i].1))
  }

  /** Every directory of a valid memory filesystem can be listed. */
  lemma DirectoriesAreListable(fs: Memfs.MemoryFs, n: MemfsTree.Ino)
    requires fs.Valid()
    ensures Listable(fs.inodes, n) && ValidEntries(EntriesOf(fs.inodes, n))
  {
    hide Memfs.NameRefusal, Memfs.Counted, Memfs.Live;
    var t, es := fs.inodes, MemfsTree.List(fs.inodes, n);
    Memfs.FilesNames(t, fs.limits.Some?);
    assert Memfs.NamesOk(MemfsTree.List(t, n));
    forall i | 0 <= i < |es| ensures es[i].1 in t && es[i].1 > 0 {
      assert MemfsTree.IsChildOf(t, fs.root, n, MemfsTree.List(t, n)[i].1);
    }
  }

  /**
   Listing a directory of a memory filesystem through `getdents64`: with 280 bytes or more, the
   reader gets the name and type of each child once, in order.
   */
  method ListDirectory(fs: Memfs.MemoryFs, n: MemfsTree.Ino, size: nat, showAll: bool)
    returns (r: Result<(nat, seq<(Name, byte)>), int>)
    requires fs.Valid() && n in fs.inodes
    ensures size == 0 ==> r == Err(-22)
    ensures size > 0 && !MemfsTree.IsDir(fs.inodes, n) ==> r == Err(-20)
    ensures size >= 280 && MemfsTree.IsDir(fs.inodes, n) ==>
      && r.Ok? && r.value.0 == |r.value.1| == |MemfsTree.List(fs.inodes, n)|
      && forall i :: 0 <= i < |r.value.1| ==>
           var (name, c) := MemfsTree.List(fs.inodes, n)[i];
           c in fs.inodes && r.value.1[i] == (name, TypeCode(fs.inodes[c].fileType))
  {
    DirectoriesAreListable(fs, n);
    var file := new Handle.Open(EntriesOf(fs.inodes, n), fs.inodes[n].storage.Dir?);
    r := ReadDirents(file, size, showAll);
  }

  /** With a smaller buffer the listing ends early exactly when some record is larger than the buffer. */
  lemma ListsAllIff(entries: seq<DirEntry>, size: nat)
    ensures Stop(entries, 0, size) == |entries| <==> forall i :: 0 <= i < |entries| ==> RecordLength(entries[i]) <= size
  {
  }

  /** So it does at this input: one file named `a`, whose record takes 24 bytes, and a buffer of 23. */
  lemma BufferTooSmall()
    ensures
      var entries := [DirEntry([97], Regular, 2)];
      ValidEntries(entries) && Stop(entries, 0, 23) == 0 && Stop(entries, 0, 24) == |entries|
  {
    var e := DirEntry([97], Regular, 2);
    assert RecordLength(e) == 24;
    assert [e][0] == e;
  }
}
