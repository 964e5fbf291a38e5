/**
 The boot archive: the writer of cpio newc archives (src/main.rs) and the bytes-to-entries half of
 the reader (kernel/src/fs/initrd.rs).
 */
module Cpio {
  import opened Base
  import opened Bytes
  import opened Utf8

  const MAGIC: seq<byte> := [0x30, 0x37, 0x30, 0x37, 0x30, 0x31]
  const HEADER_LEN: nat := 110
  const TRAILER: Name := [0x54, 0x52, 0x41, 0x49, 0x4C, 0x45, 0x52, 0x21, 0x21, 0x21]
  const FILE_MODE: nat := 33188 // octal 100644

  // ---------------------------------------------------------------- hexadecimal fields

  function Digit(d: nat): byte
    requires d < 16
  {
    if d < 10 then 0x30 + d else 0x57 + d
  }

  function DigitValue(b: byte): (v: Option<nat>)
    ensures v.Some? ==> v.value < 16
  {
    if 0x30 <= b <= 0x39 then Some(b - 0x30)
    else if 0x61 <= b <= 0x66 then Some(b - 0x57)
    else if 0x41 <= b <= 0x46 then Some(b - 0x37)
    else None
  }

  ghost predicate IsHex(b: byte) {
    b as char in "0123456789abcdefABCDEF"
  }

  /** Digits are written in lower case and read in both cases. */
  lemma DigitsAre(d: nat, b: byte)
    requires d < 16
    ensures Digit(d) as char == "0123456789abcdef"[d]
    ensures DigitValue(b).Some? <==> IsHex(b)
    ensures DigitValue(b) == Some(d) <==>
      b as char == "0123456789abcdef"[d] || b as char == "0123456789ABCDEF"[d]
  {
  }

  // The last n hexadecimal digits of v.
  function Digits(v: nat, n: nat): (s: seq<byte>)
    ensures |s| == n
  {
    if n == 0 then [] else Digits(v / 16, n - 1) + [Digit(v % 16)]
  }

  function DigitsValue(s: seq<byte>): Option<nat> {
    if s == [] then Some(0)
    else
      var high := DigitsValue(s[..|s| - 1]);
      var low := DigitValue(s[|s| - 1]);
      if high.None? || low.None? then None else Some(16 * high.value + low.value)
  }

  // `parse_hex_u32`: the standard parser also takes upper-case digits and one plus sign.
  function ParseHex(s: seq<byte>): Result<nat, FsError> {
    var digits := if s != [] && s[0] == 0x2B then s[1..] else s;
    if digits == [] || DigitsValue(digits) == None then Err(IoError) else Ok(DigitsValue(digits).value)
  }

  ghost predicate AllHex(s: seq<byte>) {
    s != [] && forall i :: 0 <= i < |s| ==> IsHex(s[i])
  }

  lemma {:induction false} DigitsAccepted(s: seq<byte>)
    ensures DigitsValue(s).Some? <==> s == [] || AllHex(s)
  {
    hide DigitValue, IsHex;
    if s != [] {
      var k := |s| - 1;
      DigitsAre(0, s[k]);
      DigitsAccepted(s[..k]);
      assert forall i :: 0 <= i < k ==> s[..k][i] == s[i];
    }
  }

  /** A field is accepted exactly when it is hexadecimal digits, possibly behind a plus sign. */
  lemma FieldAccepted(s: seq<byte>)
    ensures ParseHex(s).Ok? <==> AllHex(s) || (s != [] && s[0] as char == '+' && AllHex(s[1..]))
    ensures ParseHex(s).Err? ==> ParseHex(s) == Err(IoError)
  {
    hide DigitsValue, IsHex;
    DigitsAccepted(s);
    if s != [] {
      DigitsAre(0, s[0]);
      DigitsAccepted(s[1..]);
      assert s[0] as char == '+' ==> !IsHex(s[0]) by { PlusIsNoDigit(); }
    }
  }

  lemma PlusIsNoDigit()
    ensures !IsHex('+' as int)
  {
  }

  function Power(n: nat): nat {
    if n == 0 then 1 else 16 * Power(n - 1)
  }

  lemma {:induction false} DigitsRead(v: nat, n: nat)
    requires v < Power(n)
    ensures DigitsValue(Digits(v, n)) == Some(v)
  {
    if n > 0 {
      DigitsRead(v / 16, n - 1);
      assert Digits(v, n)[..n - 1] == Digits(v / 16, n - 1);
    }
  }

  lemma FirstDigit(v: nat, n: nat)
    requires n > 0
    ensures Digits(v, n)[0] != 0x2B
  {
  }

  function Hex8(v: nat): (s: seq<byte>)
    ensures |s| == 8
  {
    Digits(v, 8)
  }

  /** Reading a written field gives its value. */
  lemma HexRoundTrip(v: nat)
    requires v < 0x1_0000_0000
    ensures ParseHex(Hex8(v)) == Ok(v)
  {
    EightDigits(v);
    FirstDigit(v, 8);
  }

  // ---------------------------------------------------------------- the writer

  // The bytes of a run of fields.
  function Fields(values: seq<nat>): (s: seq<byte>)
    ensures |s| == 8 * |values|
  {
    if values == [] then [] else Fields(values[..|values| - 1]) + Hex8(values[|values| - 1])
  }

  lemma {:induction false} FieldAt(values: seq<nat>, k: nat)
    requires k < |values|
    ensures Fields(values)[8 * k..8 * k + 8] == Hex8(values[k])
    decreases |values|
  {
    var n := |values| - 1;
    if k < n {
      FieldAt(values[..n], k);
      FrontSlice(Fields(values[..n]), Hex8(values[n]), 8 * k, 8 * k + 8);
    }
  }

  lemma FrontSlice(a: seq<byte>, b: seq<byte>, lo: nat, hi: nat)
    requires lo <= hi <= |a|
    ensures (a + b)[lo..hi] == a[lo..hi]
  {
  }

  function Truncated(v: nat): nat { v % 0x1_0000_0000 }

  // The thirteen numbers of a header.
  function HeaderValues(ino: nat, name: Name, data: seq<byte>): (vs: seq<nat>)
    ensures |vs| == 13
  {
    [Truncated(ino), FILE_MODE, 0, 0, 1, 0, Truncated(|data|), 0, 0, 0, 0, Truncated(|name| + 1), 0]
  }

  function Padding(n: nat): (p: nat)
    ensures p < 4 && (n + p) % 4 == 0
  {
    (4 - n % 4) % 4
  }

  function Padded(s: seq<byte>): (r: seq<byte>)
    ensures |r| % 4 == 0 && |s| <= |r|
  {
    s + Zeros(Padding(|s|))
  }

  function EntryBytes(ino: nat, name: Name, data: seq<byte>): (s: seq<byte>)
    ensures |s| % 4 == 0
  {
    Padded(Padded(MAGIC + Fields(HeaderValues(ino, name, data)) + name + [0]) + data)
  }

  // The bytes of a string.
  function Ascii(s: string): (b: seq<byte>)
    requires forall i :: 0 <= i < |s| ==> s[i] as int < 128
    ensures |b| == |s| && forall i :: 0 <= i < |s| ==> b[i] as char == s[i]
  {
    seq(|s|, i requires 0 <= i < |s| => s[i] as int)
  }

  lemma MarksAre()
    ensures MAGIC == Ascii("070701") && TRAILER == Ascii("TRAILER!!!")
  {
  }

  /** An entry: the magic, thirteen fields, the name with its end, the data; both parts filled up with zeros. */
  lemma EntryIs(ino: nat, name: Name, data: seq<byte>) returns (p: nat, q: nat)
    ensures p < 4 && q < 4 && (110 + |name| + 1 + p) % 4 == 0 && (|data| + q) % 4 == 0
    ensures EntryBytes(ino, name, data)
         == Ascii("070701") + Fields(HeaderValues(ino, name, data)) + name + [0] + Zeros(p) + data + Zeros(q)
  {
    hide Fields, HeaderValues;
    MarksAre();
    var head := MAGIC + Fields(HeaderValues(ino, name, data)) + name + [0];
    p, q := Padding(|head|), Padding(|Padded(head) + data|);
  }

  /** The numbers in the header: octal 100644 as the mode, one link, and what the entry holds. */
  lemma HeaderFields(ino: nat, name: Name, data: seq<byte>, k: nat)
    requires k < 13
    ensures DigitsValue(EntryBytes(ino, name, data)[6 + 8 * k..6 + 8 * k + 8])
         == Some(
              if k == 0 then ino % 0x1_0000_0000
              else if k == 1 then 0x8000 + 6 * 64 + 4 * 8 + 4
              else if k == 4 then 1
              else if k == 6 then |data| % 0x1_0000_0000
              else if k == 11 then (|name| + 1) % 0x1_0000_0000
              else 0)
  {
    hide Digits, DigitsValue, Fields, Padded;
    var vs := HeaderValues(ino, name, data);
    FieldAt(vs, k);
    EightDigits(vs[k]);
    var head := MAGIC + Fields(vs) + name + [0];
    var e := EntryBytes(ino, name, data);
    PaddedStarts(head);
    PaddedStarts(Padded(head) + data);
    assert e[..|head|] == head;
    SliceOfSlice(e, 0, |head|, 6 + 8 * k, 6 + 8 * k + 8);
    assert head[6..6 + |Fields(vs)|] == Fields(vs);
    SliceOfSlice(head, 6, 6 + |Fields(vs)|, 8 * k, 8 * k + 8);
  }

  lemma PaddedStarts(s: seq<byte>)
    ensures |s| <= |Padded(s)| && Padded(s)[..|s|] == s
  {
  }

  lemma EightDigits(v: nat)
    requires v < 0x1_0000_0000
    ensures DigitsValue(Hex8(v)) == Some(v)
  {
    assert Power(8) == 0x1_0000_0000 by {
      assert Power(4) == 0x1_0000;
      assert Power(6) == 0x100_0000;
    }
    DigitsRead(v, 8);
  }

  // `pad4`.
  method Pad4(out: seq<byte>) returns (r: seq<byte>)
    ensures r == Padded(out)
  {
    r := out;
    while |r| % 4 != 0
      invariant |out| <= |r| <= |out| + Padding(|out|) && r == out + Zeros(|r| - |out|)
      decreases |out| + Padding(|out|) - |r|
    {
      r := r + [0];
    }
  }

  // `push_hex`, one of the values of a header.
  method PushHex(out: seq<byte>, value: nat, ghost start: seq<byte>, ghost values: seq<nat>, ghost k: nat)
    returns (r: seq<byte>)
    requires k < |values| && values[k] == value && out == start + Fields(values[..k])
    ensures r == start + Fields(values[..k + 1])
  {
    r := out + Hex8(value);
    assert values[..k + 1][..k] == values[..k];
  }

  /** `append_cpio_entry`, on an archive of whole words. */
  method AppendEntry(before: seq<byte>, ino: nat, name: Name, data: seq<byte>) returns (out: seq<byte>)
    requires |before| % 4 == 0
    ensures out == before + EntryBytes(ino, name, data)
  {
    hide Fields, Digits, Padding;
    ghost var values := HeaderValues(ino, name, data);
    ghost var start := before + MAGIC;
    assert values[..0] == [];
    assert Fields([]) == [];
    out := before + MAGIC;
    out := PushHex(out, Truncated(ino), start, values, 0);
    out := PushHex(out, FILE_MODE, start, values, 1);
    out := PushHex(out, 0, start, values, 2);
    out := PushHex(out, 0, start, values, 3);
    out := PushHex(out, 1, start, values, 4);
    out := PushHex(out, 0, start, values, 5);
    out := PushHex(out, Truncated(|data|), start, values, 6);
    out := PushHex(out, 0, start, values, 7);
    out := PushHex(out, 0, start, values, 8);
    out := PushHex(out, 0, start, values, 9);
    out := PushHex(out, 0, start, values, 10);
    out := PushHex(out, Truncated(|name| + 1), start, values, 11);
    out := PushHex(out, 0, start, values, 12);
    assert values[..13] == values;
    ghost var head := MAGIC + Fields(values) + name + [0];
    out := out + name;
    out := out + [0];
    assert out == before + head;
    PadAfter(before, head);
    out := Pad4(out);
    out := out + data;
    assert out == before + (Padded(head) + data);
    PadAfter(before, Padded(head) + data);
    out := Pad4(out);
  }

  lemma PadAfter(before: seq<byte>, s: seq<byte>)
    requires |before| % 4 == 0
    ensures Padded(before + s) == before + Padded(s)
  {
    assert |before + s| % 4 == |s| % 4;
  }

  datatype Item = Item(name: Name, data: seq<byte>)

  // The archive of some files, the first with inode number `ino`.
  function Archive(files: seq<Item>, ino: nat): seq<byte>
    decreases |files|
  {
    if files == [] then EntryBytes(ino, TRAILER, [])
    else EntryBytes(ino, files[0].name, files[0].data) + Archive(files[1..], ino + 1)
  }

  /** `make_cpio_newc`. */
  method MakeArchive(files: seq<Item>) returns (out: seq<byte>)
    ensures out == Archive(files, 1)
  {
    hide EntryBytes;
    out := [];
    var ino := 1;
    for i := 0 to |files|
      invariant ino == i + 1 && |out| % 4 == 0
      invariant out + Archive(files[i..], ino) == Archive(files, 1)
    {
      ghost var was := out;
      assert files[i..][1..] == files[i + 1..];
      out := AppendEntry(out, ino, files[i].name, files[i].data);
      assert was + (EntryBytes(ino, files[i].name, files[i].data) + Archive(files[i + 1..], ino + 1))
          == out + Archive(files[i + 1..], ino + 1);
      ino := ino + 1;
    }
    assert files[|files|..] == [];
    out := AppendEntry(out, ino, TRAILER, []);
  }

  // ---------------------------------------------------------------- the reader

  datatype Parsed = Parsed(name: Name, fileType: FileType, contents: seq<byte>, next: nat)

  // `mode_to_file_type`: the four bits under the mask 0o170000.
  function ModeType(mode: nat): Result<FileType, FsError> {
    match mode / 0x1000 % 16
    case 8 => Ok(Regular)
    case 4 => Ok(FileType.Directory)
    case 2 => Ok(CharDevice)
    case 6 => Ok(BlockDevice)
    case 10 => Ok(Symlink)
    case _ => Err(NotSupported)
  }

  /** The four bits above the lowest twelve decide. */
  lemma ModeTypeIs(high: nat, kind: nat, low: nat)
    requires kind < 16 && low < 0x1000
    ensures
      var t := ModeType(0x1_0000 * high + 0x1000 * kind + low);
      && (t == Ok(Regular) <==> kind == 8) && (t == Ok(FileType.Directory) <==> kind == 4)
      && (t == Ok(CharDevice) <==> kind == 2) && (t == Ok(BlockDevice) <==> kind == 6)
      && (t == Ok(Symlink) <==> kind == 10) && (t == Err(NotSupported) <==> kind !in {2, 4, 6, 8, 10})
  {
    var mode := 0x1_0000 * high + 0x1000 * kind + low;
    assert mode / 0x1000 == 16 * high + kind;
  }

  function AlignUp(n: nat): (r: nat)
    ensures n <= r < n + 4 && r % 4 == 0
  {
    (n + 3) / 4 * 4
  }

  // `ParsedEntry::parse`; slices are too short for its additions to overflow.
  function ParseEntry(data: seq<byte>, offset: nat): (r: Result<Parsed, FsError>)
    ensures r.Ok? ==> offset < r.value.next
  {
    var headerEnd := offset + HEADER_LEN;
    if headerEnd > |data| || data[offset..offset + 6] != MAGIC then Err(IoError)
    else
      var mode := ParseHex(data[offset + 14..offset + 22]);
      var fileSize := ParseHex(data[offset + 54..offset + 62]);
      var nameSize := ParseHex(data[offset + 94..offset + 102]);
      if mode.Err? || fileSize.Err? || nameSize.Err? || nameSize.value == 0 then Err(IoError)
      else ParseBody(data, headerEnd, mode.value, fileSize.value, nameSize.value)
  }

  function ParseBody(data: seq<byte>, headerEnd: nat, mode: nat, fileSize: nat,
                     nameSize: nat): (r: Result<Parsed, FsError>)
    requires nameSize > 0
    ensures r.Ok? ==> headerEnd < r.value.next
  {
    var nameEnd := headerEnd + nameSize;
    if nameEnd > |data| || data[nameEnd - 1] != 0 || !IsUtf8(data[headerEnd..nameEnd - 1]) then Err(IoError)
    else
      var fileStart := AlignUp(nameEnd);
      var fileEnd := fileStart + fileSize;
      if fileEnd > |data| then Err(IoError)
      else if ModeType(mode).Err? then Err(ModeType(mode).error)
      else Ok(Parsed(data[headerEnd..nameEnd - 1], ModeType(mode).value, data[fileStart..fileEnd], AlignUp(fileEnd)))
  }

  // An entry with these parts lies at the offset, its contents at `start`.
  ghost predicate LiesAt(data: seq<byte>, offset: nat, mode: nat, start: nat, e: Parsed) {
    var nameEnd := offset + 110 + |e.name|;
    && nameEnd < |data| && start + |e.contents| <= |data|
    && data[offset..offset + 6] == Ascii("070701")
    && ParseHex(data[offset + 14..offset + 22]) == Ok(mode)
    && ParseHex(data[offset + 54..offset + 62]) == Ok(|e.contents|)
    && ParseHex(data[offset + 94..offset + 102]) == Ok(|e.name| + 1)
    && data[offset + 110..nameEnd] == e.name && data[nameEnd] == 0 && IsUtf8(e.name)
    && nameEnd < start <= nameEnd + 4 && start % 4 == 0
    && data[start..start + |e.contents|] == e.contents
    && start + |e.contents| <= e.next < start + |e.contents| + 4 && e.next % 4 == 0
  }

  /** The reader takes exactly the entries that lie there with a known file type. */
  lemma EntryAccepted(data: seq<byte>, offset: nat, e: Parsed)
    ensures ParseEntry(data, offset) == Ok(e) <==>
      exists mode, start :: LiesAt(data, offset, mode, start, e) && ModeType(mode) == Ok(e.fileType)
  {
    hide ParseHex, IsUtf8, ModeType, Ascii;
    MarksAre();
    if ParseEntry(data, offset) == Ok(e) {
      var mode, size := EntryIsThere(data, offset);
      assert LiesAt(data, offset, mode, AlignUp(offset + HEADER_LEN + size), e);
    }
    if mode, start :| LiesAt(data, offset, mode, start, e) && ModeType(mode) == Ok(e.fileType) {
      ThereIsRead(data, offset, mode, start, e);
    }
  }

  lemma EntryIsThere(data: seq<byte>, offset: nat) returns (mode: nat, nameSize: nat)
    requires ParseEntry(data, offset).Ok?
    ensures LiesAt(data, offset, mode, AlignUp(offset + HEADER_LEN + nameSize), ParseEntry(data, offset).value)
    ensures ModeType(mode) == Ok(ParseEntry(data, offset).value.fileType)
  {
    hide ParseHex, IsUtf8, ModeType, Ascii;
    MarksAre();
    mode := ParseHex(data[offset + 14..offset + 22]).value;
    nameSize := ParseHex(data[offset + 94..offset + 102]).value;
  }

  lemma ThereIsRead(data: seq<byte>, offset: nat, mode: nat, start: nat, e: Parsed)
    requires LiesAt(data, offset, mode, start, e)
    ensures ModeType(mode) == Ok(e.fileType) ==> ParseEntry(data, offset) == Ok(e)
    ensures ModeType(mode).Err? ==> ParseEntry(data, offset) == Err(ModeType(mode).error)
  {
    hide ParseHex, IsUtf8, ModeType, Ascii, ParseBody;
    MarksAre();
    BodyIsRead(data, offset, mode, start, e);
  }

  lemma BodyIsRead(data: seq<byte>, offset: nat, mode: nat, start: nat, e: Parsed)
    requires LiesAt(data, offset, mode, start, e)
    ensures ParseBody(data, offset + HEADER_LEN, mode, |e.contents|, |e.name| + 1)
         == if ModeType(mode).Err? then Err(ModeType(mode).error) else Ok(e.(fileType := ModeType(mode).value))
  {
    hide ParseHex, IsUtf8, ModeType, Ascii, AlignUp;
    AlignUpIs(offset + 110 + |e.name| + 1, start);
    AlignUpIs(start + |e.contents|, e.next);
  }

  lemma AlignUpIs(n: nat, r: nat)
    requires n <= r < n + 4 && r % 4 == 0
    ensures AlignUp(n) == r
  {
  }

  ghost predicate SomethingLiesAt(data: seq<byte>, offset: nat) {
    exists mode, start, e :: LiesAt(data, offset, mode, start, e)
  }

  /** An entry of unknown type is not supported; where nothing lies, the archive is at fault. */
  lemma EntryRefused(data: seq<byte>, offset: nat)
    ensures ParseEntry(data, offset) == Err(IoError) <==> !SomethingLiesAt(data, offset)
    ensures ParseEntry(data, offset).Err? ==> ParseEntry(data, offset).error in {IoError, NotSupported}
  {
    hide ParseHex, IsUtf8, ModeType, Ascii, LiesAt;
    OnlyUnsupported();
    if mode, start, e :| LiesAt(data, offset, mode, start, e) {
      var e' := if ModeType(mode).Ok? then e.(fileType := ModeType(mode).value) else e;
      OtherType(data, offset, mode, start, e, e');
      ThereIsRead(data, offset, mode, start, e');
    }
    if ParseEntry(data, offset) != Err(IoError) {
      UnsupportedIsThere(data, offset);
    }
  }

  lemma OtherType(data: seq<byte>, offset: nat, mode: nat, start: nat, e: Parsed, e': Parsed)
    requires LiesAt(data, offset, mode, start, e) && e' == e.(fileType := e'.fileType)
    ensures LiesAt(data, offset, mode, start, e')
  {
    hide ParseHex, IsUtf8, Ascii;
  }

  lemma UnsupportedIsThere(data: seq<byte>, offset: nat)
    requires ParseEntry(data, offset) != Err(IoError)
    ensures SomethingLiesAt(data, offset)
  {
    hide ParseHex, IsUtf8, ModeType, Ascii;
    MarksAre();
    var mode := ParseHex(data[offset + 14..offset + 22]).value;
    var size := ParseHex(data[offset + 54..offset + 62]).value;
    var nameEnd := offset + HEADER_LEN + ParseHex(data[offset + 94..offset + 102]).value;
    var start := AlignUp(nameEnd);
    var e := Parsed(data[offset + 110..nameEnd - 1], Regular, data[start..start + size], AlignUp(start + size));
    assert LiesAt(data, offset, mode, start, e);
  }

  lemma OnlyUnsupported()
    ensures forall mode: nat :: ModeType(mode).Err? ==> ModeType(mode) == Err(NotSupported)
  {
  }

  // What the writer can put into an archive: a name is a string, and the sizes fit their fields.
  ghost predicate Writable(name: Name, data: seq<byte>) {
    IsUtf8(name) && |name| + 1 < 0x1_0000_0000 && |data| < 0x1_0000_0000
  }

  lemma HeaderRead(ino: nat, name: Name, data: seq<byte>)
    requires Writable(name, data)
    ensures
      var h := MAGIC + Fields(HeaderValues(ino, name, data));
      && |h| == HEADER_LEN && h[..6] == MAGIC
      && ParseHex(h[14..22]) == Ok(FILE_MODE) && ParseHex(h[54..62]) == Ok(|data|)
      && ParseHex(h[94..102]) == Ok(|name| + 1)
  {
    hide Fields, ParseHex, Digits;
    var vs := HeaderValues(ino, name, data);
    var h := MAGIC + Fields(vs);
    FieldAt(vs, 1);
    FieldAt(vs, 6);
    FieldAt(vs, 11);
    assert h[14..22] == Fields(vs)[8..16];
    assert h[54..62] == Fields(vs)[48..56];
    assert h[94..102] == Fields(vs)[88..96];
    HexRoundTrip(FILE_MODE);
    HexRoundTrip(|data|);
    HexRoundTrip(|name| + 1);
  }

  /** Reading a written entry gives back its name and data, and the place where the next one begins. */
  lemma EntryRoundTrip(before: seq<byte>, ino: nat, name: Name, data: seq<byte>, after: seq<byte>)
    requires |before| % 4 == 0 && Writable(name, data)
    ensures
      var all := before + EntryBytes(ino, name, data) + after;
      ParseEntry(all, |before|) == Ok(Parsed(name, Regular, data, |before| + |EntryBytes(ino, name, data)|))
  {
    hide Fields, ParseHex, IsUtf8, HeaderValues, ParseBody, Padded;
    var h := MAGIC + Fields(HeaderValues(ino, name, data));
    HeaderRead(ino, name, data);
    var entry := EntryBytes(ino, name, data);
    var all := before + entry + after;
    var p := |before|;
    EntryParts(h, name, data);
    assert all[p..p + |entry|] == entry;
    assert all[p..p + HEADER_LEN] == h;
    SliceOfSlice(all, p, p + HEADER_LEN, 0, 6);
    SliceOfSlice(all, p, p + HEADER_LEN, 14, 22);
    SliceOfSlice(all, p, p + HEADER_LEN, 54, 62);
    SliceOfSlice(all, p, p + HEADER_LEN, 94, 102);
    BodyRoundTrip(all, p, h, name, data);
  }

  lemma BodyRoundTrip(all: seq<byte>, p: nat, h: seq<byte>, name: Name, data: seq<byte>)
    requires |h| == HEADER_LEN && p % 4 == 0 && IsUtf8(name)
    requires
      var entry := Padded(Padded(h + name + [0]) + data);
      p + |entry| <= |all| && all[p..p + |entry|] == entry
    ensures
      var entry := Padded(Padded(h + name + [0]) + data);
      ParseBody(all, p + HEADER_LEN, FILE_MODE, |data|, |name| + 1) == Ok(Parsed(name, Regular, data, p + |entry|))
  {
    hide IsUtf8, Padded, AlignUp, ParseBody;
    var entry := Padded(Padded(h + name + [0]) + data);
    EntryParts(h, name, data);
    var start := AlignUp(HEADER_LEN + |name| + 1);
    AlignShift(p, HEADER_LEN + |name| + 1);
    AlignShift(p, start + |data|);
    PartsParse(all, p, entry, name, data, start);
  }

  lemma FileIsRegular()
    ensures ModeType(FILE_MODE) == Ok(Regular)
  {
  }

  lemma PartsParse(all: seq<byte>, p: nat, entry: seq<byte>, name: Name, data: seq<byte>, start: nat)
    requires IsUtf8(name) && p + |entry| <= |all| && all[p..p + |entry|] == entry
    requires
      var n := HEADER_LEN + |name|;
      && n < |entry| && start + |data| <= |entry|
      && AlignUp(p + n + 1) == p + start && AlignUp(p + start + |data|) == p + |entry|
      && entry[HEADER_LEN..n] == name && entry[n] == 0 && entry[start..start + |data|] == data
    ensures ParseBody(all, p + HEADER_LEN, FILE_MODE, |data|, |name| + 1)
         == Ok(Parsed(name, Regular, data, p + |entry|))
  {
    hide IsUtf8, AlignUp, ParseBody;
    var n := HEADER_LEN + |name|;
    EntrySlice(all, p, entry, HEADER_LEN, n);
    EntrySlice(all, p, entry, start, start + |data|);
    assert all[p + n] == all[p..p + |entry|][n];
    PiecesParse(all, p + HEADER_LEN, name, p + start, data, p + |entry|);
  }

  lemma EntrySlice(all: seq<byte>, p: nat, entry: seq<byte>, lo: nat, hi: nat)
    requires p + |entry| <= |all| && all[p..p + |entry|] == entry && lo <= hi <= |entry|
    ensures all[p + lo..p + hi] == entry[lo..hi]
  {
    SliceOfSlice(all, p, p + |entry|, lo, hi);
  }

  lemma PiecesParse(all: seq<byte>, headerEnd: nat, name: Name, start: nat, data: seq<byte>, next: nat)
    requires
      var nameEnd := headerEnd + |name|;
      && nameEnd < |all| && all[headerEnd..nameEnd] == name && all[nameEnd] == 0 && IsUtf8(name)
      && AlignUp(nameEnd + 1) == start && start + |data| <= |all| && all[start..start + |data|] == data
      && AlignUp(start + |data|) == next
    ensures ParseBody(all, headerEnd, FILE_MODE, |data|, |name| + 1) == Ok(Parsed(name, Regular, data, next))
  {
    hide IsUtf8, AlignUp, ModeType;
    FileIsRegular();
  }

  lemma AlignShift(p: nat, n: nat)
    requires p % 4 == 0
    ensures AlignUp(p + n) == p + AlignUp(n)
  {
  }

  lemma EntryParts(h: seq<byte>, name: Name, data: seq<byte>)
    requires |h| == HEADER_LEN
    ensures
      var head := h + name + [0];
      var entry := Padded(Padded(head) + data);
      var start := AlignUp(|head|);
      && start + |data| <= |entry| && |entry| == AlignUp(start + |data|)
      && entry[..HEADER_LEN] == h && entry[HEADER_LEN..HEADER_LEN + |name|] == name
      && entry[HEADER_LEN + |name|] == 0 && entry[start..start + |data|] == data
  {
    hide AlignUp;
    var head := h + name + [0];
    PaddedLength(head);
    PaddedLength(Padded(head) + data);
  }

  lemma PaddedLength(s: seq<byte>)
    ensures |Padded(s)| == AlignUp(|s|)
  {
  }
}
