/**
 The range walk of kernel/src/arch/x86_64/supervisor_overlap.rs, which visits each page-table
 entry that covers a part of [start, end) once and skips missing subtrees, against the walk the
 processor does for one linear address.
 */
module SupervisorOverlap {
  import opened Base

  // The exclusive end of the lower canonical half.
  const USER_ADDRESS_END: nat := 0x8000_0000_0000

  // Reads one page-table entry; None is a failed read.
  type Reader = (bv64, nat) -> Option<bv64>

  const PRESENT: bv64 := 1
  const USER: bv64 := 4
  const HUGE: bv64 := 0x80
  const TABLE_ADDRESS: bv64 := 0x000f_ffff_ffff_f000

  // An entry as the processor reads it (Intel SDM volume 3A, section 4.5): bit 0 present, bit 2
  // user, bit 7 a page above level 1, bits 12 to 51 the address.
  ghost predicate Present(e: bv64) { (e << 63) >> 63 == 1 }
  ghost predicate User(e: bv64) { (e << 61) >> 63 == 1 }
  ghost predicate Huge(e: bv64) { (e << 56) >> 63 == 1 }
  ghost function TableAddress(e: bv64): bv64 { ((e << 12) >> 24) << 12 }

  /** The masks take these bits. */
  lemma Masks(e: bv64)
    ensures e & PRESENT != 0 <==> Present(e)
    ensures e & USER != 0 <==> User(e)
    ensures e & HUGE != 0 <==> Huge(e)
    ensures e & TABLE_ADDRESS == TableAddress(e)
  {
  }

  // What the walk takes from an entry.
  method Fields(e: bv64) returns (present: bool, user: bool, huge: bool, next: bv64)
    ensures present == Present(e) && user == User(e) && huge == Huge(e) && next == TableAddress(e)
  {
    Masks(e);
    return e & PRESENT != 0, e & USER != 0, e & HUGE != 0, e & TABLE_ADDRESS;
  }

  // The bytes one entry of a level's table covers: 1 << (12 + 9 * (level - 1)).
  function Span(level: nat): (span: nat)
    requires 1 <= level <= 4
    ensures span == if level == 1 then 4096 else 512 * Span(level - 1)
  {
    match level
    case 1 => 0x1000
    case 2 => 0x20_0000
    case 3 => 0x4000_0000
    case _ => 0x80_0000_0000
  }

  ghost predicate IsLeaf(level: nat, e: bv64) {
    level == 1 || (level < 4 && Huge(e))
  }

  // What the walk for a single linear address meets. A leaf is a user page only when
  // every entry on the way to it has the user bit (Intel SDM volume 3A, section 4.6.1).
  datatype Access = Unreadable | Unmapped | Leaf(user: bool)

  // One linear address translated level by level; each index is nine bits of the address.
  ghost function Translate(read: Reader, table: bv64, level: nat, addr: nat, user: bool): Access
    requires 1 <= level <= 4
    decreases level
  {
    match read(table, (addr / Span(level)) % 512)
    case None => Unreadable
    case Some(e) =>
      if !Present(e) then Unmapped
      else if IsLeaf(level, e) then Leaf(user && User(e))
      else if level == 1 then Unmapped
      else Translate(read, TableAddress(e), level - 1, addr, user && User(e))
  }

  // Neither a supervisor page nor an unreadable entry on the way.
  ghost predicate Harmless(a: Access) {
    a == Unmapped || a == Leaf(true)
  }

  // The lowest address of [start, end) that is not harmless decides the answer.
  ghost predicate Decides(read: Reader, table: bv64, level: nat, user: bool, start: nat, end: nat, r: Option<bool>)
    requires 1 <= level <= 4
  {
    match r
    case Some(false) => HarmlessRange(read, table, level, user, start, end)
    case Some(true) => exists a: nat :: FirstBad(read, table, level, user, start, end, a, Leaf(false))
    case None => exists a: nat :: FirstBad(read, table, level, user, start, end, a, Unreadable)
  }

  ghost predicate HarmlessRange(read: Reader, table: bv64, level: nat, user: bool, start: nat, end: nat)
    requires 1 <= level <= 4
  {
    forall a: nat :: start <= a < end ==> Harmless(Translate(read, table, level, a, user))
  }

  ghost predicate FirstBad(read: Reader, table: bv64, level: nat, user: bool, start: nat, end: nat, a: nat,
                           what: Access)
    requires 1 <= level <= 4
  {
    && start <= a < end
    && Translate(read, table, level, a, user) == what
    && HarmlessRange(read, table, level, user, start, a)
  }

  // The multiples of `span` at or below s and e, and those between them.
  lemma Between(span: nat, s: nat, e: nat, index: nat)
    requires span > 0 && s <= e < 512 * span && s / span <= index <= e / span
    ensures index < 512
    ensures 0 <= index * span <= e && s < index * span + span && (index + 1) * span == index * span + span
    ensures index < e / span ==> index * span + span <= e
    ensures index == e / span ==> e < index * span + span
  {
    Multiples(span, s / span, index);
    Multiples(span, index, e / span);
    Multiples(span, 512, index);
  }

  // Entry `index` of the table for the address bits `prefix` covers exactly the addresses
  // whose bits at this level and above are `prefix` followed by `index`.
  lemma IndexOfCovered(span: nat, prefix: nat, index: nat, a: nat)
    requires span > 0 && index < 512
    requires
      var entryStart := prefix * (512 * span) + index * span;
      entryStart <= a < entryStart + span
    ensures (a / span) % 512 == index
  {
    assert prefix * (512 * span) == (prefix * 512) * span;
    assert (prefix * 512 + index) * span == (prefix * 512) * span + index * span;
    Quotient(a, span, prefix * 512 + index);
  }

  // Which entries of a table a range touches, and which addresses of the range each covers.
  lemma EntryCovers(level: nat, prefix: nat, start: nat, end: nat, index: nat)
    requires 1 <= level <= 4 && InTable(level, prefix, start, end)
    requires Touches(level, prefix, start, end, index)
    ensures
      var (lo, hi) := Range(level, prefix, start, end, index);
      forall a: nat :: lo <= a < hi ==> (a / Span(level)) % 512 == index
    ensures level > 1 ==>
      && var (lo, hi) := Range(level, prefix, start, end, index);
      InTable(level - 1, prefix * 512 + index, lo, hi)
      && (prefix * 512 + index) * (512 * Span(level - 1)) == prefix * (512 * Span(level)) + index * Span(level)
  {
    NextEntry(level, prefix, start, end, index);
    var (lo, hi) := Range(level, prefix, start, end, index);
    forall a: nat | lo <= a < hi ensures (a / Span(level)) % 512 == index {
      IndexOfCovered(Span(level), prefix, index, a);
    }
    Nested(prefix, index, Span(level));
  }

  lemma Nested(prefix: nat, index: nat, span: nat)
    ensures (prefix * 512 + index) * span == prefix * (512 * span) + index * span
  {
    assert prefix * 512 * span == prefix * (512 * span);
  }

  // The range is not empty and lies in what the table for the address bits `prefix` covers.
  predicate InTable(level: nat, prefix: nat, start: nat, end: nat)
    requires 1 <= level <= 4
  {
    prefix * (512 * Span(level)) <= start < end <= prefix * (512 * Span(level)) + 512 * Span(level)
  }

  predicate Touches(level: nat, prefix: nat, start: nat, end: nat, index: nat)
    requires 1 <= level <= 4 && InTable(level, prefix, start, end)
  {
    var tableStart := prefix * (512 * Span(level));
    (start - tableStart) / Span(level) <= index <= (end - 1 - tableStart) / Span(level)
  }

  // The part of [start, end) below entry `index` of the table for the address bits `prefix`.
  function Range(level: nat, prefix: nat, start: nat, end: nat, index: nat): (nat, nat)
    requires 1 <= level <= 4
  {
    var entryStart := prefix * (512 * Span(level)) + index * Span(level);
    (Max(start, entryStart), Min(end, entryStart + Span(level)))
  }

  // Joining two neighbouring ranges, the first of which is harmless.
  lemma DecidesAfterHarmless(read: Reader, table: bv64, level: nat, user: bool, start: nat, mid: nat, end: nat,
                             r: Option<bool>)
    requires 1 <= level <= 4 && start <= mid <= end
    requires HarmlessRange(read, table, level, user, start, mid)
    requires Decides(read, table, level, user, mid, end, r)
    ensures Decides(read, table, level, user, start, end, r)
  {
    if r != Some(false) {
      var what := if r == None then Unreadable else Leaf(false);
      var a: nat :| FirstBad(read, table, level, user, mid, end, a, what);
      assert FirstBad(read, table, level, user, start, end, a, what);
    }
  }

  // A verdict on the beginning of a range that is not "harmless" is one on the whole range.
  lemma DecidesPrefix(read: Reader, table: bv64, level: nat, user: bool, start: nat, mid: nat, end: nat,
                      r: Option<bool>)
    requires 1 <= level <= 4 && start <= mid <= end
    requires Decides(read, table, level, user, start, mid, r) && r != Some(false)
    ensures Decides(read, table, level, user, start, end, r)
  {
    var what := if r == None then Unreadable else Leaf(false);
    var a: nat :| FirstBad(read, table, level, user, start, mid, a, what);
    assert FirstBad(read, table, level, user, start, end, a, what);
  }

  // The verdict on the addresses below one entry of a table, from the entry itself and, when
  // it names a table, the verdict `below` on that table.
  lemma EntryDecides(read: Reader, table: bv64, level: nat, index: nat, user: bool, start: nat, end: nat,
                     below: Option<bool>)
    requires 1 <= level <= 4 && start < end
    requires forall a: nat :: start <= a < end ==> (a / Span(level)) % 512 == index
    requires Descends(level, read(table, index)) ==>
      var e := read(table, index).value;
      Decides(read, TableAddress(e), level - 1, user && User(e), start, end, below)
    ensures Decides(read, table, level, user, start, end, EntryVerdict(level, read(table, index), user, below))
  {
    if !Descends(level, read(table, index)) {
      var a := Translate(read, table, level, start, user);
      assert forall b: nat :: start <= b < end ==> Translate(read, table, level, b, user) == a;
      assert FirstBad(read, table, level, user, start, end, start, a);
    } else {
      var e := read(table, index).value;
      assert forall a: nat :: start <= a < end ==>
        Translate(read, table, level, a, user) == Translate(read, TableAddress(e), level - 1, a, user && User(e));
      if below != Some(false) {
        var what := if below == None then Unreadable else Leaf(false);
        var a: nat :| FirstBad(read, TableAddress(e), level - 1, user && User(e), start, end, a, what);
        assert FirstBad(read, table, level, user, start, end, a, what);
      }
    }
  }

  ghost predicate Descends(level: nat, entry: Option<bv64>) {
    entry.Some? && Present(entry.value) && !IsLeaf(level, entry.value)
  }

  ghost function EntryVerdict(level: nat, entry: Option<bv64>, user: bool, below: Option<bool>): Option<bool> {
    match entry
    case None => None
    case Some(e) =>
      if !Present(e) then Some(false)
      else if IsLeaf(level, e) then Some(!(user && User(e)))
      else below
  }

  // The three answers exclude each other, so each is given exactly when its condition holds.
  lemma DecidesUnique(read: Reader, table: bv64, level: nat, user: bool, start: nat, end: nat, r: Option<bool>,
                      r': Option<bool>)
    requires 1 <= level <= 4
    requires Decides(read, table, level, user, start, end, r) && r != Some(false)
    requires Decides(read, table, level, user, start, end, r')
    ensures r == r'
  {
    var a: nat :| FirstBad(read, table, level, user, start, end, a, if r == None then Unreadable else Leaf(false));
    if r' != Some(false) {
      var b: nat :| FirstBad(read, table, level, user, start, end, b, if r' == None then Unreadable else Leaf(false));
      assert a < b ==> Harmless(Translate(read, table, level, a, user));
      assert b < a ==> Harmless(Translate(read, table, level, b, user));
    }
  }

  /**
   `walk`: one table of the tree, over the part [start, end) of what the table covers.
   The ghost `prefix` holds the address bits above the table.
   */
  method Walk(table: bv64, level: nat, tableStart: nat, ghost prefix: nat, start: nat, end: nat, parentUser: bool,
              read: Reader)
    returns (r: Option<bool>)
    requires 1 <= level <= 4
    requires tableStart == prefix * (512 * Span(level)) && InTable(level, prefix, start, end)
    ensures Decides(read, table, level, parentUser, start, end, r)
    decreases level, 1
  {
    var span := Span(level);
    var first := (start - tableStart) / span;
    var last := (end - 1 - tableStart) / span;
    FirstEntry(level, prefix, start, end);
    for index := first to last + 1
      invariant index <= last ==>
        HarmlessRange(read, table, level, parentUser, start, Range(level, prefix, start, end, index).0)
      invariant index == last + 1 ==> HarmlessRange(read, table, level, parentUser, start, end)
    {
      var verdict := VisitEntry(table, level, index, tableStart, prefix, start, end, parentUser, read);
      NextEntry(level, prefix, start, end, index);
      if verdict != Some(false) {
        return verdict;
      }
    }
    return Some(false);
  }

  // The body of the loop over the entries of a table: the entry `index`, when the addresses
  // below the earlier entries are harmless.
  method VisitEntry(table: bv64, level: nat, index: nat, tableStart: nat, ghost prefix: nat, start: nat, end: nat,
                    parentUser: bool, read: Reader)
    returns (verdict: Option<bool>)
    requires 1 <= level <= 4 && tableStart == prefix * (512 * Span(level)) && InTable(level, prefix, start, end)
    requires Touches(level, prefix, start, end, index)
    requires HarmlessRange(read, table, level, parentUser, start, Range(level, prefix, start, end, index).0)
    ensures verdict == Some(false) ==>
      HarmlessRange(read, table, level, parentUser, start, Range(level, prefix, start, end, index).1)
    ensures verdict != Some(false) ==> Decides(read, table, level, parentUser, start, end, verdict)
    decreases level, 0
  {
    hide Decides, HarmlessRange, Present, User, Huge, TableAddress;
    EntryCovers(level, prefix, start, end, index);
    NextEntry(level, prefix, start, end, index);
    var entryStart := tableStart + index * Span(level);
    var lo, hi := Max(start, entryStart), Min(end, entryStart + Span(level));
    var below := Some(false);
    match read(table, index) {
      case None =>
        verdict := None;
      case Some(entry) =>
        var present, entryUser, huge, next := Fields(entry);
        var user := parentUser && entryUser;
        if !present {
          verdict := Some(false);
        } else if level == 1 || ((level == 2 || level == 3) && huge) {
          verdict := Some(!user);
        } else {
          below := Walk(next, level - 1, entryStart, prefix * 512 + index, lo, hi, user, read);
          verdict := below;
        }
    }
    assert verdict == EntryVerdict(level, read(table, index), parentUser, below);
    EntrySettles(read, table, level, index, parentUser, start, lo, hi, end, below);
  }

  // An entry's verdict on [lo, hi) settles [start, end), when what comes before it is harmless.
  lemma EntrySettles(read: Reader, table: bv64, level: nat, index: nat, user: bool, start: nat, lo: nat, hi: nat,
                     end: nat, below: Option<bool>)
    requires 1 <= level <= 4 && start <= lo < hi <= end
    requires HarmlessRange(read, table, level, user, start, lo)
    requires forall a: nat :: lo <= a < hi ==> (a / Span(level)) % 512 == index
    requires Descends(level, read(table, index)) ==>
      var e := read(table, index).value;
      Decides(read, TableAddress(e), level - 1, user && User(e), lo, hi, below)
    ensures
      var verdict := EntryVerdict(level, read(table, index), user, below);
      && (verdict == Some(false) ==> HarmlessRange(read, table, level, user, start, hi))
      && (verdict != Some(false) ==> Decides(read, table, level, user, start, end, verdict))
  {
    hide EntryVerdict, FirstBad;
    var verdict := EntryVerdict(level, read(table, index), user, below);
    EntryDecides(read, table, level, index, user, lo, hi, below);
    DecidesAfterHarmless(read, table, level, user, start, lo, hi, verdict);
    if verdict != Some(false) {
      DecidesPrefix(read, table, level, user, start, hi, end, verdict);
    }
  }

  lemma FirstEntry(level: nat, prefix: nat, start: nat, end: nat)
    requires 1 <= level <= 4 && InTable(level, prefix, start, end)
    ensures
      var tableStart, span := prefix * (512 * Span(level)), Span(level);
      && (start - tableStart) / span <= (end - 1 - tableStart) / span
      && Range(level, prefix, start, end, (start - tableStart) / span).0 == start
  {
    var tableStart, span := prefix * (512 * Span(level)), Span(level);
    Multiples(span, (end - 1 - tableStart) / span, (start - tableStart) / span);
  }

  // The entries in index order cover the range without gaps.
  lemma NextEntry(level: nat, prefix: nat, start: nat, end: nat, index: nat)
    requires 1 <= level <= 4 && InTable(level, prefix, start, end)
    requires Touches(level, prefix, start, end, index)
    ensures index < 512 && index * Span(level) >= 0
    ensures
      var (lo, hi) := Range(level, prefix, start, end, index);
      var last := (end - 1 - prefix * (512 * Span(level))) / Span(level);
      && start <= lo < hi <= end
      && if index < last then hi == Range(level, prefix, start, end, index + 1).0 else hi == end
  {
    var tableStart := prefix * (512 * Span(level));
    Between(Span(level), start - tableStart, end - 1 - tableStart, index);
  }

  /** `range_overlaps_supervisor`: refuses an empty or out-of-bounds range, else decides it. */
  method RangeOverlapsSupervisor(root: bv64, start: nat, end: nat, read: Reader) returns (r: Option<bool>)
    ensures start >= end || end > 0x8000_0000_0000 ==> r == None
    ensures start < end <= 0x8000_0000_0000 ==>
      && (r == Some(false) <==> HarmlessRange(read, root, 4, true, start, end))
      && (r == Some(true) <==> exists a: nat :: FirstBad(read, root, 4, true, start, end, a, Leaf(false)))
      && (r == None <==> exists a: nat :: FirstBad(read, root, 4, true, start, end, a, Unreadable))
    // when no read fails, the answer is whether some address of the range is a supervisor page
    ensures start < end <= 0x8000_0000_0000 && AllReadable(read) ==>
      && r.Some?
      && (r.value <==> exists a: nat :: start <= a < end && Translate(read, root, 4, a, true) == Leaf(false))
  {
    if start >= end || end > USER_ADDRESS_END {
      return None;
    }
    r := Walk(root, 4, 0, 0, start, end, true, read);
    forall q, p |
      Decides(read, root, 4, true, start, end, q) && Decides(read, root, 4, true, start, end, p) && q != Some(false)
      ensures q == p
    {
      DecidesUnique(read, root, 4, true, start, end, q, p);
    }
    assert Decides(read, root, 4, true, start, end, r);
    assert HarmlessRange(read, root, 4, true, start, end) ==> Decides(read, root, 4, true, start, end, Some(false));
    assert (exists a: nat :: FirstBad(read, root, 4, true, start, end, a, Leaf(false))) ==>
      Decides(read, root, 4, true, start, end, Some(true));
    assert (exists a: nat :: FirstBad(read, root, 4, true, start, end, a, Unreadable)) ==>
      Decides(read, root, 4, true, start, end, None);
    if AllReadable(read) {
      ReadableAnswer(read, root, start, end, r);
    }
  }

  ghost predicate AllReadable(read: Reader) {
    forall t: bv64, i: nat :: read(t, i).Some?
  }

  lemma {:induction false} AlwaysReadable(read: Reader, table: bv64, level: nat, addr: nat, user: bool)
    requires 1 <= level <= 4 && AllReadable(read)
    ensures Translate(read, table, level, addr, user) != Unreadable
    decreases level
  {
    var e := read(table, (addr / Span(level)) % 512).value;
    if level > 1 {
      AlwaysReadable(read, TableAddress(e), level - 1, addr, user && User(e));
    }
  }

  lemma ReadableAnswer(read: Reader, root: bv64, start: nat, end: nat, r: Option<bool>)
    requires AllReadable(read) && Decides(read, root, 4, true, start, end, r)
    ensures r.Some?
    ensures r.value <==> exists a: nat :: start <= a < end && Translate(read, root, 4, a, true) == Leaf(false)
  {
    forall a: nat ensures Translate(read, root, 4, a, true) != Unreadable {
      AlwaysReadable(read, root, 4, a, true);
    }
    if r == Some(true) {
      var a: nat :| FirstBad(read, root, 4, true, start, end, a, Leaf(false));
      assert start <= a < end && Translate(read, root, 4, a, true) == Leaf(false);
    }
  }

  // Memory in which the first entry of a table cannot be read and all others are present without the user bit.
  const FIRST_UNREADABLE: Reader := (t: bv64, i: nat) => if i == 0 then None else Some(1)

  /** At this input there is no answer although a supervisor page lies in the range. */
  lemma UnreadableBelowSupervisor()
    ensures Decides(FIRST_UNREADABLE, 0, 4, true, 0, 0x100_0000_0000, None)
    ensures Translate(FIRST_UNREADABLE, 0, 4, 0x80_4020_1000, true) == Leaf(false)
  {
    var read, addr := FIRST_UNREADABLE, 0x80_4020_1000;
    assert FirstBad(read, 0, 4, true, 0, 0x100_0000_0000, 0, Unreadable);
    assert Present(1) && !User(1) && !Huge(1) && TableAddress(1) == 0;
    assert Translate(read, 0, 1, addr, false) == Leaf(false);
    assert Translate(read, 0, 2, addr, false) == Leaf(false);
    assert Translate(read, 0, 3, addr, false) == Leaf(false);
  }
}
