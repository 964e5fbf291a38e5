/**
 The file allocation table of kernel/src/fs/fat.rs: where `mount` places things on the volume, and
 the packed table entries of FAT12, FAT16 and FAT32 (Microsoft FAT32 File System Specification 1.03,
 "FAT Data Structure" and "FAT Type Determination"), in all copies of the table.
 */
module FatTable {
  import opened Base
  import opened Bytes

  datatype FatType = Fat12 | Fat16 | Fat32

  // ---------------------------------------------------------------- entries in the bytes of one table

  // The byte at which the entry of a cluster begins.
  function EntryOffset(t: FatType, c: nat): nat {
    match t
    case Fat12 => c * 3 / 2
    case Fat16 => c * 2
    case Fat32 => c * 4
  }

  function EntryWidth(t: FatType): nat {
    if t == Fat32 then 4 else 2
  }

  predicate Fits(t: FatType, table: seq<byte>, c: nat) {
    EntryOffset(t, c) + EntryWidth(t) <= |table|
  }

  // The 16 or 32 bits in which an entry is stored.
  function Raw(t: FatType, table: seq<byte>, c: nat): nat
    requires Fits(t, table, c)
  {
    var o := EntryOffset(t, c);
    if t == Fat32 then Le32(table[o], table[o + 1], table[o + 2], table[o + 3]) else Le16(table[o], table[o + 1])
  }

  // `read_fat_entry`: FAT12 takes twelve of sixteen bits, FAT32 drops the four reserved ones.
  function EntryAt(t: FatType, table: seq<byte>, c: nat): nat
    requires Fits(t, table, c)
  {
    var raw := Raw(t, table, c);
    match t
    case Fat12 => if c % 2 == 0 then raw % 0x1000 else raw / 0x10
    case Fat16 => raw
    case Fat32 => raw % 0x1000_0000
  }

  /**
   Where entries lie: two FAT12 entries share three bytes, FAT16 entries are two bytes, and FAT32 entries
   are four bytes of which the top four bits do not count.
   */
  lemma EntryBytes(t: FatType, table: seq<byte>, c: nat)
    requires Fits(t, table, c)
    ensures t == Fat12 && c % 2 == 0 ==>
      && c / 2 * 3 + 2 <= |table|
      && var b0: int, b1: int := table[c / 2 * 3], table[c / 2 * 3 + 1];
      EntryAt(t, table, c) == b0 + 0x100 * (b1 % 0x10)
    ensures t == Fat12 && c % 2 == 1 ==>
      && c / 2 * 3 + 3 <= |table|
      && var b1: int, b2: int := table[c / 2 * 3 + 1], table[c / 2 * 3 + 2];
      EntryAt(t, table, c) == b1 / 0x10 + 0x10 * b2
    ensures t == Fat16 ==>
      && 2 * c + 2 <= |table|
      && var b0: int, b1: int := table[2 * c], table[2 * c + 1];
      EntryAt(t, table, c) == b0 + 0x100 * b1
    ensures t == Fat32 ==>
      && 4 * c + 4 <= |table|
      && var b0: int, b1: int, b2: int, b3: int := table[4 * c], table[4 * c + 1], table[4 * c + 2], table[4 * c + 3];
      EntryAt(t, table, c) == b0 + 0x100 * b1 + 0x1_0000 * b2 + 0x100_0000 * (b3 % 0x10)
  {
    if t == Fat12 {
      Offset12(c);
      var o := EntryOffset(t, c);
      if c % 2 == 0 { Lower(table[o], table[o + 1]); } else { Upper(table[o], table[o + 1]); }
    } else if t == Fat32 {
      var b0: int, b1: int, b2: int := table[4 * c], table[4 * c + 1], table[4 * c + 2];
      TopBits(b0 + 0x100 * b1 + 0x1_0000 * b2, table[4 * c + 3]);
    }
  }

  lemma TopBits(low: nat, top: byte)
    requires low < 0x100_0000
    ensures (low + 0x100_0000 * top) % 0x1000_0000 == low + 0x100_0000 * (top % 0x10)
  {
    var q := top / 0x10;
    assert low + 0x100_0000 * top == 0x1000_0000 * q + (low + 0x100_0000 * (top % 0x10));
  }

  // What of a value an entry can hold.
  function Masked(t: FatType, v: nat): nat {
    match t
    case Fat12 => v % 0x1000
    case Fat16 => v % 0x1_0000
    case Fat32 => v % 0x1000_0000
  }

  // The bits `write_fat_entry` stores: the neighbour's nibble and the reserved bits are kept.
  function Merged(t: FatType, c: nat, raw: nat, v: nat): nat {
    match t
    case Fat12 => if c % 2 == 0 then raw / 0x1000 * 0x1000 + v % 0x1000 else raw % 0x10 + v % 0x1000 * 0x10
    case Fat16 => v % 0x1_0000
    case Fat32 => raw / 0x1000_0000 * 0x1000_0000 + v % 0x1000_0000
  }

  function Encoded(t: FatType, raw: nat): (b: seq<byte>)
    requires raw < if t == Fat32 then 0x1_0000_0000 else 0x1_0000
    ensures |b| == EntryWidth(t)
  {
    if t == Fat32 then ToLe32(raw) else ToLe16(raw)
  }

  lemma RawBound(t: FatType, table: seq<byte>, c: nat, v: nat)
    requires Fits(t, table, c)
    ensures Raw(t, table, c) < if t == Fat32 then 0x1_0000_0000 else 0x1_0000
    ensures Merged(t, c, Raw(t, table, c), v) < if t == Fat32 then 0x1_0000_0000 else 0x1_0000
  {
  }

  function WithEntry(t: FatType, table: seq<byte>, c: nat, v: nat): (r: seq<byte>)
    requires Fits(t, table, c)
    ensures |r| == |table|
  {
    RawBound(t, table, c, v);
    Splice(table, EntryOffset(t, c), Encoded(t, Merged(t, c, Raw(t, table, c), v)))
  }

  /** Reading any entry after writing one: the masked value where it was written, else the old value. */
  lemma WriteThenRead(t: FatType, table: seq<byte>, c: nat, v: nat, other: nat)
    requires Fits(t, table, c) && Fits(t, table, other)
    ensures EntryAt(t, WithEntry(t, table, c, v), other)
         == if other == c then Masked(t, v) else EntryAt(t, table, other)
  {
    match t {
      case Fat12 => WriteThenRead12(table, c, v, other);
      case Fat16 => WriteThenRead16(table, c, v, other);
      case Fat32 => WriteThenRead32(table, c, v, other);
    }
  }

  lemma BytesAfter(t: FatType, table: seq<byte>, c: nat, v: nat, i: nat)
    requires Fits(t, table, c) && i < |table|
    ensures Merged(t, c, Raw(t, table, c), v) < if t == Fat32 then 0x1_0000_0000 else 0x1_0000
    ensures
      var o := EntryOffset(t, c);
      var b := Encoded(t, Merged(t, c, Raw(t, table, c), v));
      WithEntry(t, table, c, v)[i] == if o <= i < o + |b| then b[i - o] else table[i]
  {
    RawBound(t, table, c, v);
    SpliceAt(table, EntryOffset(t, c), Encoded(t, Merged(t, c, Raw(t, table, c), v)), i);
  }

  lemma WriteThenRead12(table: seq<byte>, c: nat, v: nat, other: nat)
    requires Fits(Fat12, table, c) && Fits(Fat12, table, other)
    ensures EntryAt(Fat12, WithEntry(Fat12, table, c, v), other)
         == if other == c then v % 0x1000 else EntryAt(Fat12, table, other)
  {
    hide WithEntry, Merged, EntryOffset, Raw, Le16;
    var raw := Raw(Fat12, table, c);
    RawBound(Fat12, table, c, v);
    RawAfter12(table, c, v, other);
    if other == c {
      OwnNibbles(c, raw, v);
    } else if EntryOffset(Fat12, other) == EntryOffset(Fat12, c) + 1 {
      Neighbours(c, other);
      HighNibble(c, raw, v, table[EntryOffset(Fat12, other) + 1]);
    } else if EntryOffset(Fat12, c) == EntryOffset(Fat12, other) + 1 {
      Neighbours(c, other);
      LowNibble(c, raw, v, table[EntryOffset(Fat12, other)]);
    }
  }

  // The sixteen bits of any FAT12 entry after a write, and before it in terms of those written over.
  lemma RawAfter12(table: seq<byte>, c: nat, v: nat, other: nat)
    requires Fits(Fat12, table, c) && Fits(Fat12, table, other)
    ensures
      var o, p := EntryOffset(Fat12, other), EntryOffset(Fat12, c);
      var raw := Raw(Fat12, table, c);
      var next := Merged(Fat12, c, raw, v);
      var old16, new16 := Raw(Fat12, table, other), Raw(Fat12, WithEntry(Fat12, table, c, v), other);
      if other == c then new16 == next
      else if o == p + 1 then old16 == Le16(raw / 256, table[o + 1]) && new16 == Le16(next / 256, table[o + 1])
      else if p == o + 1 then old16 == Le16(table[o], raw % 256) && new16 == Le16(table[o], next % 256)
      else new16 == old16
  {
    hide WithEntry, Merged, EntryOffset, Le16, ToLe16;
    var o, p := EntryOffset(Fat12, other), EntryOffset(Fat12, c);
    BytesAfter(Fat12, table, c, v, o);
    BytesAfter(Fat12, table, c, v, o + 1);
    RawBound(Fat12, table, c, v);
    Neighbours(c, other);
    Split16(table[p], table[p + 1]);
    Bytes16(Merged(Fat12, c, Raw(Fat12, table, c), v));
  }

  lemma Split16(b0: byte, b1: byte)
    ensures Le16(b0, b1) % 256 == b0 && Le16(b0, b1) / 256 == b1
  {
  }

  lemma Bytes16(v: nat)
    requires v < 0x1_0000
    ensures ToLe16(v) == [v % 256, v / 256]
  {
  }

  lemma Offset12(c: nat)
    ensures c * 3 / 2 == 3 * (c / 2) + c % 2
  {
    assert c == 2 * (c / 2) + c % 2;
  }

  // Only an even FAT12 entry and the odd one after it share a byte.
  lemma Neighbours(c: nat, other: nat)
    ensures
      var o, p := EntryOffset(Fat12, other), EntryOffset(Fat12, c);
      && (o == p <==> other == c)
      && (o == p + 1 ==> other == c + 1 && c % 2 == 0)
      && (p == o + 1 ==> c == other + 1 && other % 2 == 0)
  {
    Offset12(c);
    Offset12(other);
  }

  lemma OwnNibbles(c: nat, raw: nat, v: nat)
    requires raw < 0x1_0000
    ensures
      var next := Merged(Fat12, c, raw, v);
      (if c % 2 == 0 then next % 0x1000 else next / 0x10) == v % 0x1000
  {
  }

  // Writing an even entry keeps the nibble of its high byte that the next entry uses.
  lemma HighNibble(c: nat, raw: nat, v: nat, after: byte)
    requires raw < 0x1_0000 && c % 2 == 0
    ensures Le16(Merged(Fat12, c, raw, v) / 256, after) / 0x10 == Le16(raw / 256, after) / 0x10
  {
    var next := raw / 0x1000 * 0x1000 + v % 0x1000;
    assert next / 0x1000 == raw / 0x1000;
    Nibble(next);
    Nibble(raw);
    Upper(next / 256, after);
    Upper(raw / 256, after);
  }

  lemma Nibble(x: nat)
    ensures x / 256 / 0x10 == x / 0x1000
  {
  }

  lemma Upper(b0: nat, b1: nat)
    ensures Le16(b0, b1) / 0x10 == b0 / 0x10 + 0x10 * b1
  {
  }

  // Writing an odd entry keeps the nibble of its low byte that the entry before uses.
  lemma LowNibble(c: nat, raw: nat, v: nat, before: byte)
    requires raw < 0x1_0000 && c % 2 == 1
    ensures Le16(before, Merged(Fat12, c, raw, v) % 256) % 0x1000 == Le16(before, raw % 256) % 0x1000
  {
    var next := raw % 0x10 + v % 0x1000 * 0x10;
    assert next % 0x10 == raw % 0x10;
    Lower(before, next % 256);
    Lower(before, raw % 256);
    LowBits(next);
    LowBits(raw);
  }

  lemma LowBits(x: nat)
    ensures x % 256 % 0x10 == x % 0x10
  {
  }

  lemma Lower(b0: byte, b1: nat)
    ensures Le16(b0, b1) % 0x1000 == b0 + 256 * (b1 % 0x10)
  {
    var q := b1 / 0x10;
    assert Le16(b0, b1) == 0x1000 * q + (b0 + 256 * (b1 % 0x10));
  }

  lemma WriteThenRead16(table: seq<byte>, c: nat, v: nat, other: nat)
    requires Fits(Fat16, table, c) && Fits(Fat16, table, other)
    ensures EntryAt(Fat16, WithEntry(Fat16, table, c, v), other)
         == if other == c then v % 0x1_0000 else EntryAt(Fat16, table, other)
  {
    hide WithEntry, ToLe16;
    BytesAfter(Fat16, table, c, v, other * 2);
    BytesAfter(Fat16, table, c, v, other * 2 + 1);
  }

  lemma RawAfter32(table: seq<byte>, c: nat, v: nat, other: nat)
    requires Fits(Fat32, table, c) && Fits(Fat32, table, other)
    ensures Raw(Fat32, WithEntry(Fat32, table, c, v), other)
         == if other == c then Merged(Fat32, c, Raw(Fat32, table, c), v) else Raw(Fat32, table, other)
  {
    hide WithEntry, Merged, ToLe32;
    RawBound(Fat32, table, c, v);
    BytesAfter(Fat32, table, c, v, other * 4);
    BytesAfter(Fat32, table, c, v, other * 4 + 1);
    BytesAfter(Fat32, table, c, v, other * 4 + 2);
    BytesAfter(Fat32, table, c, v, other * 4 + 3);
  }

  lemma WriteThenRead32(table: seq<byte>, c: nat, v: nat, other: nat)
    requires Fits(Fat32, table, c) && Fits(Fat32, table, other)
    ensures EntryAt(Fat32, WithEntry(Fat32, table, c, v), other)
         == if other == c then v % 0x1000_0000 else EntryAt(Fat32, table, other)
  {
    hide WithEntry, Raw;
    RawAfter32(table, c, v, other);
  }

  /** The four reserved bits of a FAT32 entry survive a write. */
  lemma ReservedBitsKept(table: seq<byte>, c: nat, v: nat)
    requires Fits(Fat32, table, c)
    ensures Raw(Fat32, WithEntry(Fat32, table, c, v), c) / 0x1000_0000 == Raw(Fat32, table, c) / 0x1000_0000
  {
    hide WithEntry, Raw;
    RawAfter32(table, c, v, c);
  }
}
