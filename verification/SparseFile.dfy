/**
 The page list behind a tmpfs file (`Storage::Sparse` in kernel/src/fs/memfs.rs) against one flat
 byte sequence. Pages are sorted by index and may be missing; a missing page reads as zeros. The
 other form of file in the same source, `Storage::Ram`, is the flat sequence itself.
 */
module SparseFile {
  import opened Base
  import opened Bytes
  import opened MemfsTree

  const PAGE_SIZE: nat := 4096
  const ISIZE_MAX: nat := 0x7fff_ffff_ffff_ffff

  // ---------------------------------------------------------------- the page list

  ghost predicate Sorted(pages: seq<Page>) {
    && (forall i :: 0 <= i < |pages| ==> |pages[i].data| == PAGE_SIZE)
    && (forall i, j :: 0 <= i < j < |pages| ==> pages[i].index < pages[j].index)
  }

  // Where `binary_search_by_key` finds the page, or would insert it.
  function Slot(pages: seq<Page>, index: nat): (k: nat)
    ensures k <= |pages|
    ensures forall j :: 0 <= j < k ==> pages[j].index < index
    ensures k < |pages| ==> pages[k].index >= index
  {
    if pages == [] || pages[0].index >= index then 0
    else 1 + Slot(pages[1..], index)
  }

  predicate Has(pages: seq<Page>, index: nat) {
    var k := Slot(pages, index);
    k < |pages| && pages[k].index == index
  }

  lemma SlotIs(pages: seq<Page>, k: nat)
    requires Sorted(pages) && k < |pages|
    ensures Slot(pages, pages[k].index) == k
  {
  }

  // The page with an index, if there is one.
  function Lookup(pages: seq<Page>, index: nat): (r: Option<seq<byte>>)
    ensures Sorted(pages) && r.Some? ==> |r.value| == PAGE_SIZE
  {
    if Has(pages, index) then Some(pages[Slot(pages, index)].data) else None
  }

  lemma LookupIs(pages: seq<Page>, k: nat)
    requires Sorted(pages) && k < |pages|
    ensures Lookup(pages, pages[k].index) == Some(pages[k].data)
  {
    SlotIs(pages, k);
  }

  lemma LookupMissing(pages: seq<Page>, index: nat)
    requires forall j :: 0 <= j < |pages| ==> pages[j].index != index
    ensures Lookup(pages, index) == None
  {
  }

  function ByteOf(page: Option<seq<byte>>, i: nat): byte
    requires page.Some? ==> |page.value| == PAGE_SIZE
  {
    match page
    case None => 0
    case Some(data) => data[i % PAGE_SIZE]
  }

  ghost function ByteAt(pages: seq<Page>, i: nat): byte
    requires Sorted(pages)
  {
    ByteOf(Lookup(pages, i / PAGE_SIZE), i)
  }

  // The bytes a file holds.
  ghost function Flat(size: nat, pages: seq<Page>): (s: seq<byte>)
    requires Sorted(pages)
    ensures |s| == size
  {
    seq(size, i requires 0 <= i < size => ByteAt(pages, i))
  }

  // Pages are sorted, none lies wholly beyond the end, and what lies beyond the end is zero.
  ghost predicate ValidFile(size: nat, pages: seq<Page>) {
    && Sorted(pages)
    && (forall k :: 0 <= k < |pages| ==> pages[k].index * PAGE_SIZE < size)
    && (forall i: nat :: i >= size ==> ByteAt(pages, i) == 0)
  }

  function WithPage(pages: seq<Page>, index: nat): (r: seq<Page>)
    ensures |r| == |pages| + 1
  {
    var k := Slot(pages, index);
    pages[..k] + [Page(index, Zeros(PAGE_SIZE))] + pages[k..]
  }

  lemma WithPageLookup(pages: seq<Page>, index: nat, x: nat)
    requires Sorted(pages) && !Has(pages, index)
    ensures Sorted(WithPage(pages, index))
    ensures Lookup(WithPage(pages, index), x) == if x == index then Some(Zeros(PAGE_SIZE)) else Lookup(pages, x)
  {
    hide Slot;
    var r, k := WithPage(pages, index), Slot(pages, index);
    assert r[k] == Page(index, Zeros(PAGE_SIZE));
    assert forall j :: k <= j < |pages| ==> pages[j].index > index;
    if x == index {
      LookupIs(r, k);
    } else if Has(pages, x) {
      var j := Slot(pages, x);
      var j' := if j < k then j else j + 1;
      assert r[j'] == pages[j];
      LookupIs(r, j');
    } else {
      assert forall j :: 0 <= j < |pages| ==> pages[j].index != x by { NoSuchPage(pages, x); }
      LookupMissing(r, x);
    }
  }

  lemma NoSuchPage(pages: seq<Page>, x: nat)
    requires Sorted(pages) && !Has(pages, x)
    ensures forall j :: 0 <= j < |pages| ==> pages[j].index != x
  {
    forall j | 0 <= j < |pages| ensures pages[j].index != x {
      SlotIs(pages, j);
    }
  }

  // A fresh zero page changes no byte.
  lemma WithPageBytes(pages: seq<Page>, index: nat)
    requires Sorted(pages) && !Has(pages, index)
    ensures Sorted(WithPage(pages, index)) && Has(WithPage(pages, index), index)
    ensures forall i: nat :: ByteAt(WithPage(pages, index), i) == ByteAt(pages, i)
  {
    hide Slot, WithPage, Sorted;
    WithPageLookup(pages, index, index);
    forall i: nat ensures ByteAt(WithPage(pages, index), i) == ByteAt(pages, i) {
      WithPageLookup(pages, index, i / PAGE_SIZE);
    }
  }

  function WithData(pages: seq<Page>, k: nat, start: nat, b: seq<byte>): (r: seq<Page>)
    requires k < |pages| && start + |b| <= |pages[k].data|
    ensures |r| == |pages| && forall j :: 0 <= j < |r| ==> r[j].index == pages[j].index
  {
    pages[k := pages[k].(data := Splice(pages[k].data, start, b))]
  }

  lemma WithDataLookup(pages: seq<Page>, k: nat, start: nat, b: seq<byte>, x: nat)
    requires Sorted(pages) && k < |pages| && start + |b| <= PAGE_SIZE
    ensures Sorted(WithData(pages, k, start, b))
    ensures Lookup(WithData(pages, k, start, b), x)
         == if x == pages[k].index then Some(Splice(pages[k].data, start, b)) else Lookup(pages, x)
  {
    var r := WithData(pages, k, start, b);
    if x == pages[k].index {
      LookupIs(r, k);
    } else if Has(pages, x) {
      assert r[Slot(pages, x)] == pages[Slot(pages, x)];
      LookupIs(r, Slot(pages, x));
    } else {
      NoSuchPage(pages, x);
      LookupMissing(r, x);
    }
  }

  // Copying a chunk into one page changes exactly the bytes of the chunk.
  lemma ChunkBytes(pages: seq<Page>, k: nat, start: nat, b: seq<byte>)
    requires Sorted(pages) && k < |pages| && start + |b| <= PAGE_SIZE
    ensures
      var r := WithData(pages, k, start, b);
      var first := pages[k].index * PAGE_SIZE + start;
      && Sorted(r)
      && forall i: nat :: ByteAt(r, i) == if first <= i < first + |b| then b[i - first] else ByteAt(pages, i)
  {
    var r := WithData(pages, k, start, b);
    var x := pages[k].index;
    var first := x * PAGE_SIZE + start;
    WithDataLookup(pages, k, start, b, 0);
    forall i: nat ensures ByteAt(r, i) == if first <= i < first + |b| then b[i - first] else ByteAt(pages, i) {
      WithDataLookup(pages, k, start, b, i / PAGE_SIZE);
      LookupIs(pages, k);
      SpliceAt(pages[k].data, start, b, i % PAGE_SIZE);
      ChunkIndex(i, x, start, |b|);
    }
  }

  lemma ChunkIndex(i: nat, x: nat, start: nat, len: nat)
    requires start + len <= PAGE_SIZE
    ensures x * PAGE_SIZE + start <= i < x * PAGE_SIZE + start + len
      <==> i / PAGE_SIZE == x && start <= i % PAGE_SIZE < start + len
    ensures i / PAGE_SIZE == x ==> i % PAGE_SIZE == i - x * PAGE_SIZE
  {
  }

  // ---------------------------------------------------------------- reading

  // The part of `read` inside one page: copies it if the page is there, else leaves the zeros.
  method ReadChunk(pages: seq<Page>, position: nat, len: nat, buf: array<byte>, at: nat)
    requires Sorted(pages) && position % PAGE_SIZE + len <= PAGE_SIZE && at + len <= buf.Length && at <= position
    requires forall i :: at <= i < at + len ==> buf[i] == 0
    modifies buf
    ensures forall i :: at <= i < at + len ==> buf[i] == ByteAt(pages, i + (position - at))
    ensures forall i :: 0 <= i < at || at + len <= i < buf.Length ==> buf[i] == old(buf[i])
  {
    var start := position % PAGE_SIZE;
    var index := Slot(pages, position / PAGE_SIZE);
    if Has(pages, position / PAGE_SIZE) {
      forall i | 0 <= i < len { buf[at + i] := pages[index].data[start + i]; }
    }
    forall i | at <= i < at + len ensures buf[i] == ByteAt(pages, i + (position - at)) {
      SamePage(position, len, i - at);
    }
  }

  /** `read` on a sparse file: fills the start of the buffer and reports how much. */
  method Read(size: nat, pages: seq<Page>, offset: nat, buf: array<byte>) returns (count: nat)
    requires ValidFile(size, pages)
    modifies buf
    ensures count == Min(buf.Length, if offset < size then size - offset else 0)
    ensures count > 0 ==> buf[..count] == Flat(size, pages)[offset..offset + count]
    ensures buf[count..] == old(buf[count..])
  {
    assert Sorted(pages);
    hide ByteAt, ValidFile, Sorted;
    count := Min(buf.Length, if offset < size then size - offset else 0);
    forall i | 0 <= i < count { buf[i] := 0; }
    var copied: nat := 0;
    while copied < count
      invariant copied <= count
      invariant forall i :: 0 <= i < copied ==> buf[i] == ByteAt(pages, i + offset)
      invariant forall i :: copied <= i < count ==> buf[i] == 0
      invariant forall i :: count <= i < buf.Length ==> buf[i] == old(buf[i])
    {
      var position := offset + copied;
      var len := Min(PAGE_SIZE - position % PAGE_SIZE, count - copied);
      ReadChunk(pages, position, len, buf, copied);
      copied := copied + len;
    }
    if count > 0 {
      FlatSlice(size, pages, offset, buf[..count]);
    }
  }

  lemma FlatSlice(size: nat, pages: seq<Page>, offset: nat, s: seq<byte>)
    requires Sorted(pages) && offset + |s| <= size
    requires forall i :: 0 <= i < |s| ==> s[i] == ByteAt(pages, i + offset)
    ensures s == Flat(size, pages)[offset..offset + |s|]
  {
    hide Sorted, ByteAt;
    var t := Flat(size, pages)[offset..offset + |s|];
    assert forall i :: 0 <= i < |s| ==> t[i] == Flat(size, pages)[offset + i];
  }

  // The positions a chunk covers lie in one page, one after the other.
  lemma SamePage(position: nat, len: nat, k: nat)
    requires position % PAGE_SIZE + len <= PAGE_SIZE
    requires k < len
    ensures (position + k) / PAGE_SIZE == position / PAGE_SIZE && (position + k) % PAGE_SIZE == position % PAGE_SIZE + k
  {
  }

  // ---------------------------------------------------------------- writing

  // What is left to allocate from: grown page vectors, page frames, and the quota of the mount.
  datatype Supply = Supply(slots: nat, frames: nat, used: nat, limit: nat)
  {
    // Why one more page cannot be had, in the order the source asks.
    function Refusal(): (r: Option<FsError>)
      ensures r == Some(NoSpace) <==> used >= limit && slots > 0
      ensures r == Some(OutOfMemory) <==> slots == 0 || (frames == 0 && used < limit)
      ensures r.None? <==> slots > 0 && frames > 0 && used < limit
    {
      if slots == 0 then Some(OutOfMemory)
      else if used >= limit then Some(NoSpace)
      else if frames == 0 then Some(OutOfMemory)
      else None
    }

    // What is left once `now` pages are in use, if that many could be had.
    function Left(now: nat): Option<Supply> {
      var taken := now - used;
      if taken < 0 || taken > slots || taken > frames then None
      else Some(Supply(slots - taken, frames - taken, now, limit))
    }

    function Take(): Supply
      requires Refusal().None?
    {
      Supply(slots - 1, frames - 1, used + 1, limit)
    }
  }

  ghost predicate Written(pages: seq<Page>, pages': seq<Page>, offset: nat, b: seq<byte>) {
    && Sorted(pages) && Sorted(pages')
    && forall i: nat :: ByteAt(pages', i) == if offset <= i < offset + |b| then b[i - offset] else ByteAt(pages, i)
  }

  // A page list written at `offset` denotes the flat write.
  lemma WrittenIsFlat(size: nat, pages: seq<Page>, pages': seq<Page>, offset: nat, b: seq<byte>)
    requires ValidFile(size, pages) && Written(pages, pages', offset, b)
    ensures
      var size' := if b == [] then size else Max(size, offset + |b|);
      Flat(size', pages') == FlatWrite(Flat(size, pages), offset, b)
  {
    hide FlatWrite, ByteAt, Sorted;
    var size' := if b == [] then size else Max(size, offset + |b|);
    var s, r := Flat(size', pages'), FlatWrite(Flat(size, pages), offset, b);
    assert |s| == |r|;
    forall i | 0 <= i < |s| ensures s[i] == r[i] {
      assert s[i] == ByteAt(pages', i);
    }
  }

  lemma WrittenNothing(size: nat, pages: seq<Page>, offset: nat, b: seq<byte>)
    requires ValidFile(size, pages)
    ensures Written(pages, pages, offset, b[..0])
  {
  }

  // The page list with page `index` in it.
  function Ready(pages: seq<Page>, index: nat): seq<Page> {
    if Has(pages, index) then pages else WithPage(pages, index)
  }

  lemma ReadyBytes(pages: seq<Page>, index: nat)
    requires Sorted(pages)
    ensures Sorted(Ready(pages, index)) && Has(Ready(pages, index), index)
    ensures |Ready(pages, index)| == |pages| + if Has(pages, index) then 0 else 1
    ensures forall i: nat :: ByteAt(Ready(pages, index), i) == ByteAt(pages, i)
    ensures forall k :: 0 <= k < |Ready(pages, index)| ==>
      Ready(pages, index)[k].index == index || Ready(pages, index)[k] in pages
  {
    if !Has(pages, index) {
      WithPageBytes(pages, index);
    }
  }

  // One page of a write: the page is had if missing, then the chunk is copied into it.
  lemma ChunkWritten(size: nat, pages: seq<Page>, size1: nat, pages1: seq<Page>, offset: nat, b: seq<byte>,
                     written: nat, count: nat)
    requires ValidFile(size, pages) && ValidFile(size1, pages1) && written + count <= |b| && 0 < count
    requires Written(pages, pages1, offset, b[..written])
    requires (offset + written) % PAGE_SIZE + count <= PAGE_SIZE
    requires size1 >= size && (written > 0 ==> size1 >= offset + written)
    ensures
      var more := Ready(pages1, (offset + written) / PAGE_SIZE);
      var k := Slot(more, (offset + written) / PAGE_SIZE);
      && Sorted(more) && k < |more|
      && |more| == |pages1| + (if Has(pages1, (offset + written) / PAGE_SIZE) then 0 else 1)
      && var pages2 := WithData(more, k, (offset + written) % PAGE_SIZE, b[written..written + count]);
      ValidFile(Max(size1, offset + written + count), pages2) && Written(pages, pages2, offset, b[..written + count])
  {
    hide ByteAt, WithData, Ready, Slot, Lookup;
    var index, start := (offset + written) / PAGE_SIZE, (offset + written) % PAGE_SIZE;
    var more := Ready(pages1, index);
    ReadyBytes(pages1, index);
    var k := Slot(more, index);
    ChunkBytes(more, k, start, b[written..written + count]);
    var pages2 := WithData(more, k, start, b[written..written + count]);
    assert index * PAGE_SIZE + start == offset + written;
  }

  /**
   `write_data` on a sparse file. It reports n bytes; the file is then as after a flat write of
   the first n, and it stopped early only where a page was missing and could not be had.
   */
  method WriteData(size: nat, pages: seq<Page>, supply: Supply, offset: nat, buf: seq<byte>)
    returns (size': nat, pages': seq<Page>, supply': Supply, r: Result<nat, FsError>)
    requires ValidFile(size, pages)
    ensures ValidFile(size', pages')
    ensures r.Err? ==> size' == size && pages' == pages && supply' == supply
    ensures r.Ok? ==> r.value <= |buf| && Flat(size', pages') == FlatWrite(Flat(size, pages), offset, buf[..r.value])
    ensures |pages'| == |pages| + (supply'.used - supply.used)
    ensures supply.used <= supply'.used && (supply.used < supply'.used ==> supply'.used <= supply.limit)
    ensures supply.Left(supply'.used) == Some(supply')
    ensures buf == [] ==> r == Ok(0)
    ensures buf != [] && offset + |buf| > ISIZE_MAX ==> r == Err(FileTooLarge)
    ensures buf != [] && offset + |buf| <= ISIZE_MAX ==>
      match r
      case Ok(n) => 0 < n && (n < |buf| ==> supply'.Refusal().Some? && !Has(pages', (offset + n) / PAGE_SIZE))
      case Err(e) => supply.Refusal() == Some(e) && !Has(pages, offset / PAGE_SIZE)
  {
    hide ValidFile, Written, WithData, Ready, Slot, Has, FlatWrite;
    size', pages', supply' := size, pages, supply;
    WrittenNothing(size, pages, offset, buf);
    if buf == [] {
      WrittenIsFlat(size, pages, pages, offset, buf[..0]);
      return size', pages', supply', Ok(0);
    }
    if offset + |buf| > ISIZE_MAX {
      return size', pages', supply', Err(FileTooLarge);
    }
    var written := 0;
    while written < |buf|
      invariant written <= |buf|
      invariant ValidFile(size', pages') && Written(pages, pages', offset, buf[..written])
      invariant size' == if written == 0 then size else Max(size, offset + written)
      invariant |pages'| == |pages| + (supply'.used - supply.used)
      invariant supply.used <= supply'.used && supply.Left(supply'.used) == Some(supply')
      invariant supply.used < supply'.used ==> supply'.used <= supply.limit
      invariant written == 0 ==> pages' == pages && supply' == supply
    {
      var position := offset + written;
      var index := position / PAGE_SIZE;
      if !Has(pages', index) {
        if supply'.Refusal().Some? {
          WrittenIsFlat(size, pages, pages', offset, buf[..written]);
          r := if written == 0 then Err(supply'.Refusal().value) else Ok(written);
          return;
        }
        supply' := supply'.Take();
      }
      var start := position % PAGE_SIZE;
      var count := Min(PAGE_SIZE - start, |buf| - written);
      ChunkWritten(size, pages, size', pages', offset, buf, written, count);
      pages' := Ready(pages', index);
      pages' := WithData(pages', Slot(pages', index), start, buf[written..written + count]);
      written := written + count;
      size' := Max(size', offset + written);
    }
    assert buf[..written] == buf;
    WrittenIsFlat(size, pages, pages', offset, buf);
    r := Ok(written);
  }

  // ---------------------------------------------------------------- truncating

  // `pages.retain(|page| page.index < bound)`.
  function Retained(pages: seq<Page>, bound: nat): seq<Page> {
    if pages == [] then []
    else (if pages[0].index < bound then [pages[0]] else []) + Retained(pages[1..], bound)
  }

  // On a sorted list the retained pages are those before a slot.
  lemma {:induction false} RetainedIsPrefix(pages: seq<Page>, bound: nat)
    requires Sorted(pages)
    ensures Retained(pages, bound) == pages[..Slot(pages, bound)]
    decreases |pages|
  {
    if pages != [] {
      var rest := pages[1..];
      RetainedIsPrefix(rest, bound);
      if pages[0].index >= bound {
        assert rest != [] ==> rest[0].index > bound;
        assert Retained(rest, bound) == [];
      } else {
        assert pages[..1 + Slot(rest, bound)] == [pages[0]] + rest[..Slot(rest, bound)];
      }
    }
  }

  lemma PrefixLookup(pages: seq<Page>, bound: nat, x: nat)
    requires Sorted(pages)
    ensures Sorted(pages[..Slot(pages, bound)])
    ensures Lookup(pages[..Slot(pages, bound)], x) == if x < bound then Lookup(pages, x) else None
  {
    hide Slot;
    var r := pages[..Slot(pages, bound)];
    if Has(pages, x) && x < bound {
      assert r[Slot(pages, x)] == pages[Slot(pages, x)];
      LookupIs(r, Slot(pages, x));
    } else {
      if x < bound { NoSuchPage(pages, x); }
      LookupMissing(r, x);
    }
  }

  // The pages left by a shrink to newSize: later pages dropped, the tail of the last one cleared.
  function Shrunk(pages: seq<Page>, newSize: nat): (r: seq<Page>)
    requires Sorted(pages)
    ensures |r| <= |pages|
  {
    RetainedIsPrefix(pages, (newSize + PAGE_SIZE - 1) / PAGE_SIZE);
    var kept := Retained(pages, (newSize + PAGE_SIZE - 1) / PAGE_SIZE);
    if newSize % PAGE_SIZE != 0 && Has(kept, newSize / PAGE_SIZE) then
      var slot := Slot(kept, newSize / PAGE_SIZE);
      WithData(kept, slot, newSize % PAGE_SIZE, Zeros(PAGE_SIZE - newSize % PAGE_SIZE))
    else kept
  }

  lemma RetainedBytes(pages: seq<Page>, bound: nat)
    requires Sorted(pages)
    ensures Sorted(Retained(pages, bound))
    ensures forall i: nat :: ByteAt(Retained(pages, bound), i) == if i / PAGE_SIZE < bound then ByteAt(pages, i) else 0
  {
    hide Slot, Sorted, Has;
    RetainedIsPrefix(pages, bound);
    PrefixLookup(pages, bound, 0);
    forall i: nat ensures ByteAt(Retained(pages, bound), i) == if i / PAGE_SIZE < bound then ByteAt(pages, i) else 0 {
      PrefixLookup(pages, bound, i / PAGE_SIZE);
    }
  }

  lemma MissingByte(pages: seq<Page>, i: nat)
    requires Sorted(pages) && !Has(pages, i / PAGE_SIZE)
    ensures ByteAt(pages, i) == 0
  {
  }

  lemma ShrunkByte(pages: seq<Page>, newSize: nat, i: nat)
    requires Sorted(pages)
    ensures Sorted(Shrunk(pages, newSize))
    ensures ByteAt(Shrunk(pages, newSize), i) == if i < newSize then ByteAt(pages, i) else 0
  {
    hide ByteAt, Slot, Has, Lookup, WithData, Retained;
    var x, start, bound := newSize / PAGE_SIZE, newSize % PAGE_SIZE, (newSize + PAGE_SIZE - 1) / PAGE_SIZE;
    var kept := Retained(pages, bound);
    RetainedBytes(pages, bound);
    ShrinkIndex(i, newSize);
    if start != 0 {
      if Has(kept, x) {
        HasSlot(kept, x);
        ChunkBytes(kept, Slot(kept, x), start, Zeros(PAGE_SIZE - start));
      } else if i / PAGE_SIZE == x {
        MissingByte(kept, i);
      }
    }
  }

  lemma HasSlot(pages: seq<Page>, x: nat)
    requires Has(pages, x)
    ensures Slot(pages, x) < |pages| && pages[Slot(pages, x)].index == x
  {
  }

  lemma ShrunkBytes(pages: seq<Page>, newSize: nat)
    requires Sorted(pages)
    ensures Sorted(Shrunk(pages, newSize))
    ensures forall i: nat :: ByteAt(Shrunk(pages, newSize), i) == if i < newSize then ByteAt(pages, i) else 0
    ensures forall k :: 0 <= k < |Shrunk(pages, newSize)| ==> Shrunk(pages, newSize)[k].index * PAGE_SIZE < newSize
  {
    hide ByteAt;
    ShrunkByte(pages, newSize, 0);
    forall i: nat ensures ByteAt(Shrunk(pages, newSize), i) == if i < newSize then ByteAt(pages, i) else 0 {
      ShrunkByte(pages, newSize, i);
    }
    RetainedIsPrefix(pages, (newSize + PAGE_SIZE - 1) / PAGE_SIZE);
  }

  lemma ShrinkIndex(i: nat, newSize: nat)
    ensures i < newSize ==> i / PAGE_SIZE < (newSize + PAGE_SIZE - 1) / PAGE_SIZE
    ensures newSize % PAGE_SIZE == 0 ==> (i / PAGE_SIZE < (newSize + PAGE_SIZE - 1) / PAGE_SIZE <==> i < newSize)
    ensures newSize % PAGE_SIZE != 0 ==> (newSize + PAGE_SIZE - 1) / PAGE_SIZE == newSize / PAGE_SIZE + 1
    ensures newSize <= i && i / PAGE_SIZE <= newSize / PAGE_SIZE ==> i / PAGE_SIZE == newSize / PAGE_SIZE
    ensures newSize == newSize / PAGE_SIZE * PAGE_SIZE + newSize % PAGE_SIZE
  {
  }

  /** `truncate` on a sparse file: the flat resize; the dropped pages give their charges back. */
  method Truncate(size: nat, pages: seq<Page>, newSize: nat)
    returns (size': nat, pages': seq<Page>, r: Result<(), FsError>)
    requires ValidFile(size, pages)
    ensures ValidFile(size', pages') && |pages'| <= |pages|
    ensures newSize > ISIZE_MAX ==> r == Err(FileTooLarge) && size' == size && pages' == pages
    ensures newSize <= ISIZE_MAX ==> r == Ok(()) && Flat(size', pages') == FlatResize(Flat(size, pages), newSize)
  {
    size', pages' := size, pages;
    if newSize > ISIZE_MAX {
      return size', pages', Err(FileTooLarge);
    }
    if newSize < size {
      ShrunkBytes(pages, newSize);
      pages' := Shrunk(pages, newSize);
    }
    size' := newSize;
    r := Ok(());
  }

  // ---------------------------------------------------------------- runs

  datatype Op =
    | WriteAt(offset: nat, data: seq<byte>)
    | Append(data: seq<byte>)
    | Resize(size: nat)

  // What the flat form holds after an operation that reported r (bytes written; 0 for a resize).
  function FlatStep(s: seq<byte>, op: Op, r: Result<nat, FsError>): seq<byte> {
    match (op, r)
    case (_, Err(_)) => s
    case (WriteAt(offset, data), Ok(n)) => if n <= |data| then FlatWrite(s, offset, data[..n]) else s
    case (Append(data), Ok(n)) => if n <= |data| then s + data[..n] else s
    case (Resize(size), Ok(_)) => FlatResize(s, size)
  }

  function FlatRun(ops: seq<Op>, reports: seq<Result<nat, FsError>>): seq<byte>
    requires |ops| == |reports|
  {
    if ops == [] then []
    else
      var k := |ops| - 1;
      FlatStep(FlatRun(ops[..k], reports[..k]), ops[k], reports[k])
  }

  lemma AppendIsWriteAtEnd(s: seq<byte>, b: seq<byte>)
    ensures FlatWrite(s, |s|, b) == s + b
  {
    if b != [] {
      var grown := FlatResize(s, |s| + |b|);
      assert grown[..|s|] == s && grown[|s| + |b|..] == [];
    }
  }

  predicate Possible(op: Op, r: Result<nat, FsError>) {
    r.Ok? ==>
      match op
      case WriteAt(_, data) => r.value <= |data|
      case Append(data) => r.value <= |data|
      case Resize(n) => n <= 0x7fff_ffff_ffff_ffff && r.value == 0
  }

  method Step(op: Op, supply: Supply, size: nat, pages: seq<Page>)
    returns (size': nat, pages': seq<Page>, report: Result<nat, FsError>)
    requires ValidFile(size, pages)
    ensures ValidFile(size', pages') && Possible(op, report)
    ensures Flat(size', pages') == FlatStep(Flat(size, pages), op, report)
  {
    hide FlatWrite;
    match op {
      case WriteAt(offset, data) =>
        var left;
        size', pages', left, report := WriteData(size, pages, supply, offset, data);
      case Append(data) =>
        var left;
        size', pages', left, report := WriteData(size, pages, supply, size, data);
        if report.Ok? { AppendIsWriteAtEnd(Flat(size, pages), data[..report.value]); }
      case Resize(n) =>
        var done;
        size', pages', done := Truncate(size, pages, n);
        report := if done.Ok? then Ok(0) else Err(done.error);
    }
  }

  lemma NothingRun()
    ensures ValidFile(0, []) && Flat(0, []) == FlatRun([], []) == []
  {
  }

  lemma RunMore(ops: seq<Op>, k: nat, reports: seq<Result<nat, FsError>>, report: Result<nat, FsError>)
    requires k < |ops| && |reports| == k
    ensures FlatRun(ops[..k + 1], reports + [report]) == FlatStep(FlatRun(ops[..k], reports), ops[k], report)
  {
    hide FlatStep;
    var more := reports + [report];
    assert ops[..k + 1][..k] == ops[..k] && more[..k] == reports;
  }

  /**
   Any sequence of writes, appends and truncates on a new tmpfs file, each with whatever supply
   of pages it meets, leaves the bytes the flat form would hold after the reported amounts.
   */
  method Run(ops: seq<Op>, supplies: seq<Supply>)
    returns (size: nat, pages: seq<Page>, reports: seq<Result<nat, FsError>>)
    requires |ops| == |supplies|
    ensures |reports| == |ops| && ValidFile(size, pages)
    ensures Flat(size, pages) == FlatRun(ops, reports)
    ensures forall k :: 0 <= k < |ops| ==> Possible(ops[k], reports[k])
  {
    hide FlatRun, FlatStep, Flat, Possible, Sorted;
    size, pages, reports := 0, [], [];
    NothingRun();
    assert ops[..0] == [];
    for k := 0 to |ops|
      invariant |reports| == k && ValidFile(size, pages)
      invariant Flat(size, pages) == FlatRun(ops[..k], reports)
      invariant forall j :: 0 <= j < k ==> Possible(ops[j], reports[j])
    {
      var report;
      size, pages, report := Step(ops[k], supplies[k], size, pages);
      RunMore(ops, k, reports, report);
      reports := reports + [report];
    }
    assert ops[..|ops|] == ops;
  }
}
