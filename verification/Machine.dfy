/**
 Physical memory and the frame allocator of kernel/src/mm/frame_allocator.rs, with the two
 operations of the page-table mapper that address spaces use.
 */
module Machine {
  import opened Base
  import opened PageTables

  const FRAME_SIZE: nat := 4096

  // ---------------------------------------------------------------- usable frames

  datatype Region = Region(start: nat, end: nat, usable: bool)

  // First and one past the last whole frame of a region.
  function First(r: Region): nat { (r.start + FRAME_SIZE - 1) / FRAME_SIZE }

  function Last(r: Region): nat { r.end / FRAME_SIZE }

  function RegionFrames(r: Region): (fs: seq<nat>)
    ensures forall i :: 0 <= i < |fs| ==> fs[i] == First(r) + i && fs[i] < Last(r)
    ensures |fs| == if r.usable then Max(0, Last(r) - First(r)) else 0
  {
    if r.usable && First(r) < Last(r) then seq(Last(r) - First(r), i requires 0 <= i => First(r) + i) else []
  }

  function UsableFrames(regions: seq<Region>): seq<nat> {
    if regions == [] then [] else RegionFrames(regions[0]) + UsableFrames(regions[1..])
  }

  /** The usable frames are those that lie in a usable region with all their bytes. */
  lemma {:induction false} UsableExactly(regions: seq<Region>, f: nat)
    ensures f in UsableFrames(regions) <==> exists i :: 0 <= i < |regions| && Holds(regions[i], f)
  {
    if regions != [] {
      var rest := regions[1..];
      UsableExactly(rest, f);
      HeldFrame(regions[0], f);
      if f in UsableFrames(rest) {
        var i :| 0 <= i < |rest| && Holds(rest[i], f);
        assert Holds(regions[i + 1], f);
      }
      if i :| 1 <= i < |regions| && Holds(regions[i], f) {
        assert Holds(rest[i - 1], f);
      }
    }
  }

  predicate Holds(r: Region, f: nat) {
    r.usable && r.start <= f * 4096 && (f + 1) * 4096 <= r.end
  }

  lemma HeldFrame(r: Region, f: nat)
    ensures f in RegionFrames(r) <==> Holds(r, f)
  {
    var fs := RegionFrames(r);
    if Holds(r, f) {
      assert fs[f - First(r)] == f;
    }
  }

  // Regions share no byte.
  ghost predicate Disjoint(regions: seq<Region>) {
    forall i, j :: 0 <= i < j < |regions| ==> regions[i].end <= regions[j].start || regions[j].end <= regions[i].start
  }

  lemma LastBeforeFirst(a: Region, b: Region)
    requires a.end <= b.start
    ensures Last(a) <= First(b)
  {
  }

  lemma {:induction false} NotElsewhere(r: Region, regions: seq<Region>, f: nat)
    requires f in RegionFrames(r)
    requires forall i :: 0 <= i < |regions| ==> r.end <= regions[i].start || regions[i].end <= r.start
    ensures f !in UsableFrames(regions)
  {
    if regions != [] {
      NotElsewhere(r, regions[1..], f);
      if r.end <= regions[0].start { LastBeforeFirst(r, regions[0]); } else { LastBeforeFirst(regions[0], r); }
    }
  }

  /** No frame of disjoint regions is handed out twice by counting through them. */
  lemma {:induction false} UsableDistinct(regions: seq<Region>)
    requires Disjoint(regions)
    ensures Distinct(UsableFrames(regions))
  {
    if regions != [] {
      var head, rest := RegionFrames(regions[0]), UsableFrames(regions[1..]);
      UsableDistinct(regions[1..]);
      forall f | f in head ensures f !in rest {
        NotElsewhere(regions[0], regions[1..], f);
      }
      DistinctJoin(head, rest);
    }
  }

  lemma DistinctJoin(a: seq<nat>, b: seq<nat>)
    requires Distinct(a) && Distinct(b) && forall f :: f in a ==> f !in b
    ensures Distinct(a + b)
  {
    var s := a + b;
    forall i, j | 0 <= i < j < |s| ensures s[i] != s[j] {
      if i < |a| && |a| <= j {
        assert s[i] in a && s[j] in b;
      }
    }
  }

  // ---------------------------------------------------------------- the machine

  class Machine {
    const usable: seq<nat>
    const kernel: Kernel
    var memory: Memory
    var next: nat
    var recycled: seq<nat>

    ghost predicate Valid()
      reads this
    {
      && Distinct(usable) && next <= |usable|
      && Distinct(recycled) && Elements(recycled) <= Elements(usable[..next])
      && kernel.Closed(memory) && kernel.All() !! Free()
    }

    // Frames that the allocator can still give out, and those it has given out.
    ghost function Free(): set<nat>
      requires next <= |usable|
      reads this
    {
      Elements(recycled) + Elements(usable[next..])
    }

    ghost function Outstanding(): set<nat>
      requires next <= |usable|
      reads this
    {
      Elements(usable[..next]) - Elements(recycled)
    }

    constructor (regions: seq<Region>, kernel: Kernel, memory: Memory)
      requires Disjoint(regions) && kernel.Closed(memory) && kernel.All() !! Elements(UsableFrames(regions))
      ensures Valid() && Outstanding() == {} && Free() == Elements(UsableFrames(regions))
      ensures this.kernel == kernel && this.memory == memory
    {
      UsableDistinct(regions);
      this.usable := UsableFrames(regions);
      this.kernel := kernel;
      this.memory := memory;
      next := 0;
      recycled := [];
      new;
      assert usable[0..] == usable && usable[..0] == [];
    }

    /** `allocate_frame`: a frame that was free, as long as there is one. */
    method Allocate() returns (r: Option<nat>)
      requires Valid()
      modifies this`next, this`recycled
      ensures Valid()
      ensures r.None? <==> old(Free()) == {}
      ensures r.None? ==> next == old(next) && recycled == old(recycled) && Outstanding() == old(Outstanding())
      ensures r.Some? ==> r.value in old(Free()) && Free() == old(Free()) - {r.value}
      ensures r.Some? ==> Outstanding() == old(Outstanding()) + {r.value}
    {
      if recycled != [] {
        var f := recycled[|recycled| - 1];
        TakeLast(recycled);
        TakenRecycled(usable, next, recycled);
        recycled := recycled[..|recycled| - 1];
        return Some(f);
      }
      if next < |usable| {
        TakenNext(usable, next);
        next := next + 1;
        return Some(usable[next - 1]);
      }
      assert usable[next..] == [];
      return None;
    }

    /**
     `deallocate_frame` takes any frame. The allocator stays sound exactly when the frame is given
     out, so that it is neither free already nor one it never had, and is none of the kernel's tables.
     */
    method Deallocate(f: nat)
      requires Valid()
      modifies this`recycled
      ensures recycled == old(recycled) + [f]
      ensures Free() == old(Free()) + {f} && Outstanding() == old(Outstanding()) - {f}
      ensures Valid() <==> f in old(Outstanding()) && f !in kernel.All()
    {
      hide Kernel.Closed, Kernel.All;
      recycled := recycled + [f];
      GivenBack(old(recycled), f);
      assert f in Elements(recycled) by { assert recycled[|recycled| - 1] == f; }
    }

    // Gives back several frames, one after the other.
    method DeallocateAll(frames: seq<nat>)
      requires Valid() && Distinct(frames) && Elements(frames) <= Outstanding() && Elements(frames) !! kernel.All()
      modifies this`recycled
      ensures Valid() && recycled == old(recycled) + frames
      ensures Free() == old(Free()) + Elements(frames) && Outstanding() == old(Outstanding()) - Elements(frames)
    {
      hide Kernel.Closed, Kernel.All;
      assert frames[..0] == [];
      for i := 0 to |frames|
        invariant Valid() && recycled == old(recycled) + frames[..i]
        invariant Free() == old(Free()) + Elements(frames[..i])
        invariant Outstanding() == old(Outstanding()) - Elements(frames[..i])
      {
        assert frames[..i + 1] == frames[..i] + [frames[i]];
        assert frames[i] in Elements(frames) && frames[i] !in frames[..i];
        Deallocate(frames[i]);
      }
      assert frames[..|frames|] == frames;
    }

    method ZeroFrame(f: nat)
      requires Valid() && f !in kernel.All()
      modifies this`memory
      ensures Valid() && Load(memory, f) == ZeroTable()
      ensures forall g :: g != f ==> Load(memory, g) == Load(old(memory), g)
    {
      memory := memory[f := ZeroTable()];
      KernelStays(old(memory), memory, kernel);
    }

    method CopyFrame(src: nat, dst: nat)
      requires Valid() && dst !in kernel.All()
      modifies this`memory
      ensures Valid() && Load(memory, dst) == Load(old(memory), src)
      ensures forall g :: g != dst ==> Load(memory, g) == Load(old(memory), g)
    {
      memory := memory[dst := Load(memory, src)];
      KernelStays(old(memory), memory, kernel);
    }

    method SetEntry(t: nat, i: nat, e: Entry)
      requires Valid() && t !in kernel.All() && i < 512
      modifies this`memory
      ensures Valid() && EntrySet(old(memory), memory, t, i, e)
    {
      memory := memory[t := Load(memory, t)[i := e]];
      KernelStays(old(memory), memory, kernel);
    }

    // The mapper's walk to the table that holds a page's entry.
    method FindTable(root: nat, page: Path, ghost serves: map<nat, Path>, ghost tables: seq<nat>) returns (t: nat)
      requires IsPage(page) && IsWalk(memory, serves, root, page, tables) && |tables| == 4
      ensures t == tables[3]
    {
      t := root;
      for j := 0 to 3
        invariant t == tables[j]
      {
        assert Opens(Load(memory, tables[j])[page[j]], tables[j + 1]);
        t := Load(memory, t)[page[j]].frame;
      }
    }

    /**
     The mapper's `map_to_with_table_flags`, where every table on the way exists with all rights
     (so that it has no table to create and no rights to add): it sets an unused entry.
     */
    method MapTo(root: nat, page: Path, frame: nat, flags: Flags, ghost serves: map<nat, Path>, ghost tables: seq<nat>)
      returns (ok: bool)
      requires Valid() && IsPage(page) && IsWalk(memory, serves, root, page, tables) && |tables| == 4
      requires tables[3] !in kernel.All()
      modifies this`memory
      ensures Valid()
      ensures ok <==>
        Load(old(memory), tables[3])[page[3]] == Entry(0, Flags(false, false, false, false, false, 0))
      ensures ok ==> EntrySet(old(memory), memory, tables[3], page[3], Entry(frame, flags))
      ensures !ok ==> memory == old(memory)
    {
      var t := FindTable(root, page, serves, tables);
      ok := Load(memory, t)[page[3]] == UNUSED;
      if ok {
        SetEntry(t, page[3], Entry(frame, flags));
      }
    }

    /** The mapper's `unmap`: it clears an entry that maps a page. */
    method Unmap(root: nat, page: Path, ghost serves: map<nat, Path>, ghost tables: seq<nat>) returns (ok: bool)
      requires Valid() && IsPage(page) && IsWalk(memory, serves, root, page, tables) && |tables| == 4
      requires tables[3] !in kernel.All()
      modifies this`memory
      ensures Valid() && (ok <==> Links(Load(old(memory), tables[3])[page[3]]))
      ensures ok ==>
        EntrySet(old(memory), memory, tables[3], page[3], Entry(0, Flags(false, false, false, false, false, 0)))
      ensures !ok ==> memory == old(memory)
    {
      var t := FindTable(root, page, serves, tables);
      ok := Links(Load(memory, t)[page[3]]);
      if ok {
        SetEntry(t, page[3], UNUSED);
      }
    }
  }

  lemma GivenBack(s: seq<nat>, f: nat)
    requires Distinct(s)
    ensures Distinct(s + [f]) <==> f !in s
    ensures Elements(s + [f]) == Elements(s) + {f}
  {
    var t := s + [f];
    if f in s {
      var i :| 0 <= i < |s| && s[i] == f;
      assert t[i] == t[|s|];
    }
  }

  lemma TakeLast(s: seq<nat>)
    requires s != [] && Distinct(s)
    ensures Elements(s[..|s| - 1]) == Elements(s) - {s[|s| - 1]}
  {
    var k := |s| - 1;
    assert s == s[..k] + [s[k]];
    assert forall i :: 0 <= i < k ==> s[i] != s[k];
  }

  lemma TakenRecycled(usable: seq<nat>, next: nat, recycled: seq<nat>)
    requires Distinct(usable) && next <= |usable| && recycled != [] && Elements(recycled) <= Elements(usable[..next])
    ensures recycled[|recycled| - 1] !in Elements(usable[next..])
    ensures recycled[|recycled| - 1] in Elements(usable[..next])
  {
    var f := recycled[|recycled| - 1];
    assert f in Elements(recycled);
    var i :| 0 <= i < next && usable[i] == f;
    assert forall j :: next <= j < |usable| ==> usable[j] != f;
  }

  lemma TakenNext(usable: seq<nat>, next: nat)
    requires Distinct(usable) && next < |usable|
    ensures Elements(usable[next + 1..]) == Elements(usable[next..]) - {usable[next]}
    ensures Elements(usable[..next + 1]) == Elements(usable[..next]) + {usable[next]}
    ensures usable[next] !in Elements(usable[..next])
  {
    assert usable[next..] == [usable[next]] + usable[next + 1..];
    assert usable[..next + 1] == usable[..next] + [usable[next]];
  }
}
