/**
 Address spaces (kernel/src/mm/address_space.rs). A space starts as a copy of the kernel's root
 table; before it edits a table that it inherited, it puts a private copy in its place.
 */
module AddressSpace {
  import opened Base
  import opened PageTables
  import opened Machine

  datatype MmError = OutOfFrames | MapFailed | InvalidAddress

  datatype Mapping = Mapping(page: Path, frame: nat, flags: Flags)

  // ---------------------------------------------------------------- what a space promises

  function Frames(mappings: seq<Mapping>): (fs: seq<nat>)
    ensures |fs| == |mappings| && forall i :: 0 <= i < |fs| ==> fs[i] == mappings[i].frame
  {
    seq(|mappings|, i requires 0 <= i < |mappings| => mappings[i].frame)
  }

  // All frames of a space, in the order in which they are given back.
  function AllFrames(root: nat, mappings: seq<Mapping>, tables: seq<nat>): seq<nat> {
    Frames(mappings) + tables + [root]
  }

  /** What a page leads to: its latest record, or else whatever the kernel has there. */
  ghost function Expected(m: Memory, k: Kernel, mappings: seq<Mapping>, page: Path): (nat, Entry)
    requires IsPage(page)
  {
    if mappings == [] then Reach(m, k.root, page)
    else
      var last := mappings[|mappings| - 1];
      if last.page == page then (1, Entry(last.frame, last.flags)) else Expected(m, k, mappings[..|mappings| - 1], page)
  }

  // `map_page` can put a page where this is found: nothing, or a page.
  predicate Takes(found: (nat, Entry)) {
    found.0 <= 1 && (found.1 == UNUSED || Links(found.1))
  }

  // Each record can be made after those before it.
  ghost predicate Replays(m: Memory, k: Kernel, mappings: seq<Mapping>) {
    forall i :: 0 <= i < |mappings| && IsPage(mappings[i].page) ==>
      Takes(Expected(m, k, mappings[..i], mappings[i].page))
  }

  ghost predicate Realises(m: Memory, k: Kernel, root: nat, mappings: seq<Mapping>) {
    && (forall page {:trigger Reach(m, root, page)} :: IsPage(page) ==>
          Reach(m, root, page) == Expected(m, k, mappings, page))
    && Replays(m, k, mappings)
  }

  ghost predicate SpaceOk(m: Memory, k: Kernel, root: nat, mappings: seq<Mapping>, tables: seq<nat>,
                          serves: map<nat, Path>)
  {
    && Linked(m, k, root, serves) && serves.Keys <= Elements(tables)
    && Distinct(AllFrames(root, mappings, tables)) && Elements(AllFrames(root, mappings, tables)) !! k.All()
    && (forall i :: 0 <= i < |mappings| ==> IsPage(mappings[i].page) && Settled(mappings[i].flags) == mappings[i].flags)
    && Realises(m, k, root, mappings)
  }

  // What a page's flags are for the flags it was asked to have: only the user bit is added, and the present bit
  // unless bit 9 marks the page.
  predicate AskedFor(asked: Flags, got: Flags) {
    && got.user && got.present == (asked.present || !asked.bit9)
    && got.writable == asked.writable && got.huge == asked.huge && got.bit9 == asked.bit9 && got.rest == asked.rest
  }

  ghost predicate AllAskedFor(asked: seq<Flags>, mappings: seq<Mapping>) {
    |asked| == |mappings| && forall i :: 0 <= i < |asked| ==> AskedFor(asked[i], mappings[i].flags)
  }

  // The latest record of a page.
  function Latest(mappings: seq<Mapping>, page: Path): (r: Option<nat>)
    ensures r.Some? ==> r.value < |mappings| && mappings[r.value].page == page
    ensures r.Some? ==> forall i :: r.value < i < |mappings| ==> mappings[i].page != page
    ensures r.None? ==> forall i :: 0 <= i < |mappings| ==> mappings[i].page != page
  {
    if mappings == [] then None
    else
      var k := |mappings| - 1;
      if mappings[k].page == page then Some(k) else Latest(mappings[..k], page)
  }

  // A page has the rights its latest record was asked to have, or is the kernel's page.
  ghost predicate RightsAsAsked(m: Memory, k: Kernel, root: nat, mappings: seq<Mapping>, asked: seq<Flags>, page: Path)
    requires |asked| == |mappings| && IsPage(page)
  {
    var j := Latest(mappings, page);
    if j.None? then Reach(m, root, page) == Reach(m, k.root, page)
    else
      var (level, e) := Reach(m, root, page);
      level == 1 && e.frame == mappings[j.value].frame && AskedFor(asked[j.value], e.flags)
  }

  lemma {:induction false} ExpectedLatest(m: Memory, k: Kernel, mappings: seq<Mapping>, page: Path)
    requires IsPage(page)
    ensures
      var j := Latest(mappings, page);
      Expected(m, k, mappings, page)
      == if j.None? then Reach(m, k.root, page) else (1, Entry(mappings[j.value].frame, mappings[j.value].flags))
  {
    hide Reach;
    if mappings != [] {
      ExpectedLatest(m, k, mappings[..|mappings| - 1], page);
    }
  }

  // The flags `map_page` gives a page.
  ghost function Settled(flags: Flags): Flags {
    flags.(user := true, present := flags.present || !flags.bit9)
  }

  // Memory outside the given frames is as before.
  ghost predicate OnlyWithin(m: Memory, m': Memory, frames: set<nat>) {
    forall f :: f !in frames ==> Load(m', f) == Load(m, f)
  }

  lemma {:induction false} ExpectedSame(m: Memory, m': Memory, k: Kernel, mappings: seq<Mapping>, page: Path)
    requires k.Closed(m) && SameOn(m, m', k.All()) && IsPage(page)
    ensures Expected(m', k, mappings, page) == Expected(m, k, mappings, page)
  {
    if mappings == [] {
      KernelReach(m, m', k, 0, k.root, page);
    } else {
      ExpectedSame(m, m', k, mappings[..|mappings| - 1], page);
    }
  }

  lemma RealisesSame(m: Memory, m': Memory, k: Kernel, root: nat, mappings: seq<Mapping>)
    requires k.Closed(m) && SameOn(m, m', k.All()) && Realises(m, k, root, mappings)
    requires forall page :: IsPage(page) ==> Reach(m', root, page) == Reach(m, root, page)
    ensures Realises(m', k, root, mappings)
  {
    forall page | IsPage(page) ensures Reach(m', root, page) == Expected(m', k, mappings, page) {
      ExpectedSame(m, m', k, mappings, page);
    }
    ReplaysSame(m, m', k, mappings);
  }

  lemma ReplaysSame(m: Memory, m': Memory, k: Kernel, mappings: seq<Mapping>)
    requires k.Closed(m) && SameOn(m, m', k.All()) && Replays(m, k, mappings)
    ensures Replays(m', k, mappings)
  {
    hide Expected, Kernel.Closed;
    forall i | 0 <= i < |mappings| && IsPage(mappings[i].page)
      ensures Takes(Expected(m', k, mappings[..i], mappings[i].page))
    {
      ExpectedSame(m, m', k, mappings[..i], mappings[i].page);
    }
  }

  lemma ReplaysMore(m: Memory, m': Memory, k: Kernel, mappings: seq<Mapping>, p: Mapping)
    requires k.Closed(m) && SameOn(m, m', k.All()) && Replays(m, k, mappings) && IsPage(p.page)
    requires Takes(Expected(m, k, mappings, p.page))
    ensures Replays(m', k, mappings + [p])
  {
    hide Expected, Kernel.Closed;
    var more := mappings + [p];
    ReplaysSame(m, m', k, mappings);
    forall i | 0 <= i < |more| && IsPage(more[i].page) ensures Takes(Expected(m', k, more[..i], more[i].page)) {
      assert more[..i] == mappings[..i];
      if i == |mappings| {
        assert mappings[..i] == mappings;
        ExpectedSame(m, m', k, mappings, p.page);
      }
    }
  }

  // Records with the same pages and flags can be made in the same places.
  lemma {:induction false} TakesAlike(m: Memory, k: Kernel, a: seq<Mapping>, b: seq<Mapping>, page: Path)
    requires |a| == |b| && IsPage(page)
    requires forall i :: 0 <= i < |a| ==> a[i].page == b[i].page && a[i].flags == b[i].flags && a[i].flags.user
    ensures Takes(Expected(m, k, a, page)) <==> Takes(Expected(m, k, b, page))
  {
    if a != [] {
      TakesAlike(m, k, a[..|a| - 1], b[..|b| - 1], page);
    }
  }

  /**
   Isolation: as long as memory changes only within frames that are neither the space's nor the
   kernel's, all its pages lead where they led and its frames hold what they held.
   */
  lemma Undisturbed(m: Memory, m': Memory, k: Kernel, root: nat, mappings: seq<Mapping>, tables: seq<nat>,
                    serves: map<nat, Path>, changed: set<nat>)
    requires SpaceOk(m, k, root, mappings, tables, serves) && k.Closed(m)
    requires OnlyWithin(m, m', changed) && changed !! k.All() && changed !! Elements(AllFrames(root, mappings, tables))
    ensures SpaceOk(m', k, root, mappings, tables, serves) && k.Closed(m')
    ensures forall page :: IsPage(page) ==> Reach(m', root, page) == Reach(m, root, page)
    ensures forall page :: IsPage(page) ==> Reach(m', k.root, page) == Reach(m, k.root, page)
    ensures SameOn(m, m', Elements(AllFrames(root, mappings, tables)))
  {
    assert root in AllFrames(root, mappings, tables);
    TablesOwned(root, mappings, tables);
    assert SameOn(m, m', Footprint(k, root, serves));
    Isolated(m, m', k, root, serves);
    RealisesSame(m, m', k, root, mappings);
    forall page | IsPage(page) ensures Reach(m', k.root, page) == Reach(m, k.root, page) {
      KernelReach(m, m', k, 0, k.root, page);
    }
  }

  lemma TablesOwned(root: nat, mappings: seq<Mapping>, tables: seq<nat>)
    ensures Elements(AllFrames(root, mappings, tables)) == Elements(Frames(mappings)) + Elements(tables) + {root}
    ensures Distinct(AllFrames(root, mappings, tables)) ==>
      && Elements(Frames(mappings)) !! Elements(tables)
      && root !in Elements(Frames(mappings)) && root !in Elements(tables)
  {
    var s := AllFrames(root, mappings, tables);
    var n := |mappings|;
    assert forall i :: 0 <= i < n ==> s[i] == Frames(mappings)[i];
    assert forall i :: 0 <= i < |tables| ==> s[n + i] == tables[i];
    assert s[|s| - 1] == root;
  }

  // ---------------------------------------------------------------- frames that come and go

  lemma OwnTable(root: nat, mappings: seq<Mapping>, tables: seq<nat>, f: nat)
    requires Distinct(AllFrames(root, mappings, tables)) && f !in Elements(AllFrames(root, mappings, tables))
    ensures Distinct(AllFrames(root, mappings, tables + [f]))
    ensures Elements(AllFrames(root, mappings, tables + [f])) == Elements(AllFrames(root, mappings, tables)) + {f}
  {
    var s, s' := AllFrames(root, mappings, tables), AllFrames(root, mappings, tables + [f]);
    TablesOwned(root, mappings, tables);
    TablesOwned(root, mappings, tables + [f]);
    var n := |s| - 1;
    assert forall i :: 0 <= i < n ==> s'[i] == s[i];
    assert s'[n] == f && s'[n + 1] == root == s[n];
    assert forall i :: 0 <= i < |s| ==> s[i] != f;
  }

  lemma OwnPage(root: nat, mappings: seq<Mapping>, tables: seq<nat>, p: Mapping)
    requires Distinct(AllFrames(root, mappings, tables)) && p.frame !in Elements(AllFrames(root, mappings, tables))
    ensures Distinct(AllFrames(root, mappings + [p], tables))
    ensures Elements(AllFrames(root, mappings + [p], tables)) == Elements(AllFrames(root, mappings, tables)) + {p.frame}
  {
    var s, s' := AllFrames(root, mappings, tables), AllFrames(root, mappings + [p], tables);
    TablesOwned(root, mappings, tables);
    TablesOwned(root, mappings + [p], tables);
    var n := |mappings|;
    assert Frames(mappings + [p]) == Frames(mappings) + [p.frame];
    assert s == Frames(mappings) + (tables + [root]);
    assert s' == Frames(mappings) + [p.frame] + (tables + [root]);
    assert forall i :: 0 <= i < n ==> s'[i] == s[i];
    assert forall i :: n < i < |s'| ==> s'[i] == s[i - 1];
    assert forall i :: 0 <= i < |s| ==> s[i] != p.frame;
  }

  // A free frame belongs to no one.
  lemma FreeIsFree(m: Machine)
    requires m.Valid()
    ensures m.Free() !! m.Outstanding()
  {
  }

  class AddressSpace {
    const machine: Machine
    var root: nat
    var mappings: seq<Mapping>
    var privateTables: seq<nat>
    ghost var serves: map<nat, Path>
    ghost var asked: seq<Flags>

    ghost predicate Valid()
      reads this, machine
    {
      && machine.Valid() && Owned() <= machine.Outstanding() && AllAskedFor(asked, mappings)
      && SpaceOk(machine.memory, machine.kernel, root, mappings, privateTables, serves)
    }

    ghost function Owned(): set<nat>
      reads this
    {
      Elements(AllFrames(root, mappings, privateTables))
    }

    // The frames of the space together with the free ones: what its operations may touch.
    ghost function Reserve(): set<nat>
      requires machine.Valid()
      reads this, machine
    {
      Owned() + machine.Free()
    }

    lemma ReserveClear()
      requires Valid()
      ensures Reserve() !! machine.kernel.All()
    {
    }

    lemma Rights(page: Path)
      requires Valid() && IsPage(page)
      ensures RightsAsAsked(machine.memory, machine.kernel, root, mappings, asked, page)
    {
      hide Reach, Linked, Kernel.Closed, Kernel.All, AllFrames, Replays;
      ExpectedLatest(machine.memory, machine.kernel, mappings, page);
    }

    lemma RootOwned()
      ensures root in Owned()
    {
      TablesOwned(root, mappings, privateTables);
    }

    constructor Make(machine: Machine, root: nat)
      requires machine.Valid() && root in machine.Outstanding() && root !in machine.kernel.All()
      requires Load(machine.memory, root) == Load(machine.memory, machine.kernel.root)
      ensures Valid() && this.machine == machine && this.root == root && mappings == [] && privateTables == []
    {
      this.machine := machine;
      this.root := root;
      mappings := [];
      privateTables := [];
      serves := map[];
      asked := [];
      new;
      CopyOfRoot(machine.memory, machine.kernel, root);
      assert AllFrames(root, mappings, privateTables) == [root];
    }

    /** `kernel`: a space that sees exactly the kernel's pages. */
    static method New(machine: Machine) returns (r: Result<AddressSpace, MmError>)
      requires machine.Valid()
      modifies machine
      ensures machine.Valid()
      ensures r.Err? <==> old(machine.Free()) == {}
      ensures r.Err? ==>
        && r.error == OutOfFrames && machine.memory == old(machine.memory)
        && machine.Free() == old(machine.Free()) && machine.Outstanding() == old(machine.Outstanding())
      ensures r.Ok? ==>
        && fresh(r.value) && r.value.machine == machine && r.value.Valid() && r.value.mappings == []
        && r.value.Reserve() == old(machine.Free())
        && machine.Outstanding() == old(machine.Outstanding()) + r.value.Owned()
      ensures OnlyWithin(old(machine.memory), machine.memory, old(machine.Free()))
    {
      var f := machine.Allocate();
      if f.None? {
        return Err(OutOfFrames);
      }
      machine.ZeroFrame(f.value);
      machine.CopyFrame(machine.kernel.root, f.value);
      var space := new AddressSpace.Make(machine, f.value);
      assert AllFrames(f.value, [], []) == [f.value];
      return Ok(space);
    }

    // What an operation on the page tables leaves as it was.
    twostate predicate OnlyTables()
      requires old(Valid()) && Valid()
      reads this, machine
    {
      && root == old(root) && mappings == old(mappings)
      && Reserve() == old(Reserve()) && old(Owned()) <= Owned()
      && machine.Outstanding() - Owned() == old(machine.Outstanding() - Owned())
      && OnlyWithin(old(machine.memory), machine.memory, old(Reserve()))
      && SameOn(old(machine.memory), machine.memory, Elements(Frames(mappings)))
      && forall page :: IsPage(page) ==> Reach(machine.memory, root, page) == Reach(old(machine.memory), root, page)
    }

    // One level of `make_user_path_private`.
    method PrivateStep(table: nat, page: Path, k: nat, ghost tables: seq<nat>) returns (r: Result<nat, MmError>)
      requires Valid() && IsPage(page) && k < 3 && |tables| == k + 1
      requires IsWalk(machine.memory, serves, root, page, tables) && tables[k] == table
      modifies this`privateTables, this`serves, machine
      ensures Valid() && OnlyTables()
      ensures r.Ok? ==> IsWalk(machine.memory, serves, root, page, tables + [r.value])
      ensures r == Err(OutOfFrames) ==> machine.Free() == {}
      ensures r.Err? && r != Err(OutOfFrames) ==> r == Err(InvalidAddress) && Reach(machine.memory, root, page).0 > 1
    {
      hide Reach, Realises, Linked, LinkOk, IsWalk, Kernel.Closed, Kernel.All, AllFrames, Distinct;
      hide Frames, Branched, SpaceOk, Elements;
      ghost var m0 := machine.memory;
      FreeIsFree(machine);
      var index := page[k];
      var entry := Load(machine.memory, table)[index];
      WalkBlocked(m0, serves, root, page, tables);
      if entry != UNUSED && !Links(entry) {
        return Err(InvalidAddress);
      }
      if entry != UNUSED && entry.frame in privateTables {
        PrivateNext(m0, machine.kernel, root, mappings, privateTables, serves, page, tables, entry);
        return Ok(entry.frame);
      }
      TableIsOwn(m0, machine.kernel, root, mappings, privateTables, serves, page, tables);
      if entry != UNUSED {
        PrivateNext(m0, machine.kernel, root, mappings, privateTables, serves, page, tables, entry);
      }
      var f := CopyBranch(table, index, entry);
      if f.None? {
        return Err(OutOfFrames);
      }
      BranchWithin(m0, machine.memory, table, index, f.value, old(Reserve()));
      BranchOk(m0, machine.memory, machine.kernel, root, mappings, privateTables, serves, page, tables, f.value);
      privateTables := privateTables + [f.value];
      serves := serves[f.value := page[..k + 1]];
      return Ok(f.value);
    }

    // A fresh copy of the table behind an entry, or a fresh empty table, takes the entry's place.
    method CopyBranch(table: nat, index: nat, entry: Entry) returns (f: Option<nat>)
      requires machine.Valid() && index < 512 && table !in machine.kernel.All() && table !in machine.Free()
      requires entry == Load(machine.memory, table)[index] && (entry == UNUSED || Links(entry))
      requires entry != UNUSED ==> entry.frame in machine.kernel.All()
      modifies machine
      ensures machine.Valid()
      ensures f.None? ==>
        machine.Free() == old(machine.Free()) == {} && machine.Outstanding() == old(machine.Outstanding())
      ensures f.None? ==> machine.memory == old(machine.memory)
      ensures f.Some? ==>
        && f.value in old(machine.Free()) && machine.Free() == old(machine.Free()) - {f.value}
        && machine.Outstanding() == old(machine.Outstanding()) + {f.value}
        && Branched(old(machine.memory), machine.memory, table, index, f.value)
    {
      hide Kernel.Closed;
      f := machine.Allocate();
      if f.None? {
        return;
      }
      machine.ZeroFrame(f.value);
      if entry != UNUSED {
        machine.CopyFrame(entry.frame, f.value);
      }
      machine.SetEntry(table, index, Entry(f.value, entry.flags.(present := true, writable := true, user := true)));
    }

    /**
     `make_user_path_private`: afterwards all tables on the way to the page are the space's own. It
     changes where no page leads, also when it fails half way.
     */
    method MakePrivate(page: Path) returns (r: Result<(), MmError>, ghost tables: seq<nat>)
      requires Valid() && IsPage(page)
      modifies this`privateTables, this`serves, machine
      ensures Valid() && OnlyTables()
      ensures r.Ok? ==> |tables| == 4 && IsWalk(machine.memory, serves, root, page, tables)
      ensures r == Err(OutOfFrames) ==> machine.Free() == {}
      ensures r.Err? && r != Err(OutOfFrames) ==> r == Err(InvalidAddress) && Reach(machine.memory, root, page).0 > 1
    {
      hide Reach, Realises, Linked, LinkOk, Kernel.Closed, Kernel.All, AllFrames, Distinct, Frames, SpaceOk, Elements;
      var table := root;
      tables := [root];
      var k := 0;
      while k < 3
        invariant 0 <= k <= 3 && Valid() && OnlyTables()
        invariant |tables| == k + 1 && IsWalk(machine.memory, serves, root, page, tables) && tables[k] == table
      {
        var next := PrivateStep(table, page, k, tables);
        if next.Err? {
          return Err(next.error), tables;
        }
        tables := tables + [next.value];
        table := next.value;
        k := k + 1;
      }
      return Ok(()), tables;
    }

    // The part of `map_page` after the tables are private.
    method Install(page: Path, flags: Flags, ghost tables: seq<nat>) returns (r: Result<nat, MmError>)
      requires Valid() && IsPage(page) && IsWalk(machine.memory, serves, root, page, tables) && |tables| == 4
      modifies this`mappings, this`asked, machine
      ensures Valid() && Reserve() == old(Reserve())
      ensures machine.Outstanding() - Owned() == old(machine.Outstanding() - Owned())
      ensures OnlyWithin(old(machine.memory), machine.memory, old(Reserve()))
      ensures SameOn(old(machine.memory), machine.memory, old(Elements(Frames(mappings))))
      ensures r.Ok? ==>
        && mappings == old(mappings) + [Mapping(page, r.value, Settled(flags))] && asked == old(asked) + [flags]
        && r.value in old(machine.Free()) && Load(machine.memory, r.value) == ZeroTable()
      ensures r.Err? ==> mappings == old(mappings) && asked == old(asked)
      ensures r == Err(OutOfFrames) ==> machine.Free() == {}
      ensures r != Err(OutOfFrames) ==>
        var e := Load(old(machine.memory), tables[3])[page[3]];
        (r.Ok? <==> e == UNUSED || Links(e)) && (r.Err? ==> r.error == MapFailed)
    {
      hide Reach, Realises, Linked, LinkOk, IsWalk, Kernel.Closed, Kernel.All, AllFrames, Distinct;
      hide Frames, SpaceOk, Elements;
      FreeIsFree(machine);
      var f := machine.Allocate();
      if f.None? {
        return Err(OutOfFrames);
      }
      var target := flags.(user := true);
      if !target.bit9 {
        target := target.(present := true);
      }
      r := Fill(page, target, f.value, tables, flags);
    }

    method Fill(page: Path, flags: Flags, frame: nat, ghost tables: seq<nat>, ghost request: Flags)
      returns (r: Result<nat, MmError>)
      requires Valid() && IsPage(page) && IsWalk(machine.memory, serves, root, page, tables) && |tables| == 4
      requires frame in machine.Outstanding() - Owned() && frame !in machine.kernel.All() && Settled(flags) == flags
      requires AskedFor(request, flags)
      modifies this`mappings, this`asked, machine
      ensures Valid()
      ensures OnlyWithin(old(machine.memory), machine.memory, old(Owned()) + {frame})
      ensures SameOn(old(machine.memory), machine.memory, old(Elements(Frames(mappings))))
      ensures r.Ok? ==>
        && mappings == old(mappings) + [Mapping(page, frame, flags)] && r.value == frame
        && asked == old(asked) + [request]
        && Load(machine.memory, frame) == ZeroTable()
        && machine.Free() == old(machine.Free()) && machine.Outstanding() == old(machine.Outstanding())
        && Owned() == old(Owned()) + {frame}
      ensures r.Err? ==>
        && mappings == old(mappings) && asked == old(asked) && machine.Free() == old(machine.Free()) + {frame}
        && machine.Outstanding() == old(machine.Outstanding()) - {frame} && r.error == MapFailed
      ensures
        var e := Load(old(machine.memory), tables[3])[page[3]];
        r.Ok? <==> e == UNUSED || Links(e)
    {
      hide Reach, Realises, Linked, LinkOk, IsWalk, Kernel.Closed, Kernel.All, AllFrames, Distinct;
      hide Frames, SpaceOk, Elements;
      ghost var m0 := machine.memory;
      TableIsOwn(m0, machine.kernel, root, mappings, privateTables, serves, page, tables);
      machine.ZeroFrame(frame);
      ghost var m1 := machine.memory;
      assert OnlyWithin(m0, m1, {frame});
      hide OnlyWithin, SameOn, EntrySet;
      FrameZeroed(m0, m1, machine.kernel, root, mappings, privateTables, serves, page, tables, frame);
      var ok := SetLeaf(page, frame, flags, tables);
      if !ok {
        machine.Deallocate(frame);
        return Err(MapFailed);
      }
      PageInstalled(m1, machine.memory, machine.kernel, root, mappings, privateTables, serves, page, tables, frame,
                    flags);
      LeafSetWithin(m0, m1, machine.memory, tables[3], page[3], root, mappings, privateTables, frame, flags);
      mappings := mappings + [Mapping(page, frame, flags)];
      asked := asked + [request];
      return Ok(frame);
    }

    // The mapper's calls: map, or else unmap and map again.
    method SetLeaf(page: Path, frame: nat, flags: Flags, ghost tables: seq<nat>) returns (ok: bool)
      requires machine.Valid() && IsPage(page) && IsWalk(machine.memory, serves, root, page, tables) && |tables| == 4
      requires tables[3] !in machine.kernel.All() && root !in serves
      modifies machine`memory
      ensures machine.Valid()
      ensures
        var e := Load(old(machine.memory), tables[3])[page[3]];
        ok <==> e == UNUSED || Links(e)
      ensures ok ==> EntrySet(old(machine.memory), machine.memory, tables[3], page[3], Entry(frame, flags))
      ensures !ok ==> machine.memory == old(machine.memory)
    {
      hide Kernel.Closed, Kernel.All, IsWalk;
      ok := machine.MapTo(root, page, frame, flags, serves, tables);
      if !ok {
        var cleared := machine.Unmap(root, page, serves, tables);
        if cleared {
          WalkKept(old(machine.memory), machine.memory, serves, root, page, tables, UNUSED);
          ok := machine.MapTo(root, page, frame, flags, serves, tables);
        }
      }
    }

    /**
     `map_page`: on success the page leads to a zeroed frame that was free, and every other page
     leads where it led. Only the space's own and free frames change. The outcome is settled by
     what the page led to before, unless frames run out.
     */
    method MapPage(page: Path, flags: Flags) returns (r: Result<nat, MmError>)
      requires Valid() && IsPage(page)
      modifies this`mappings, this`privateTables, this`serves, this`asked, machine
      ensures Valid() && Reserve() == old(Reserve())
      ensures machine.Outstanding() - Owned() == old(machine.Outstanding() - Owned())
      ensures OnlyWithin(old(machine.memory), machine.memory, old(Reserve()))
      ensures SameOn(old(machine.memory), machine.memory, old(Elements(Frames(mappings))))
      ensures r.Ok? ==>
        && mappings == old(mappings) + [Mapping(page, r.value, Settled(flags))] && asked == old(asked) + [flags]
        && r.value in old(Reserve()) - old(Owned()) && Load(machine.memory, r.value) == ZeroTable()
      ensures r.Err? ==> mappings == old(mappings) && asked == old(asked)
      ensures r.Ok? ==>
        var (level, e) := Reach(machine.memory, root, page);
        && level == 1 && e.frame == r.value && e.flags.user && e.flags.present == (flags.present || !flags.bit9)
        && e.flags.writable == flags.writable && e.flags.huge == flags.huge
        && e.flags.bit9 == flags.bit9 && e.flags.rest == flags.rest
      ensures forall p :: IsPage(p) ==>
        Reach(machine.memory, root, p)
          == if r.Ok? && p == page then (1, Entry(r.value, Settled(flags))) else Reach(old(machine.memory), root, p)
      ensures r == Err(OutOfFrames) ==> machine.Free() == {}
      ensures r != Err(OutOfFrames) ==>
        var (level, e) := Reach(old(machine.memory), root, page);
        && (r == Err(InvalidAddress) <==> level > 1)
        && (r.Ok? <==> level <= 1 && (e == UNUSED || Links(e)))
        && (r.Err? && level <= 1 ==> r.error == MapFailed)
    {
      hide Reach, Linked, LinkOk, IsWalk, Kernel.Closed, Kernel.All, AllFrames, Distinct, Frames;
      hide Realises, Elements, Expected;
      ghost var m0 := machine.memory;
      FreeIsFree(machine);
      var private; ghost var tables;
      private, tables := MakePrivate(page);
      if private.Err? {
        return Err(private.error);
      }
      ghost var m1 := machine.memory;
      WalkLeaf(m1, serves, root, page, tables);
      FreeIsFree(machine);
      r := Install(page, flags, tables);
      MapEffect(m0, machine.memory, machine.kernel, root, old(mappings), mappings, old(Reserve()),
                page, if r.Ok? then Some(Entry(r.value, Settled(flags))) else None);
    }

    /**
     Mapping a page twice: the second time works, frames permitting, exactly when the first mapping
     left an entry that is present and no large page. Flags with bit 9 and without the present bit
     do not; a page without any access is given these.
     */
    method MapTwice(page: Path, flags: Flags, again: Flags)
      returns (first: Result<nat, MmError>, second: Result<nat, MmError>)
      requires Valid() && IsPage(page)
      modifies this`mappings, this`privateTables, this`serves, this`asked, machine
      ensures Valid()
      ensures first.Ok? && second != Err(OutOfFrames) ==>
        second.Ok? == ((flags.present || !flags.bit9) && !flags.huge) && (second.Err? ==> second.error == MapFailed)
    {
      hide Reach, SpaceOk, Kernel.Closed, Kernel.All, AllFrames, Elements;
      first := MapPage(page, flags);
      second := MapPage(page, again);
    }

    /** `clear`: the space sees the kernel's pages again; its page frames are free, its tables are not. */
    method Clear()
      requires Valid()
      modifies this`mappings, this`serves, this`asked, machine
      ensures Valid() && mappings == [] && Reserve() == old(Reserve())
      ensures machine.Outstanding() - Owned() == old(machine.Outstanding() - Owned())
      ensures machine.Free() == old(machine.Free()) + old(Elements(Frames(mappings)))
      ensures OnlyWithin(old(machine.memory), machine.memory, {root})
      ensures forall p :: IsPage(p) ==> Reach(machine.memory, root, p) == Reach(machine.memory, machine.kernel.root, p)
    {
      hide Kernel.Closed, Kernel.All, AllFrames, Distinct, Elements, Frames, Linked, Realises, Reach;
      TablesOwned(root, mappings, privateTables);
      FramesDistinct(root, mappings, privateTables);
      machine.DeallocateAll(Frames(mappings));
      mappings := [];
      asked := [];
      TablesOwned(root, [], privateTables);
      machine.ZeroFrame(root);
      machine.CopyFrame(machine.kernel.root, root);
      CopyOfRoot(machine.memory, machine.kernel, root);
      serves := map[];
      NothingMapped(machine.memory, machine.kernel, root);
    }

    /** `drop`: every frame of the space is given back exactly once. */
    method Drop()
      requires Valid()
      modifies this, machine
      ensures machine.Valid() && machine.memory == old(machine.memory)
      ensures machine.recycled == old(machine.recycled) + old(AllFrames(root, mappings, privateTables))
      ensures machine.Free() == old(Reserve()) && machine.Outstanding() == old(machine.Outstanding()) - old(Owned())
      ensures mappings == [] && privateTables == []
    {
      TablesOwned(root, mappings, privateTables);
      FramesDistinct(root, mappings, privateTables);
      hide Kernel.Closed, Kernel.All, Linked, Realises;
      machine.DeallocateAll(Frames(mappings));
      mappings := [];
      machine.DeallocateAll(privateTables);
      privateTables := [];
      machine.Deallocate(root);
    }

    /**
     `clone_for_fork`: the child has a record for each of the parent's, in order, with a frame of its
     own that holds the same contents; the parent is not disturbed. If it fails, all frames that
     were taken are free again.
     */
    method Fork() returns (r: Result<AddressSpace, MmError>)
      requires Valid()
      modifies machine
      ensures Valid() && SameOn(old(machine.memory), machine.memory, Owned())
      ensures forall p :: IsPage(p) ==> Reach(machine.memory, root, p) == Reach(old(machine.memory), root, p)
      ensures OnlyWithin(old(machine.memory), machine.memory, old(machine.Free()))
      ensures r.Ok? ==>
        && fresh(r.value) && r.value.machine == machine && r.value.Valid() && r.value.Owned() !! Owned()
        && r.value.Reserve() == old(machine.Free())
        && machine.Outstanding() == old(machine.Outstanding()) + r.value.Owned()
        && Copies(old(machine.memory), mappings, machine.memory, r.value.mappings)
      ensures r.Err? ==>
        && r.error == OutOfFrames
        && machine.Free() == old(machine.Free()) && machine.Outstanding() == old(machine.Outstanding())
    {
      assert Elements(AllFrames(root, mappings, privateTables)) !! machine.kernel.All();
      hide Reach, Linked, LinkOk, Kernel.Closed, Kernel.All, AllFrames, Distinct, Realises;
      hide Elements, Expected, SpaceOk, Frames;
      ghost var m0, free := machine.memory, machine.Free();
      FreeIsFree(machine);
      TablesOwned(root, mappings, privateTables);
      PagesSettled(m0, machine.kernel, root, mappings, privateTables, serves);
      r := CopyOf(machine, mappings);
      Undisturbed(m0, machine.memory, machine.kernel, root, mappings, privateTables, serves, free);
    }

    // A new space with copies of the pages that some records describe.
    static method CopyOf(machine: Machine, records: seq<Mapping>) returns (r: Result<AddressSpace, MmError>)
      requires machine.Valid()
      requires forall i :: 0 <= i < |records| ==>
        IsPage(records[i].page) && Settled(records[i].flags) == records[i].flags
      requires forall i :: 0 <= i < |records| ==> records[i].frame !in machine.Free()
      requires Replays(machine.memory, machine.kernel, records)
      modifies machine
      ensures machine.Valid() && OnlyWithin(old(machine.memory), machine.memory, old(machine.Free()))
      ensures r.Ok? ==>
        && fresh(r.value) && r.value.machine == machine && r.value.Valid()
        && r.value.Reserve() == old(machine.Free())
        && machine.Outstanding() == old(machine.Outstanding()) + r.value.Owned()
        && Copies(old(machine.memory), records, machine.memory, r.value.mappings)
      ensures r.Err? ==>
        && r.error == OutOfFrames
        && machine.Free() == old(machine.Free()) && machine.Outstanding() == old(machine.Outstanding())
    {
      hide Reach, Linked, LinkOk, Kernel.Closed, Kernel.All, AllFrames, Distinct, Realises;
      hide Elements, Expected, SpaceOk, Frames, Settled;
      FreeIsFree(machine);
      r := New(machine);
      if r.Err? {
        return;
      }
      ghost var m1 := machine.memory;
      ReplaysSame(old(machine.memory), m1, machine.kernel, records);
      var child := r.value;
      var copied := child.CopyRecords(records);
      FreeIsFree(machine);
      if copied.Err? {
        child.Drop();
        return Err(copied.error);
      }
      CopiesEarlier(old(machine.memory), m1, machine.memory, records, child.mappings, old(machine.Free()));
    }

    // The loop of `clone_for_fork`, on the child.
    method CopyRecords(records: seq<Mapping>) returns (r: Result<(), MmError>)
      requires Valid() && mappings == []
      requires forall i :: 0 <= i < |records| ==>
        IsPage(records[i].page) && Settled(records[i].flags) == records[i].flags
      requires forall i :: 0 <= i < |records| ==> records[i].frame !in Reserve()
      requires Replays(machine.memory, machine.kernel, records)
      modifies this`mappings, this`privateTables, this`serves, this`asked, machine
      ensures Valid() && Reserve() == old(Reserve())
      ensures machine.Outstanding() - Owned() == old(machine.Outstanding() - Owned())
      ensures OnlyWithin(old(machine.memory), machine.memory, old(Reserve()))
      ensures r.Ok? ==> Copies(old(machine.memory), records, machine.memory, mappings)
      ensures r.Err? ==> r.error == OutOfFrames
    {
      hide Reach, Linked, LinkOk, Kernel.Closed, Kernel.All, AllFrames, Distinct, Realises;
      hide Elements, Expected, SpaceOk, Frames, Settled;
      ReserveClear();
      for i := 0 to |records|
        invariant Valid() && Reserve() == old(Reserve())
        invariant machine.Outstanding() - Owned() == old(machine.Outstanding() - Owned())
        invariant OnlyWithin(old(machine.memory), machine.memory, old(Reserve()))
        invariant Copies(old(machine.memory), records[..i], machine.memory, mappings)
      {
        ghost var m1, was := machine.memory, mappings;
        r := MapCopy(records[i]);
        if r.Err? {
          SameRecords(old(machine.memory), m1, machine.kernel, old(Reserve()), records, i, was);
          return;
        }
        CopiesMore(old(machine.memory), m1, machine.memory, records, i, was, mappings);
      }
      assert records[..|records|] == records;
      return Ok(());
    }

    // One round: a page of the child with the contents of a frame elsewhere.
    method MapCopy(p: Mapping) returns (r: Result<(), MmError>)
      requires Valid() && IsPage(p.page) && p.frame !in Reserve()
      modifies this`mappings, this`privateTables, this`serves, this`asked, machine
      ensures Valid() && Reserve() == old(Reserve())
      ensures machine.Outstanding() - Owned() == old(machine.Outstanding() - Owned())
      ensures OnlyWithin(old(machine.memory), machine.memory, old(Reserve()))
      ensures SameOn(old(machine.memory), machine.memory, old(Elements(Frames(mappings))))
      ensures r.Ok? ==>
        && |mappings| == |old(mappings)| + 1
        && var f := mappings[|old(mappings)|].frame;
        && mappings == old(mappings) + [Mapping(p.page, f, Settled(p.flags))]
        && Load(machine.memory, f) == Load(old(machine.memory), p.frame)
      ensures r.Err? && r.error != OutOfFrames ==>
        !Takes(Expected(old(machine.memory), machine.kernel, old(mappings), p.page))
    {
      hide Reach, Linked, LinkOk, Kernel.Closed, Kernel.All, AllFrames, Distinct, Realises, Expected;
      SpaceReach(machine.memory, machine.kernel, root, mappings, privateTables, serves, p.page);
      var frame := MapPage(p.page, p.flags);
      if frame.Err? {
        return Err(frame.error);
      }
      ghost var m1 := machine.memory;
      TablesOwned(root, mappings, privateTables);
      TablesOwned(root, old(mappings), old(privateTables));
      assert frame.value in Frames(mappings) by { assert Frames(mappings)[|old(mappings)|] == frame.value; }
      machine.CopyFrame(p.frame, frame.value);
      DataWritten(m1, machine.memory, machine.kernel, root, mappings, privateTables, serves, frame.value);
      return Ok(());
    }
  }

  /**
   A page can be mapped again before it is cleared exactly when its record is present and no larger
   page: a page without access, with bit 9 and not present, cannot.
   */
  lemma NoAccessStays(m: Memory, k: Kernel, mappings: seq<Mapping>, page: Path, frame: nat, flags: Flags)
    requires IsPage(page)
    ensures Takes(Expected(m, k, mappings + [Mapping(page, frame, Settled(flags))], page))
       <==> (flags.present || !flags.bit9) && !flags.huge
    // at this input it cannot
    ensures
      var none := Flags(false, false, true, false, true, 0);
      !Takes(Expected(m, k, mappings + [Mapping(page, frame, Settled(none))], page))
  {
  }

  // The contents of a page are no part of the tables.
  lemma DataWritten(m: Memory, m': Memory, k: Kernel, root: nat, mappings: seq<Mapping>, tables: seq<nat>,
                    serves: map<nat, Path>, f: nat)
    requires SpaceOk(m, k, root, mappings, tables, serves) && k.Closed(m)
    requires f in Frames(mappings) && OnlyWithin(m, m', {f})
    ensures SpaceOk(m', k, root, mappings, tables, serves)
  {
    hide Reach, Realises, Kernel.Closed, Distinct;
    TablesOwned(root, mappings, tables);
    assert f in Elements(Frames(mappings));
    Isolated(m, m', k, root, serves);
    RealisesSame(m, m', k, root, mappings);
  }

  lemma SpaceReach(m: Memory, k: Kernel, root: nat, mappings: seq<Mapping>, tables: seq<nat>, serves: map<nat, Path>,
                   page: Path)
    requires SpaceOk(m, k, root, mappings, tables, serves) && IsPage(page)
    ensures Reach(m, root, page) == Expected(m, k, mappings, page)
  {
    hide Reach, Expected;
  }

  // A record of the parent can be made after the child's copies of those before it.
  lemma SameRecords(m0: Memory, m: Memory, k: Kernel, changed: set<nat>, records: seq<Mapping>, i: nat,
                    copies: seq<Mapping>)
    requires k.Closed(m0) && OnlyWithin(m0, m, changed) && changed !! k.All() && Replays(m0, k, records)
    requires i < |records| && IsPage(records[i].page)
    requires forall j :: 0 <= j < |records| ==> Settled(records[j].flags) == records[j].flags
    requires Copies(m0, records[..i], m, copies)
    ensures Takes(Expected(m, k, copies, records[i].page))
  {
    hide Kernel.Closed, Expected, Kernel.All;
    TakesAlike(m0, k, records[..i], copies, records[i].page);
    ExpectedSame(m0, m, k, copies, records[i].page);
  }

  lemma CopiesMore(m0: Memory, m: Memory, m': Memory, records: seq<Mapping>, i: nat, mappings: seq<Mapping>,
                   mappings': seq<Mapping>)
    requires i < |records| && Copies(m0, records[..i], m, mappings) && SameOn(m, m', Elements(Frames(mappings)))
    requires |mappings'| == i + 1
    requires mappings' == mappings + [Mapping(records[i].page, mappings'[i].frame, records[i].flags)]
    requires Load(m', mappings'[i].frame) == Load(m0, records[i].frame)
    ensures Copies(m0, records[..i + 1], m', mappings')
  {
    var rs := records[..i + 1];
    forall j | 0 <= j < i + 1
      ensures mappings'[j].page == rs[j].page && mappings'[j].flags == rs[j].flags
      ensures Load(m', mappings'[j].frame) == Load(m0, rs[j].frame)
    {
      if j < i {
        assert records[..i][j] == rs[j] && mappings'[j] == mappings[j];
        assert Frames(mappings)[j] in Elements(Frames(mappings));
      }
    }
  }

  lemma CopiesEarlier(m0: Memory, m: Memory, m': Memory, records: seq<Mapping>, mappings: seq<Mapping>,
                      changed: set<nat>)
    requires Copies(m, records, m', mappings) && OnlyWithin(m0, m, changed)
    requires forall i :: 0 <= i < |records| ==> records[i].frame !in changed
    ensures Copies(m0, records, m', mappings)
  {
  }

  lemma PagesSettled(m: Memory, k: Kernel, root: nat, mappings: seq<Mapping>, tables: seq<nat>, serves: map<nat, Path>)
    requires SpaceOk(m, k, root, mappings, tables, serves)
    ensures forall i :: 0 <= i < |mappings| ==>
      IsPage(mappings[i].page) && Settled(mappings[i].flags) == mappings[i].flags
    ensures forall i :: 0 <= i < |mappings| ==> mappings[i].frame in Elements(AllFrames(root, mappings, tables))
    ensures Replays(m, k, mappings)
  {
    TablesOwned(root, mappings, tables);
    assert forall i :: 0 <= i < |mappings| ==> Frames(mappings)[i] in Elements(Frames(mappings));
  }

  // Records pair up, and the copy's frames hold what the original's held.
  ghost predicate Copies(m: Memory, mappings: seq<Mapping>, m': Memory, mappings': seq<Mapping>) {
    && |mappings'| == |mappings|
    && forall i :: 0 <= i < |mappings| ==>
         && mappings'[i].page == mappings[i].page && mappings'[i].flags == mappings[i].flags
         && Load(m', mappings'[i].frame) == Load(m, mappings[i].frame)
  }

  lemma FramesDistinct(root: nat, mappings: seq<Mapping>, tables: seq<nat>)
    requires Distinct(AllFrames(root, mappings, tables))
    ensures Distinct(Frames(mappings)) && Distinct(tables) && Distinct(AllFrames(root, [], tables))
  {
    var s, n := AllFrames(root, mappings, tables), |mappings|;
    assert forall i :: 0 <= i < n ==> s[i] == Frames(mappings)[i];
    assert forall i :: 0 <= i < |tables| ==> s[n + i] == tables[i];
    assert forall i :: 0 <= i < |AllFrames(root, [], tables)| ==> s[n + i] == AllFrames(root, [], tables)[i];
  }

  lemma WalkLeaf(m: Memory, serves: map<nat, Path>, root: nat, page: Path, tables: seq<nat>)
    requires IsPage(page) && IsWalk(m, serves, root, page, tables) && |tables| == 4
    ensures Reach(m, root, page) == (1, Load(m, tables[3])[page[3]])
  {
    WalkReach(m, serves, root, page, tables, 3);
  }

  // Where pages lead after a record was added, or none.
  lemma MapEffect(m: Memory, m': Memory, k: Kernel, root: nat, mappings: seq<Mapping>, mappings': seq<Mapping>,
                  changed: set<nat>, page: Path, e: Option<Entry>)
    requires k.Closed(m) && Realises(m, k, root, mappings) && Realises(m', k, root, mappings')
    requires OnlyWithin(m, m', changed) && changed !! k.All() && IsPage(page)
    requires mappings' == if e.Some? then mappings + [Mapping(page, e.value.frame, e.value.flags)] else mappings
    ensures forall p :: IsPage(p) ==>
      Reach(m', root, p) == if e.Some? && p == page then (1, e.value) else Reach(m, root, p)
  {
    hide Reach, Kernel.Closed, Kernel.All, Expected;
    forall p | IsPage(p)
      ensures Reach(m', root, p) == if e.Some? && p == page then (1, e.value) else Reach(m, root, p)
    {
      if e.Some? {
        ExpectedMore(m, m', k, mappings, Mapping(page, e.value.frame, e.value.flags), p);
      } else {
        ExpectedSame(m, m', k, mappings, p);
      }
    }
  }

  lemma WalkKept(m: Memory, m': Memory, serves: map<nat, Path>, root: nat, page: Path, tables: seq<nat>, e: Entry)
    requires IsPage(page) && IsWalk(m, serves, root, page, tables) && |tables| == 4 && root !in serves
    requires EntrySet(m, m', tables[3], page[3], e)
    ensures IsWalk(m', serves, root, page, tables)
  {
    forall j | 0 <= j < 3 ensures Opens(Load(m', tables[j])[page[j]], tables[j + 1]) {
      assert IsTable(root, serves, tables[j], page[..j]) && IsTable(root, serves, tables[3], page[..3]);
      assert |page[..j]| == j && |page[..3]| == 3;
      assert Opens(Load(m, tables[j])[page[j]], tables[j + 1]);
    }
  }

  // Clearing a free frame disturbs nothing.
  lemma FrameZeroed(m: Memory, m': Memory, k: Kernel, root: nat, mappings: seq<Mapping>, privateTables: seq<nat>,
                    serves: map<nat, Path>, page: Path, tables: seq<nat>, f: nat)
    requires SpaceOk(m, k, root, mappings, privateTables, serves) && k.Closed(m) && IsPage(page)
    requires IsWalk(m, serves, root, page, tables) && |tables| == 4
    requires f !in Elements(AllFrames(root, mappings, privateTables)) && f !in k.All() && OnlyWithin(m, m', {f})
    ensures SpaceOk(m', k, root, mappings, privateTables, serves) && IsWalk(m', serves, root, page, tables)
    ensures Load(m', tables[3]) == Load(m, tables[3]) && SameOn(m, m', Elements(Frames(mappings)))
    ensures OnlyWithin(m, m', Elements(AllFrames(root, mappings, privateTables)) + {f})
  {
    hide Reach, Realises, Linked, Kernel.Closed, Kernel.All, AllFrames, Distinct, Frames;
    Undisturbed(m, m', k, root, mappings, privateTables, serves, {f});
    TablesOwned(root, mappings, privateTables);
    forall j | 0 <= j < 4 ensures Load(m', tables[j]) == Load(m, tables[j]) {
      assert IsTable(root, serves, tables[j], page[..j]);
    }
    forall j | 0 <= j < 3 ensures Opens(Load(m', tables[j])[page[j]], tables[j + 1]) {
      assert Opens(Load(m, tables[j])[page[j]], tables[j + 1]);
    }
  }

  // A record for the entry that was set keeps everything the space promises.
  lemma PageInstalled(m: Memory, m': Memory, k: Kernel, root: nat, mappings: seq<Mapping>, privateTables: seq<nat>,
                      serves: map<nat, Path>, page: Path, tables: seq<nat>, f: nat, flags: Flags)
    requires SpaceOk(m, k, root, mappings, privateTables, serves) && k.Closed(m) && IsPage(page)
    requires IsWalk(m, serves, root, page, tables) && |tables| == 4
    requires f !in Elements(AllFrames(root, mappings, privateTables)) && f !in k.All() && Settled(flags) == flags
    requires EntrySet(m, m', tables[3], page[3], Entry(f, flags))
    requires
      var e := Load(m, tables[3])[page[3]];
      e == UNUSED || Links(e)
    ensures SpaceOk(m', k, root, mappings + [Mapping(page, f, flags)], privateTables, serves)
    ensures Elements(AllFrames(root, mappings + [Mapping(page, f, flags)], privateTables))
         == Elements(AllFrames(root, mappings, privateTables)) + {f}
  {
    hide Reach, Linked, Kernel.Closed, Kernel.All, AllFrames, Distinct, Frames, IsWalk, Expected, Replays;
    TableIsOwn(m, k, root, mappings, privateTables, serves, page, tables);
    WalkLeaf(m, serves, root, page, tables);
    ReplaysMore(m, m', k, mappings, Mapping(page, f, flags));
    TablesOwned(root, mappings, privateTables);
    EntryKeeps(m, m', k, root, serves, page, tables, Entry(f, flags));
    OwnPage(root, mappings, privateTables, Mapping(page, f, flags));
    forall p | IsPage(p) ensures Reach(m', root, p) == Expected(m', k, mappings + [Mapping(page, f, flags)], p) {
      ExpectedMore(m, m', k, mappings, Mapping(page, f, flags), p);
    }
  }

  lemma ExpectedMore(m: Memory, m': Memory, k: Kernel, mappings: seq<Mapping>, p: Mapping, page: Path)
    requires k.Closed(m) && SameOn(m, m', k.All()) && IsPage(page)
    ensures Expected(m', k, mappings + [p], page)
         == if p.page == page then (1, Entry(p.frame, p.flags)) else Expected(m, k, mappings, page)
  {
    ExpectedSame(m, m', k, mappings, page);
    assert (mappings + [p])[..|mappings|] == mappings;
  }

  lemma LeafSetWithin(m: Memory, m1: Memory, m2: Memory, t0: nat, i0: nat, root: nat, mappings: seq<Mapping>,
                      privateTables: seq<nat>, f: nat, flags: Flags)
    requires OnlyWithin(m, m1, {f}) && EntrySet(m1, m2, t0, i0, Entry(f, flags)) && Load(m1, f) == ZeroTable()
    requires f !in Elements(AllFrames(root, mappings, privateTables))
    requires t0 in Elements(AllFrames(root, mappings, privateTables)) && t0 !in Elements(Frames(mappings))
    ensures OnlyWithin(m, m2, Elements(AllFrames(root, mappings, privateTables)) + {f})
    ensures SameOn(m, m2, Elements(Frames(mappings))) && Load(m2, f) == ZeroTable()
  {
    hide AllFrames, Frames, Elements;
    TablesOwned(root, mappings, privateTables);
    LeafWithin(m, m1, m2, t0, i0, f, Elements(AllFrames(root, mappings, privateTables)) + {f},
               Elements(Frames(mappings)));
  }

  lemma LeafWithin(m: Memory, m1: Memory, m2: Memory, t0: nat, i0: nat, f: nat, frames: set<nat>, data: set<nat>)
    requires OnlyWithin(m, m1, {f}) && i0 < 512 && (forall g :: g != t0 ==> Load(m2, g) == Load(m1, g))
    requires f in frames && t0 in frames && f !in data && t0 !in data
    ensures OnlyWithin(m, m2, frames) && SameOn(m, m2, data)
  {
  }

  lemma TableIsOwn(m: Memory, k: Kernel, root: nat, mappings: seq<Mapping>, privateTables: seq<nat>,
                   serves: map<nat, Path>, page: Path, tables: seq<nat>)
    requires SpaceOk(m, k, root, mappings, privateTables, serves) && IsPage(page)
    requires IsWalk(m, serves, root, page, tables)
    ensures tables[|tables| - 1] in Elements(AllFrames(root, mappings, privateTables))
    ensures tables[|tables| - 1] !in k.All()
    ensures tables[|tables| - 1] !in Elements(Frames(mappings)) && root !in serves
  {
    var n := |tables| - 1;
    assert IsTable(root, serves, tables[n], page[..n]);
    TablesOwned(root, mappings, privateTables);
  }

  // A private copy of a branch keeps everything the space promises.
  lemma BranchOk(m: Memory, m': Memory, k: Kernel, root: nat, mappings: seq<Mapping>, privateTables: seq<nat>,
                 serves: map<nat, Path>, page: Path, tables: seq<nat>, f: nat)
    requires SpaceOk(m, k, root, mappings, privateTables, serves) && k.Closed(m) && IsPage(page)
    requires IsWalk(m, serves, root, page, tables) && 1 <= |tables| <= 3
    requires f !in Elements(AllFrames(root, mappings, privateTables)) && f !in k.All()
    requires Branched(m, m', tables[|tables| - 1], page[|tables| - 1], f)
    requires
      var e := Load(m, tables[|tables| - 1])[page[|tables| - 1]];
      e == UNUSED || e.frame in k.Tables(|tables|)
    ensures
      var serves' := serves[f := page[..|tables|]];
      SpaceOk(m', k, root, mappings, privateTables + [f], serves') && IsWalk(m', serves', root, page, tables + [f])
    ensures Elements(AllFrames(root, mappings, privateTables + [f]))
         == Elements(AllFrames(root, mappings, privateTables)) + {f}
    ensures SameOn(m, m', Elements(Frames(mappings)))
    ensures forall p :: IsPage(p) ==> Reach(m', root, p) == Reach(m, root, p)
  {
    hide Reach, Realises, Branched, IsWalk, Kernel.Closed, Kernel.All, Linked, AllFrames, Frames;
    hide Elements, Distinct, SameOn, Settled;
    var n := |tables| - 1;
    TableIsOwn(m, k, root, mappings, privateTables, serves, page, tables);
    TablesOwned(root, mappings, privateTables);
    BranchSame(m, m', tables[n], page[n], f, k.All());
    BranchSame(m, m', tables[n], page[n], f, Elements(Frames(mappings)));
    BranchShape(m, m', k, root, serves, page, tables, f);
    RealisesSame(m, m', k, root, mappings);
    OwnTable(root, mappings, privateTables, f);
    OneMoreElement(privateTables, f);
  }

  lemma OneMoreElement(s: seq<nat>, f: nat)
    ensures Elements(s + [f]) == Elements(s) + {f}
  {
  }

  lemma BranchShape(m: Memory, m': Memory, k: Kernel, root: nat, serves: map<nat, Path>, page: Path, tables: seq<nat>,
                    f: nat)
    requires IsPage(page) && IsWalk(m, serves, root, page, tables) && |tables| <= 3 && Linked(m, k, root, serves)
    requires k.Closed(m) && SameOn(m, m', k.All()) && f !in serves && f != root && f !in k.All()
    requires Branched(m, m', tables[|tables| - 1], page[|tables| - 1], f)
    requires
      var e := Load(m, tables[|tables| - 1])[page[|tables| - 1]];
      e == UNUSED || e.frame in k.Tables(|tables|)
    ensures IsWalk(m', serves[f := page[..|tables|]], root, page, tables + [f])
    ensures Linked(m', k, root, serves[f := page[..|tables|]])
    ensures forall p :: IsPage(p) ==> Reach(m', root, p) == Reach(m, root, p)
  {
    hide Reach, Branched, Kernel.Closed, Kernel.All, Linked;
    var n := |tables| - 1;
    assert page[..n] + [page[n]] == page[..n + 1];
    assert IsTable(root, serves, tables[n], page[..n]);
    BranchKeeps(m, m', k, root, serves, tables[n], page[..n], page[n], f);
    BranchWalk(m, m', k, root, serves, page, tables, f);
  }

  lemma BranchSame(m: Memory, m': Memory, t0: nat, i0: nat, f: nat, frames: set<nat>)
    requires Branched(m, m', t0, i0, f) && t0 !in frames && f !in frames
    ensures SameOn(m, m', frames)
  {
  }

  lemma BranchWithin(m: Memory, m': Memory, t0: nat, i0: nat, f: nat, frames: set<nat>)
    requires Branched(m, m', t0, i0, f) && t0 in frames && f in frames
    ensures OnlyWithin(m, m', frames)
  {
  }

  // An entry that leads nowhere stops the walk above the last level.
  lemma WalkBlocked(m: Memory, serves: map<nat, Path>, root: nat, page: Path, tables: seq<nat>)
    requires IsPage(page) && IsWalk(m, serves, root, page, tables) && |tables| <= 3
    ensures
      var e := Load(m, tables[|tables| - 1])[page[|tables| - 1]];
      e != UNUSED && !Links(e) ==> Reach(m, root, page).0 > 1
  {
    WalkReach(m, serves, root, page, tables, |tables| - 1);
  }

  lemma BranchWalk(m: Memory, m': Memory, k: Kernel, root: nat, serves: map<nat, Path>, page: Path, tables: seq<nat>,
                   f: nat)
    requires IsPage(page) && IsWalk(m, serves, root, page, tables) && |tables| <= 3 && Linked(m, k, root, serves)
    requires Branched(m, m', tables[|tables| - 1], page[|tables| - 1], f) && f !in serves && f != root
    ensures IsWalk(m', serves[f := page[..|tables|]], root, page, tables + [f])
  {
    var n := |tables| - 1;
    var walk := tables + [f];
    forall j | 0 <= j < n ensures Load(m', tables[j]) == Load(m, tables[j]) {
      assert IsTable(root, serves, tables[j], page[..j]) && IsTable(root, serves, tables[n], page[..n]);
      assert |page[..j]| == j && |page[..n]| == n;
    }
    forall j | 0 <= j < |walk| - 1 ensures Opens(Load(m', walk[j])[page[j]], walk[j + 1]) {
      assert j < n ==> Opens(Load(m, tables[j])[page[j]], tables[j + 1]);
    }
    forall j | 0 <= j < |walk| ensures IsTable(root, serves[f := page[..n + 1]], walk[j], page[..j]) {
      assert j <= n ==> IsTable(root, serves, tables[j], page[..j]);
    }
  }

  // A private table behind an entry is the one that serves the longer path.
  lemma PrivateNext(m: Memory, k: Kernel, root: nat, mappings: seq<Mapping>, privateTables: seq<nat>,
                    serves: map<nat, Path>, page: Path, tables: seq<nat>, e: Entry)
    requires SpaceOk(m, k, root, mappings, privateTables, serves) && IsPage(page)
    requires IsWalk(m, serves, root, page, tables)
    requires |tables| <= 3 && e == Load(m, tables[|tables| - 1])[page[|tables| - 1]] && Links(e)
    ensures e.frame in privateTables ==> IsWalk(m, serves, root, page, tables + [e.frame])
    ensures e.frame !in privateTables ==> e.frame in k.Tables(|tables|) && e.frame in k.All()
  {
    var n := |tables| - 1;
    assert IsTable(root, serves, tables[n], page[..n]);
    assert page[..n] + [page[n]] == page[..n + 1];
    assert LinkOk(k, serves, page[..n + 1], e);
    TablesOwned(root, mappings, privateTables);
    assert k.Tables(|tables|) <= k.All();
  }

  lemma NothingMapped(m: Memory, k: Kernel, root: nat)
    requires Realises(m, k, root, [])
    ensures forall p :: IsPage(p) ==> Reach(m, root, p) == Reach(m, k.root, p)
    ensures Elements(Frames([])) == {}
  {
    hide Reach;
  }

  // A copy of the kernel root sees what the kernel sees.
  lemma CopyOfRoot(m: Memory, k: Kernel, root: nat)
    requires k.Closed(m) && Load(m, root) == Load(m, k.root)
    ensures Linked(m, k, root, map[]) && Realises(m, k, root, [])
  {
    forall t, q, i | IsTable(root, map[], t, q) && |q| < 3 && 0 <= i < 512
      ensures LinkOk(k, map[], q + [i], Load(m, t)[i])
    {
      assert k.root in k.Tables(0);
      assert Load(m, t)[i] == Load(m, k.root)[i];
    }
  }

  // ---------------------------------------------------------------- all spaces of the machine

  datatype Op =
    | Create
    | Map(i: nat, page: Path, flags: Flags)
    | Clone(i: nat)
    | Empty(i: nat)
    | Exit(i: nat)

  class Spaces {
    const machine: Machine
    var live: seq<AddressSpace>

    ghost predicate Valid()
      reads this, machine, live
    {
      && machine.Valid()
      && (forall i :: 0 <= i < |live| ==> live[i].machine == machine && live[i].Valid())
      && (forall i, j :: 0 <= i < j < |live| ==> live[i] != live[j] && live[i].Owned() !! live[j].Owned())
    }

    constructor (machine: Machine)
      requires machine.Valid()
      ensures Valid() && this.machine == machine && live == []
    {
      this.machine := machine;
      live := [];
    }

    // The pages and frames of a space are untouched.
    twostate predicate Untouched(t: AddressSpace)
      requires t.machine == machine
      reads this, machine, t
    {
      && t.root == old(t.root) && t.mappings == old(t.mappings) && t.Owned() == old(t.Owned())
      && SameOn(old(machine.memory), machine.memory, t.Owned())
      && forall p :: IsPage(p) ==> Reach(machine.memory, t.root, p) == Reach(old(machine.memory), t.root, p)
    }

    /** Mapping a page in one space disturbs no other space. */
    method MapPage(i: nat, page: Path, flags: Flags) returns (r: Result<nat, MmError>)
      requires Valid() && i < |live| && IsPage(page)
      modifies machine, live[i]
      ensures Valid()
      ensures forall j :: 0 <= j < |live| && j != i ==> Untouched(live[j])
    {
      hide SpaceOk, AllFrames, Elements, Frames, Reach, Kernel.Closed, Kernel.All;
      var s := live[i];
      FreeIsFree(machine);
      ghost var m0, changed := machine.memory, s.Reserve();
      s.ReserveClear();
      r := s.MapPage(page, flags);
      FreeIsFree(machine);
      forall j | 0 <= j < |live| && j != i
        ensures live[j].Valid() && live[j].Owned() !! s.Owned()
        ensures Untouched(live[j])
      {
        assert live[j].Owned() !! old(s.Owned());
        assert live[j].Owned() <= old(machine.Outstanding() - s.Owned());
        StillValid(live[j], m0, changed);
      }
    }

    /** Emptying one space disturbs no other space. */
    method Clear(i: nat)
      requires Valid() && i < |live|
      modifies machine, live[i]
      ensures Valid()
      ensures forall j :: 0 <= j < |live| && j != i ==> Untouched(live[j])
    {
      hide SpaceOk, AllFrames, Elements, Frames, Reach, Kernel.Closed, Kernel.All;
      var s := live[i];
      FreeIsFree(machine);
      ghost var m0, changed := machine.memory, s.Reserve();
      s.ReserveClear();
      s.RootOwned();
      s.Clear();
      FreeIsFree(machine);
      forall j | 0 <= j < |live| && j != i
        ensures live[j].Valid() && live[j].Owned() !! s.Owned()
        ensures Untouched(live[j])
      {
        assert live[j].Owned() !! old(s.Owned());
        assert live[j].Owned() <= old(machine.Outstanding() - s.Owned());
        StillValid(live[j], m0, changed);
      }
    }

    /** A new space disturbs none. */
    method Create() returns (r: Result<(), MmError>)
      requires Valid()
      modifies this, machine
      ensures Valid() && |live| == |old(live)| + (if r.Ok? then 1 else 0) && live[..|old(live)|] == old(live)
      ensures r.Ok? ==> fresh(live[|live| - 1])
      ensures forall j :: 0 <= j < |old(live)| ==> Untouched(old(live)[j])
    {
      hide SpaceOk, AllFrames, Elements, Frames, Reach, Kernel.Closed, Kernel.All;
      FreeIsFree(machine);
      ghost var m0, changed := machine.memory, machine.Free();
      var made := AddressSpace.New(machine);
      forall j | 0 <= j < |live|
        ensures live[j].Valid()
        ensures Untouched(live[j])
      {
        StillValid(live[j], m0, changed);
      }
      if made.Err? {
        return Err(made.error);
      }
      live := live + [made.value];
      return Ok(());
    }

    /** A fork disturbs no space, the parent included; the child's pages are copies of the parent's. */
    method Fork(i: nat) returns (r: Result<(), MmError>)
      requires Valid() && i < |live|
      modifies this, machine
      ensures Valid() && |live| == |old(live)| + (if r.Ok? then 1 else 0) && live[..|old(live)|] == old(live)
      ensures r.Ok? ==> fresh(live[|live| - 1])
      ensures forall j :: 0 <= j < |old(live)| ==> Untouched(old(live)[j])
      ensures r.Ok? ==>
        Copies(old(machine.memory), old(live[i].mappings), machine.memory, live[|live| - 1].mappings)
      ensures r.Err? ==> r.error == OutOfFrames
    {
      hide SpaceOk, AllFrames, Elements, Frames, Reach, Kernel.Closed, Kernel.All, Copies;
      FreeIsFree(machine);
      ghost var m0, changed := machine.memory, machine.Free();
      var made := live[i].Fork();
      forall j | 0 <= j < |live|
        ensures live[j].Valid()
        ensures Untouched(live[j])
      {
        StillValid(live[j], m0, changed);
      }
      if made.Err? {
        return Err(made.error);
      }
      live := live + [made.value];
      return Ok(());
    }

    /** Dropping one space disturbs no other. */
    method Exit(i: nat)
      requires Valid() && i < |live|
      modifies this, machine, live[i]
      ensures Valid() && live == old(live[..i] + live[i + 1..])
      ensures forall j :: 0 <= j < |live| ==> Untouched(live[j])
    {
      hide SpaceOk, AllFrames, Elements, Frames, Reach, Kernel.Closed, Kernel.All;
      var s := live[i];
      FreeIsFree(machine);
      ghost var m0, changed := machine.memory, s.Reserve();
      s.ReserveClear();
      s.Drop();
      forall j | 0 <= j < |live| && j != i
        ensures live[j].Valid()
        ensures Untouched(live[j])
      {
        StillValid(live[j], m0, changed);
      }
      live := live[..i] + live[i + 1..];
    }

    /**
     Every run of operations keeps all spaces intact and apart, and every page of each has the rights that
     its latest record was asked to have, or is the kernel's page.
     */
    method Run(ops: seq<Op>)
      requires Valid()
      modifies this, machine, live
      ensures Valid()
      ensures forall i, page :: 0 <= i < |live| && IsPage(page) ==>
        RightsAsAsked(machine.memory, machine.kernel, live[i].root, live[i].mappings, live[i].asked, page)
    {
      for n := 0 to |ops|
        invariant Valid() && forall i :: 0 <= i < |live| ==> live[i] in old(live) || fresh(live[i])
      {
        Take(ops[n]);
      }
      hide RightsAsAsked;
      forall i, page | 0 <= i < |live| && IsPage(page)
        ensures RightsAsAsked(machine.memory, machine.kernel, live[i].root, live[i].mappings, live[i].asked, page)
      {
        live[i].Rights(page);
      }
    }

    method Take(op: Op)
      requires Valid()
      modifies this, machine, live
      ensures Valid() && forall i :: 0 <= i < |live| ==> live[i] in old(live) || fresh(live[i])
    {
      match op
      case Create =>
        var _ := Create();
      case Map(i, page, flags) =>
        if i < |live| && IsPage(page) {
          var _ := MapPage(i, page, flags);
        }
      case Clone(i) =>
        if i < |live| {
          var _ := Fork(i);
        }
      case Empty(i) =>
        if i < |live| {
          Clear(i);
        }
      case Exit(i) =>
        if i < |live| {
          Exit(i);
        }
    }
  }

  // A space that nothing was written to.
  lemma StillValid(t: AddressSpace, m0: Memory, changed: set<nat>)
    requires t.machine.Valid() && t.machine.kernel.Closed(m0)
    requires SpaceOk(m0, t.machine.kernel, t.root, t.mappings, t.privateTables, t.serves)
    requires AllAskedFor(t.asked, t.mappings)
    requires OnlyWithin(m0, t.machine.memory, changed) && changed !! t.Owned() && changed !! t.machine.kernel.All()
    requires t.Owned() <= t.machine.Outstanding()
    ensures t.Valid() && SameOn(m0, t.machine.memory, t.Owned())
    ensures forall p :: IsPage(p) ==> Reach(t.machine.memory, t.root, p) == Reach(m0, t.root, p)
  {
    Undisturbed(m0, t.machine.memory, t.machine.kernel, t.root, t.mappings, t.privateTables, t.serves, changed);
  }
}
