/**
 Four-level page tables in physical memory, as kernel/src/mm/address_space.rs edits them. Memory is
 a map from frame numbers to the 512 entries a frame holds when it is read as a table; a page is
 the sequence of its four table indices.
 */
module PageTables {

  datatype Flags = Flags(present: bool, writable: bool, user: bool, huge: bool, bit9: bool, rest: nat)

  datatype Entry = Entry(frame: nat, flags: Flags)

  const NO_FLAGS: Flags := Flags(false, false, false, false, false, 0)
  const UNUSED: Entry := Entry(0, NO_FLAGS)

  type Memory = map<nat, seq<Entry>>

  type Path = seq<nat>

  predicate IsPath(s: Path) {
    forall i :: 0 <= i < |s| ==> s[i] < 512
  }

  predicate IsPage(s: Path) {
    |s| == 4 && IsPath(s)
  }

  function ZeroTable(): (t: seq<Entry>)
    ensures |t| == 512 && forall i :: 0 <= i < 512 ==> t[i] == UNUSED
  {
    seq(512, _ => UNUSED)
  }

  function Load(m: Memory, f: nat): (t: seq<Entry>)
    ensures |t| == 512
  {
    if f in m && |m[f]| == 512 then m[f] else ZeroTable()
  }

  // The entry that leads on to a table of the next level.
  predicate Links(e: Entry) {
    e.flags.present && !e.flags.huge
  }

  /**
   The entry a walk ends at, with its level: the page's own entry on level 1, which is unused when
   a table on the way is missing, or an entry further up that leads to no table: a large page or
   one that is not present.
   */
  function Reach(m: Memory, table: nat, s: Path): (nat, Entry)
    requires s != [] && IsPath(s)
    decreases |s|
  {
    var e := Load(m, table)[s[0]];
    if |s| == 1 then (1, e)
    else if e == UNUSED then (1, UNUSED)
    else if !Links(e) then (|s|, e)
    else Reach(m, e.frame, s[1..])
  }

  // ---------------------------------------------------------------- the kernel's tables

  // The kernel root and the tables one, two and three steps below it.
  datatype Kernel = Kernel(root: nat, third: set<nat>, second: set<nat>, first: set<nat>) {
    ghost function Tables(depth: nat): set<nat> {
      if depth == 0 then {root}
      else if depth == 1 then third
      else if depth == 2 then second
      else if depth == 3 then first
      else {}
    }

    ghost function All(): set<nat> {
      {root} + third + second + first
    }

    // No step leads out of the kernel's tables.
    ghost predicate Closed(m: Memory) {
      forall n: nat, t, i {:trigger t in Tables(n), Load(m, t)[i]} :: n < 3 && t in Tables(n) && 0 <= i < 512 ==>
        Links(Load(m, t)[i]) ==> Load(m, t)[i].frame in Tables(n + 1)
    }
  }

  ghost predicate SameOn(m: Memory, m': Memory, frames: set<nat>) {
    forall f :: f in frames ==> Load(m', f) == Load(m, f)
  }

  lemma {:induction false} KernelReach(m: Memory, m': Memory, k: Kernel, n: nat, t: nat, s: Path)
    requires k.Closed(m) && SameOn(m, m', k.All()) && n <= 3 && t in k.Tables(n) && |s| == 4 - n && IsPath(s)
    ensures Reach(m', t, s) == Reach(m, t, s)
    decreases |s|
  {
    assert t in k.All();
    var e := Load(m, t)[s[0]];
    if n < 3 && Links(e) {
      KernelReach(m, m', k, n + 1, e.frame, s[1..]);
    }
  }

  // ---------------------------------------------------------------- the tables of one space

  // `serves` gives for each private table the path that leads to it.
  ghost predicate IsTable(root: nat, serves: map<nat, Path>, t: nat, q: Path) {
    if q == [] then t == root else t in serves && serves[t] == q
  }

  // A step from the table at the end of q[..|q| - 1] ends in a kernel table, or in the one private
  // table that serves q, with all rights left to the page's own entry.
  ghost predicate LinkOk(k: Kernel, serves: map<nat, Path>, q: Path, e: Entry) {
    Links(e) ==>
      || e.frame in k.Tables(|q|)
      || (e.frame in serves && serves[e.frame] == q && e.flags.writable && e.flags.user)
  }

  ghost predicate Linked(m: Memory, k: Kernel, root: nat, serves: map<nat, Path>) {
    && root !in serves
    && (forall t :: t in serves ==> 1 <= |serves[t]| <= 3 && IsPath(serves[t]))
    && (forall t, q, i {:trigger IsTable(root, serves, t, q), Load(m, t)[i]} ::
          IsTable(root, serves, t, q) && |q| < 3 && 0 <= i < 512 ==> LinkOk(k, serves, q + [i], Load(m, t)[i]))
  }

  // The frames a walk in the space may read.
  ghost function Footprint(k: Kernel, root: nat, serves: map<nat, Path>): set<nat> {
    {root} + serves.Keys + k.All()
  }

  // A walk depends on nothing but the footprint.
  lemma {:induction false} SameReach(m: Memory, m': Memory, k: Kernel, root: nat, serves: map<nat, Path>, t: nat,
                                     q: Path, s: Path)
    requires Linked(m, k, root, serves) && k.Closed(m) && SameOn(m, m', Footprint(k, root, serves))
    requires IsTable(root, serves, t, q) && |q| <= 3 && |q| + |s| == 4 && IsPath(s)
    ensures Reach(m', t, s) == Reach(m, t, s)
    decreases |s|
  {
    var e := Load(m, t)[s[0]];
    assert Load(m', t) == Load(m, t);
    if |q| < 3 && Links(e) {
      assert LinkOk(k, serves, q + [s[0]], e);
      if e.frame in k.Tables(|q| + 1) {
        KernelReach(m, m', k, |q| + 1, e.frame, s[1..]);
      } else {
        SameReach(m, m', k, root, serves, e.frame, q + [s[0]], s[1..]);
      }
    }
  }

  /** Changing memory outside a space's footprint changes none of its walks and keeps its shape. */
  lemma Isolated(m: Memory, m': Memory, k: Kernel, root: nat, serves: map<nat, Path>)
    requires Linked(m, k, root, serves) && k.Closed(m) && SameOn(m, m', Footprint(k, root, serves))
    ensures Linked(m', k, root, serves) && k.Closed(m')
    ensures forall page :: IsPage(page) ==> Reach(m', root, page) == Reach(m, root, page)
  {
    forall t, q, i | IsTable(root, serves, t, q) && |q| < 3 && 0 <= i < 512
      ensures LinkOk(k, serves, q + [i], Load(m', t)[i])
    {
      assert Load(m', t) == Load(m, t);
      assert LinkOk(k, serves, q + [i], Load(m, t)[i]);
    }
    KernelStays(m, m', k);
    forall page | IsPage(page) ensures Reach(m', root, page) == Reach(m, root, page) {
      SameReach(m, m', k, root, serves, root, [], page);
    }
  }

  lemma KernelStays(m: Memory, m': Memory, k: Kernel)
    requires k.Closed(m) && SameOn(m, m', k.All())
    ensures k.Closed(m')
  {
    forall n: nat, t, i | n < 3 && t in k.Tables(n) && 0 <= i < 512
      ensures Links(Load(m', t)[i]) ==> Load(m', t)[i].frame in k.Tables(n + 1)
    {
      assert t in k.All();
      assert Load(m', t)[i] == Load(m, t)[i];
    }
  }

  // ---------------------------------------------------------------- copying a branch

  // The frames f and t0 change: f takes the table behind an entry of t0, and the entry points to f.
  ghost predicate Branched(m: Memory, m': Memory, t0: nat, i0: nat, f: nat) {
    && i0 < 512 && f != t0
    && var e := Load(m, t0)[i0];
    && (e == UNUSED || Links(e))
    && Load(m', f) == (if e == UNUSED then ZeroTable() else Load(m, e.frame))
    && (forall g :: g != f && g != t0 ==> Load(m', g) == Load(m, g))
    && var e' := Load(m', t0)[i0];
    && Links(e') && e'.frame == f && e'.flags.writable && e'.flags.user
    && e'.flags.bit9 == e.flags.bit9 && e'.flags.rest == e.flags.rest
    && (forall i :: 0 <= i < 512 && i != i0 ==> Load(m', t0)[i] == Load(m, t0)[i])
  }

  // The copy leads where the original led.
  lemma CopyReach(m: Memory, m': Memory, k: Kernel, t0: nat, i0: nat, f: nat, n: nat, s: Path)
    requires Branched(m, m', t0, i0, f) && k.Closed(m) && SameOn(m, m', k.All()) && n <= 2 && |s| == 3 - n && IsPath(s)
    requires Load(m, t0)[i0] == UNUSED || Load(m, t0)[i0].frame in k.Tables(n + 1)
    ensures Reach(m', f, s) == if Load(m, t0)[i0] == UNUSED then (1, UNUSED) else Reach(m, Load(m, t0)[i0].frame, s)
  {
    var old0 := Load(m, t0)[i0];
    if old0 != UNUSED {
      var e := Load(m, old0.frame)[s[0]];
      if |s| > 1 && Links(e) {
        KernelReach(m, m', k, n + 2, e.frame, s[1..]);
      }
    }
  }

  lemma {:induction false} BranchReach(m: Memory, m': Memory, k: Kernel, root: nat, serves: map<nat, Path>, t0: nat,
                                       q0: Path, i0: nat, f: nat, t: nat, q: Path, s: Path)
    requires Linked(m, k, root, serves) && k.Closed(m) && SameOn(m, m', k.All())
    requires Branched(m, m', t0, i0, f) && f !in Footprint(k, root, serves)
    requires IsTable(root, serves, t0, q0) && |q0| <= 2
    requires Load(m, t0)[i0] == UNUSED || Load(m, t0)[i0].frame in k.Tables(|q0| + 1)
    requires IsTable(root, serves, t, q) && |q| <= 3 && |q| + |s| == 4 && IsPath(s)
    ensures Reach(m', t, s) == Reach(m, t, s)
    decreases |s|
  {
    var e := Load(m, t)[s[0]];
    assert t == t0 ==> q == q0 by { if t == t0 { assert t == root <==> q == []; } }
    if t == t0 && s[0] == i0 {
      CopyReach(m, m', k, t0, i0, f, |q0|, s[1..]);
    } else {
      assert Load(m', t)[s[0]] == e;
      if |q| < 3 && Links(e) {
        assert LinkOk(k, serves, q + [s[0]], e);
        if e.frame in k.Tables(|q| + 1) {
          KernelReach(m, m', k, |q| + 1, e.frame, s[1..]);
        } else {
          BranchReach(m, m', k, root, serves, t0, q0, i0, f, e.frame, q + [s[0]], s[1..]);
        }
      }
    }
  }

  /** Copying a branch before editing it changes no walk of the space, and the space keeps its shape. */
  lemma BranchKeeps(m: Memory, m': Memory, k: Kernel, root: nat, serves: map<nat, Path>, t0: nat, q0: Path, i0: nat,
                    f: nat)
    requires Linked(m, k, root, serves) && k.Closed(m) && SameOn(m, m', k.All())
    requires Branched(m, m', t0, i0, f) && f !in Footprint(k, root, serves)
    requires IsTable(root, serves, t0, q0) && |q0| <= 2
    requires Load(m, t0)[i0] == UNUSED || Load(m, t0)[i0].frame in k.Tables(|q0| + 1)
    ensures Linked(m', k, root, serves[f := q0 + [i0]])
    ensures forall page :: IsPage(page) ==> Reach(m', root, page) == Reach(m, root, page)
  {
    BranchLinked(m, m', k, root, serves, t0, q0, i0, f);
    forall page | IsPage(page) ensures Reach(m', root, page) == Reach(m, root, page) {
      BranchReach(m, m', k, root, serves, t0, q0, i0, f, root, [], page);
    }
  }

  lemma BranchLinked(m: Memory, m': Memory, k: Kernel, root: nat, serves: map<nat, Path>, t0: nat, q0: Path, i0: nat,
                     f: nat)
    requires Linked(m, k, root, serves) && k.Closed(m) && SameOn(m, m', k.All())
    requires Branched(m, m', t0, i0, f) && f !in Footprint(k, root, serves)
    requires IsTable(root, serves, t0, q0) && |q0| <= 2
    requires Load(m, t0)[i0] == UNUSED || Load(m, t0)[i0].frame in k.Tables(|q0| + 1)
    ensures Linked(m', k, root, serves[f := q0 + [i0]])
  {
    var serves' := serves[f := q0 + [i0]];
    forall t, q, i | IsTable(root, serves', t, q) && |q| < 3 && 0 <= i < 512
      ensures LinkOk(k, serves', q + [i], Load(m', t)[i])
    {
      if t == f {
        CopyLinks(m, m', k, serves', t0, q0, i0, f, i);
      } else {
        OldLinks(m, m', k, root, serves, t0, q0, i0, f, t, q, i);
      }
    }
  }

  lemma OldLinks(m: Memory, m': Memory, k: Kernel, root: nat, serves: map<nat, Path>, t0: nat, q0: Path, i0: nat,
                 f: nat, t: nat, q: Path, i: nat)
    requires Linked(m, k, root, serves) && Branched(m, m', t0, i0, f) && f !in serves && f != root
    requires IsTable(root, serves, t0, q0) && IsTable(root, serves[f := q0 + [i0]], t, q) && t != f && |q| < 3
    requires i < 512
    ensures LinkOk(k, serves[f := q0 + [i0]], q + [i], Load(m', t)[i])
  {
    assert IsTable(root, serves, t, q);
    assert LinkOk(k, serves, q + [i], Load(m, t)[i]);
    assert t == t0 ==> q == q0 by { if t == t0 { assert t == root <==> q == []; } }
  }

  lemma CopyLinks(m: Memory, m': Memory, k: Kernel, serves': map<nat, Path>, t0: nat, q0: Path, i0: nat, f: nat, i: nat)
    requires k.Closed(m) && Branched(m, m', t0, i0, f) && |q0| <= 1 && i < 512
    requires Load(m, t0)[i0] == UNUSED || Load(m, t0)[i0].frame in k.Tables(|q0| + 1)
    ensures LinkOk(k, serves', q0 + [i0] + [i], Load(m', f)[i])
  {
    var old0 := Load(m, t0)[i0];
    if old0 != UNUSED {
      assert old0.frame in k.Tables(|q0| + 1);
      assert Load(m', f)[i] == Load(m, old0.frame)[i];
    }
  }

  // ---------------------------------------------------------------- setting a page's own entry

  // Tables from the root down to the one that holds the page's entry.
  ghost predicate IsWalk(m: Memory, serves: map<nat, Path>, root: nat, page: Path, tables: seq<nat>)
    requires IsPage(page)
  {
    && 1 <= |tables| <= 4 && tables[0] == root
    && (forall j :: 0 <= j < |tables| ==> IsTable(root, serves, tables[j], page[..j]))
    && (forall j :: 0 <= j < |tables| - 1 ==> Opens(Load(m, tables[j])[page[j]], tables[j + 1]))
  }

  predicate Opens(e: Entry, next: nat) {
    Links(e) && e.frame == next && e.flags.writable && e.flags.user
  }

  lemma {:induction false} WalkReach(m: Memory, serves: map<nat, Path>, root: nat, page: Path, tables: seq<nat>, j: nat)
    requires IsPage(page) && IsWalk(m, serves, root, page, tables) && j < |tables|
    ensures Reach(m, root, page) == Reach(m, tables[j], page[j..])
    decreases j
  {
    if j == 0 {
      assert page[0..] == page;
    } else {
      WalkReach(m, serves, root, page, tables, j - 1);
      assert Opens(Load(m, tables[j - 1])[page[j - 1]], tables[j]);
      assert page[j - 1..][1..] == page[j..];
    }
  }

  ghost predicate EntrySet(m: Memory, m': Memory, t0: nat, i0: nat, e: Entry) {
    && i0 < 512 && Load(m', t0) == Load(m, t0)[i0 := e]
    && (forall g :: g != t0 ==> Load(m', g) == Load(m, g))
  }

  lemma {:induction false} OtherReach(m: Memory, m': Memory, k: Kernel, root: nat, serves: map<nat, Path>, t0: nat,
                                      i0: nat, e: Entry, t: nat, q: Path, s: Path)
    requires Linked(m, k, root, serves) && k.Closed(m) && EntrySet(m, m', t0, i0, e) && t0 !in k.All()
    requires t0 in serves && |serves[t0]| == 3
    requires IsTable(root, serves, t, q) && |q| <= 3 && |q| + |s| == 4 && IsPath(s)
    requires q + s != serves[t0] + [i0]
    ensures Reach(m', t, s) == Reach(m, t, s)
    decreases |s|
  {
    var x := Load(m, t)[s[0]];
    assert t == t0 ==> q == serves[t0];
    assert |q| == 3 ==> q + s == q + [s[0]];
    assert Load(m', t)[s[0]] == x;
    if |q| < 3 && Links(x) {
      assert LinkOk(k, serves, q + [s[0]], x);
      if x.frame in k.Tables(|q| + 1) {
        KernelReach(m, m', k, |q| + 1, x.frame, s[1..]);
      } else {
        assert q + s == q + [s[0]] + s[1..];
        OtherReach(m, m', k, root, serves, t0, i0, e, x.frame, q + [s[0]], s[1..]);
      }
    }
  }

  /** Setting the entry of a page in its private table changes that page and no other. */
  lemma EntryKeeps(m: Memory, m': Memory, k: Kernel, root: nat, serves: map<nat, Path>, page: Path, tables: seq<nat>,
                   e: Entry)
    requires Linked(m, k, root, serves) && k.Closed(m) && serves.Keys !! k.All()
    requires IsPage(page) && IsWalk(m, serves, root, page, tables) && |tables| == 4
    requires EntrySet(m, m', tables[3], page[3], e)
    ensures Linked(m', k, root, serves) && IsWalk(m', serves, root, page, tables)
    ensures forall p :: IsPage(p) ==> Reach(m', root, p) == if p == page then (1, e) else Reach(m, root, p)
  {
    var t0 := tables[3];
    assert serves[t0] + [page[3]] == page;
    forall j | 0 <= j < 3 ensures Load(m', tables[j]) == Load(m, tables[j]) {
      assert |page[..j]| == j && |serves[t0]| == 3;
    }
    WalkReach(m', serves, root, page, tables, 3);
    forall p | IsPage(p) && p != page ensures Reach(m', root, p) == Reach(m, root, p) {
      assert [] + p == p;
      OtherReach(m, m', k, root, serves, t0, page[3], e, root, [], p);
    }
    forall t, q, i | IsTable(root, serves, t, q) && |q| < 3 && 0 <= i < 512
      ensures LinkOk(k, serves, q + [i], Load(m', t)[i])
    {
      assert t != t0;
      assert LinkOk(k, serves, q + [i], Load(m, t)[i]);
    }
  }
}
