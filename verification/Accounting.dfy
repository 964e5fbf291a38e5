/**
 The per-task CPU clocks of kernel/src/process/accounting.rs. Times are u64 nanoseconds and every
 addition saturates; the exact total beside them is unbounded, and the lemmas say that the code's
 values are the exact ones as long as the total fits.
 */
module Accounting {
  import opened Base

  const U64_MAX: nat := 0xffff_ffff_ffff_ffff

  datatype TaskMode = Kernel | User

  datatype CpuUsage = CpuUsage(user: nat, kernel: nat)
  {
    function Sum(): nat { user + kernel }

    function In(m: TaskMode): nat { if m == User then user else kernel }

    // `CpuUsage::add`.
    function Add(other: CpuUsage): CpuUsage {
      CpuUsage(SatAdd(user, other.user), SatAdd(kernel, other.kernel))
    }
  }

  function SatAdd(a: nat, b: nat): (r: nat)
    ensures r <= 0xffff_ffff_ffff_ffff && r <= a + b
    ensures r < a + b ==> r == 0xffff_ffff_ffff_ffff
  {
    Min(a + b, U64_MAX)
  }

  datatype CpuAccounting = CpuAccounting(usage: CpuUsage, children: CpuUsage, mode: TaskMode, runningSince: Option<nat>)
  {
    function Snapshot(now: nat): CpuUsage {
      match runningSince
      case None => usage
      case Some(start) =>
        var elapsed := if now >= start then now - start else 0;
        match mode
        case User => usage.(user := SatAdd(usage.user, elapsed))
        case Kernel => usage.(kernel := SatAdd(usage.kernel, elapsed))
    }

    function Pause(now: nat): CpuAccounting {
      this.(usage := Snapshot(now), runningSince := None)
    }

    function Resume(now: nat): CpuAccounting {
      if runningSince.None? then this.(runningSince := Some(now)) else this
    }

    function SetMode(newMode: TaskMode, now: nat): CpuAccounting {
      this.(usage := Snapshot(now), runningSince := if runningSince.Some? then Some(now) else None, mode := newMode)
    }

    function Reap(child: CpuAccounting, now: nat): CpuAccounting {
      this.(children := children.Add(child.Snapshot(now)).Add(child.children))
    }

    // The time of a mode charged to the task up to `now`, its reaped children's included; never saturated.
    function Total(m: TaskMode, now: nat): nat {
      usage.In(m) + children.In(m) +
        match runningSince
        case None => 0
        case Some(start) => if mode == m && now >= start then now - start else 0
    }

    function AllTime(now: nat): nat { Total(User, now) + Total(Kernel, now) }

    // What the clock gains in a mode from one time to a later one.
    function Gain(m: TaskMode, from: nat, to: nat): nat
      requires from <= to
    {
      if runningSince.Some? && mode == m then to - from else 0
    }

    predicate StartedBy(now: nat) {
      runningSince.Some? ==> runningSince.value <= now
    }
  }

  const FRESH := CpuAccounting(CpuUsage(0, 0), CpuUsage(0, 0), Kernel, None)

  // Stopping, starting or changing the mode of a clock charges each interval once, under the mode it ran in.
  lemma SwitchKeepsTotal(a: CpuAccounting, now: nat, mode: TaskMode, m: TaskMode)
    requires a.AllTime(now) <= U64_MAX
    ensures a.Pause(now).Total(m, now) == a.Total(m, now) && a.Pause(now).runningSince.None?
    ensures a.Resume(now).Total(m, now) == a.Total(m, now)
    ensures a.SetMode(mode, now).Total(m, now) == a.Total(m, now) && a.SetMode(mode, now).mode == mode
    ensures a.Snapshot(now).In(m) + a.children.In(m) == a.Total(m, now)
  {
  }

  // A running clock gains exactly the time that passes, in its mode, and a stopped one nothing.
  lemma TimePasses(a: CpuAccounting, now: nat, later: nat, m: TaskMode)
    requires now <= later && a.StartedBy(now)
    ensures a.Total(m, later) == a.Total(m, now) + a.Gain(m, now, later)
  {
  }

  /**
   Reaping books the child's own and inherited time of each mode under the same mode of the parent's
   children, and moves the child's whole time to the parent.
   */
  lemma ReapKeepsTotal(parent: CpuAccounting, child: CpuAccounting, now: nat, m: TaskMode)
    requires parent.AllTime(now) + child.AllTime(now) <= U64_MAX
    ensures
      var own, after := child.Snapshot(now), parent.Reap(child, now);
      && after.children.user == parent.children.user + own.user + child.children.user
      && after.children.kernel == parent.children.kernel + own.kernel + child.children.kernel
    ensures parent.Reap(child, now).Total(m, now) == parent.Total(m, now) + child.Total(m, now)
    ensures parent.Reap(child, now).Snapshot(now) == parent.Snapshot(now)
    ensures parent.Reap(child, now).runningSince == parent.runningSince
  {
    SwitchKeepsTotal(child, now, Kernel, m);
  }

  // ---------------------------------------------------------------- the history of one clock

  datatype Event = Paused(time: nat) | Resumed(time: nat) | Entered(time: nat, mode: TaskMode)

  function After(events: seq<Event>): CpuAccounting {
    if events == [] then FRESH
    else
      var before := After(events[..|events| - 1]);
      match events[|events| - 1]
      case Paused(t) => before.Pause(t)
      case Resumed(t) => before.Resume(t)
      case Entered(t, mode) => before.SetMode(mode, t)
  }

  // Whether the clock runs after some events, and the mode it then runs in.
  function Runs(events: seq<Event>): bool {
    events != [] &&
    match events[|events| - 1]
    case Paused(_) => false
    case Resumed(_) => true
    case Entered(_, _) => Runs(events[..|events| - 1])
  }

  function ModeAfter(events: seq<Event>): TaskMode {
    if events == [] then Kernel
    else match events[|events| - 1]
      case Entered(_, mode) => mode
      case _ => ModeAfter(events[..|events| - 1])
  }

  ghost predicate InOrder(events: seq<Event>, now: nat) {
    && (forall i :: 0 <= i < |events| ==> events[i].time <= now)
    && (forall i, j :: 0 <= i < j < |events| ==> events[i].time <= events[j].time)
  }

  // The time up to `now` that lies in stretches where the clock ran in the given mode.
  ghost function TimeIn(events: seq<Event>, mode: TaskMode, now: nat): nat
    requires InOrder(events, now)
  {
    if events == [] then 0
    else
      var last := events[|events| - 1];
      TimeIn(events[..|events| - 1], mode, last.time)
        + if Runs(events) && ModeAfter(events) == mode then now - last.time else 0
  }

  /** Whatever happened to a clock, each nanosecond it ran is booked once, under the mode it ran in. */
  lemma {:induction false} BookedByMode(events: seq<Event>, now: nat)
    requires InOrder(events, now) && now <= U64_MAX
    ensures After(events).Snapshot(now) == CpuUsage(TimeIn(events, User, now), TimeIn(events, Kernel, now))
    ensures TimeIn(events, User, now) + TimeIn(events, Kernel, now) <= now
    ensures After(events).mode == ModeAfter(events) && After(events).runningSince.Some? == Runs(events)
    ensures After(events).StartedBy(now) && After(events).children == CpuUsage(0, 0)
  {
    if events != [] {
      var rest, last := events[..|events| - 1], events[|events| - 1];
      BookedByMode(rest, last.time);
      Later(After(rest), last.time, now);
    }
  }

  // What a clock adds between two readings.
  lemma Later(a: CpuAccounting, t: nat, now: nat)
    requires a.StartedBy(t) && t <= now <= U64_MAX && a.Snapshot(t).user + a.Snapshot(t).kernel <= t
    ensures a.Snapshot(now).user == a.Snapshot(t).user + if a.runningSince.Some? && a.mode == User then now - t else 0
    ensures a.Snapshot(now).kernel
         == a.Snapshot(t).kernel + if a.runningSince.Some? && a.mode == Kernel then now - t else 0
  {
  }
}
