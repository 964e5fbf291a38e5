/**
 The scheduler of kernel/src/process/scheduler.rs with the parts of kernel/src/process/mod.rs that
 drive it: the task deque, the current index, the global current pid, and the tasks' CPU clocks.
 Each method is one step under the scheduler lock; `now` is what the monotonic clock says then.
 */
module Scheduler {
  import opened Base
  import opened Accounting

  type Pid = nat

  const ROOT_PID: Pid := 1
  const KERNEL_IO_TASK_PID: Pid := 2

  datatype TaskState = Ready | Running | Waiting | Zombie

  datatype Task = Task(pid: Pid, parentPid: Pid, state: TaskState, priority: nat, exitCode: int, cpu: CpuAccounting)

  datatype Workload = Idle | Runs(pid: Pid) | KernelWork

  datatype SwitchPlan = SwitchPlan(oldIndex: nat, newIndex: nat, newPid: Pid)

  predicate Runnable(t: Task): (r: bool)
    ensures !r <==> t.state == Waiting || t.state == Zombie
  {
    t.state == Ready || t.state == Running
  }

  // `task_by_pid`: the first task with the pid.
  function IndexOf(tasks: seq<Task>, pid: Pid): (r: Option<nat>)
    ensures r.Some? ==> r.value < |tasks| && tasks[r.value].pid == pid
    ensures r.Some? ==> forall i :: 0 <= i < r.value ==> tasks[i].pid != pid
    ensures r.None? ==> forall i :: 0 <= i < |tasks| ==> tasks[i].pid != pid
  {
    if tasks == [] then None
    else if tasks[0].pid == pid then Some(0)
    else match IndexOf(tasks[1..], pid)
      case None => None
      case Some(i) => Some(i + 1)
  }

  // ---------------------------------------------------------------- time charged to all tasks

  function Charged(tasks: seq<Task>, m: TaskMode, now: nat): nat {
    if tasks == [] then 0 else Charged(tasks[..|tasks| - 1], m, now) + tasks[|tasks| - 1].cpu.Total(m, now)
  }

  function AllCharged(tasks: seq<Task>, now: nat): nat {
    Charged(tasks, User, now) + Charged(tasks, Kernel, now)
  }

  // No time of either mode is gained or lost.
  predicate SameCharges(a: seq<Task>, b: seq<Task>, now: nat) {
    Charged(b, User, now) == Charged(a, User, now) && Charged(b, Kernel, now) == Charged(a, Kernel, now)
  }

  // What the clocks of all tasks gain in a mode from one time to a later one.
  function Gained(tasks: seq<Task>, m: TaskMode, from: nat, to: nat): nat
    requires from <= to
  {
    if tasks == [] then 0
    else Gained(tasks[..|tasks| - 1], m, from, to) + tasks[|tasks| - 1].cpu.Gain(m, from, to)
  }

  lemma {:induction false} ChargedConcat(a: seq<Task>, b: seq<Task>, m: TaskMode, now: nat)
    ensures Charged(a + b, m, now) == Charged(a, m, now) + Charged(b, m, now)
    decreases |b|
  {
    if b == [] {
      assert a + b == a;
    } else {
      assert (a + b)[..|a + b| - 1] == a + b[..|b| - 1];
      ChargedConcat(a, b[..|b| - 1], m, now);
    }
  }

  lemma ChargedAt(tasks: seq<Task>, i: nat, m: TaskMode, now: nat)
    requires i < |tasks|
    ensures Charged(tasks, m, now)
         == Charged(tasks[..i], m, now) + tasks[i].cpu.Total(m, now) + Charged(tasks[i + 1..], m, now)
  {
    assert tasks == tasks[..i] + [tasks[i]] + tasks[i + 1..];
    ChargedConcat(tasks[..i] + [tasks[i]], tasks[i + 1..], m, now);
    assert (tasks[..i] + [tasks[i]])[..i] == tasks[..i];
  }

  lemma ChargedUpdate(tasks: seq<Task>, i: nat, t: Task, m: TaskMode, now: nat)
    requires i < |tasks|
    ensures Charged(tasks[i := t], m, now)
         == Charged(tasks, m, now) - tasks[i].cpu.Total(m, now) + t.cpu.Total(m, now)
    ensures tasks[i].cpu.Total(m, now) <= Charged(tasks, m, now)
  {
    ChargedAt(tasks, i, m, now);
    ChargedAt(tasks[i := t], i, m, now);
    assert tasks[i := t][..i] == tasks[..i] && tasks[i := t][i + 1..] == tasks[i + 1..];
  }

  // A task whose time is as before changes no charge.
  lemma ChargesKept(tasks: seq<Task>, i: nat, t: Task, now: nat)
    requires i < |tasks|
    requires AllCharged(tasks, now) <= U64_MAX ==>
      && t.cpu.Total(User, now) == tasks[i].cpu.Total(User, now)
      && t.cpu.Total(Kernel, now) == tasks[i].cpu.Total(Kernel, now)
    ensures tasks[i].cpu.AllTime(now) <= AllCharged(tasks, now)
    ensures AllCharged(tasks, now) <= U64_MAX ==> SameCharges(tasks, tasks[i := t], now)
  {
    hide Charged, CpuAccounting.Total;
    ChargedUpdate(tasks, i, t, User, now);
    ChargedUpdate(tasks, i, t, Kernel, now);
  }

  lemma ClockKept(tasks: seq<Task>, i: nat, now: nat, mode: TaskMode)
    requires i < |tasks| && AllCharged(tasks, now) <= U64_MAX
    ensures
      var a := tasks[i].cpu;
      && SameCharges(tasks, tasks[i := tasks[i].(cpu := a.Pause(now))], now) && a.Pause(now).runningSince.None?
      && SameCharges(tasks, tasks[i := tasks[i].(cpu := a.Resume(now))], now)
      && SameCharges(tasks, tasks[i := tasks[i].(cpu := a.SetMode(mode, now))], now)
  {
    hide Charged, CpuAccounting.Total, SameCharges;
    var a := tasks[i].cpu;
    ChargedUpdate(tasks, i, tasks[i], User, now);
    ChargedUpdate(tasks, i, tasks[i], Kernel, now);
    SwitchKeepsTotal(a, now, mode, User);
    SwitchKeepsTotal(a, now, mode, Kernel);
    ChargesKept(tasks, i, tasks[i].(cpu := a.Pause(now)), now);
    ChargesKept(tasks, i, tasks[i].(cpu := a.Resume(now)), now);
    ChargesKept(tasks, i, tasks[i].(cpu := a.SetMode(mode, now)), now);
  }

  // ---------------------------------------------------------------- invariants

  ghost predicate PidsUnique(tasks: seq<Task>) {
    forall i, j :: 0 <= i < j < |tasks| ==> tasks[i].pid != tasks[j].pid
  }

  // Only the current pid's task may be Running or have its clock running.
  ghost predicate OneRuns(tasks: seq<Task>, currentPid: Pid, clock: nat) {
    forall i :: 0 <= i < |tasks| ==>
      && (tasks[i].state == Running ==> tasks[i].pid == currentPid)
      && (tasks[i].cpu.runningSince.Some? ==> tasks[i].pid == currentPid && Runnable(tasks[i]))
      && tasks[i].cpu.StartedBy(clock)
  }

  // The current index, when set, points at the current pid's task; while it is not set,
  // only the first task (the boot task) can be Running.
  ghost predicate IndexRight(tasks: seq<Task>, currentIndex: Option<nat>, currentPid: Pid) {
    match currentIndex
    case Some(i) => i < |tasks| && tasks[i].pid == currentPid
    case None => forall i :: 0 < i < |tasks| ==> tasks[i].state != Running
  }

  ghost predicate PidsIssued(tasks: seq<Task>, nextPid: Pid) {
    forall i :: 0 <= i < |tasks| ==>
      && 0 < tasks[i].pid < nextPid
      && tasks[i].parentPid < nextPid && tasks[i].parentPid != tasks[i].pid
  }

  // What two task lists share when only clocks, states and priorities differ.
  ghost predicate SameTasks(a: seq<Task>, b: seq<Task>) {
    && |a| == |b|
    && forall i :: 0 <= i < |a| ==> b[i] == a[i].(state := b[i].state, priority := b[i].priority, cpu := b[i].cpu)
  }

  // ---------------------------------------------------------------- single-task updates

  function PauseTask(tasks: seq<Task>, pid: Pid, now: nat): seq<Task> {
    match IndexOf(tasks, pid)
    case None => tasks
    case Some(i) => tasks[i := tasks[i].(cpu := tasks[i].cpu.Pause(now))]
  }

  function ResumeTask(tasks: seq<Task>, pid: Pid, now: nat): seq<Task> {
    match IndexOf(tasks, pid)
    case None => tasks
    case Some(i) => tasks[i := tasks[i].(cpu := tasks[i].cpu.Resume(now))]
  }

  // What an update of the clocks leaves alone.
  ghost predicate OnlyClocks(a: seq<Task>, b: seq<Task>) {
    |a| == |b| && forall i :: 0 <= i < |a| ==> b[i] == a[i].(cpu := b[i].cpu)
  }

  lemma PauseCharged(tasks: seq<Task>, pid: Pid, now: nat)
    requires PidsUnique(tasks) && AllCharged(tasks, now) <= U64_MAX
    ensures OnlyClocks(tasks, PauseTask(tasks, pid, now))
    ensures SameCharges(tasks, PauseTask(tasks, pid, now), now)
    ensures forall i :: 0 <= i < |tasks| ==>
      PauseTask(tasks, pid, now)[i].cpu == if tasks[i].pid == pid then tasks[i].cpu.Pause(now) else tasks[i].cpu
  {
    if IndexOf(tasks, pid).Some? {
      var i := IndexOf(tasks, pid).value;
      ClockKept(tasks, i, now, Kernel);
    }
  }

  lemma ResumeCharged(tasks: seq<Task>, pid: Pid, now: nat)
    requires PidsUnique(tasks) && AllCharged(tasks, now) <= U64_MAX
    ensures OnlyClocks(tasks, ResumeTask(tasks, pid, now))
    ensures SameCharges(tasks, ResumeTask(tasks, pid, now), now)
    ensures forall i :: 0 <= i < |tasks| ==>
      ResumeTask(tasks, pid, now)[i].cpu == if tasks[i].pid == pid then tasks[i].cpu.Resume(now) else tasks[i].cpu
  {
    if IndexOf(tasks, pid).Some? {
      var i := IndexOf(tasks, pid).value;
      ClockKept(tasks, i, now, Kernel);
    }
  }

  // The clock of a task after a switch from the current pid to the next one.
  function Switched(t: Task, currentPid: Pid, next: Pid, now: nat): CpuAccounting {
    var paused := if t.pid == currentPid then t.cpu.Pause(now) else t.cpu;
    if t.pid == next then paused.Resume(now) else paused
  }

  function Accounted(tasks: seq<Task>, currentPid: Pid, next: Pid, now: nat): seq<Task> {
    ResumeTask(PauseTask(tasks, currentPid, now), next, now)
  }

  lemma AccountedClocks(tasks: seq<Task>, currentPid: Pid, next: Pid, now: nat)
    requires PidsUnique(tasks) && AllCharged(tasks, now) <= U64_MAX
    ensures
      var ts := Accounted(tasks, currentPid, next, now);
      && OnlyClocks(tasks, ts) && SameCharges(tasks, ts, now)
      && forall i :: 0 <= i < |ts| ==> ts[i].cpu == Switched(tasks[i], currentPid, next, now)
  {
    hide Charged, PauseTask, ResumeTask;
    PauseCharged(tasks, currentPid, now);
    ResumeCharged(PauseTask(tasks, currentPid, now), next, now);
  }

  // The tasks once the previous one has stepped back and the next one runs.
  function Dispatched(tasks: seq<Task>, previous: Option<nat>, next: nat, currentPid: Pid, now: nat): seq<Task>
    requires next < |tasks|
  {
    var back := SteppedBack(tasks, previous, next);
    var ts := Accounted(back, currentPid, tasks[next].pid, now);
    if next < |ts| then ts[next := ts[next].(state := Running)] else ts
  }

  function SteppedBack(tasks: seq<Task>, previous: Option<nat>, next: nat): seq<Task> {
    if previous.Some? && previous.value < |tasks| && previous.value != next && tasks[previous.value].state == Running
    then tasks[previous.value := tasks[previous.value].(state := Ready)]
    else tasks
  }

  lemma DispatchKeeps(tasks: seq<Task>, previous: Option<nat>, next: nat, currentPid: Pid, now: nat)
    requires next < |tasks| && Runnable(tasks[next])
    requires PidsUnique(tasks) && OneRuns(tasks, currentPid, now) && AllCharged(tasks, now) <= U64_MAX
    requires forall i :: 0 <= i < |tasks| && tasks[i].state == Running ==> i == next || Some(i) == previous
    ensures
      var ts := Dispatched(tasks, previous, next, currentPid, now);
      && SameTasks(tasks, ts) && PidsUnique(ts) && OneRuns(ts, tasks[next].pid, now)
      && SameCharges(tasks, ts, now) && HandsOver(tasks, ts, previous, next)
      && ClocksSwitched(tasks, ts, currentPid, tasks[next].pid, now)
  {
    hide Charged, Accounted;
    var back := SteppedBack(tasks, previous, next);
    if back != tasks {
      SameCharged(tasks, previous.value, back[previous.value], now);
    }
    var ts := Accounted(back, currentPid, tasks[next].pid, now);
    AccountedClocks(back, currentPid, tasks[next].pid, now);
    SameCharged(ts, next, ts[next].(state := Running), now);
    var done := Dispatched(tasks, previous, next, currentPid, now);
    forall i | 0 <= i < |done|
      ensures done[i] == tasks[i].(state := done[i].state, cpu := done[i].cpu)
      ensures done[i].cpu == Switched(tasks[i], currentPid, tasks[next].pid, now)
    {
    }
    SwitchedRuns(tasks, currentPid, next, now);
  }

  // All clocks after a switch: one stops, one starts.
  ghost predicate ClocksSwitched(a: seq<Task>, b: seq<Task>, from: Pid, to: Pid, now: nat) {
    |a| == |b| && forall i :: 0 <= i < |a| ==> b[i].cpu == Switched(a[i], from, to, now)
  }

  // After a switch only the next task's clock runs.
  lemma SwitchedRuns(tasks: seq<Task>, currentPid: Pid, next: nat, now: nat)
    requires next < |tasks| && PidsUnique(tasks) && OneRuns(tasks, currentPid, now)
    ensures forall i :: 0 <= i < |tasks| ==>
      var cpu := Switched(tasks[i], currentPid, tasks[next].pid, now);
      (cpu.runningSince.Some? ==> i == next) && cpu.StartedBy(now)
  {
  }

  // Changing anything but a clock changes no charge.
  lemma SameCharged(tasks: seq<Task>, i: nat, t: Task, now: nat)
    requires i < |tasks| && t.cpu == tasks[i].cpu
    ensures SameCharges(tasks, tasks[i := t], now)
  {
    hide Charged;
    ChargedUpdate(tasks, i, t, User, now);
    ChargedUpdate(tasks, i, t, Kernel, now);
  }

  ghost predicate AnyClockRuns(tasks: seq<Task>) {
    exists i :: 0 <= i < |tasks| && tasks[i].cpu.runningSince.Some?
  }

  // With the current task's clock stopped, no clock runs.
  lemma AllPaused(tasks: seq<Task>, currentPid: Pid, now: nat)
    requires PidsUnique(tasks) && OneRuns(tasks, currentPid, now) && AllCharged(tasks, now) <= U64_MAX
    ensures !AnyClockRuns(PauseTask(tasks, currentPid, now))
  {
    hide Charged, PauseTask;
    PauseCharged(tasks, currentPid, now);
  }

  // The tasks together gain what their clocks gain.
  lemma {:induction false} ChargedLater(tasks: seq<Task>, m: TaskMode, clock: nat, now: nat)
    requires (forall i :: 0 <= i < |tasks| ==> tasks[i].cpu.StartedBy(clock)) && clock <= now
    ensures Charged(tasks, m, now) == Charged(tasks, m, clock) + Gained(tasks, m, clock, now)
    decreases |tasks|
  {
    hide CpuAccounting.Total, CpuAccounting.Gain;
    if tasks != [] {
      ChargedLater(tasks[..|tasks| - 1], m, clock, now);
      TimePasses(tasks[|tasks| - 1].cpu, clock, now, m);
    }
  }

  // At most one clock runs, so that is no more than the time that passes.
  lemma {:induction false} GainedOnce(tasks: seq<Task>, currentPid: Pid, clock: nat, now: nat)
    requires PidsUnique(tasks) && OneRuns(tasks, currentPid, clock) && clock <= now
    ensures Gained(tasks, User, clock, now) + Gained(tasks, Kernel, clock, now)
         == if AnyClockRuns(tasks) then now - clock else 0
    decreases |tasks|
  {
    if tasks != [] {
      GainedOnce(tasks[..|tasks| - 1], currentPid, clock, now);
      OneClock(tasks, currentPid, clock);
    }
  }

  // A last task's clock runs only when no other does.
  lemma OneClock(tasks: seq<Task>, currentPid: Pid, clock: nat)
    requires tasks != [] && PidsUnique(tasks) && OneRuns(tasks, currentPid, clock)
    ensures
      var front, cpu := tasks[..|tasks| - 1], tasks[|tasks| - 1].cpu;
      && (AnyClockRuns(front) ==> cpu.runningSince.None?)
      && (AnyClockRuns(tasks) <==> AnyClockRuns(front) || cpu.runningSince.Some?)
  {
    var front, last := tasks[..|tasks| - 1], tasks[|tasks| - 1];
    if AnyClockRuns(front) {
      var i :| 0 <= i < |front| && front[i].cpu.runningSince.Some?;
      assert tasks[i] == front[i];
    }
    if AnyClockRuns(tasks) && last.cpu.runningSince.None? {
      var i :| 0 <= i < |tasks| && tasks[i].cpu.runningSince.Some?;
      assert front[i] == tasks[i];
    }
  }

  lemma {:induction false} NothingCharged(tasks: seq<Task>, m: TaskMode, now: nat)
    requires forall i :: 0 <= i < |tasks| ==> tasks[i].cpu == FRESH
    ensures Charged(tasks, m, now) == 0
    decreases |tasks|
  {
    if tasks != [] {
      NothingCharged(tasks[..|tasks| - 1], m, now);
    }
  }

  // The tasks after `set_task_state`.
  function StateSet(tasks: seq<Task>, i: nat, state: TaskState, now: nat): seq<Task>
    requires i < |tasks|
  {
    var cpu := if state == Waiting || state == Zombie then tasks[i].cpu.Pause(now) else tasks[i].cpu;
    tasks[i := tasks[i].(state := state, cpu := cpu)]
  }

  lemma StateSetKeeps(tasks: seq<Task>, i: nat, state: TaskState, currentPid: Pid, now: nat)
    requires i < |tasks| && PidsUnique(tasks) && OneRuns(tasks, currentPid, now) && AllCharged(tasks, now) <= U64_MAX
    ensures
      var ts := StateSet(tasks, i, state, now);
      && SameTasks(tasks, ts) && PidsUnique(ts) && SameCharges(tasks, ts, now)
      && (state != Running ==> OneRuns(ts, currentPid, now))
  {
    var ts := StateSet(tasks, i, state, now);
    ClockKept(tasks, i, now, Kernel);
    SameCharged(tasks, i, tasks[i].(state := state), now);
    var paused := tasks[i].(cpu := tasks[i].cpu.Pause(now));
    SameCharged(tasks[i := paused], i, paused.(state := state), now);
    assert tasks[i := paused][i := paused.(state := state)] == tasks[i := paused.(state := state)];
  }

  // ---------------------------------------------------------------- round-robin order

  // The index reached from `start` after `offset` steps around n tasks.
  function At(start: nat, offset: nat, n: nat): (i: nat)
    requires start < n && offset < n
    ensures i < n && i == (start + offset) % n
  {
    Remainder(start + offset, n, if start + offset < n then 0 else 1);
    if start + offset < n then start + offset else start + offset - n
  }

  // How many steps lead from `start` to i.
  function Distance(start: nat, i: nat, n: nat): (d: nat)
    requires start < n && i < n
    ensures d < n
  {
    if i >= start then i - start else i + n - start
  }

  lemma DistanceAt(start: nat, offset: nat, n: nat)
    requires start < n && offset < n
    ensures Distance(start, At(start, offset, n), n) == offset
  {
  }

  function StartOf(currentIndex: Option<nat>, n: nat): (s: nat)
    requires n > 0
    ensures s < n
    ensures currentIndex.Some? && currentIndex.value < n ==>
      s == if currentIndex.value == n - 1 then 0 else currentIndex.value + 1
    ensures currentIndex.None? ==> s == 0
  {
    match currentIndex
    case None => 0
    case Some(i) => (i + 1) % n
  }

  // i is the first runnable task at or after `start`, going round.
  ghost predicate IsNext(tasks: seq<Task>, start: nat, i: nat)
    requires start < |tasks|
  {
    && i < |tasks| && Runnable(tasks[i])
    && forall j :: 0 <= j < |tasks| && Runnable(tasks[j]) ==> Distance(start, i, |tasks|) <= Distance(start, j, |tasks|)
  }

  lemma AfterNext(start: nat, i: nat, j: nat, n: nat)
    requires start < n && i < n && j < n && Distance(start, i, n) < Distance(start, j, n)
    ensures Distance(StartOf(Some(i), n), j, n) < Distance(start, j, n)
  {
    Remainder(i + 1, n, if i + 1 < n then 0 else 1);
    assert StartOf(Some(i), n) == if i + 1 < n then i + 1 else 0;
  }

  // Once the first runnable task is taken, every other one is nearer by what was passed.
  lemma Nearer(tasks: seq<Task>, start: nat, i: nat, j: nat)
    requires start < |tasks| && IsNext(tasks, start, i) && j < |tasks| && j != i && Runnable(tasks[j])
    ensures Distance(StartOf(Some(i), |tasks|), j, |tasks|) < Distance(start, j, |tasks|)
  {
    var n, d, e := |tasks|, Distance(start, i, |tasks|), Distance(start, j, |tasks|);
    assert d < e;
    AfterNext(start, i, j, n);
  }

  // ---------------------------------------------------------------- the scheduler

  function WithCore(cores: seq<Workload>, core: nat, work: Workload): seq<Workload> {
    if core < |cores| then cores[core := work] else cores
  }

  class Scheduler {
    var tasks: seq<Task>
    var currentIndex: Option<nat>
    var cores: seq<Workload>
    var currentPid: Pid
    var nextPid: Pid
    ghost var clock: nat

    ghost predicate Sound()
      reads this
    {
      && PidsUnique(tasks)
      && OneRuns(tasks, currentPid, clock)
      && IndexRight(tasks, currentIndex, currentPid)
      && PidsIssued(tasks, nextPid) && 0 < currentPid < nextPid
      && AllCharged(tasks, clock) <= clock <= U64_MAX
    }

    // In the kernel the current pid always names a task.
    ghost predicate Valid()
      reads this
    {
      Sound() && HasPid(tasks, currentPid)
    }

    /** Boot: the root task runs, the kernel I/O task is ready, nothing is charged yet. */
    constructor Boot(coreCount: nat, now: nat)
      requires now <= U64_MAX
      ensures Valid() && clock == now && AllCharged(tasks, now) == 0
      ensures currentPid == 1 && currentIndex == None && nextPid == 3
      ensures tasks == [Task(1, 0, Running, 20, 0, FRESH), Task(2, 0, Ready, 20, 0, FRESH)]
      ensures |cores| == Max(coreCount, 1) && forall c :: 0 <= c < |cores| ==> cores[c] == Idle
    {
      tasks := [Task(ROOT_PID, 0, Running, 20, 0, FRESH), Task(KERNEL_IO_TASK_PID, 0, Ready, 20, 0, FRESH)];
      currentIndex := None;
      cores := seq(Max(coreCount, 1), _ => Idle);
      currentPid := ROOT_PID;
      nextPid := 3;
      clock := now;
      new;
      NothingCharged(tasks, User, now);
      NothingCharged(tasks, Kernel, now);
    }

    // The clock moves on: what the clocks gain is charged, and that is no more than the time that passed.
    ghost method Tick(now: nat)
      requires Sound() && clock <= now <= U64_MAX
      modifies `clock
      ensures Sound() && clock == now
      ensures Gains(tasks, old(clock), tasks, now)
    {
      hide Charged;
      ChargedLater(tasks, User, clock, now);
      ChargedLater(tasks, Kernel, clock, now);
      GainedOnce(tasks, currentPid, clock, now);
      clock := now;
    }

    /** `account_switch`: the current task's clock stops and the next one's starts. */
    method AccountSwitch(next: Pid, now: nat)
      requires PidsUnique(tasks) && AllCharged(tasks, now) <= U64_MAX
      modifies `tasks
      ensures tasks == Accounted(old(tasks), currentPid, next, now)
      ensures OnlyClocks(old(tasks), tasks) && SameCharges(old(tasks), tasks, now)
      ensures forall i :: 0 <= i < |tasks| ==> tasks[i].cpu == Switched(old(tasks)[i], currentPid, next, now)
    {
      AccountedClocks(tasks, currentPid, next, now);
      tasks := PauseTask(tasks, currentPid, now);
      tasks := ResumeTask(tasks, next, now);
    }

    /** `clear_core_task`: no core runs the task any more. */
    method ClearCoreTask(pid: Pid)
      modifies `cores
      ensures |cores| == |old(cores)|
      ensures forall c :: 0 <= c < |cores| ==> cores[c] == if old(cores)[c] == Runs(pid) then Idle else old(cores)[c]
    {
      var c := 0;
      while c < |cores|
        invariant c <= |cores| == |old(cores)|
        invariant forall k :: 0 <= k < |cores| ==>
          cores[k] == if k < c && old(cores)[k] == Runs(pid) then Idle else old(cores)[k]
      {
        if cores[c] == Runs(pid) {
          cores := cores[c := Idle];
        }
        c := c + 1;
      }
    }

    method SetCore(core: nat, work: Workload)
      modifies `cores
      ensures cores == WithCore(old(cores), core, work)
    {
      if core < |cores| {
        cores := cores[core := work];
      }
    }

    /** `set_task_state`. Waiting and Zombie stop the clock; a current task that dies is no longer current. */
    method SetTaskState(pid: Pid, state: TaskState, now: nat) returns (found: bool)
      requires Sound() && clock == now
      modifies `tasks, `currentIndex, `cores
      ensures found <==> exists i :: 0 <= i < |old(tasks)| && old(tasks)[i].pid == pid
      ensures !found ==> tasks == old(tasks) && currentIndex == old(currentIndex)
      ensures SameTasks(old(tasks), tasks) && SameCharges(old(tasks), tasks, now)
      ensures forall i :: 0 <= i < |tasks| && tasks[i].pid != pid ==> tasks[i] == old(tasks)[i]
      ensures forall i :: 0 <= i < |tasks| && tasks[i].pid == pid ==>
        && tasks[i].priority == old(tasks)[i].priority && tasks[i].state == state
        && tasks[i].cpu == if Runnable(tasks[i]) then old(tasks)[i].cpu else old(tasks)[i].cpu.Pause(now)
      ensures cores == if currentIndex == old(currentIndex) then old(cores) else Cleared(old(cores), pid)
      ensures currentIndex == if found && state == Zombie && pid == currentPid then None else old(currentIndex)
      ensures state != Running ==> Sound()
    {
      hide Charged, StateSet;
      match IndexOf(tasks, pid)
      case None =>
        return false;
      case Some(i) =>
        StateSetKeeps(tasks, i, state, currentPid, now);
        StateSetStates(tasks, i, state, now);
        tasks := StateSet(tasks, i, state, now);
        if currentIndex.Some? && tasks[currentIndex.value].pid == pid && state == Zombie {
          currentIndex := None;
          ClearCoreTask(pid);
        }
        return true;
    }

    // The common end of the switching operations: the old task steps back, the next one runs.
    method Dispatch(previous: Option<nat>, next: nat, core: nat, now: nat)
      requires Sound() && clock == now && next < |tasks| && Runnable(tasks[next])
      requires previous.Some? ==> previous.value < |tasks|
      requires forall i :: 0 <= i < |tasks| && tasks[i].state == Running ==> i == next || Some(i) == previous
      modifies `tasks, `currentIndex, `currentPid, `cores
      ensures Sound()
      ensures SameTasks(old(tasks), tasks) && SameCharges(old(tasks), tasks, now)
      ensures currentIndex == Some(next) && currentPid == tasks[next].pid
      ensures cores == WithCore(old(cores), core, Runs(currentPid))
      ensures HandsOver(old(tasks), tasks, previous, next)
      ensures ClocksSwitched(old(tasks), tasks, old(currentPid), currentPid, now)
    {
      hide Charged, Accounted;
      DispatchKeeps(tasks, previous, next, currentPid, now);
      if previous.Some? && previous.value != next && tasks[previous.value].state == Running {
        SameCharged(tasks, previous.value, tasks[previous.value].(state := Ready), now);
        tasks := tasks[previous.value := tasks[previous.value].(state := Ready)];
      }
      currentIndex := Some(next);
      AccountSwitch(tasks[next].pid, now);
      currentPid := tasks[next].pid;
      SetCore(core, Runs(currentPid));
      tasks := tasks[next := tasks[next].(state := Running)];
      assert tasks == Dispatched(old(tasks), previous, next, old(currentPid), now);
    }

    // The search of `schedule_on`.
    method FindNext(start: nat) returns (nextIndex: Option<nat>)
      requires start < |tasks|
      ensures nextIndex.None? ==> forall k :: 0 <= k < |tasks| ==> !Runnable(tasks[k])
      ensures nextIndex.Some? ==> IsNext(tasks, start, nextIndex.value)
    {
      var len := |tasks|;
      for offset := 0 to len
        invariant forall k :: 0 <= k < len && Distance(start, k, len) < offset ==> !Runnable(tasks[k])
      {
        var index := At(start, offset, len);
        if Runnable(tasks[index]) {
          DistanceAt(start, offset, len);
          return Some(index);
        }
        SkipsOne(tasks, start, offset);
      }
      return None;
    }

    /**
     `schedule_on`: the first runnable task after the current one, going round, becomes the
     current and only Running task; with none runnable there is no current task.
     */
    method ScheduleOn(core: nat, now: nat) returns (picked: Option<Pid>)
      requires Sound() && clock == now
      modifies `tasks, `currentIndex, `currentPid, `cores
      ensures Sound()
      ensures SameTasks(old(tasks), tasks) && SameCharges(old(tasks), tasks, now)
      ensures forall i :: 0 <= i < |tasks| ==> Runnable(tasks[i]) == Runnable(old(tasks)[i])
      ensures picked.None? <==> forall i :: 0 <= i < |old(tasks)| ==> !Runnable(old(tasks)[i])
      ensures picked.None? ==>
        && currentIndex == None && currentPid == old(currentPid) && !AnyClockRuns(tasks)
        && OnlyClocks(old(tasks), tasks) && cores == WithCore(old(cores), core, Idle)
      ensures picked.Some? ==>
        && currentIndex.Some? && picked == Some(currentPid) && cores == WithCore(old(cores), core, Runs(currentPid))
        && IsNext(old(tasks), StartOf(old(currentIndex), |old(tasks)|), currentIndex.value)
        && HandsOver(old(tasks), tasks, old(currentIndex), currentIndex.value)
        && ClocksSwitched(old(tasks), tasks, old(currentPid), currentPid, now)
    {
      hide Charged, PauseTask, HandsOver, ClocksSwitched;
      var len := |tasks|;
      if len == 0 {
        currentIndex := None;
        SetCore(core, Idle);
        return None;
      }
      var start := StartOf(currentIndex, len);
      var nextIndex := FindNext(start);
      match nextIndex
      case None =>
        PauseCharged(tasks, currentPid, now);
        AllPaused(tasks, currentPid, now);
        tasks := PauseTask(tasks, currentPid, now);
        currentIndex := None;
        SetCore(core, Idle);
        return None;
      case Some(next) =>
        FirstRuns(tasks, currentIndex, currentPid, next);
        Dispatch(currentIndex, next, core, now);
        StillRunnable(old(tasks), tasks, old(currentIndex), next);
        return Some(currentPid);
    }

    /** `preempt_and_switch`: the current task, unless dead, goes back in line first. */
    method PreemptAndSwitch(now: nat) returns (plan: Option<SwitchPlan>)
      requires Sound() && clock == now
      modifies `tasks, `currentIndex, `currentPid, `cores
      ensures Sound()
      ensures SameTasks(old(tasks), tasks) && SameCharges(old(tasks), tasks, now)
      // the rule of `schedule_on`, once the current task is ready again
      ensures currentIndex.None? <==>
        forall i :: 0 <= i < |old(tasks)| ==> !Runnable(Yielded(old(tasks), old(currentIndex))[i])
      ensures currentIndex.None? ==> currentPid == old(currentPid)
      ensures currentIndex.Some? ==>
        && IsNext(Yielded(old(tasks), old(currentIndex)), StartOf(old(currentIndex), |old(tasks)|), currentIndex.value)
        && HandsOver(Yielded(old(tasks), old(currentIndex)), tasks, old(currentIndex), currentIndex.value)
        && ClocksSwitched(old(tasks), tasks, old(currentPid), currentPid, now)
        && cores == WithCore(old(cores), 0, Runs(currentPid))
      // so a task is selected only if it was runnable, or was the current one and not dead
      ensures currentIndex.Some? ==>
        Runnable(old(tasks)[currentIndex.value]) ||
        (currentIndex == old(currentIndex) && old(tasks)[currentIndex.value].state == Waiting)
      ensures plan.Some? <==> currentIndex.Some? && old(currentIndex).Some? && currentPid != old(currentPid)
      ensures plan.Some? ==> plan.value == SwitchPlan(old(currentIndex).value, currentIndex.value, currentPid)
    {
      hide Charged;
      var oldIndex := currentIndex;
      var oldPid := if oldIndex.Some? then Some(tasks[oldIndex.value].pid) else None;
      if oldIndex.Some? {
        if tasks[oldIndex.value].state != Zombie {
          var found := SetTaskState(tasks[oldIndex.value].pid, Ready, now);
        }
      }
      assert tasks == Yielded(old(tasks), oldIndex);
      var picked := ScheduleOn(0, now);
      if picked.Some? && picked != oldPid && oldIndex.Some? {
        return Some(SwitchPlan(oldIndex.value, currentIndex.value, picked.value));
      }
      return None;
    }

    /**
     `switch_to_pid`. `validTarget` is the verdict on the target's saved context.
     Only a runnable task other than the current one is switched to.
     */
    method SwitchToPid(pid: Pid, validTarget: bool, now: nat) returns (plan: Option<SwitchPlan>)
      requires Sound() && clock == now
      modifies `tasks, `currentIndex, `currentPid, `cores
      ensures Sound()
      ensures SameTasks(old(tasks), tasks) && SameCharges(old(tasks), tasks, now)
      ensures plan.None? ==> tasks == old(tasks) && currentPid == old(currentPid) && cores == old(cores)
      ensures plan.None? ==>
        currentIndex == if old(currentIndex).Some? then old(currentIndex) else IndexOf(tasks, currentPid)
      ensures plan.Some? <==>
        && validTarget && pid != old(currentPid)
        && (exists i :: 0 <= i < |old(tasks)| && old(tasks)[i].pid == old(currentPid))
        && (exists i :: 0 <= i < |old(tasks)| && old(tasks)[i].pid == pid && Runnable(old(tasks)[i]))
      ensures plan.Some? ==>
        && currentIndex == Some(plan.value.newIndex) && plan.value.newPid == pid == currentPid
        && plan.value.oldIndex < |tasks| && tasks[plan.value.oldIndex].pid == old(currentPid)
        && Runnable(old(tasks)[plan.value.newIndex]) && cores == WithCore(old(cores), 0, Runs(pid))
        && HandsOver(old(tasks), tasks, Some(plan.value.oldIndex), plan.value.newIndex)
        && ClocksSwitched(old(tasks), tasks, old(currentPid), pid, now)
    {
      hide Charged;
      if currentIndex.None? {
        currentIndex := IndexOf(tasks, currentPid);
      }
      if currentIndex.None? {
        return None;
      }
      var oldIndex := currentIndex.value;
      var target := IndexOf(tasks, pid);
      if target.None? {
        return None;
      }
      if oldIndex == target.value || !Runnable(tasks[target.value]) || !validTarget {
        return None;
      }
      Dispatch(Some(oldIndex), target.value, 0, now);
      return Some(SwitchPlan(oldIndex, target.value, pid));
    }

    /**
     `preempt_if_higher_priority`: switches to the first of the runnable tasks of highest
     priority when that is higher than the current task's, and otherwise changes nothing.
     */
    method PreemptIfHigherPriority(now: nat) returns (plan: Option<SwitchPlan>)
      requires Sound() && clock == now
      modifies `tasks, `currentIndex, `currentPid, `cores
      ensures Sound()
      ensures SameTasks(old(tasks), tasks) && SameCharges(old(tasks), tasks, now)
      ensures plan.None? ==>
        tasks == old(tasks) && currentIndex == old(currentIndex) && currentPid == old(currentPid) && cores == old(cores)
      ensures plan.None? <==>
        || old(currentIndex).None?
        || (forall i :: 0 <= i < |old(tasks)| && Runnable(old(tasks)[i]) && i != old(currentIndex).value ==>
            old(tasks)[i].priority <= old(tasks)[old(currentIndex).value].priority)
      ensures plan.Some? ==>
        && old(currentIndex) == Some(plan.value.oldIndex) && currentIndex == Some(plan.value.newIndex)
        && Highest(old(tasks), plan.value.oldIndex, plan.value.newIndex)
        && plan.value.newPid == currentPid && cores == WithCore(old(cores), 0, Runs(currentPid))
        && HandsOver(old(tasks), tasks, old(currentIndex), plan.value.newIndex)
        && ClocksSwitched(old(tasks), tasks, old(currentPid), currentPid, now)
    {
      hide Charged;
      if currentIndex.None? {
        return None;
      }
      var current := currentIndex.value;
      var nextIndex: Option<nat> := None;
      var nextPriority := tasks[current].priority;
      for i := 0 to |tasks|
        invariant nextIndex.None? ==> nextPriority == tasks[current].priority
        invariant nextIndex.Some? ==>
          && nextIndex.value < i && nextIndex.value != current && Runnable(tasks[nextIndex.value])
          && nextPriority == tasks[nextIndex.value].priority > tasks[current].priority
          && (forall k :: 0 <= k < nextIndex.value && k != current && Runnable(tasks[k]) ==>
                tasks[k].priority < nextPriority)
        invariant forall k :: 0 <= k < i && k != current && Runnable(tasks[k]) ==> tasks[k].priority <= nextPriority
      {
        if i != current && Runnable(tasks[i]) && tasks[i].priority > nextPriority {
          nextPriority := tasks[i].priority;
          nextIndex := Some(i);
        }
      }
      if nextIndex.None? {
        return None;
      }
      Dispatch(Some(current), nextIndex.value, 0, now);
      return Some(SwitchPlan(current, nextIndex.value, currentPid));
    }

    /**
     `reap_zombie_child`: removes the first dead child asked for and moves its whole charge to
     the parent. The total is kept exactly when the parent is still there (or nothing was charged).
     */
    method ReapZombieChild(parentPid: Pid, expected: Option<Pid>, now: nat) returns (r: Option<(Pid, int)>)
      requires Sound() && clock == now
      modifies `tasks, `currentIndex, `cores
      ensures Sound()
      ensures r.None? <==> forall i :: 0 <= i < |old(tasks)| ==>
        || old(tasks)[i].parentPid != parentPid || old(tasks)[i].state != Zombie
        || (expected.Some? && old(tasks)[i].pid != expected.value)
      ensures r.None? ==> tasks == old(tasks) && currentIndex == old(currentIndex) && cores == old(cores)
      ensures r.Some? ==>
        var i := ZombieIndex(old(tasks), parentPid, expected).value;
        && r.value == (old(tasks)[i].pid, old(tasks)[i].exitCode)
        && |tasks| == |old(tasks)| - 1
        && (forall k :: 0 <= k < |tasks| ==>
              var was := old(tasks)[Skip(i, k)];
              tasks[k] == if was.pid == parentPid then was.(cpu := was.cpu.Reap(old(tasks)[i].cpu, now)) else was)
        && (forall k :: 0 <= k < |tasks| ==> tasks[k].pid != old(tasks)[i].pid)
        && currentIndex == (if old(currentIndex).None? then None else Shifted(old(currentIndex).value, i))
        && cores == Cleared(old(cores), old(tasks)[i].pid)
        && ReapedCharges(old(tasks), tasks, i, parentPid, now)
        && (forall k, p :: 0 <= k < |tasks| && tasks[k].pid == parentPid && p == Skip(i, k) ==>
              var own, was, child := old(tasks)[i].cpu.Snapshot(now), old(tasks)[p].cpu, old(tasks)[i].cpu;
              && tasks[k].cpu.children.user == was.children.user + own.user + child.children.user
              && tasks[k].cpu.children.kernel == was.children.kernel + own.kernel + child.children.kernel)
    {
      hide Charged, Reaped;
      match ZombieIndex(tasks, parentPid, expected)
      case None =>
        return None;
      case Some(i) =>
        var task := tasks[i];
        ReapKeeps(tasks, i, parentPid, currentPid, now);
        ReapIndex(tasks, i, parentPid, currentIndex, currentPid, nextPid, now);
        ReapBooks(tasks, i, parentPid, now);
        tasks := Reaped(tasks, i, parentPid, now);
        ClearCoreTask(task.pid);
        assert cores == Cleared(old(cores), task.pid);
        if currentIndex.Some? {
          currentIndex := Shifted(currentIndex.value, i);
        }
        return Some((task.pid, task.exitCode));
    }

    /**
     One round of the loop of `wait_for_child_with_options`, called by the current task: an error
     exactly when it has no such child, else the first dead one, if any. No CPU time is lost.
     */
    method WaitForChild(expected: Option<Pid>, now: nat) returns (r: Result<Option<(Pid, int)>, int>)
      requires Valid() && clock == now
      modifies `tasks, `currentIndex, `cores
      ensures Valid() && SameCharges(old(tasks), tasks, now)
      ensures r.Err? <==> forall i :: 0 <= i < |old(tasks)| ==>
        old(tasks)[i].parentPid != currentPid || (expected.Some? && old(tasks)[i].pid != expected.value)
      ensures r.Err? ==> r.error == -10
      ensures r.Err? || r.value.None? ==>
        tasks == old(tasks) && currentIndex == old(currentIndex) && cores == old(cores)
      ensures r.Ok? ==> (r.value.None? <==> ZombieIndex(old(tasks), currentPid, expected).None?)
      ensures r.Ok? && r.value.Some? ==>
        var child := old(tasks)[ZombieIndex(old(tasks), currentPid, expected).value];
        && r.value.value == (child.pid, child.exitCode) && |tasks| == |old(tasks)| - 1
        && forall k :: 0 <= k < |tasks| ==> tasks[k].pid != child.pid
    {
      hide Charged;
      var reaped := ReapZombieChild(currentPid, expected, now);
      if reaped.None? {
        var found := false;
        for i := 0 to |tasks|
          invariant found <==> exists k :: 0 <= k < i && IsChild(tasks[k], currentPid, expected)
        {
          if IsChild(tasks[i], currentPid, expected) {
            found := true;
          }
        }
        if !found {
          return Err(-10);
        }
        return Ok(None);
      }
      ParentStays(old(tasks), tasks, ZombieIndex(old(tasks), currentPid, expected).value, currentPid);
      return Ok(reaped);
    }

    // Replaces the current pid's task by one that differs in clock and priority only.
    method UpdateCurrent(i: nat, t: Task, now: nat)
      requires Sound() && clock == now && i < |tasks| && tasks[i].pid == currentPid
      requires t == tasks[i].(cpu := t.cpu, priority := t.priority)
      requires SameCharges(tasks, tasks[i := t], now) && t.cpu.StartedBy(now)
      requires t.cpu.runningSince.Some? ==> Runnable(t)
      modifies `tasks
      ensures Sound() && tasks == old(tasks)[i := t] && SameCharges(old(tasks), tasks, now)
    {
      hide Charged;
      tasks := tasks[i := t];
    }

    /** `resume_cpu_accounting`: starts the current task's clock unless it waits or is dead. */
    method ResumeCpuAccounting(now: nat)
      requires Sound() && clock == now
      modifies `tasks
      ensures Sound() && OnlyClocks(old(tasks), tasks) && SameCharges(old(tasks), tasks, now)
      ensures forall i :: 0 <= i < |tasks| ==>
        tasks[i].cpu ==
          if tasks[i].pid == currentPid && Runnable(tasks[i]) then old(tasks)[i].cpu.Resume(now) else old(tasks)[i].cpu
    {
      match IndexOf(tasks, currentPid)
      case None =>
      case Some(i) =>
        if Runnable(tasks[i]) {
          ClockKept(tasks, i, now, Kernel);
          UpdateCurrent(i, tasks[i].(cpu := tasks[i].cpu.Resume(now)), now);
        }
    }

    /** The first half of `idle_until_interrupt`: nothing is charged while the processor halts. */
    method PauseForIdle(now: nat)
      requires Sound() && clock == now
      modifies `tasks
      ensures Sound() && OnlyClocks(old(tasks), tasks) && SameCharges(old(tasks), tasks, now)
      ensures !AnyClockRuns(tasks)
    {
      match IndexOf(tasks, currentPid)
      case None =>
      case Some(i) =>
        ClockKept(tasks, i, now, Kernel);
        UpdateCurrent(i, tasks[i].(cpu := tasks[i].cpu.Pause(now)), now);
    }

    /** `set_current_task_mode`. */
    method SetCurrentTaskMode(mode: TaskMode, now: nat) returns (found: bool)
      requires Sound() && clock == now
      modifies `tasks
      ensures Sound() && OnlyClocks(old(tasks), tasks) && SameCharges(old(tasks), tasks, now)
      ensures found <==> HasPid(old(tasks), currentPid)
      ensures forall i :: 0 <= i < |tasks| ==>
        tasks[i].cpu == if tasks[i].pid == currentPid then old(tasks)[i].cpu.SetMode(mode, now) else old(tasks)[i].cpu
    {
      match IndexOf(tasks, currentPid)
      case None =>
        return false;
      case Some(i) =>
        ClockKept(tasks, i, now, mode);
        UpdateCurrent(i, tasks[i].(cpu := tasks[i].cpu.SetMode(mode, now)), now);
        return true;
    }

    /** `lower_current_priority`. */
    method LowerCurrentPriority(now: nat) returns (priority: Option<nat>)
      requires Sound() && clock == now
      modifies `tasks
      ensures Sound() && SameTasks(old(tasks), tasks) && SameCharges(old(tasks), tasks, now)
      ensures priority.Some? <==> currentIndex.Some?
      ensures priority.None? ==> tasks == old(tasks)
      ensures priority.Some? ==>
        && priority.value == Max(old(tasks)[currentIndex.value].priority - 1, 0)
        && tasks == old(tasks)[currentIndex.value := old(tasks)[currentIndex.value].(priority := priority.value)]
    {
      if currentIndex.None? {
        return None;
      }
      var i := currentIndex.value;
      SameCharged(tasks, i, tasks[i].(priority := Max(tasks[i].priority - 1, 0)), now);
      UpdateCurrent(i, tasks[i].(priority := Max(tasks[i].priority - 1, 0)), now);
      return Some(tasks[i].priority);
    }

    /**
     `fork_current_task_with`: a copy of the current task under a fresh pid, ready, with a clock of
     its own at zero; the parent's priority drops by one. `refusal` is what the caller's
     preparation of the child answers, if it fails.
     */
    method Fork(refusal: Option<int>, now: nat) returns (r: Result<Pid, int>)
      requires Sound() && clock == now
      modifies `tasks, `nextPid
      ensures Sound() && SameCharges(old(tasks), tasks, now)
      ensures r.Ok? <==> refusal.None? && HasPid(old(tasks), currentPid)
      ensures r.Err? ==> tasks == old(tasks)
      ensures r.Err? ==> r.error == if HasPid(old(tasks), currentPid) then refusal.value else -1
      ensures nextPid == old(nextPid) + if HasPid(old(tasks), currentPid) then 1 else 0
      ensures r.Ok? ==>
        && r.value == old(nextPid) && !HasPid(old(tasks), r.value) && |tasks| == |old(tasks)| + 1
        && (forall i :: 0 <= i < |old(tasks)| && old(tasks)[i].pid != currentPid ==> tasks[i] == old(tasks)[i])
        && (forall i :: 0 <= i < |old(tasks)| && old(tasks)[i].pid == currentPid ==>
              var parent := old(tasks)[i];
              && tasks[i] == parent.(priority := Max(parent.priority - 1, 0))
              && tasks[|old(tasks)|] == parent.(pid := r.value, parentPid := currentPid, state := Ready, cpu := FRESH))
    {
      hide Charged;
      match IndexOf(tasks, currentPid)
      case None =>
        return Err(-1);
      case Some(i) =>
        var child := tasks[i].(pid := nextPid, parentPid := currentPid, state := Ready, cpu := FRESH);
        nextPid := nextPid + 1;
        if refusal.Some? {
          return Err(refusal.value);
        }
        ForkKeeps(tasks, i, child, currentPid, currentIndex, now);
        tasks := Forked(tasks, i, child);
        return Ok(child.pid);
    }

    /**
     Round-robin waiting is bounded: with nothing but `schedule_on` happening, at whatever times, a
     Ready task is Running after at most as many calls as there are tasks.
     */
    method ScheduleUntilRunning(core: nat, j: nat, times: seq<nat>) returns (calls: nat)
      requires Sound() && j < |tasks| && tasks[j].state == Ready && |times| == |tasks|
      requires forall k :: 0 <= k < |times| ==>
        times[k] <= U64_MAX && (if k == 0 then clock else times[k - 1]) <= times[k]
      modifies `tasks, `currentIndex, `currentPid, `cores, `clock
      ensures Sound() && 1 <= calls <= |tasks| == |old(tasks)| && clock == times[calls - 1]
      ensures calls <= Distance(StartOf(old(currentIndex), |old(tasks)|), j, |old(tasks)|) + 1
      ensures tasks[j].state == Running && currentIndex == Some(j)
    {
      hide Sound, Charged, Distance, StartOf, IsNext, ClocksSwitched, OnlyClocks;
      calls := 0;
      ghost var n := |tasks|;
      ghost var bound := Distance(StartOf(currentIndex, n), j, n) + 1;
      while true
        invariant Sound() && |tasks| == n && j < n && Runnable(tasks[j])
        invariant calls + Distance(StartOf(currentIndex, n), j, n) + 1 <= bound
        invariant clock == if calls == 0 then old(clock) else times[calls - 1]
        decreases Distance(StartOf(currentIndex, n), j, n)
      {
        ghost var before, start := tasks, StartOf(currentIndex, n);
        assert calls < |times| && clock <= times[calls] <= U64_MAX;
        Tick(times[calls]);
        var picked := ScheduleOn(core, times[calls]);
        calls := calls + 1;
        if currentIndex == Some(j) {
          return;
        }
        Nearer(before, start, currentIndex.value, j);
      }
    }

    /**
     Any run of the kernel's steps, at times that never go back, conserves CPU time mode by mode: the
     tasks' time of each mode at the end is that at the start plus what clocks gained in that mode
     between the steps. `queues` are the tasks before each step and at the end. At most one clock
     runs, so from boot on the time of all tasks never exceeds the time elapsed.
     */
    method Run(steps: seq<(Step, nat)>) returns (ghost queues: seq<seq<Task>>)
      requires Valid()
      requires forall k :: 0 <= k < |steps| ==>
        steps[k].1 <= U64_MAX && (if k == 0 then clock else steps[k - 1].1) <= steps[k].1
      modifies this
      ensures Valid() && clock == if steps == [] then old(clock) else steps[|steps| - 1].1
      ensures |queues| == |steps| + 1 && queues[0] == old(tasks) && queues[|steps|] == tasks
      ensures Onwards(old(clock), Times(steps))
      ensures forall m ::
        Charged(tasks, m, clock)
        == Charged(old(tasks), m, old(clock)) + RunGain(queues, m, old(clock), Times(steps))
      ensures RunGain(queues, User, old(clock), Times(steps)) + RunGain(queues, Kernel, old(clock), Times(steps))
           <= clock - old(clock)
    {
      hide Valid, Sound, Charged, Gained, RunGain, Onwards;
      queues := [tasks];
      RunStarts(tasks, clock);
      assert Times(steps)[..0] == [];
      for k := 0 to |steps|
        invariant Valid() && clock == LastOf(old(clock), Times(steps)[..k])
        invariant |queues| == k + 1 && queues[0] == old(tasks) && queues[k] == tasks
        invariant Onwards(old(clock), Times(steps)[..k])
        invariant
          var ts := Times(steps)[..k];
          && Charged(tasks, User, clock)
             == Charged(old(tasks), User, old(clock)) + RunGain(queues, User, old(clock), ts)
          && Charged(tasks, Kernel, clock)
             == Charged(old(tasks), Kernel, old(clock)) + RunGain(queues, Kernel, old(clock), ts)
          && RunGain(queues, User, old(clock), ts) + RunGain(queues, Kernel, old(clock), ts) <= clock - old(clock)
      {
        assert clock == (if k == 0 then old(clock) else steps[k - 1].1) <= steps[k].1;
        ghost var from, before := clock, tasks;
        Take(steps[k].0, steps[k].1);
        GainMore(queues, tasks, User, old(clock), Times(steps)[..k], from, steps[k].1);
        GainMore(queues, tasks, Kernel, old(clock), Times(steps)[..k], from, steps[k].1);
        assert Times(steps)[..k + 1] == Times(steps)[..k] + [steps[k].1];
        queues := queues + [tasks];
      }
      assert Times(steps)[..|steps|] == Times(steps);
      forall m ensures
        Charged(tasks, m, clock)
        == Charged(old(tasks), m, old(clock)) + RunGain(queues, m, old(clock), Times(steps))
      {
        assert m == User || m == Kernel;
      }
    }

    method Take(step: Step, now: nat)
      requires Valid() && clock <= now <= U64_MAX
      modifies this
      ensures Valid() && clock == now && Gains(old(tasks), old(clock), tasks, now)
    {
      hide Charged, Gained, Sound, SameTasks, OnlyClocks, HasPid, HandsOver, ClocksSwitched;
      hide IsNext, Runnable, Highest;
      Tick(now);
      ghost var before, pid0 := tasks, currentPid;
      match step {
        case SetState(pid, state) =>
          if state != Running {
            var found := SetTaskState(pid, state, now);
            PidKept(before, tasks, pid0);
          }
        case Schedule(core) =>
          var picked := ScheduleOn(core, now);
          StillThere(before, pid0);
        case Preempt =>
          var plan := PreemptAndSwitch(now);
          StillThere(before, pid0);
        case SwitchTo(pid, validTarget) =>
          var plan := SwitchToPid(pid, validTarget, now);
          StillThere(before, pid0);
        case PreemptHigher =>
          var plan := PreemptIfHigherPriority(now);
          StillThere(before, pid0);
        case Wait(expected) =>
          var waited := WaitForChild(expected, now);
        case ResumeClock =>
          ResumeCpuAccounting(now);
          ClocksSame(before, tasks, pid0);
        case PauseClock =>
          PauseForIdle(now);
          ClocksSame(before, tasks, pid0);
        case ChangeMode(mode) =>
          var found := SetCurrentTaskMode(mode, now);
          ClocksSame(before, tasks, pid0);
        case Yield =>
          var priority := LowerCurrentPriority(now);
          PidKept(before, tasks, pid0);
        case ForkTask(refusal) =>
          var child := Fork(refusal, now);
          if child.Ok? {
            Forks(before, tasks, pid0);
          }
      }
    }

    // A task that is switched to is there, and so is one that nothing was switched from.
    lemma StillThere(before: seq<Task>, pid0: Pid)
      requires Sound() && SameTasks(before, tasks) && HasPid(before, pid0)
      requires currentIndex.Some? || currentPid == pid0
      ensures HasPid(tasks, currentPid)
    {
      PidKept(before, tasks, pid0);
      if currentIndex.Some? {
        assert tasks[currentIndex.value].pid == currentPid;
      }
    }
  }

  // From one time to a later one, each mode gains what clocks gain in it, together no more than the time that passes.
  predicate Gains(a: seq<Task>, from: nat, b: seq<Task>, to: nat)
    requires from <= to
  {
    && Charged(b, User, to) == Charged(a, User, from) + Gained(a, User, from, to)
    && Charged(b, Kernel, to) == Charged(a, Kernel, from) + Gained(a, Kernel, from, to)
    && Gained(a, User, from, to) + Gained(a, Kernel, from, to) <= to - from
  }

  function Times(steps: seq<(Step, nat)>): (ts: seq<nat>)
    ensures |ts| == |steps| && forall k :: 0 <= k < |ts| ==> ts[k] == steps[k].1
  {
    seq(|steps|, k requires 0 <= k < |steps| => steps[k].1)
  }

  predicate Onwards(start: nat, times: seq<nat>) {
    times != [] ==>
      var k := |times| - 1;
      Onwards(start, times[..k]) && LastOf(start, times[..k]) <= times[k]
  }

  function LastOf(start: nat, times: seq<nat>): nat {
    if times == [] then start else times[|times| - 1]
  }

  // What clocks gain in a mode over a run: queue k stands from the time of step k - 1 to that of step k.
  function RunGain(queues: seq<seq<Task>>, m: TaskMode, start: nat, times: seq<nat>): nat
    requires |queues| == |times| + 1 && Onwards(start, times)
  {
    if times == [] then 0
    else
      var k := |times| - 1;
      RunGain(queues[..k + 1], m, start, times[..k]) + Gained(queues[k], m, LastOf(start, times[..k]), times[k])
  }

  lemma RunStarts(tasks: seq<Task>, start: nat)
    ensures Onwards(start, []) && forall m :: RunGain([tasks], m, start, []) == 0
  {
  }

  lemma GainMore(queues: seq<seq<Task>>, tasks: seq<Task>, m: TaskMode, start: nat, times: seq<nat>, from: nat, to: nat)
    requires |queues| == |times| + 1 && Onwards(start, times) && from == LastOf(start, times) <= to
    ensures Onwards(start, times + [to])
    ensures RunGain(queues + [tasks], m, start, times + [to])
         == RunGain(queues, m, start, times) + Gained(queues[|times|], m, from, to)
  {
    hide Gained;
    var ts, qs := times + [to], queues + [tasks];
    assert ts[..|times|] == times && qs[..|times| + 1] == queues;
  }

  lemma StateSetStates(tasks: seq<Task>, i: nat, state: TaskState, now: nat)
    requires i < |tasks| && PidsUnique(tasks)
    ensures
      var ts := StateSet(tasks, i, state, now);
      && |ts| == |tasks|
      && (forall k :: 0 <= k < |ts| ==>
          && ts[k].pid == tasks[k].pid
          && (tasks[k].pid != tasks[i].pid ==> ts[k] == tasks[k])
          && (tasks[k].pid == tasks[i].pid ==>
              && ts[k].priority == tasks[k].priority && ts[k].state == state
              && ts[k].cpu == if Runnable(ts[k]) then tasks[k].cpu else tasks[k].cpu.Pause(now)))
  {
  }

  // ---------------------------------------------------------------- what switching and reaping do

  // The tasks once the current one, unless dead, is ready again.
  function Yielded(tasks: seq<Task>, currentIndex: Option<nat>): (ts: seq<Task>)
    ensures |ts| == |tasks|
  {
    if currentIndex.Some? && currentIndex.value < |tasks| && tasks[currentIndex.value].state != Zombie
    then tasks[currentIndex.value := tasks[currentIndex.value].(state := Ready)]
    else tasks
  }

  // The next task runs, the previous one steps back if it ran, and no other state changes.
  ghost predicate HandsOver(a: seq<Task>, b: seq<Task>, previous: Option<nat>, next: nat) {
    && |a| == |b| && next < |a|
    && forall i :: 0 <= i < |a| ==>
      b[i].priority == a[i].priority &&
      b[i].state ==
        if i == next then Running else if Some(i) == previous && a[i].state == Running then Ready else a[i].state
  }

  // A hand-over between runnable tasks changes nothing about who is runnable.
  lemma StillRunnable(a: seq<Task>, b: seq<Task>, previous: Option<nat>, next: nat)
    requires HandsOver(a, b, previous, next) && Runnable(a[next])
    ensures |a| == |b| && forall i :: 0 <= i < |b| ==> Runnable(b[i]) == Runnable(a[i])
  {
  }

  ghost predicate Highest(tasks: seq<Task>, current: nat, next: nat) {
    && current < |tasks| && next < |tasks| && next != current
    && Runnable(tasks[next]) && tasks[next].priority > tasks[current].priority
    && forall i :: 0 <= i < |tasks| && i != current && Runnable(tasks[i]) ==>
        tasks[i].priority <= tasks[next].priority && (i < next ==> tasks[i].priority < tasks[next].priority)
  }

  lemma SkipsOne(tasks: seq<Task>, start: nat, offset: nat)
    requires start < |tasks| && offset < |tasks| && !Runnable(tasks[At(start, offset, |tasks|)])
    ensures forall k :: 0 <= k < |tasks| && Distance(start, k, |tasks|) == offset ==> !Runnable(tasks[k])
  {
    forall k | 0 <= k < |tasks| && Distance(start, k, |tasks|) == offset ensures !Runnable(tasks[k]) {
      assert At(start, offset, |tasks|) == k;
    }
  }

  // Every Running task is the current one or the one picked.
  lemma FirstRuns(tasks: seq<Task>, currentIndex: Option<nat>, currentPid: Pid, next: nat)
    requires tasks != [] && PidsUnique(tasks) && OneRunning(tasks, currentPid)
    requires IndexRight(tasks, currentIndex, currentPid)
    requires IsNext(tasks, StartOf(currentIndex, |tasks|), next)
    ensures forall i :: 0 <= i < |tasks| && tasks[i].state == Running ==> i == next || Some(i) == currentIndex
  {
    forall i | 0 <= i < |tasks| && tasks[i].state == Running ensures i == next || Some(i) == currentIndex {
      if currentIndex.None? {
        assert i == 0;
        assert Distance(0, next, |tasks|) <= Distance(0, 0, |tasks|);
      }
    }
  }

  ghost predicate OneRunning(tasks: seq<Task>, currentPid: Pid) {
    forall i :: 0 <= i < |tasks| && tasks[i].state == Running ==> tasks[i].pid == currentPid
  }

  predicate IsChild(t: Task, parentPid: Pid, expected: Option<Pid>) {
    t.parentPid == parentPid && (expected.Some? ==> expected.value == t.pid)
  }

  predicate IsZombieChild(t: Task, parentPid: Pid, expected: Option<Pid>) {
    IsChild(t, parentPid, expected) && t.state == Zombie
  }

  lemma PidKept(a: seq<Task>, b: seq<Task>, pid: Pid)
    requires SameTasks(a, b) && HasPid(a, pid)
    ensures HasPid(b, pid)
  {
    var i :| 0 <= i < |a| && a[i].pid == pid;
    assert b[i].pid == pid;
  }

  lemma ClocksSame(a: seq<Task>, b: seq<Task>, pid: Pid)
    requires OnlyClocks(a, b) && HasPid(a, pid)
    ensures HasPid(b, pid)
  {
    PidKept(a, b, pid);
  }

  lemma Forks(a: seq<Task>, b: seq<Task>, pid: Pid)
    requires |a| <= |b| && SameTasks(a, b[..|a|]) && HasPid(a, pid)
    ensures HasPid(b, pid)
  {
    var i :| 0 <= i < |a| && a[i].pid == pid;
    assert b[i] == b[..|a|][i] && b[i].pid == pid;
  }

  // A parent is still there after its child went.
  lemma ParentStays(tasks: seq<Task>, ts: seq<Task>, i: nat, parentPid: Pid)
    requires i < |tasks| && tasks[i].pid != parentPid && HasPid(tasks, parentPid) && |ts| == |tasks| - 1
    requires forall k :: 0 <= k < |ts| ==> ts[k].pid == tasks[Skip(i, k)].pid
    ensures HasPid(ts, parentPid)
  {
    var p :| 0 <= p < |tasks| && tasks[p].pid == parentPid;
    var k := if p < i then p else p - 1;
    assert Skip(i, k) == p && ts[k].pid == parentPid;
  }

  function ZombieIndex(tasks: seq<Task>, parentPid: Pid, expected: Option<Pid>): (r: Option<nat>)
    ensures r.Some? ==> r.value < |tasks| && IsZombieChild(tasks[r.value], parentPid, expected)
    ensures r.Some? ==> forall i :: 0 <= i < r.value ==> !IsZombieChild(tasks[i], parentPid, expected)
    ensures r.None? ==> forall i :: 0 <= i < |tasks| ==> !IsZombieChild(tasks[i], parentPid, expected)
  {
    if tasks == [] then None
    else if IsZombieChild(tasks[0], parentPid, expected) then Some(0)
    else match ZombieIndex(tasks[1..], parentPid, expected)
      case None => None
      case Some(i) => Some(i + 1)
  }

  ghost predicate HasPid(tasks: seq<Task>, pid: Pid) {
    exists i :: 0 <= i < |tasks| && tasks[i].pid == pid
  }

  function Cleared(cores: seq<Workload>, pid: Pid): seq<Workload> {
    seq(|cores|, c requires 0 <= c < |cores| => if cores[c] == Runs(pid) then Idle else cores[c])
  }

  function Reaped(tasks: seq<Task>, i: nat, parentPid: Pid, now: nat): seq<Task>
    requires i < |tasks|
  {
    var rest := tasks[..i] + tasks[i + 1..];
    match IndexOf(rest, parentPid)
    case None => rest
    case Some(k) => rest[k := rest[k].(cpu := rest[k].cpu.Reap(tasks[i].cpu, now))]
  }

  // Where the task at k was before the removal of index i.
  function Skip(i: nat, k: nat): nat {
    if k < i then k else k + 1
  }

  // The current index after the removal of index i.
  function Shifted(current: nat, i: nat): Option<nat> {
    if i < current then Some(current - 1) else if i == current then None else Some(current)
  }

  lemma ReapedTask(tasks: seq<Task>, i: nat, parentPid: Pid, now: nat, k: nat)
    requires i < |tasks| && k + 1 < |tasks| && PidsUnique(tasks)
    ensures |Reaped(tasks, i, parentPid, now)| == |tasks| - 1
    ensures
      var t, was := Reaped(tasks, i, parentPid, now)[k], tasks[Skip(i, k)];
      && t == (if was.pid == parentPid then was.(cpu := was.cpu.Reap(tasks[i].cpu, now)) else was)
      && t == was.(cpu := t.cpu) && t.cpu.runningSince == was.cpu.runningSince
  {
    var rest := tasks[..i] + tasks[i + 1..];
    assert forall j :: 0 <= j < |rest| ==> rest[j] == tasks[Skip(i, j)];
    if IndexOf(rest, parentPid).Some? {
      var p := IndexOf(rest, parentPid).value;
      assert rest[p].pid == parentPid && (k != p ==> Skip(i, k) != Skip(i, p));
    }
  }

  lemma ReapKeeps(tasks: seq<Task>, i: nat, parentPid: Pid, currentPid: Pid, now: nat)
    requires i < |tasks| && tasks[i].state == Zombie && tasks[i].pid != parentPid
    requires PidsUnique(tasks) && OneRuns(tasks, currentPid, now) && AllCharged(tasks, now) <= U64_MAX
    ensures
      var ts := Reaped(tasks, i, parentPid, now);
      && |ts| == |tasks| - 1 && PidsUnique(ts) && OneRuns(ts, currentPid, now)
      && (forall k :: 0 <= k < |ts| ==>
            var was := tasks[Skip(i, k)];
            ts[k] == if was.pid == parentPid then was.(cpu := was.cpu.Reap(tasks[i].cpu, now)) else was)
      && (forall k :: 0 <= k < |ts| ==> ts[k].pid != tasks[i].pid)
      && ReapedCharges(tasks, ts, i, parentPid, now)
  {
    hide Charged, Reaped;
    var ts := Reaped(tasks, i, parentPid, now);
    ReapedLength(tasks, i, parentPid, now);
    forall k | 0 <= k < |ts|
      ensures
        var was := tasks[Skip(i, k)];
        ts[k] == if was.pid == parentPid then was.(cpu := was.cpu.Reap(tasks[i].cpu, now)) else was
      ensures ts[k] == tasks[Skip(i, k)].(cpu := ts[k].cpu)
      ensures ts[k].cpu.runningSince == tasks[Skip(i, k)].cpu.runningSince
    {
      ReapedTask(tasks, i, parentPid, now, k);
    }
    ReapCharged(tasks, i, parentPid, now);
  }

  // The parent's children get the child's time, mode by mode.
  lemma ReapBooks(tasks: seq<Task>, i: nat, parentPid: Pid, now: nat)
    requires i < |tasks| && tasks[i].pid != parentPid && PidsUnique(tasks) && AllCharged(tasks, now) <= U64_MAX
    ensures
      var ts := Reaped(tasks, i, parentPid, now);
      && |ts| == |tasks| - 1
      && forall k, p :: 0 <= k < |ts| && ts[k].pid == parentPid && p == Skip(i, k) ==>
           var own, was, child := tasks[i].cpu.Snapshot(now), tasks[p].cpu, tasks[i].cpu;
           && ts[k].cpu.children.user == was.children.user + own.user + child.children.user
           && ts[k].cpu.children.kernel == was.children.kernel + own.kernel + child.children.kernel
  {
    hide Charged, Reaped, CpuAccounting.Reap, CpuAccounting.Snapshot, CpuAccounting.Total;
    var ts := Reaped(tasks, i, parentPid, now);
    ReapedLength(tasks, i, parentPid, now);
    forall k | 0 <= k < |ts| && ts[k].pid == parentPid
      ensures
        var own, was, child := tasks[i].cpu.Snapshot(now), tasks[Skip(i, k)].cpu, tasks[i].cpu;
        && ts[k].cpu.children.user == was.children.user + own.user + child.children.user
        && ts[k].cpu.children.kernel == was.children.kernel + own.kernel + child.children.kernel
    {
      ReapedTask(tasks, i, parentPid, now, k);
      BothFit(tasks, i, Skip(i, k), now);
      ReapKeepsTotal(tasks[Skip(i, k)].cpu, tasks[i].cpu, now, User);
    }
  }

  lemma ReapedLength(tasks: seq<Task>, i: nat, parentPid: Pid, now: nat)
    requires i < |tasks|
    ensures |Reaped(tasks, i, parentPid, now)| == |tasks| - 1
  {
  }

  // The current index keeps pointing at the current task while tasks before it go.
  lemma ReapIndex(tasks: seq<Task>, i: nat, parentPid: Pid, currentIndex: Option<nat>, currentPid: Pid, nextPid: Pid,
                  now: nat)
    requires i < |tasks| && tasks[i].state == Zombie
    requires PidsUnique(tasks) && OneRuns(tasks, currentPid, now)
    requires IndexRight(tasks, currentIndex, currentPid) && PidsIssued(tasks, nextPid)
    ensures
      var ts := Reaped(tasks, i, parentPid, now);
      && PidsIssued(ts, nextPid)
      && IndexRight(ts, if currentIndex.Some? then Shifted(currentIndex.value, i) else None, currentPid)
  {
    hide Reaped;
    var ts := Reaped(tasks, i, parentPid, now);
    ReapedLength(tasks, i, parentPid, now);
    forall k | 0 <= k < |ts| ensures ts[k] == tasks[Skip(i, k)].(cpu := ts[k].cpu) {
      ReapedTask(tasks, i, parentPid, now, k);
    }
  }

  lemma ReapCharged(tasks: seq<Task>, i: nat, parentPid: Pid, now: nat)
    requires i < |tasks| && tasks[i].pid != parentPid && AllCharged(tasks, now) <= U64_MAX
    ensures ReapedCharges(tasks, Reaped(tasks, i, parentPid, now), i, parentPid, now)
  {
    hide Charged, CpuAccounting.Total;
    ChargedUpdate(tasks, i, tasks[i], User, now);
    ChargedUpdate(tasks, i, tasks[i], Kernel, now);
    ReapChargedIn(tasks, i, parentPid, User, now);
    ReapChargedIn(tasks, i, parentPid, Kernel, now);
  }

  // The child's time of each mode is the parent's, or is lost when there is no parent.
  ghost predicate ReapedCharges(tasks: seq<Task>, ts: seq<Task>, i: nat, parentPid: Pid, now: nat)
    requires i < |tasks|
  {
    var user, kernel := tasks[i].cpu.Total(User, now), tasks[i].cpu.Total(Kernel, now);
    if HasPid(tasks, parentPid) then SameCharges(tasks, ts, now)
    else
      && Charged(ts, User, now) + user == Charged(tasks, User, now)
      && Charged(ts, Kernel, now) + kernel == Charged(tasks, Kernel, now)
  }

  lemma ReapChargedIn(tasks: seq<Task>, i: nat, parentPid: Pid, m: TaskMode, now: nat)
    requires i < |tasks| && tasks[i].pid != parentPid && AllCharged(tasks, now) <= U64_MAX
    ensures
      Charged(Reaped(tasks, i, parentPid, now), m, now)
        + (if HasPid(tasks, parentPid) then 0 else tasks[i].cpu.Total(m, now))
      == Charged(tasks, m, now)
  {
    hide Charged, CpuAccounting.Total;
    var rest := tasks[..i] + tasks[i + 1..];
    ChargedAt(tasks, i, m, now);
    ChargedConcat(tasks[..i], tasks[i + 1..], m, now);
    if IndexOf(rest, parentPid).Some? {
      var k := IndexOf(rest, parentPid).value;
      assert rest[k] == tasks[if k < i then k else k + 1];
      ChargedUpdate(rest, k, rest[k].(cpu := rest[k].cpu.Reap(tasks[i].cpu, now)), m, now);
      BothFit(tasks, i, if k < i then k else k + 1, now);
      ReapKeepsTotal(rest[k].cpu, tasks[i].cpu, now, m);
    } else {
      assert forall k :: 0 <= k < |tasks| && k != i ==> tasks[k] == rest[if k < i then k else k - 1];
    }
  }

  // Two tasks' time fits where all time does.
  lemma BothFit(tasks: seq<Task>, i: nat, k: nat, now: nat)
    requires i < |tasks| && k < |tasks| && i != k && AllCharged(tasks, now) <= U64_MAX
    ensures tasks[i].cpu.AllTime(now) + tasks[k].cpu.AllTime(now) <= U64_MAX
  {
    hide Charged, CpuAccounting.Total;
    BothCharged(tasks, i, k, User, now);
    BothCharged(tasks, i, k, Kernel, now);
  }

  lemma BothCharged(tasks: seq<Task>, i: nat, k: nat, m: TaskMode, now: nat)
    requires i < |tasks| && k < |tasks| && i != k
    ensures tasks[i].cpu.Total(m, now) + tasks[k].cpu.Total(m, now) <= Charged(tasks, m, now)
  {
    hide Charged, CpuAccounting.Total;
    var lo, hi := if i < k then i else k, if i < k then k else i;
    ChargedAt(tasks, hi, m, now);
    ChargedAt(tasks[..hi], lo, m, now);
  }

  // The steps a run is made of.
  datatype Step =
    | SetState(pid: Pid, state: TaskState)
    | Schedule(core: nat)
    | Preempt
    | SwitchTo(pid: Pid, validTarget: bool)
    | PreemptHigher
    | Wait(expected: Option<Pid>)
    | ResumeClock
    | PauseClock
    | ChangeMode(mode: TaskMode)
    | Yield
    | ForkTask(refusal: Option<int>)

  function Forked(tasks: seq<Task>, i: nat, child: Task): seq<Task>
    requires i < |tasks|
  {
    tasks[i := tasks[i].(priority := Max(tasks[i].priority - 1, 0))] + [child]
  }

  lemma ForkKeeps(tasks: seq<Task>, i: nat, child: Task, currentPid: Pid, currentIndex: Option<nat>, now: nat)
    requires i < |tasks| && tasks[i].pid == currentPid && child.cpu == FRESH && child.state == Ready
    requires PidsUnique(tasks) && OneRuns(tasks, currentPid, now) && IndexRight(tasks, currentIndex, currentPid)
    requires PidsIssued(tasks, child.pid) && child.parentPid < child.pid
    ensures
      var ts := Forked(tasks, i, child);
      && PidsUnique(ts) && OneRuns(ts, currentPid, now) && IndexRight(ts, currentIndex, currentPid)
      && PidsIssued(ts, child.pid + 1) && SameTasks(tasks, ts[..|tasks|])
      && SameCharges(tasks, ts, now)
  {
    hide Charged;
    var parent := tasks[i := tasks[i].(priority := Max(tasks[i].priority - 1, 0))];
    SameCharged(tasks, i, parent[i], now);
    ChargedConcat(parent, [child], User, now);
    ChargedConcat(parent, [child], Kernel, now);
    NothingCharged([child], User, now);
    NothingCharged([child], Kernel, now);
  }
}
