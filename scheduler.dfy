/** The cooperative task scheduler of TaskScheduler.h: periodic tasks that
    catch up on missed periods without drifting, a gated fast-input task, a
    dual-rate output task, and the orchestrator's fixed sweep over the four
    tasks. The millisecond clock is passed in as `now`; a module's `update()`
    is represented by the module's id in the sequence of calls a sweep makes. */
module TaskScheduler {
  import opened CInt
  import opened Wrappers

  /** Identity of a `CyclicModule`. */
  type ModuleId = nat

  /** A `CyclicModule*` as stored by `addModule`: `None` is a null pointer. */
  type ModuleRef = Option<ModuleId>

  const MinInterval: ULong := 10
  const MaxInterval: ULong := 10000

  /** The interval a task keeps for a requested one: at least 10 ms, at most 10 s. */
  function ClampInterval(requested: ULong): (r: ULong)
    ensures MinInterval <= r <= MaxInterval
    ensures MinInterval <= requested <= MaxInterval ==> r == requested
    ensures requested < MinInterval ==> r == MinInterval
    ensures requested > MaxInterval ==> r == MaxInterval
  {
    if requested <= 10 then 10 else if requested > 10000 then 10000 else requested
  }

  lemma ClampIntervalExamples()
    ensures ClampInterval(0) == 10 && ClampInterval(1) == 10 && ClampInterval(500) == 500
    ensures ClampInterval(20000) == 10000 && ClampInterval(0xFFFF_FFFF) == 10000
  {
  }

  /** The modules whose `update()` one `cycleTask` runs: the non-null ones, in attachment order. */
  function Attached(modules: seq<ModuleRef>): seq<ModuleId>
    decreases |modules|
  {
    if modules == [] then []
    else Attached(modules[..|modules| - 1]) + Updated(modules[|modules| - 1])
  }

  /** What one stored pointer contributes to a sweep over the module list. */
  function Updated(m: ModuleRef): seq<ModuleId> {
    match m
    case None => []
    case Some(id) => [id]
  }

  /** Calls of a concatenated list are the calls of its parts, one after the other;
      together with the one-element cases this says that every non-null module
      runs exactly once, in attachment order, and a null one is skipped. */
  lemma {:induction false} AttachedConcat(a: seq<ModuleRef>, b: seq<ModuleRef>)
    ensures Attached(a + b) == Attached(a) + Attached(b)
    decreases |b|
  {
    if b == [] {
      assert a + b == a;
    } else {
      var b' := b[..|b| - 1];
      assert (a + b)[..|a + b| - 1] == a + b';
      AttachedConcat(a, b');
    }
  }

  lemma AttachedSingle(m: ModuleRef)
    ensures Attached([m]) == Updated(m)
    ensures m.None? ==> Attached([m]) == []
    ensures m.Some? ==> Attached([m]) == [m.value]
  {
    assert [m][..0] == [];
  }

  /** A catch-up loop that starts at `nextRun` can run without wrapping past 2^32. */
  predicate CatchUpFits(nextRun: int, now: int, step: int) {
    now < nextRun || now + step < ULongModulus
  }

  /** The deadline the catch-up loop ends with: `nextRun` advanced by `step`
      until it lies after `now`. */
  function CatchUp(nextRun: int, now: int, step: int): int
    requires step > 0
    decreases now - nextRun + step
  {
    if now >= nextRun then CatchUp(nextRun + step, now, step) else nextRun
  }

  /** The catch-up loop as written, `laps` times round: `nextRun += interval` on
      `unsigned long`, which wraps modulo 2^32. */
  function LapsAsWritten(nextRun: ULong, step: ULong, laps: nat): ULong {
    if laps == 0 then nextRun else AddU(LapsAsWritten(nextRun, step, laps - 1), step)
  }

  /** Where the loop as written misses the first deadline after `now`. With `now`
      = 2^32 − 1 its guard `now >= nextRun` holds after every lap, so it never
      ends. With deadline 2^32 − 10, `now` 2^32 − 5 and interval 10 the first lap
      wraps to 0, which is still due, where the least later deadline is 2^32. */
  lemma CatchUpAsWrittenWraps(nextRun: ULong, step: ULong, laps: nat)
    ensures ULongModulus - 1 >= LapsAsWritten(nextRun, step, laps)
    ensures LapsAsWritten(ULongModulus - 10, 10, 1) == 0
    ensures CatchUp(ULongModulus - 10, ULongModulus - 5, 10) == ULongModulus
  {
    assert LapsAsWritten(ULongModulus - 10, 10, 0) == ULongModulus - 10;
    CatchUpIsLeastMultiple(ULongModulus - 10, ULongModulus - 5, 10);
  }

  /** Number of periods the loop adds: 0 when not due, else the missed periods plus one. */
  function Missed(nextRun: int, now: int, step: int): nat
    requires step > 0
  {
    if now < nextRun then 0 else (now - nextRun) / step + 1
  }

  /** The catch-up result lies after `now`, differs from the old deadline by a whole
      number of periods, and is the least such deadline: one period earlier it would
      not be after `now` (unless nothing was added). Example: period 100, deadline
      1100, now 1350 gives 1400. */
  lemma {:induction false} CatchUpIsLeastMultiple(nextRun: int, now: int, step: int)
    requires step > 0
    ensures CatchUp(nextRun, now, step) == nextRun + Missed(nextRun, now, step) * step
    ensures CatchUp(nextRun, now, step) > now
    ensures now >= nextRun ==> CatchUp(nextRun, now, step) - step <= now
    ensures now < nextRun ==> CatchUp(nextRun, now, step) == nextRun
    decreases now - nextRun + step
  {
    if now >= nextRun {
      var d := now - nextRun;
      CatchUpIsLeastMultiple(nextRun + step, now, step);
      if now >= nextRun + step {
        var k := (d - step) / step;
        assert d - step == k * step + (d - step) % step;
        assert d == (k + 1) * step + (d - step) % step;
        DivUnique(d, step, k + 1, (d - step) % step);
        assert Missed(nextRun, now, step) == k + 2;
        assert Missed(nextRun + step, now, step) == k + 1;
        assert (k + 2) * step == (k + 1) * step + step;
      } else {
        DivUnique(d, step, 0, d);
      }
    }
  }

  lemma {:induction false} MulAtLeast(m: int, step: int)
    requires step > 0
    ensures m >= 1 ==> m * step >= step
    ensures m <= -1 ==> m * step <= -step
    decreases if m < 0 then -m else m
  {
    if m > 1 {
      MulAtLeast(m - 1, step);
      assert m * step == (m - 1) * step + step;
    } else if m < -1 {
      MulAtLeast(m + 1, step);
      assert m * step == (m + 1) * step - step;
    }
  }

  /** Euclidean division is determined by quotient and remainder. */
  lemma DivUnique(a: int, step: int, k: int, r: int)
    requires step > 0 && 0 <= r < step && a == k * step + r
    ensures a / step == k
  {
    var q := a / step;
    assert a == q * step + a % step;
    assert (q - k) * step == q * step - k * step;
    MulAtLeast(q - k, step);
  }

  lemma CatchUpExamples()
    ensures CatchUp(1100, 1350, 100) == 1400
    ensures CatchUp(1100, 1050, 100) == 1100
    ensures CatchUp(1100, 1100, 100) == 1200
    ensures CatchUp(4000, 6500, 1000) == 7000
  {
  }

  /** `CyclicTask`: a periodic task with a clamped interval, its next deadline and its modules. */
  class CyclicTask {
    var modules: seq<ModuleRef>
    var interval: ULong
    var nextRun: ULong

    constructor (cycleInterval: ULong)
      ensures interval == ClampInterval(cycleInterval)
      ensures nextRun == 0 && modules == []
    {
      interval := ClampInterval(cycleInterval);
      nextRun := 0;
      modules := [];
    }

    method InitializeTaskTimer(now: ULong)
      modifies this`nextRun
      ensures nextRun == AddU(now, interval)
    {
      nextRun := AddU(now, interval);
    }

    /** Reports whether the deadline has passed, then moves the deadline past `now`. */
    method IsRunScheduled(now: ULong) returns (due: bool)
      requires interval > 0
      requires CatchUpFits(nextRun, now, interval)
      modifies this`nextRun
      ensures due == (now >= old(nextRun))
      ensures nextRun == CatchUp(old(nextRun), now, interval)
      ensures !due ==> nextRun == old(nextRun)
    {
      due := now >= nextRun;
      while now >= nextRun
        invariant nextRun >= old(nextRun)
        invariant now >= old(nextRun) ==> now + interval < ULongModulus
        invariant CatchUp(nextRun, now, interval) == CatchUp(old(nextRun), now, interval)
        decreases now - nextRun
      {
        nextRun := AddU(nextRun, interval);
      }
    }

    /** Runs `update()` of every attached non-null module, in order. */
    method CycleTask() returns (calls: seq<ModuleId>)
      ensures calls == Attached(modules)
    {
      calls := [];
      for i := 0 to |modules|
        invariant calls == Attached(modules[..i])
      {
        assert modules[..i + 1] == modules[..i] + [modules[i]];
        AttachedConcat(modules[..i], [modules[i]]);
        AttachedSingle(modules[i]);
        match modules[i] {
          case Some(m) => calls := calls + [m];
          case None =>
        }
      }
      assert modules[..|modules|] == modules;
    }

    /** Appends a module; a null pointer is stored as well. */
    method AddModule(m: ModuleRef)
      modifies this`modules
      ensures modules == old(modules) + [m]
    {
      modules := modules + [m];
    }
  }

  /** `FastInputTask`: a cyclic task whose `cycleTask` runs only while enabled. */
  class FastInputTask {
    const base: CyclicTask
    var enabled: bool

    constructor (cycleInterval: ULong)
      ensures fresh(base) && !enabled
      ensures base.interval == ClampInterval(cycleInterval)
      ensures base.nextRun == 0 && base.modules == []
    {
      base := new CyclicTask(cycleInterval);
      enabled := false;
    }

    method Enable()
      modifies this`enabled
      ensures enabled
    {
      enabled := true;
    }

    method Disable()
      modifies this`enabled
      ensures !enabled
    {
      enabled := false;
    }

    method CycleTask() returns (calls: seq<ModuleId>)
      ensures calls == if enabled then Attached(base.modules) else []
    {
      calls := [];
      if enabled {
        calls := base.CycleTask();
      }
    }
  }

  /** `OutputTask`: a cyclic task with a slow and a fast rate. `base` holds the
      modules, the clamped slow interval used for the first deadline, and `nextRun`. */
  class OutputTask {
    const base: CyclicTask
    var enabledFast: bool
    var slowInterval: ULong
    var fastInterval: ULong
    var lastRun: ULong

    constructor (slow: ULong, fast: ULong)
      ensures fresh(base)
      ensures base.interval == ClampInterval(slow) && base.nextRun == 0 && base.modules == []
      ensures slowInterval == slow && fastInterval == fast
      ensures lastRun == 0 && !enabledFast
    {
      base := new CyclicTask(slow);
      slowInterval, fastInterval := slow, fast;
      lastRun := 0;
      enabledFast := false;
    }

    /** The period the catch-up loop adds in the current mode. */
    function Step(): ULong
      reads this
    {
      if enabledFast then fastInterval else slowInterval
    }

    method InitializeTaskTimer(now: ULong)
      modifies base`nextRun, this`lastRun
      ensures base.nextRun == AddU(now, base.interval)
      ensures lastRun == now
    {
      base.InitializeTaskTimer(now);
      lastRun := now;
    }

    /** Switches to the fast rate and pulls the deadline forward to one fast
        period after the last run when that is earlier. */
    method EnableFast()
      modifies this`enabledFast, base`nextRun
      ensures enabledFast
      ensures base.nextRun == if AddU(lastRun, fastInterval) < old(base.nextRun)
                              then AddU(lastRun, fastInterval) else old(base.nextRun)
    {
      enabledFast := true;
      if AddU(lastRun, fastInterval) < base.nextRun {
        base.nextRun := AddU(lastRun, fastInterval);
      }
    }

    /** Clears the fast flag; the deadline stays where it is. */
    method DisableFast()
      modifies this`enabledFast
      ensures !enabledFast
    {
      enabledFast := false;
    }

    method IsRunScheduled(now: ULong) returns (due: bool)
      requires Step() > 0
      requires CatchUpFits(base.nextRun, now, Step())
      modifies this`lastRun, base`nextRun
      ensures due == (now >= old(base.nextRun))
      ensures lastRun == if due then now else old(lastRun)
      ensures base.nextRun == CatchUp(old(base.nextRun), now, Step())
    {
      due := now >= base.nextRun;
      if due {
        lastRun := now;
      }
      while now >= base.nextRun
        invariant lastRun == if due then now else old(lastRun)
        invariant base.nextRun >= old(base.nextRun)
        invariant now >= old(base.nextRun) ==> now + Step() < ULongModulus
        invariant CatchUp(base.nextRun, now, Step()) == CatchUp(old(base.nextRun), now, Step())
        decreases now - base.nextRun
      {
        if enabledFast {
          base.nextRun := AddU(base.nextRun, fastInterval);
        } else {
          base.nextRun := AddU(base.nextRun, slowInterval);
        }
      }
    }

    method CycleTask() returns (calls: seq<ModuleId>)
      ensures calls == Attached(base.modules)
    {
      calls := base.CycleTask();
    }
  }

  /** The four tasks, in the order the orchestrator sweeps them. */
  datatype TaskName = SlowInput | FastInput | LogicRun | Output

  const SweepOrder: seq<TaskName> := [SlowInput, FastInput, LogicRun, Output]

  /** Place of each task in the sweep. */
  function Position(t: TaskName): (p: nat)
    ensures p < |SweepOrder| && SweepOrder[p] == t
  {
    match t
    case SlowInput => 0
    case FastInput => 1
    case LogicRun => 2
    case Output => 3
  }

  /** The first `n` tasks of the sweep whose deadline (indexed by position) has
      passed at `now`, in sweep order. */
  function DueTasks(deadlines: seq<int>, now: int, n: nat): seq<TaskName>
    requires n <= |SweepOrder| == |deadlines|
  {
    if n == 0 then []
    else DueTasks(deadlines, now, n - 1) + if now >= deadlines[n - 1] then [SweepOrder[n - 1]] else []
  }

  /** A task is in the sweep's result exactly when its deadline has passed, and
      no task is run twice. */
  lemma {:induction false} DueTasksMembers(deadlines: seq<int>, now: int, n: nat)
    requires n <= |SweepOrder| == |deadlines|
    ensures forall t :: t in DueTasks(deadlines, now, n) <==> Position(t) < n && now >= deadlines[Position(t)]
    ensures forall j, k :: 0 <= j < k < |DueTasks(deadlines, now, n)| ==>
              Position(DueTasks(deadlines, now, n)[j]) < Position(DueTasks(deadlines, now, n)[k])
    ensures forall j :: 0 <= j < |DueTasks(deadlines, now, n)| ==> Position(DueTasks(deadlines, now, n)[j]) < n
  {
    if n > 0 {
      DueTasksMembers(deadlines, now, n - 1);
    }
  }

  /** Module updates of a sequence of task runs, one after the other; `table`
      holds each task's updates at its position. */
  function CallsOf(ran: seq<TaskName>, table: seq<seq<ModuleId>>): seq<ModuleId>
    requires |table| == |SweepOrder|
    decreases |ran|
  {
    if ran == [] then [] else CallsOf(ran[..|ran| - 1], table) + table[Position(ran[|ran| - 1])]
  }

  /** Deadlines after the first `i` tasks of the sweep have been checked. */
  function Progress(before: seq<int>, periods: seq<int>, now: int, i: nat): (d: seq<int>)
    requires |before| == |periods| == |SweepOrder|
    requires forall j :: 0 <= j < |periods| ==> periods[j] > 0
    ensures |d| == |SweepOrder|
  {
    seq(|SweepOrder|, j requires 0 <= j < |SweepOrder| =>
      if j < i then CatchUp(before[j], now, periods[j]) else before[j])
  }

  /** Checking the task at position `i` catches up exactly its deadline. */
  lemma ProgressStep(before: seq<int>, periods: seq<int>, now: int, i: nat)
    requires |before| == |periods| == |SweepOrder| && i < |SweepOrder|
    requires forall j :: 0 <= j < |periods| ==> periods[j] > 0
    ensures Progress(before, periods, now, i + 1)
         == Progress(before, periods, now, i)[i := CatchUp(before[i], now, periods[i])]
  {
  }

  /** Running one more task appends its module updates. */
  lemma CallsOfStep(ran: seq<TaskName>, t: TaskName, table: seq<seq<ModuleId>>)
    requires |table| == |SweepOrder|
    ensures CallsOf(ran + [t], table) == CallsOf(ran, table) + table[Position(t)]
  {
    assert (ran + [t])[..|ran|] == ran;
  }

  /** The orchestrator state that `executeCyclicTasks` works on (`CyclicCaller`). */
  class CyclicCaller {
    const slowInputTask: CyclicTask
    const fastInputTask: FastInputTask
    const logicTask: CyclicTask
    const outputTask: OutputTask
    var startTimer: bool

    /** The four task objects that hold deadlines are distinct. */
    ghost predicate Valid()
      reads this, fastInputTask, outputTask
    {
      && slowInputTask != logicTask
      && slowInputTask != fastInputTask.base && slowInputTask != outputTask.base
      && logicTask != fastInputTask.base && logicTask != outputTask.base
      && fastInputTask.base != outputTask.base
    }

    constructor ()
      ensures Valid() && !startTimer
      ensures slowInputTask.interval == 1000 && fastInputTask.base.interval == 100
      ensures logicTask.interval == 2000
      ensures outputTask.base.interval == 1000 && outputTask.slowInterval == 1000
      ensures outputTask.fastInterval == 100
    {
      slowInputTask := new CyclicTask(1000);
      fastInputTask := new FastInputTask(100);
      logicTask := new CyclicTask(2000);
      outputTask := new OutputTask(1000, 100);
      startTimer := false;
    }

    /** Deadline of each task, in sweep order. */
    function Deadlines(): (d: seq<int>)
      reads this, slowInputTask, fastInputTask, fastInputTask.base, logicTask, outputTask, outputTask.base
      ensures |d| == |SweepOrder|
    {
      [slowInputTask.nextRun, fastInputTask.base.nextRun, logicTask.nextRun, outputTask.base.nextRun]
    }

    /** Period each task's catch-up loop adds, in sweep order. */
    function Periods(): (p: seq<int>)
      reads this, slowInputTask, fastInputTask, fastInputTask.base, logicTask, outputTask
      ensures |p| == |SweepOrder|
    {
      [slowInputTask.interval, fastInputTask.base.interval, logicTask.interval, outputTask.Step()]
    }

    /** Module updates one `cycleTask` of each task performs, in sweep order. */
    function CallTable(): (c: seq<seq<ModuleId>>)
      reads this, slowInputTask, fastInputTask, fastInputTask.base, logicTask, outputTask, outputTask.base
      ensures |c| == |SweepOrder|
    {
      [Attached(slowInputTask.modules),
       if fastInputTask.enabled then Attached(fastInputTask.base.modules) else [],
       Attached(logicTask.modules),
       Attached(outputTask.base.modules)]
    }

    /** Every task can catch up at `now` without wrapping. */
    predicate CanSweep(now: ULong)
      reads this, slowInputTask, fastInputTask, fastInputTask.base, logicTask, outputTask, outputTask.base
    {
      forall j :: 0 <= j < |SweepOrder| ==> Periods()[j] > 0 && CatchUpFits(Deadlines()[j], now, Periods()[j])
    }

    /** `isRunScheduled` on one task and, when it is due, `cycleTask`. */
    method CheckTask(t: TaskName, now: ULong) returns (due: bool, calls: seq<ModuleId>)
      requires Valid()
      requires Periods()[Position(t)] > 0 && CatchUpFits(Deadlines()[Position(t)], now, Periods()[Position(t)])
      modifies slowInputTask`nextRun, fastInputTask.base`nextRun, logicTask`nextRun
      modifies outputTask.base`nextRun, outputTask`lastRun
      ensures due == (now >= old(Deadlines())[Position(t)])
      ensures Deadlines() == old(Deadlines())[Position(t) := CatchUp(old(Deadlines())[Position(t)], now, Periods()[Position(t)])]
      ensures Periods() == old(Periods()) && CallTable() == old(CallTable())
      ensures outputTask.lastRun == if t == Output && due then now else old(outputTask.lastRun)
      ensures calls == if due then CallTable()[Position(t)] else []
    {
      calls := [];
      match t
      case SlowInput =>
        due := slowInputTask.IsRunScheduled(now);
        if due { calls := slowInputTask.CycleTask(); }
      case FastInput =>
        due := fastInputTask.base.IsRunScheduled(now);
        if due { calls := fastInputTask.CycleTask(); }
      case LogicRun =>
        due := logicTask.IsRunScheduled(now);
        if due { calls := logicTask.CycleTask(); }
      case Output =>
        due := outputTask.IsRunScheduled(now);
        if due { calls := outputTask.CycleTask(); }
    }

    /** `executeCyclicTasks`: checks the four tasks once each in the fixed order
        slow input, fast input, logic, output, cycles exactly the due ones, and
        leaves every task's deadline caught up past `now`. */
    method ExecuteCyclicTasks(now: ULong) returns (ran: seq<TaskName>, calls: seq<ModuleId>)
      requires Valid() && CanSweep(now)
      modifies slowInputTask`nextRun, fastInputTask.base`nextRun, logicTask`nextRun
      modifies outputTask.base`nextRun, outputTask`lastRun
      ensures ran == DueTasks(old(Deadlines()), now, |SweepOrder|)
      ensures calls == CallsOf(ran, CallTable())
      ensures Deadlines() == Progress(old(Deadlines()), Periods(), now, |SweepOrder|)
      ensures Periods() == old(Periods())
      ensures outputTask.lastRun == if now >= old(Deadlines())[3] then now else old(outputTask.lastRun)
    {
      ghost var before := Deadlines();
      ghost var periods := Periods();
      ghost var table := CallTable();
      assert forall j :: 0 <= j < |SweepOrder| ==> periods[j] > 0 && CatchUpFits(before[j], now, periods[j]);
      ran, calls := [], [];
      for i := 0 to 4
        invariant forall j :: 0 <= j < |SweepOrder| ==> periods[j] > 0 && CatchUpFits(before[j], now, periods[j])
        invariant Periods() == periods && CallTable() == table
        invariant Deadlines() == Progress(before, periods, now, i)
        invariant ran == DueTasks(before, now, i)
        invariant calls == CallsOf(ran, table)
        invariant outputTask.lastRun == if i == 4 && now >= before[3] then now else old(outputTask.lastRun)
      {
        var t := SweepOrder[i];
        assert Position(t) == i;
        assert Deadlines()[i] == before[i];
        var due, c := CheckTask(t, now);
        ProgressStep(before, periods, now, i);
        if due {
          CallsOfStep(ran, t, table);
          ran := ran + [t];
        }
        calls := calls + c;
      }
    }
  }

  /** After a full sweep every deadline lies after `now`, and a task that was not
      due keeps its deadline. */
  lemma SweepCatchesUp(before: seq<int>, periods: seq<int>, now: int)
    requires |before| == |periods| == |SweepOrder|
    requires forall j :: 0 <= j < |periods| ==> periods[j] > 0
    ensures forall j :: 0 <= j < |SweepOrder| ==> Progress(before, periods, now, |SweepOrder|)[j] > now
    ensures forall j :: 0 <= j < |SweepOrder| && now < before[j] ==> Progress(before, periods, now, |SweepOrder|)[j] == before[j]
  {
    forall j | 0 <= j < |SweepOrder|
      ensures Progress(before, periods, now, |SweepOrder|)[j] > now
    {
      CatchUpIsLeastMultiple(before[j], now, periods[j]);
    }
  }
}
