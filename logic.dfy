/** `HaySteamerLogic` of HaySteamerTemperatureControl/HaySteamerLogic.h: one
    `update()` makes the per-status step of the steaming process through the
    state machine and then runs the fault pass. The injected `std::function`
    getters are functions of an abstract `World`, the state of the plant and
    its inputs at the moment of one update, so every getter sees the same
    world within one update. An empty `std::function` is `None`. */
module Logic {
  import opened CInt
  import opened Wrappers
  import opened Services
  import opened StateMachine

  /** Minutes the heating phase may last before it is a fault. */
  const HeatingTimeout: ULong := 60
  /** Degrees the temperature may fall below the minimum while holding. */
  const HoldingTemperatureDrop: int := 5
  /** Minutes the done status is shown before returning to idle. */
  const DoneMinutes: ULong := 60
  /** Results of the two getters that have a default. */
  const DefaultMinimumTemperature: int := 60
  const DefaultWaitTime: ULong := 30

  /** What the getters return in one update. */
  datatype Inputs = Inputs(
    startConditions: bool,
    startTimer: bool,
    runTimer: bool,
    timeOfDay: ULong,
    temperature: int,
    configuredMinimum: int,
    configuredWait: ULong,
    fault: Status -> string)

  /** The state one update works on: the machine's status and callback log and
      the logic's own fields. */
  datatype Track = Track(
    status: Status,
    fired: seq<Fired>,
    message: string,
    actualStartTime: ULong,
    reachedMinimumTemperature: ULong,
    timeWhenDone: ULong,
    minimumTemperature: int,
    waitTime: ULong)

  /** `stateMachine.changeStatus(to)` on the track. */
  function ChangeTo(t: Track, table: map<Transition, CallbackId>, to: Status): Track {
    t.(status := Step(table, t.status, to), fired := t.fired + Fires(table, t.status, to))
  }

  /** Starting the heating phase, from idle or from ready. */
  function StartHeating(t: Track, table: map<Transition, CallbackId>, i: Inputs): Track {
    ChangeTo(t.(actualStartTime := i.timeOfDay), table, Heating)
      .(message := "heating", minimumTemperature := i.configuredMinimum)
  }

  /** The `switch` of `update()`: the step each status takes. Error has no case. */
  function Advance(t: Track, table: map<Transition, CallbackId>, i: Inputs): Track {
    match t.status
    case Idle =>
      if i.startConditions then StartHeating(t, table, i)
      else if i.startTimer then ChangeTo(t, table, Ready).(message := "ready")
      else t
    case Ready =>
      if i.runTimer then StartHeating(t, table, i) else t
    case Heating =>
      if i.temperature >= t.minimumTemperature then
        ChangeTo(t.(reachedMinimumTemperature := i.timeOfDay), table, Holding)
          .(message := "holding", waitTime := i.configuredWait)
      else t
    case Holding =>
      if SubU(i.timeOfDay, t.reachedMinimumTemperature) >= t.waitTime then
        ChangeTo(t.(timeWhenDone := i.timeOfDay), table, Done).(message := "done")
      else t
    case Done =>
      if SubU(i.timeOfDay, t.timeWhenDone) >= DoneMinutes then
        ChangeTo(t, table, Idle).(message := "idle")
      else t
    case Error => t
  }

  /** The message of the built-in fault checks of `checkFaults`, "" when none fires. */
  function BuiltInFault(t: Track, i: Inputs): string {
    match t.status
    case Heating =>
      if SubU(i.timeOfDay, t.actualStartTime) > HeatingTimeout then "heating timeout" else ""
    case Holding =>
      if i.temperature < t.minimumTemperature - HoldingTemperatureDrop then "temperature drop" else ""
    case _ => ""
  }

  /** The fault pass of `checkFaults`: a built-in fault moves to error; otherwise the external check
      for the current status is consulted; a non-empty fault text moves to error
      and becomes the message. */
  function FaultPass(t: Track, table: map<Transition, CallbackId>, i: Inputs): Track {
    var builtIn := BuiltInFault(t, i);
    var t1 := if builtIn != "" then ChangeTo(t, table, Error) else t;
    var err := if builtIn == "" then i.fault(t1.status) else builtIn;
    if err != "" then ChangeTo(t1, table, Error).(message := err) else t1
  }

  /** One `update()`. */
  function UpdateSpec(t: Track, table: map<Transition, CallbackId>, i: Inputs): Track {
    FaultPass(Advance(t, table, i), table, i)
  }

  /** The forward steps of the process. */
  predicate ForwardEdge(from: Status, to: Status) {
    || (from == Idle && (to == Heating || to == Ready))
    || (from == Ready && to == Heating)
    || (from == Heating && to == Holding)
    || (from == Holding && to == Done)
    || (from == Done && to == Idle)
  }

  /** The per-status step either stays or takes one forward edge the table allows,
      and only a taken edge runs a callback. */
  lemma AdvanceMoves(t: Track, table: map<Transition, CallbackId>, i: Inputs)
    ensures var a := Advance(t, table, i);
      || (a.status == t.status && a.fired == t.fired)
      || (ForwardEdge(t.status, a.status) && Transition(t.status, a.status) in table
          && a.fired == t.fired + [Fired(table[Transition(t.status, a.status)], t.status, a.status)])
  {
  }

  /** One update leaves the status where it was, takes one allowed forward edge,
      or ends in error; the records of the time of start, of reaching the
      temperature and of being done are written only with the update's time. */
  lemma UpdateMoves(t: Track, table: map<Transition, CallbackId>, i: Inputs)
    ensures var u := UpdateSpec(t, table, i);
      || u.status == t.status
      || u.status == Error
      || (ForwardEdge(t.status, u.status) && Transition(t.status, u.status) in table)
    ensures var u := UpdateSpec(t, table, i);
      && (u.actualStartTime == t.actualStartTime || u.actualStartTime == i.timeOfDay)
      && (u.reachedMinimumTemperature == t.reachedMinimumTemperature || u.reachedMinimumTemperature == i.timeOfDay)
      && (u.timeWhenDone == t.timeWhenDone || u.timeWhenDone == i.timeOfDay)
  {
    AdvanceMoves(t, table, i);
  }

  /** Once in error the logic never leaves it, whatever the table allows; only
      the message can change, to a non-empty external fault text. */
  lemma ErrorIsAbsorbing(t: Track, table: map<Transition, CallbackId>, i: Inputs)
    requires t.status == Error
    ensures var u := UpdateSpec(t, table, i);
      && u.status == Error && u.fired == t.fired
      && u == t.(message := u.message)
      && u.message == if i.fault(Error) != "" then i.fault(Error) else t.message
  {
  }

  /** In idle with the start conditions met and idle → heating allowed (and no
      external heating fault), the process starts heating at the update's time
      with the configured minimum temperature. */
  lemma IdleStartsHeating(t: Track, table: map<Transition, CallbackId>, i: Inputs)
    requires t.status == Idle && i.startConditions
    requires Transition(Idle, Heating) in table && i.fault(Heating) == ""
    ensures var u := UpdateSpec(t, table, i);
      && u.status == Heating && u.message == "heating"
      && u.actualStartTime == i.timeOfDay && u.minimumTemperature == i.configuredMinimum
      && u.fired == t.fired + [Fired(table[Transition(Idle, Heating)], Idle, Heating)]
  {
    assert SubU(i.timeOfDay, i.timeOfDay) == 0;
  }

  /** With only the constructor's table, meeting the start conditions in idle
      leaves the status idle and fires nothing, since idle → heating is not
      registered; the start time and minimum temperature are still recorded and
      the message reads "heating". */
  lemma IdleStartWithInitialTable(t: Track, i: Inputs)
    requires t.status == Idle && i.startConditions && i.fault(Idle) == ""
    ensures var u := UpdateSpec(t, InitialTable(), i);
      && u.status == Idle && u.message == "heating" && u.fired == t.fired
      && u.actualStartTime == i.timeOfDay && u.minimumTemperature == i.configuredMinimum
  {
  }

  /** In idle without start conditions but with the start timer, the process
      waits in ready (idle → ready is in the constructor's table). */
  lemma IdleBecomesReady(t: Track, table: map<Transition, CallbackId>, i: Inputs)
    requires t.status == Idle && !i.startConditions && i.startTimer
    requires Transition(Idle, Ready) in table && i.fault(Ready) == ""
    ensures var u := UpdateSpec(t, table, i);
      && u.status == Ready && u.message == "ready"
      && u.fired == t.fired + [Fired(table[Transition(Idle, Ready)], Idle, Ready)]
  {
  }

  /** In idle with neither start conditions nor the start timer (and no
      external fault for idle), an update changes nothing. */
  lemma IdleWaits(t: Track, table: map<Transition, CallbackId>, i: Inputs)
    requires t.status == Idle && !i.startConditions && !i.startTimer && i.fault(Idle) == ""
    ensures UpdateSpec(t, table, i) == t
  {
  }

  /** In ready with the run timer and ready → heating allowed (and no external
      heating fault), the process starts heating at the update's time with the
      configured minimum temperature, firing the ready → heating callback. */
  lemma ReadyStartsHeating(t: Track, table: map<Transition, CallbackId>, i: Inputs)
    requires t.status == Ready && i.runTimer
    requires Transition(Ready, Heating) in table && i.fault(Heating) == ""
    ensures var u := UpdateSpec(t, table, i);
      && u.status == Heating && u.message == "heating"
      && u.actualStartTime == i.timeOfDay && u.minimumTemperature == i.configuredMinimum
      && u.fired == t.fired + [Fired(table[Transition(Ready, Heating)], Ready, Heating)]
  {
    assert SubU(i.timeOfDay, i.timeOfDay) == 0;
  }

  /** In ready without the run timer (and no external fault for ready), an
      update changes nothing. */
  lemma ReadyWaits(t: Track, table: map<Transition, CallbackId>, i: Inputs)
    requires t.status == Ready && !i.runTimer && i.fault(Ready) == ""
    ensures UpdateSpec(t, table, i) == t
  {
  }

  /** Reaching the minimum temperature while heating (in time) starts holding,
      recording the time of reaching it and the configured wait. */
  lemma HeatingReachesTemperature(t: Track, table: map<Transition, CallbackId>, i: Inputs)
    requires t.status == Heating && i.temperature >= t.minimumTemperature
    requires Transition(Heating, Holding) in table && i.fault(Holding) == ""
    ensures var u := UpdateSpec(t, table, i);
      && u.status == Holding && u.message == "holding"
      && u.reachedMinimumTemperature == i.timeOfDay && u.waitTime == i.configuredWait
      && u.actualStartTime == t.actualStartTime
  {
  }

  /** Heating longer than the timeout is the fault "heating timeout". */
  lemma HeatingTimesOut(t: Track, table: map<Transition, CallbackId>, i: Inputs)
    requires t.status == Heating && i.temperature < t.minimumTemperature
    requires SubU(i.timeOfDay, t.actualStartTime) > HeatingTimeout
    requires Transition(Heating, Error) in table
    ensures var u := UpdateSpec(t, table, i);
      u.status == Error && u.message == "heating timeout"
  {
  }

  /** The elapsed time is an unsigned difference: heating that started at 23:59
      and is still under way at 00:00 counts as about 2^32 minutes and is
      reported as a timeout at once. */
  lemma HeatingAcrossMidnight(t: Track, table: map<Transition, CallbackId>, i: Inputs)
    requires t.status == Heating && i.temperature < t.minimumTemperature
    requires t.actualStartTime == 1439 && i.timeOfDay == 0
    requires Transition(Heating, Error) in table
    ensures var u := UpdateSpec(t, table, i);
      u.status == Error && u.message == "heating timeout"
  {
    assert SubU(0, 1439) == ULongModulus - 1439;
  }

  /** Heating below the minimum temperature and within the timeout (and no
      external fault for heating), an update changes nothing. */
  lemma HeatingWaits(t: Track, table: map<Transition, CallbackId>, i: Inputs)
    requires t.status == Heating && i.temperature < t.minimumTemperature
    requires SubU(i.timeOfDay, t.actualStartTime) <= HeatingTimeout && i.fault(Heating) == ""
    ensures UpdateSpec(t, table, i) == t
  {
  }

  /** Holding for the wait time finishes the process; a done process returns to
      idle after an hour, when done → idle is allowed. */
  lemma HoldingThenDone(t: Track, table: map<Transition, CallbackId>, i: Inputs)
    requires Transition(Holding, Done) in table && Transition(Done, Idle) in table
    requires i.fault(Done) == "" && i.fault(Idle) == ""
    ensures t.status == Holding && i.temperature >= t.minimumTemperature - HoldingTemperatureDrop
            && SubU(i.timeOfDay, t.reachedMinimumTemperature) >= t.waitTime ==>
              var u := UpdateSpec(t, table, i);
              u.status == Done && u.message == "done" && u.timeWhenDone == i.timeOfDay
    ensures t.status == Done && SubU(i.timeOfDay, t.timeWhenDone) >= DoneMinutes ==>
              var u := UpdateSpec(t, table, i);
              u.status == Idle && u.message == "idle"
    ensures t.status == Done && SubU(i.timeOfDay, t.timeWhenDone) < DoneMinutes && i.fault(Done) == "" ==>
              UpdateSpec(t, table, i) == t
  {
  }

  /** A temperature more than 5 degrees under the minimum while holding is the
      fault "temperature drop". */
  lemma HoldingTemperatureDrops(t: Track, table: map<Transition, CallbackId>, i: Inputs)
    requires t.status == Holding && SubU(i.timeOfDay, t.reachedMinimumTemperature) < t.waitTime
    requires i.temperature < t.minimumTemperature - HoldingTemperatureDrop
    requires Transition(Holding, Error) in table
    ensures var u := UpdateSpec(t, table, i);
      u.status == Error && u.message == "temperature drop"
  {
  }

  /** Holding before the wait time is over, with the temperature at most 5
      degrees under the minimum (and no external fault for holding), an update
      changes nothing. */
  lemma HoldingWaits(t: Track, table: map<Transition, CallbackId>, i: Inputs)
    requires t.status == Holding && SubU(i.timeOfDay, t.reachedMinimumTemperature) < t.waitTime
    requires i.temperature >= t.minimumTemperature - HoldingTemperatureDrop && i.fault(Holding) == ""
    ensures UpdateSpec(t, table, i) == t
  {
  }

  /** When no built-in fault fires, a non-empty external fault text for the status
      the step reached becomes the message and moves to error (always allowed by
      the constructor's table); an empty one changes nothing. */
  lemma ExternalFault(t: Track, table: map<Transition, CallbackId>, i: Inputs)
    requires BuiltInFault(Advance(t, table, i), i) == ""
    ensures var a := Advance(t, table, i); var u := UpdateSpec(t, table, i);
      && (i.fault(a.status) != "" ==> u.message == i.fault(a.status))
      && (i.fault(a.status) != "" && Transition(a.status, Error) in table ==> u.status == Error)
      && (i.fault(a.status) == "" ==> u == a)
    ensures var a := Advance(t, table, i);
      i.fault(a.status) != "" && table == InitialTable() ==> UpdateSpec(t, table, i).status == Error
  {
  }

  /** The message is always a process word or a fault text. */
  lemma MessageOrigin(t: Track, table: map<Transition, CallbackId>, i: Inputs)
    ensures var m := UpdateSpec(t, table, i).message;
      || m == t.message
      || m in {"heating", "ready", "holding", "done", "idle", "heating timeout", "temperature drop"}
      || (m != "" && exists s: Status :: m == i.fault(s))
  {
    var a := Advance(t, table, i);
    var u := UpdateSpec(t, table, i);
    if BuiltInFault(a, i) == "" && i.fault(a.status) != "" {
      assert u.message == i.fault(a.status);
    }
  }

  /** The constructor's table with the two pairs the process needs on top:
      idle → heating and done → idle. */
  function ProcessTable(): (table: map<Transition, CallbackId>)
    ensures Transition(Idle, Heating) in table && Transition(Done, Idle) in table
    ensures forall from: Status, to: Status :: InitiallyAllowed(from, to) ==> Transition(from, to) in table
  {
    InitialTable()[Transition(Idle, Heating) := EmptyTransition][Transition(Done, Idle) := EmptyTransition]
  }

  function NoFault(s: Status): string { "" }

  /** A whole run: start at 100, reach 60 degrees at 200 with a 30 minute wait,
      finish at 231, return to idle at 291. */
  lemma WholeRun(t0: Track)
    requires t0.status == Idle
    ensures var i1 := Inputs(true, false, false, 100, 20, 60, 30, NoFault);
            var t1 := UpdateSpec(t0, ProcessTable(), i1);
            var i2 := i1.(timeOfDay := 200, temperature := 60);
            var t2 := UpdateSpec(t1, ProcessTable(), i2);
            var i3 := i2.(timeOfDay := 231);
            var t3 := UpdateSpec(t2, ProcessTable(), i3);
            var i4 := i3.(timeOfDay := 291);
            var t4 := UpdateSpec(t3, ProcessTable(), i4);
            && t1.status == Heating && t2.status == Holding
            && t3.status == Done && t4.status == Idle && t4.message == "idle"
            && t3.timeWhenDone == 231
  {
    var i1 := Inputs(true, false, false, 100, 20, 60, 30, NoFault);
    var table := ProcessTable();
    IdleStartsHeating(t0, table, i1);
    var t1 := UpdateSpec(t0, table, i1);
    var i2 := i1.(timeOfDay := 200, temperature := 60);
    assert SubU(200, 100) == 100;
    HeatingReachesTemperature(t1, table, i2);
  }

  /** `HaySteamerLogic`. */
  class HaySteamerLogic<World> {
    var startConditions: Option<World -> bool>
    var startTimer: Option<World -> bool>
    var runTimer: Option<World -> bool>
    var hasFault: Option<(World, Status) -> string>
    var getTimeOfDayInMinutes: Option<World -> ULong>
    var getTemperature: Option<World -> int>
    const stateMachine: HaySteamerStateMachine
    var message: string
    var actualStartTime: ULong
    var reachedMinimumTemperature: ULong
    var timeWhenDone: ULong
    /** The two getters with a default are never empty: their setters ignore an empty function. */
    var getMinimumTemperature: World -> int
    var minimumTemperature: int
    var getWaitTime: World -> ULong
    var waitTime: ULong

    constructor ()
      ensures fresh(stateMachine)
      ensures stateMachine.currentStatus == Idle && stateMachine.transitions == InitialTable()
      ensures stateMachine.fired == []
      ensures message == "idle" && actualStartTime == 0 && reachedMinimumTemperature == 0 && timeWhenDone == 0
      ensures startConditions == None && startTimer == None && runTimer == None
      ensures hasFault == None && getTimeOfDayInMinutes == None && getTemperature == None
      ensures forall w :: getMinimumTemperature(w) == DefaultMinimumTemperature
      ensures forall w :: getWaitTime(w) == DefaultWaitTime
    {
      startConditions, startTimer, runTimer := None, None, None;
      hasFault, getTimeOfDayInMinutes, getTemperature := None, None, None;
      stateMachine := new HaySteamerStateMachine();
      message := "idle";
      actualStartTime, reachedMinimumTemperature, timeWhenDone := 0, 0, 0;
      getMinimumTemperature := _ => DefaultMinimumTemperature;
      minimumTemperature := 0;
      getWaitTime := _ => DefaultWaitTime;
      waitTime := 0;
    }

    /** All the getters without a default are installed. */
    predicate Wired()
      reads this`startConditions, this`startTimer, this`runTimer
      reads this`hasFault, this`getTimeOfDayInMinutes, this`getTemperature
    {
      && startConditions.Some? && startTimer.Some? && runTimer.Some?
      && hasFault.Some? && getTimeOfDayInMinutes.Some? && getTemperature.Some?
    }

    /** What the installed getters return in world `w`. */
    function Read(w: World): Inputs
      reads this`startConditions, this`startTimer, this`runTimer
      reads this`hasFault, this`getTimeOfDayInMinutes, this`getTemperature
      reads this`getMinimumTemperature, this`getWaitTime
      requires Wired()
    {
      var fault := hasFault.value;
      Inputs(startConditions.value(w), startTimer.value(w), runTimer.value(w),
             getTimeOfDayInMinutes.value(w), getTemperature.value(w),
             getMinimumTemperature(w), getWaitTime(w), s => fault(w, s))
    }

    function State(): Track
      reads this, stateMachine
    {
      Track(stateMachine.currentStatus, stateMachine.fired, message,
            actualStartTime, reachedMinimumTemperature, timeWhenDone, minimumTemperature, waitTime)
    }

    /** `update()`: the per-status step, then the fault pass. */
    method Update(w: World)
      requires Wired()
      modifies stateMachine`currentStatus, stateMachine`fired
      modifies this`message, this`actualStartTime, this`reachedMinimumTemperature
      modifies this`timeWhenDone, this`minimumTemperature, this`waitTime
      ensures State() == UpdateSpec(old(State()), stateMachine.transitions, Read(w))
    {
      StepStatus(w);
      CheckFaults(w);
    }

    /** The `switch` over the current status in `update()`. */
    method StepStatus(w: World)
      requires Wired()
      modifies stateMachine`currentStatus, stateMachine`fired
      modifies this`message, this`actualStartTime, this`reachedMinimumTemperature
      modifies this`timeWhenDone, this`minimumTemperature, this`waitTime
      ensures State() == Advance(old(State()), stateMachine.transitions, Read(w))
    {
      match stateMachine.currentStatus {
        case Idle => StepIdle(w);
        case Ready => StepReady(w);
        case Heating => StepHeating(w);
        case Holding => StepHolding(w);
        case Done => StepDone(w);
        case Error =>
      }
    }

    /** The idle case: the start conditions begin heating, else the start timer readies. */
    method StepIdle(w: World)
      requires Wired()
      modifies stateMachine`currentStatus, stateMachine`fired
      modifies this`message, this`actualStartTime, this`reachedMinimumTemperature
      modifies this`timeWhenDone, this`minimumTemperature, this`waitTime
      requires stateMachine.currentStatus == Idle
      ensures State() == Advance(old(State()), stateMachine.transitions, Read(w))
    {
      if startConditions.value(w) {
        BeginHeating(w);
      } else if startTimer.value(w) {
        EnterStatus(Ready, "ready");
      }
    }

    /** The ready case: the run timer begins heating. */
    method StepReady(w: World)
      requires Wired()
      modifies stateMachine`currentStatus, stateMachine`fired
      modifies this`message, this`actualStartTime, this`reachedMinimumTemperature
      modifies this`timeWhenDone, this`minimumTemperature, this`waitTime
      requires stateMachine.currentStatus == Ready
      ensures State() == Advance(old(State()), stateMachine.transitions, Read(w))
    {
      if runTimer.value(w) {
        BeginHeating(w);
      }
    }

    /** The heating case: reaching the minimum temperature starts the holding phase. */
    method StepHeating(w: World)
      requires Wired()
      modifies stateMachine`currentStatus, stateMachine`fired
      modifies this`message, this`actualStartTime, this`reachedMinimumTemperature
      modifies this`timeWhenDone, this`minimumTemperature, this`waitTime
      requires stateMachine.currentStatus == Heating
      ensures State() == Advance(old(State()), stateMachine.transitions, Read(w))
    {
      if getTemperature.value(w) >= minimumTemperature {
        BeginHolding(w);
      }
    }

    /** The holding case: after the wait time the process is done. */
    method StepHolding(w: World)
      requires Wired()
      modifies stateMachine`currentStatus, stateMachine`fired
      modifies this`message, this`actualStartTime, this`reachedMinimumTemperature
      modifies this`timeWhenDone, this`minimumTemperature, this`waitTime
      requires stateMachine.currentStatus == Holding
      ensures State() == Advance(old(State()), stateMachine.transitions, Read(w))
    {
      if SubU(getTimeOfDayInMinutes.value(w), reachedMinimumTemperature) >= waitTime {
        timeWhenDone := getTimeOfDayInMinutes.value(w);
        EnterStatus(Done, "done");
      }
    }

    /** The done case: after `DoneMinutes` the controller is idle again. */
    method StepDone(w: World)
      requires Wired()
      modifies stateMachine`currentStatus, stateMachine`fired
      modifies this`message, this`actualStartTime, this`reachedMinimumTemperature
      modifies this`timeWhenDone, this`minimumTemperature, this`waitTime
      requires stateMachine.currentStatus == Done
      ensures State() == Advance(old(State()), stateMachine.transitions, Read(w))
    {
      if SubU(getTimeOfDayInMinutes.value(w), timeWhenDone) >= DoneMinutes {
        EnterStatus(Idle, "idle");
      }
    }

    /** The start of the heating phase, as written in both the idle and the ready case. */
    method BeginHeating(w: World)
      requires Wired()
      modifies stateMachine`currentStatus, stateMachine`fired
      modifies this`message, this`actualStartTime, this`minimumTemperature
      ensures State() == StartHeating(old(State()), stateMachine.transitions, Read(w))
    {
      actualStartTime := getTimeOfDayInMinutes.value(w);
      stateMachine.ChangeStatus(Heating);
      message := "heating";
      minimumTemperature := getMinimumTemperature(w);
    }

    /** Reaching the minimum temperature while heating. */
    method BeginHolding(w: World)
      requires Wired()
      modifies stateMachine`currentStatus, stateMachine`fired
      modifies this`message, this`reachedMinimumTemperature, this`waitTime
      ensures State() == ChangeTo(old(State()).(reachedMinimumTemperature := Read(w).timeOfDay), stateMachine.transitions, Holding)
                          .(message := "holding", waitTime := Read(w).configuredWait)
    {
      reachedMinimumTemperature := getTimeOfDayInMinutes.value(w);
      stateMachine.ChangeStatus(Holding);
      message := "holding";
      waitTime := getWaitTime(w);
    }

    /** A status change followed by its message. */
    method EnterStatus(to: Status, text: string)
      modifies stateMachine`currentStatus, stateMachine`fired, this`message
      ensures State() == ChangeTo(old(State()), stateMachine.transitions, to).(message := text)
    {
      stateMachine.ChangeStatus(to);
      message := text;
    }

    method CheckFaults(w: World)
      requires Wired()
      modifies stateMachine`currentStatus, stateMachine`fired, this`message
      ensures State() == FaultPass(old(State()), stateMachine.transitions, Read(w))
    {
      var errorMessage := "";
      match stateMachine.currentStatus {
        case Heating =>
          if SubU(getTimeOfDayInMinutes.value(w), actualStartTime) > HeatingTimeout {
            stateMachine.ChangeStatus(Error);
            errorMessage := "heating timeout";
          }
        case Holding =>
          if getTemperature.value(w) < minimumTemperature - HoldingTemperatureDrop {
            stateMachine.ChangeStatus(Error);
            errorMessage := "temperature drop";
          }
        case _ =>
      }
      if errorMessage == "" {
        errorMessage := hasFault.value(w, stateMachine.currentStatus);
      }
      if errorMessage != "" {
        stateMachine.ChangeStatus(Error);
        message := errorMessage;
      }
    }

    method SetStartConditions(f: Option<World -> bool>)
      modifies this`startConditions
      ensures startConditions == if f.Some? then f else old(startConditions)
    {
      if f.None? {
        return;
      }
      startConditions := f;
    }

    method SetStartTimer(f: Option<World -> bool>)
      modifies this`startTimer
      ensures startTimer == if f.Some? then f else old(startTimer)
    {
      if f.None? {
        return;
      }
      startTimer := f;
    }

    method SetRunTimer(f: Option<World -> bool>)
      modifies this`runTimer
      ensures runTimer == if f.Some? then f else old(runTimer)
    {
      if f.None? {
        return;
      }
      runTimer := f;
    }

    method SetHasFault(f: Option<(World, Status) -> string>)
      modifies this`hasFault
      ensures hasFault == if f.Some? then f else old(hasFault)
    {
      if f.None? {
        return;
      }
      hasFault := f;
    }

    method SetGetTimeOfDayInMinutes(f: Option<World -> ULong>)
      modifies this`getTimeOfDayInMinutes
      ensures getTimeOfDayInMinutes == if f.Some? then f else old(getTimeOfDayInMinutes)
    {
      if f.None? {
        return;
      }
      getTimeOfDayInMinutes := f;
    }

    method SetGetTemperature(f: Option<World -> int>)
      modifies this`getTemperature
      ensures getTemperature == if f.Some? then f else old(getTemperature)
    {
      if f.None? {
        return;
      }
      getTemperature := f;
    }

    method SetGetMinimumTemperature(f: Option<World -> int>)
      modifies this`getMinimumTemperature
      ensures getMinimumTemperature == if f.Some? then f.value else old(getMinimumTemperature)
    {
      if f.None? {
        return;
      }
      getMinimumTemperature := f.value;
    }

    method SetGetWaitTime(f: Option<World -> ULong>)
      modifies this`getWaitTime
      ensures getWaitTime == if f.Some? then f.value else old(getWaitTime)
    {
      if f.None? {
        return;
      }
      getWaitTime := f.value;
    }

    /** The message the process step or the fault pass left. */
    function GetMessage(): (m: string)
      reads this, stateMachine
      ensures m == State().message
    {
      message
    }

    /** The state machine's status, which the process step and the fault pass move. */
    function GetCurrentStatus(): (s: Status)
      reads this, stateMachine
      ensures s == State().status
    {
      stateMachine.GetCurrentStatus()
    }
  }
}
