/** `HaySteamerStateMachine` of StateMachine.h: the current process status and
    an allow-list of (from, to) transitions, each with a callback. A callback
    is identified by a `CallbackId`; running it appends a `Fired` record to
    the machine's log. */
module StateMachine {
  import opened Services

  /** Identity of a transition callback. */
  type CallbackId = nat

  /** `emptyTransitionFunction`, the callback the constructor registers everywhere. */
  const EmptyTransition: CallbackId := 0

  /** `TransitionKey`. */
  datatype Transition = Transition(from: Status, to: Status)

  /** One run of a callback, with the arguments it was given. */
  datatype Fired = Fired(callback: CallbackId, from: Status, to: Status)

  /** The pairs the constructor makes legal, stated independently of the table:
      the forward chain idle → ready → heating → holding → done, every
      non-error status to error, and error back to idle. */
  predicate InitiallyAllowed(from: Status, to: Status) {
    || (from == Idle && to == Ready)
    || (from == Ready && to == Heating)
    || (from == Heating && to == Holding)
    || (from == Holding && to == Done)
    || (from != Error && to == Error)
    || (from == Error && to == Idle)
  }

  /** The table the constructor builds. */
  function InitialTable(): map<Transition, CallbackId> {
    map[Transition(Idle, Ready) := EmptyTransition,
        Transition(Ready, Heating) := EmptyTransition,
        Transition(Heating, Holding) := EmptyTransition,
        Transition(Holding, Done) := EmptyTransition,
        Transition(Idle, Error) := EmptyTransition,
        Transition(Ready, Error) := EmptyTransition,
        Transition(Heating, Error) := EmptyTransition,
        Transition(Holding, Error) := EmptyTransition,
        Transition(Done, Error) := EmptyTransition,
        Transition(Error, Idle) := EmptyTransition]
  }

  /** The status after `changeStatus(to)` from `current` with table `table`. */
  function Step(table: map<Transition, CallbackId>, current: Status, to: Status): Status {
    if current == to then current
    else if Transition(current, to) in table then to
    else current
  }

  /** The callbacks `changeStatus(to)` runs: the registered one, once, for a
      legal change; none otherwise. */
  function Fires(table: map<Transition, CallbackId>, current: Status, to: Status): seq<Fired> {
    if current != to && Transition(current, to) in table
    then [Fired(table[Transition(current, to)], current, to)]
    else []
  }

  /** Exactly the initial pairs are in the initial table, all with the empty callback. */
  lemma InitialTableIsAllowList(from: Status, to: Status)
    ensures Transition(from, to) in InitialTable() <==> InitiallyAllowed(from, to)
    ensures Transition(from, to) in InitialTable() ==> InitialTable()[Transition(from, to)] == EmptyTransition
  {
  }

  /** A change to the current status does nothing; a change along a registered
      pair moves to the target and runs that pair's callback once with (old, new);
      any other change leaves the status and runs nothing. */
  lemma StepCases(table: map<Transition, CallbackId>, current: Status, to: Status)
    ensures current == to ==> Step(table, current, to) == current && Fires(table, current, to) == []
    ensures current != to && Transition(current, to) in table ==>
              Step(table, current, to) == to && Fires(table, current, to) == [Fired(table[Transition(current, to)], current, to)]
    ensures current != to && Transition(current, to) !in table ==>
              Step(table, current, to) == current && Fires(table, current, to) == []
    ensures Step(table, current, to) == current || Step(table, current, to) == to
    ensures |Fires(table, current, to)| == 1 <==> Step(table, current, to) != current
  {
  }

  /** With the constructor's table: ready → done is ignored, and neither idle →
      heating nor done → idle is possible, while every status but error can
      reach error and error can return to idle. */
  lemma InitialTableConsequences(s: Status)
    ensures Step(InitialTable(), Ready, Done) == Ready
    ensures Step(InitialTable(), Idle, Heating) == Idle
    ensures Step(InitialTable(), Done, Idle) == Done
    ensures Step(InitialTable(), s, Error) == Error
    ensures Step(InitialTable(), Error, Idle) == Idle
    ensures s != Error && s != Idle ==> Step(InitialTable(), Error, s) == Error
  {
  }

  class HaySteamerStateMachine {
    var currentStatus: Status
    var transitions: map<Transition, CallbackId>
    /** The callbacks run so far, in order. */
    var fired: seq<Fired>

    /** Starts in idle with the ten pairs of the allow-list registered. */
    constructor ()
      ensures currentStatus == Idle
      ensures transitions == InitialTable()
      ensures fired == [] && Traced()
    {
      currentStatus := Idle;
      transitions := map[];
      fired := [];
      new;
      RegisterCallback(Idle, Ready, EmptyTransition);
      RegisterCallback(Ready, Heating, EmptyTransition);
      RegisterCallback(Heating, Holding, EmptyTransition);
      RegisterCallback(Holding, Done, EmptyTransition);
      RegisterCallback(Idle, Error, EmptyTransition);
      RegisterCallback(Ready, Error, EmptyTransition);
      RegisterCallback(Heating, Error, EmptyTransition);
      RegisterCallback(Holding, Error, EmptyTransition);
      RegisterCallback(Done, Error, EmptyTransition);
      RegisterCallback(Error, Idle, EmptyTransition);
    }

    /** Makes `from → to` legal, replacing the callback of a pair already present. */
    method RegisterCallback(from: Status, to: Status, cb: CallbackId)
      modifies this`transitions
      ensures transitions == old(transitions)[Transition(from, to) := cb]
    {
      transitions := transitions[Transition(from, to) := cb];
    }

    /** The status is the target of the last callback run, or idle before any
        has run. */
    ghost predicate Traced()
      reads this
    {
      if fired == [] then currentStatus == Idle else currentStatus == fired[|fired| - 1].to
    }

    method ChangeStatus(newStatus: Status)
      modifies this`currentStatus, this`fired
      ensures currentStatus == Step(transitions, old(currentStatus), newStatus)
      ensures fired == old(fired) + Fires(transitions, old(currentStatus), newStatus)
      ensures old(Traced()) ==> Traced()
    {
      var oldStatus := currentStatus;
      if oldStatus == newStatus {
        return;
      }
      var key := Transition(oldStatus, newStatus);
      if key !in transitions {
        return;
      }
      currentStatus := newStatus;
      fired := fired + [Fired(transitions[key], oldStatus, newStatus)];
    }

    /** The current status: once the constructor has run, the target of the
        last callback run, or idle while none has run. */
    function GetCurrentStatus(): (s: Status)
      reads this
      ensures s == currentStatus
      ensures Traced() && fired == [] ==> s == Idle
      ensures Traced() && fired != [] ==> s == fired[|fired| - 1].to
    {
      currentStatus
    }
  }
}
