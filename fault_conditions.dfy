/** `FaultConditions` of FaultConditions.h: an ordered list of (condition,
    message) pairs and a default message. The first condition that holds
    names the fault. Conditions and the default message are functions of the
    `World` at the moment of the check; an empty `std::function` is `None`. */
module Faults {
  import opened Wrappers
  import opened Registry

  datatype Entry<!World> = Entry(fault: World -> bool, message: string)

  class FaultConditions<World> {
    var conditions: seq<Entry<World>>
    var defaultMessage: World -> string

    /** No conditions, and a default message that is always "". */
    constructor ()
      ensures conditions == []
      ensures forall w :: defaultMessage(w) == ""
    {
      conditions := [];
      defaultMessage := _ => "";
    }

    /** Replaces the default message; an empty function is ignored. */
    method AddDefaultMessage(message: Option<World -> string>)
      modifies this`defaultMessage
      ensures defaultMessage == if message.Some? then message.value else old(defaultMessage)
    {
      if message.None? {
        return;
      }
      defaultMessage := message.value;
    }

    /** Appends a condition with its message; an empty condition is ignored. */
    method AddCondition(condition: Option<World -> bool>, message: string)
      modifies this`conditions
      ensures conditions == old(conditions) + if condition.Some? then [Entry(condition.value, message)] else []
    {
      if condition.None? {
        return;
      }
      conditions := conditions + [Entry(condition.value, message)];
    }

    function Results(w: World): (r: seq<bool>)
      reads this
      ensures |r| == |conditions|
    {
      seq(|conditions|, k requires 0 <= k < |conditions| reads this => conditions[k].fault(w))
    }

    /** `checkConditions`: the message of the first condition that holds, or the
        default message when none does; the conditions after the first that
        holds are not evaluated (`evaluated` counts the evaluations, which are
        of the first ones in registration order). */
    method CheckConditions(w: World) returns (message: string, evaluated: nat)
      ensures FirstMatch(Results(w)).Some? ==>
                message == conditions[FirstMatch(Results(w)).value].message
                && evaluated == FirstMatch(Results(w)).value + 1
      ensures FirstMatch(Results(w)).None? ==> message == defaultMessage(w) && evaluated == |conditions|
    {
      evaluated := 0;
      for i := 0 to |conditions|
        invariant evaluated == i
        invariant FirstMatch(Results(w)) == Shifted(FirstMatch(Results(w)[i..]), i)
        invariant forall j :: 0 <= j < i ==> !Results(w)[j]
      {
        evaluated := evaluated + 1;
        assert Results(w)[i..][1..] == Results(w)[i + 1..];
        if conditions[i].fault(w) {
          message := conditions[i].message;
          return;
        }
      }
      assert Results(w)[|conditions|..] == [];
      message := defaultMessage(w);
    }
  }

  /** An index into a suffix that starts at `offset`, as an index into the whole. */
  function Shifted(m: Option<nat>, offset: nat): Option<nat> {
    match m
    case None => None
    case Some(k) => Some(k + offset)
  }

  function Never(w: int): bool { false }
  function Always(w: int): bool { true }

  /** With (false, F1), (true, F2), (true, F3) registered, the message is F2,
      and the third condition is never evaluated. */
  method FirstTrueWins() returns (message: string, evaluated: nat)
    ensures message == "F2" && evaluated == 2
  {
    var registry := new FaultConditions<int>();
    registry.AddCondition(Some(Never), "F1");
    registry.AddCondition(Some(Always), "F2");
    registry.AddCondition(Some(Always), "F3");
    assert registry.Results(0) == [false, true, true];
    message, evaluated := registry.CheckConditions(0);
  }
}
