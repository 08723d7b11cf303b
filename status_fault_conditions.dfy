/** The status-keyed `FaultConditions` of
    HaySteamerTemperatureControl/FaultConditions.h: an ordered list of
    (condition, message) pairs whose conditions take the current status. A
    condition is a function of the `World` and the status; an empty
    `std::function` is `None`. */
module StatusFaults {
  import opened Wrappers
  import opened Registry
  import opened Services

  datatype Entry<!World> = Entry(fault: (World, Status) -> bool, message: string)

  class FaultConditions<World> {
    var conditions: seq<Entry<World>>

    constructor ()
      ensures conditions == []
    {
      conditions := [];
    }

    /** Appends a condition with its message; an empty condition is ignored. */
    method AddCondition(condition: Option<(World, Status) -> bool>, message: string)
      modifies this`conditions
      ensures conditions == old(conditions) + if condition.Some? then [Entry(condition.value, message)] else []
    {
      if condition.None? {
        return;
      }
      conditions := conditions + [Entry(condition.value, message)];
    }

    function Results(w: World, state: Status): (r: seq<bool>)
      reads this
      ensures |r| == |conditions|
    {
      seq(|conditions|, k requires 0 <= k < |conditions| reads this => conditions[k].fault(w, state))
    }

    /** The message `checkConditions(state)` returns: that of the first condition
        true for `state`, or "" when none is. */
    function Expected(w: World, state: Status): string
      reads this
    {
      match FirstMatch(Results(w, state))
      case None => ""
      case Some(k) => conditions[k].message
    }

    /** `checkConditions(state)`: a const index loop with an early return. */
    method CheckConditions(w: World, state: Status) returns (message: string)
      ensures message == Expected(w, state)
      ensures message != "" ==> exists k :: 0 <= k < |conditions| && conditions[k].fault(w, state) && conditions[k].message == message
    {
      var i := 0;
      while i < |conditions|
        invariant 0 <= i <= |conditions|
        invariant forall j :: 0 <= j < i ==> !Results(w, state)[j]
      {
        if conditions[i].fault(w, state) {
          FirstMatchIsFirst(Results(w, state));
          FirstAt(Results(w, state), i);
          return conditions[i].message;
        }
        i := i + 1;
      }
      FirstMatchIsFirst(Results(w, state));
      return "";
    }
  }

  /** A true result with only false ones before it is the first match. */
  lemma FirstAt(results: seq<bool>, i: nat)
    requires i < |results| && results[i] && forall j :: 0 <= j < i ==> !results[j]
    ensures FirstMatch(results) == Some(i)
  {
    FirstMatchIsFirst(results);
    var m := FirstMatch(results);
    if m.Some? {
      assert m.value >= i;
      assert m.value <= i;
    }
  }
}
