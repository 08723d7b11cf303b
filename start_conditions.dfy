/** `StartConditions` of StartConditions.h: an ordered list of conditions that
    start the process when any of them holds. A condition is a function of
    the `World` at the moment of the check; an empty `std::function` is `None`. */
module Start {
  import opened Wrappers
  import opened Registry

  class StartConditions<World> {
    var conditions: seq<World -> bool>

    constructor ()
      ensures conditions == []
    {
      conditions := [];
    }

    /** Appends a condition; an empty function is ignored. */
    method AddCondition(condition: Option<World -> bool>)
      modifies this`conditions
      ensures conditions == old(conditions) + if condition.Some? then [condition.value] else []
    {
      if condition.None? {
        return;
      }
      conditions := conditions + [condition.value];
    }

    /** Results of the registered conditions in `w`, in registration order. */
    function Results(w: World): (r: seq<bool>)
      reads this
      ensures |r| == |conditions|
    {
      seq(|conditions|, k requires 0 <= k < |conditions| reads this => conditions[k](w))
    }

    /** `checkAllConditions`: true iff some registered condition holds; every
        condition is evaluated, once each, in registration order (`evaluated`
        lists the indices in the order they were evaluated). */
    method CheckAllConditions(w: World) returns (met: bool, evaluated: seq<nat>)
      ensures met == AnyHolds(Results(w))
      ensures met <==> exists k :: 0 <= k < |conditions| && conditions[k](w)
      ensures |evaluated| == |conditions| && forall k :: 0 <= k < |evaluated| ==> evaluated[k] == k
    {
      met := false;
      evaluated := [];
      for i := 0 to |conditions|
        invariant met == AnyHolds(Results(w)[..i])
        invariant |evaluated| == i && forall k :: 0 <= k < i ==> evaluated[k] == k
      {
        assert Results(w)[..i + 1][..i] == Results(w)[..i];
        met := met || conditions[i](w);
        evaluated := evaluated + [i];
      }
      assert Results(w)[..|conditions|] == Results(w);
      AnyHoldsIffSome(Results(w));
      assert (true in Results(w)) <==> exists k :: 0 <= k < |conditions| && conditions[k](w) by {
        if true in Results(w) {
          var k :| 0 <= k < |Results(w)| && Results(w)[k];
          assert conditions[k](w);
        }
        if exists k :: 0 <= k < |conditions| && conditions[k](w) {
          var k :| 0 <= k < |conditions| && conditions[k](w);
          assert Results(w)[k];
        }
      }
    }
  }
}
