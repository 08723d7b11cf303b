/** The two ways the condition registries combine the results of their
    conditions, stated over the results in registration order. */
module Registry {
  import opened Wrappers

  /** `conditionMet |= result` over all results: the OR of every result. */
  function AnyHolds(results: seq<bool>): bool
    decreases |results|
  {
    if results == [] then false else AnyHolds(results[..|results| - 1]) || results[|results| - 1]
  }

  /** The accumulated OR is true exactly when some result is true; with no
      results it is false. */
  lemma {:induction false} AnyHoldsIffSome(results: seq<bool>)
    ensures AnyHolds(results) <==> true in results
    ensures results == [] ==> !AnyHolds(results)
    decreases |results|
  {
    if results != [] {
      var init := results[..|results| - 1];
      AnyHoldsIffSome(init);
      assert results == init + [results[|results| - 1]];
    }
  }

  /** Index of the first true result, if any. */
  function FirstMatch(results: seq<bool>): (r: Option<nat>)
    ensures r.Some? ==> r.value < |results| && results[r.value]
    decreases |results|
  {
    if results == [] then None
    else if results[0] then Some(0)
    else match FirstMatch(results[1..])
      case None => None
      case Some(k) => Some(k + 1)
  }

  /** The first match is a true result with only false results before it; no
      match means no true result at all. */
  lemma {:induction false} FirstMatchIsFirst(results: seq<bool>)
    ensures FirstMatch(results).Some? ==>
      var k := FirstMatch(results).value;
      k < |results| && results[k] && forall j :: 0 <= j < k ==> !results[j]
    ensures FirstMatch(results).None? <==> true !in results
    decreases |results|
  {
    if results != [] && !results[0] {
      FirstMatchIsFirst(results[1..]);
      assert results == [results[0]] + results[1..];
      if FirstMatch(results[1..]).Some? {
        var k := FirstMatch(results[1..]).value;
        forall j | 0 <= j < k + 1 ensures !results[j] {
          if j > 0 {
            assert results[j] == results[1..][j - 1];
          }
        }
      }
    }
  }
}
