/** The wrapper put around each selector method: the input-selector resolver
    is left unrun until the wrapper's first call, and the memoised selector
    built then is reused by every later call. Building it can throw (the
    resolver may reach a service that does not exist yet, or `createSelector`
    may refuse the inputs); the wrapper then stays unset and the next call
    tries again. The memoised selector itself is given as
    `evaluate(inputs, args)`, the outcome of `createSelector(inputs, fn)(...args)`. */
module LazySelector {
  import opened JsValues

  /** `let selector` inside the wrapper: unset, or built from the resolved
      input selectors. */
  datatype SelectorCell = Unresolved | Resolved(inputs: seq<JsValue>)

  datatype SelectorCall = SelectorCall(cell: SelectorCell, result: Result<JsValue>, resolverRan: bool)

  /** One call of the wrapper. `resolveNow` is the outcome of
      `createSelector(getInputSelectors(this), …)` at the moment of the call:
      the inputs, or what either step threw. */
  function CallSelector(cell: SelectorCell, resolveNow: Result<seq<JsValue>>, args: seq<JsValue>,
                        evaluate: (seq<JsValue>, seq<JsValue>) -> Result<JsValue>): (c: SelectorCall)
    ensures c.resolverRan <==> cell.Unresolved?
    ensures c.cell.Resolved? <==> cell.Resolved? || resolveNow.Ok?
    ensures cell.Resolved? ==> c.cell == cell && c.result == evaluate(cell.inputs, args)
    ensures cell.Unresolved? && resolveNow.Err? ==> c.cell == Unresolved && c.result == Err(resolveNow.failure)
    ensures cell.Unresolved? && resolveNow.Ok? ==>
              c.cell == Resolved(resolveNow.value) && c.result == evaluate(resolveNow.value, args)
  {
    match cell
    case Resolved(inputs) => SelectorCall(cell, evaluate(inputs, args), false)
    case Unresolved =>
      match resolveNow
      case Err(e) => SelectorCall(Unresolved, Err(e), true)
      case Ok(inputs) => SelectorCall(Resolved(inputs), evaluate(inputs, args), true)
  }

  /** The index of the first successful resolution, or `|rs|` when none is. */
  function FirstOk(rs: seq<Result<seq<JsValue>>>): (k: nat)
    ensures k <= |rs|
    ensures forall j :: 0 <= j < k ==> rs[j].Err?
    ensures k < |rs| ==> rs[k].Ok?
    decreases |rs|
  {
    if |rs| == 0 || rs[0].Ok? then 0 else 1 + FirstOk(rs[1..])
  }

  /** A run of calls on a fresh wrapper: the resolver runs on every call up
      to and including its first success, and never after; the calls before
      it throw what the resolution threw, and every call from it on
      evaluates against the inputs that success resolved. */
  method CallRepeatedly(cell: SelectorCell, resolutions: seq<Result<seq<JsValue>>>, calls: seq<seq<JsValue>>,
                        evaluate: (seq<JsValue>, seq<JsValue>) -> Result<JsValue>)
    returns (final: SelectorCell, results: seq<Result<JsValue>>, ran: seq<bool>)
    requires |resolutions| == |calls|
    ensures |results| == |calls| && |ran| == |calls|
    ensures cell.Resolved? ==> final == cell
    ensures cell.Resolved? ==> forall i :: 0 <= i < |calls| ==>
              !ran[i] && results[i] == evaluate(cell.inputs, calls[i])
    ensures cell.Unresolved? ==> forall i :: 0 <= i < |calls| ==> (ran[i] <==> i <= FirstOk(resolutions))
    ensures cell.Unresolved? ==> forall i :: 0 <= i < |calls| && i < FirstOk(resolutions) ==>
              results[i] == Err(resolutions[i].failure)
    ensures cell.Unresolved? && FirstOk(resolutions) == |calls| ==> final == Unresolved
    ensures cell.Unresolved? && FirstOk(resolutions) < |calls| ==>
              final == Resolved(resolutions[FirstOk(resolutions)].value)
    ensures cell.Unresolved? ==> forall i :: FirstOk(resolutions) <= i < |calls| ==>
              results[i] == evaluate(resolutions[FirstOk(resolutions)].value, calls[i])
  {
    var k := FirstOk(resolutions);
    final := cell;
    results := [];
    ran := [];
    var i := 0;
    while i < |calls|
      invariant 0 <= i <= |calls|
      invariant |results| == i && |ran| == i
      invariant cell.Resolved? ==> final == cell
      invariant cell.Resolved? ==> forall j :: 0 <= j < i ==> !ran[j] && results[j] == evaluate(cell.inputs, calls[j])
      invariant cell.Unresolved? && i <= k ==> final == Unresolved
      invariant cell.Unresolved? && i > k ==> final == Resolved(resolutions[k].value)
      invariant cell.Unresolved? ==> forall j :: 0 <= j < i ==> (ran[j] <==> j <= k)
      invariant cell.Unresolved? ==> forall j :: 0 <= j < i && j < k ==> results[j] == Err(resolutions[j].failure)
      invariant cell.Unresolved? ==> forall j :: k <= j < i ==> results[j] == evaluate(resolutions[k].value, calls[j])
    {
      var call := CallSelector(final, resolutions[i], calls[i], evaluate);
      final := call.cell;
      results := results + [call.result];
      ran := ran + [call.resolverRan];
      i := i + 1;
    }
  }
}
