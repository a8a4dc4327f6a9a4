/** The `MultiLayerController` of the reconstruction plugin
    (src/plugins/AdvancedReconstructor/MultiLayerController.cpp): three
    globals driven by six entry points.  The log lines are left out. */
module MultiLayer {
  import opened Text

  /** The namespace's static variables. */
  datatype Controller = Controller(initialized: bool, currentLayer: int, maxLayers: int)

  /** The values the statics start with. */
  const Initial: Controller := Controller(false, 0, 3)

  /** The entry points; the getters are the ones that return a value. */
  datatype Call = Initialize | Cleanup | StartUnpacking | GetCurrentLayer | GetMaxLayers | SetMaxLayers(newMaxLayers: int)

  /** The state after a call and the value it returned, if any. */
  datatype Reply = Reply(state: Controller, value: Option<int>)

  /** The bound `SetMaxLayers` enforces. */
  predicate ValidMax(n: int) {
    0 < n <= 10
  }

  /** One call of an entry point. */
  function Step(c: Controller, call: Call): (r: Reply)
    ensures call.Initialize? ==> r.state == Controller(true, 0, c.maxLayers)
    ensures call.Cleanup? ==> r.state == Controller(false, 0, c.maxLayers)
    ensures call.StartUnpacking? ==> r.state == (if c.initialized then c.(currentLayer := 0) else c)
    ensures call.GetCurrentLayer? ==> r.state == c && r.value == Some(c.currentLayer)
    ensures call.GetMaxLayers? ==> r.state == c && r.value == Some(c.maxLayers)
    ensures call.SetMaxLayers? ==> r.state.maxLayers == (if ValidMax(call.newMaxLayers) then call.newMaxLayers else c.maxLayers)
    ensures call.SetMaxLayers? ==> r.state.initialized == c.initialized && r.state.currentLayer == c.currentLayer
    ensures r.value.Some? <==> call.GetCurrentLayer? || call.GetMaxLayers?
  {
    match call
    case Initialize => Reply(c.(initialized := true, currentLayer := 0), None)
    case Cleanup => Reply(c.(currentLayer := 0, initialized := false), None)
    case StartUnpacking =>
      if !c.initialized then Reply(c, None) else Reply(c.(currentLayer := 0), None)
    case GetCurrentLayer => Reply(c, Some(c.currentLayer))
    case GetMaxLayers => Reply(c, Some(c.maxLayers))
    case SetMaxLayers(n) =>
      if n > 0 && n <= 10 then Reply(c.(maxLayers := n), None) else Reply(c, None)
  }

  /** The state after a sequence of calls. */
  function Run(c: Controller, calls: seq<Call>): Controller
    decreases |calls|
  {
    if calls == [] then c else Run(Step(c, calls[0]).state, calls[1..])
  }

  /** What every reachable state satisfies: the layer counter is at zero
      and the bound is within 1..10. */
  predicate Inv(c: Controller) {
    c.currentLayer == 0 && ValidMax(c.maxLayers)
  }

  lemma StepKeepsInv(c: Controller, call: Call)
    requires Inv(c)
    ensures Inv(Step(c, call).state)
  {
  }

  /** From the initial statics, no sequence of calls leaves the bound or
      the counter out of range. */
  lemma {:induction false} ReachableInv(c: Controller, calls: seq<Call>)
    requires Inv(c)
    ensures Inv(Run(c, calls))
    decreases |calls|
  {
    if calls != [] {
      StepKeepsInv(c, calls[0]);
      ReachableInv(Step(c, calls[0]).state, calls[1..]);
    }
  }

  /** The initial statics satisfy the invariant. */
  lemma InitialInv()
    ensures Inv(Initial)
  {
  }

  /** `GetMaxLayers` after `SetMaxLayers(n)` reports `n` when it is in
      1..10 and the earlier bound otherwise. */
  lemma SetThenGet(c: Controller, n: int)
    ensures Step(Step(c, SetMaxLayers(n)).state, GetMaxLayers).value
      == Some(if ValidMax(n) then n else c.maxLayers)
  {
  }

  /** Getters never change the state, so repeating one gives the same answer. */
  lemma GettersAreQueries(c: Controller, call: Call)
    requires call.GetCurrentLayer? || call.GetMaxLayers?
    ensures Run(c, [call, call]) == c
    ensures Step(Step(c, call).state, call) == Step(c, call)
  {
    assert [call, call][1..] == [call];
    assert [call][1..] == [];
    assert Step(c, call).state == c;
    assert Run(c, [call, call]) == Run(c, [call]);
    assert Run(c, [call]) == Run(c, []);
  }
}
