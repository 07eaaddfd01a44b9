/** The sequential account of a model that is refreshed by generations. */
module ModelRefreshes {
  import opened Wrappers

  datatype Freshness = Provisional | Current | Stale | Refreshing | Degraded

  datatype Refresh<M> = Refresh(model: Option<M>, freshness: Freshness, generation: nat)

  function Settled<M>(model: Option<M>): Freshness {
    if model.Some? then Stale else Provisional
  }

  function Begin<M>(r: Refresh<M>): (Refresh<M>, nat) {
    (r.(freshness := Refreshing, generation := r.generation + 1), r.generation + 1)
  }

  function Complete<M>(r: Refresh<M>, generation: nat, model: M): (Refresh<M>, bool) {
    if generation != r.generation then (r, false)
    else (r.(model := Some(model), freshness := Current), true)
  }

  function Fail<M>(r: Refresh<M>, generation: nat, degraded: bool): Refresh<M> {
    if generation != r.generation then r else r.(freshness := if degraded then Degraded else Stale)
  }

  function Cancel<M>(r: Refresh<M>): Refresh<M> {
    r.(generation := r.generation + 1, freshness := Settled(r.model))
  }

  // ---------------------------------------------------------------------------------------------
  // Runs
  // ---------------------------------------------------------------------------------------------

  datatype RefreshEvent<M> =
    | BeginEvent
    | CompleteEvent(generation: nat, model: M)
    | FailEvent(generation: nat, degraded: bool)
    | CancelEvent

  function StepRefresh<M>(r: Refresh<M>, e: RefreshEvent<M>): Refresh<M> {
    match e
    case BeginEvent => Begin(r).0
    case CompleteEvent(generation, model) => Complete(r, generation, model).0
    case FailEvent(generation, degraded) => Fail(r, generation, degraded)
    case CancelEvent => Cancel(r)
  }

  function RunRefresh<M>(r: Refresh<M>, es: seq<RefreshEvent<M>>): Refresh<M> {
    if es == [] then r else StepRefresh(RunRefresh(r, es[..|es| - 1]), es[|es| - 1])
  }

  // How many generations the events take.
  function Taken<M>(es: seq<RefreshEvent<M>>): nat {
    if es == [] then 0
    else Taken(es[..|es| - 1]) + if es[|es| - 1].BeginEvent? || es[|es| - 1].CancelEvent? then 1 else 0
  }

  // What the model and its freshness are told to be by the events, from `generation` on.
  function Told<M>(r: Refresh<M>, es: seq<RefreshEvent<M>>): (Option<M>, Freshness) {
    if es == [] then (r.model, r.freshness)
    else
      var (model, freshness) := Told(r, es[..|es| - 1]);
      var now := r.generation + Taken(es[..|es| - 1]);
      match es[|es| - 1]
      case BeginEvent => (model, Refreshing)
      case CompleteEvent(generation, result) =>
        if generation == now then (Some(result), Current) else (model, freshness)
      case FailEvent(generation, degraded) =>
        (model, if generation != now then freshness else if degraded then Degraded else Stale)
      case CancelEvent => (model, if model.Some? then Stale else Provisional)
  }

  /** Over every run: the generation counts begins and cancels, and the latest event in time says the rest. */
  lemma {:induction false} RefreshesAreTold<M>(r: Refresh<M>, es: seq<RefreshEvent<M>>)
    ensures var after := RunRefresh(r, es);
            after.generation == r.generation + Taken(es) && (after.model, after.freshness) == Told(r, es)
  {
    if es != [] { RefreshesAreTold(r, es[..|es| - 1]); }
  }

  class ModelRefresh<M> {
    var model: Option<M>
    var freshness: Freshness
    var generation: nat

    function State(): Refresh<M>
      reads this
    {
      Refresh(model, freshness, generation)
    }

    constructor (model: Option<M>)
      ensures State() == Refresh(model, Settled(model), 0)
    {
      this.model, freshness, generation := model, Settled(model), 0;
    }

    method BeginRefresh() returns (started: nat)
      modifies this
      ensures (State(), started) == Begin(old(State()))
    {
      generation := generation + 1;
      freshness := Refreshing;
      started := generation;
    }

    method CompleteRefresh(finished: nat, result: M) returns (accepted: bool)
      modifies this
      ensures (State(), accepted) == Complete(old(State()), finished, result)
    {
      if finished != generation {
        return false;
      }
      model := Some(result);
      freshness := Current;
      accepted := true;
    }

    method FailRefresh(failed: nat, degraded: bool)
      modifies this
      ensures State() == Fail(old(State()), failed, degraded)
    {
      if failed == generation {
        freshness := if degraded then Degraded else Stale;
      }
    }

    method CancelRefresh()
      modifies this
      ensures State() == Cancel(old(State()))
    {
      generation := generation + 1;
      freshness := if model.Some? then Stale else Provisional;
    }
  }
}
