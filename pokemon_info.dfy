/**
 The PokemonInfo component of the exercise: it seeds the hook's status from
 whether a name is present, runs a fetch whenever the name is non-empty, and
 picks what to show from the status and the name.
 */
module PokemonInfo {
  import opened AsyncReducer
  import opened AsyncRunner

  /** What the component produces: the "Submit a pokemon" prompt, the loading
      fallback for a name, the stored error thrown to the error boundary, the
      data view, or the final "This should be impossible" throw. */
  datatype View = Prompt | Fallback(name: string) | Raise(error: Value) | DataView(data: Value) | Impossible

  /** The initial-state object the component passes to the hook: status
      `pending` when a name is present and `idle` otherwise, nothing else. */
  function PokemonSeed(name: string): (seed: Seed)
    ensures InitialState(seed).status == Pending <==> name != ""
    ensures InitialState(seed).status == Idle <==> name == ""
    ensures InitialState(seed).data == Null && InitialState(seed).error == Null
    ensures InitialState(seed).others == map[]
    ensures Consistent(InitialState(seed))
  {
    Seed(if name != "" then Pending else Idle, None, None, map[])
  }

  /** The if-chain over status and name that decides what is rendered. */
  function SelectView(s: AsyncState, name: string): (v: View)
    ensures v == Prompt <==> s.status == Idle || name == ""
    ensures v == Fallback(name) <==> s.status == Pending && name != ""
    ensures v == Raise(s.error) <==> s.status == Rejected && name != ""
    ensures v == DataView(s.data) <==> s.status == Resolved && name != ""
    ensures v != Impossible
  {
    if s.status.Idle? || name == "" then Prompt
    else if s.status.Pending? then Fallback(name)
    else if s.status.Rejected? then Raise(s.error)
    else if s.status.Resolved? then DataView(s.data)
    else Impossible
  }

  /** Every state a mounted component can reach by dispatching actions is
      consistent with its status, and so has data and error not both set. */
  lemma ReachableConsistent(name: string, actions: seq<Action>)
    ensures Replay(InitialState(PokemonSeed(name)), actions).Ok? ==>
              Consistent(Replay(InitialState(PokemonSeed(name)), actions).value) &&
              NotBoth(Replay(InitialState(PokemonSeed(name)), actions).value)
  {
    var s0 := InitialState(PokemonSeed(name));
    ReplayConsistent(s0, actions);
    if Replay(s0, actions).Ok? {
      ConsistentNotBoth(Replay(s0, actions).value);
    }
  }

  /** One fetch cycle for a mounted component: the first render, the effect
      running the fetch when the name is non-empty, the render after that,
      the delivery of the fetch's settlement, and the render after that. */
  method FetchCycle(name: string, abort: bool, op: Operation, outcome: Settlement)
    returns (first: View, loading: View, settled: View)
    ensures name == "" ==> first == Prompt && loading == Prompt && settled == Prompt
    ensures name != "" ==> first == Fallback(name) && loading == Fallback(name)
    ensures name != "" && abort ==> settled == Fallback(name)
    ensures name != "" && !abort && outcome.Fulfilled? ==> settled == DataView(outcome.value)
    ensures name != "" && !abort && outcome.Failed? ==> settled == Raise(outcome.reason)
  {
    var hook := new Runner(PokemonSeed(name), abort);
    first := SelectView(hook.state, name);
    if name != "" {
      hook.Run(Some(op));
    }
    loading := SelectView(hook.state, name);
    hook.Settle(op, outcome);
    settled := SelectView(hook.state, name);
  }
}
