/**
 The `useAsync` hook of the Pokemon info exercise: a state record driven by
 the reducer, and a `run` entry point that dispatches `pending` at once and,
 unless the hook was created in aborted mode, attaches callbacks to the
 operation that dispatch `resolved` or `rejected` when it settles.
 */
module AsyncRunner {
  import opened AsyncReducer

  datatype Option<T> = None | Some(value: T)

  /** The caller's initial-state object: each of its keys may be missing
      (`None`) or given. Any other keys it has are in `others`, which
      therefore never holds "status", "data" or "error". */
  datatype Seed = Seed(status: Status, data: Option<Value>, error: Option<Value>, others: map<string, Value>)

  /** The hook's initial state: `data` and `error` null, overlaid with the
      caller's fields. */
  function InitialState(seed: Seed): (s: AsyncState)
    ensures s.status == seed.status && s.others == seed.others
    ensures seed.data.None? ==> s.data == Null
    ensures seed.error.None? ==> s.error == Null
    ensures seed.data.Some? ==> s.data == seed.data.value
    ensures seed.error.Some? ==> s.error == seed.error.value
    ensures NotBoth(s) <==> !(seed.data.Some? && seed.data.value != Null && seed.error.Some? && seed.error.value != Null)
  {
    AsyncState(seed.status,
               if seed.data.Some? then seed.data.value else Null,
               if seed.error.Some? then seed.error.value else Null,
               seed.others)
  }

  /** An asynchronous operation (a promise), known by its identity. */
  datatype Operation = Operation(id: nat)

  /** How an operation settles: fulfilled with a value or rejected with a reason. */
  datatype Settlement = Fulfilled(value: Value) | Failed(reason: Value)

  /** The action the callback for a settlement dispatches. */
  function SettleAction(outcome: Settlement): (a: Action)
    ensures Handled(a.kind)
    ensures outcome.Fulfilled? <==> a.kind == "resolved"
    ensures outcome.Fulfilled? ==> a == ResolvedAction(outcome.value)
    ensures outcome.Failed? ==> a == RejectedAction(outcome.reason)
  {
    match outcome
    case Fulfilled(v) => ResolvedAction(v)
    case Failed(e) => RejectedAction(e)
  }

  /** One mounted use of the hook. `abort` is the flag the `run` closure was
      made with; `registered` holds the operations whose settlement callbacks
      are attached and have not yet been delivered. */
  class Runner {
    const abort: bool
    var state: AsyncState
    var registered: set<Operation>

    /** In aborted mode no callback is ever attached. */
    ghost predicate Valid()
      reads this
    {
      abort ==> registered == {}
    }

    constructor (seed: Seed, abort: bool)
      ensures Valid()
      ensures this.abort == abort && state == InitialState(seed) && registered == {}
    {
      this.abort := abort;
      state := InitialState(seed);
      registered := {};
    }

    /** `run(promise)`: nothing for an absent operation; otherwise dispatch
        `pending`, and attach the settlement callbacks unless aborted. */
    method Run(op: Option<Operation>)
      requires Valid()
      modifies this
      ensures Valid()
      ensures op.None? ==> state == old(state) && registered == old(registered)
      ensures op.Some? ==> Reduce(old(state), PendingAction()) == Ok(state)
      ensures op.Some? ==> state.status == Pending && state.data == Null && state.error == Null
      ensures op.Some? ==> registered == if abort then old(registered) else old(registered) + {op.value}
      ensures old(NotBoth(state)) ==> NotBoth(state)
      ensures old(Consistent(state)) ==> Consistent(state)
    {
      if op.None? {
        return;
      }
      state := Reduce(state, PendingAction()).value;
      if !abort {
        registered := registered + {op.value};
      }
    }

    /** Delivery of the settlement of `op`: if its callbacks are attached,
        the matching one dispatches `resolved` or `rejected`; otherwise
        nothing happens. Any registered operation may settle, in any order. */
    method Settle(op: Operation, outcome: Settlement)
      requires Valid()
      modifies this
      ensures Valid()
      ensures op in old(registered) ==>
                Reduce(old(state), SettleAction(outcome)) == Ok(state) && registered == old(registered) - {op}
      ensures op !in old(registered) ==> state == old(state) && registered == old(registered)
      ensures abort ==> state == old(state)
      ensures old(NotBoth(state)) ==> NotBoth(state)
      ensures old(Consistent(state)) ==> Consistent(state)
    {
      if op in registered {
        state := Reduce(state, SettleAction(outcome)).value;
        registered := registered - {op};
      }
    }
  }
}
