/**
 The async-status reducer of the Pokemon info exercise (pokemonInfoReducer).

 The reducer maps a state record and a dispatched action object to a new
 state record. It writes exactly three fields (status, data, error), copies
 every other field of the record unchanged, and fails on an action whose
 type tag it does not know.
 */
module AsyncReducer {

  /** A JavaScript value as far as this code cares: `Null` stands for null and
      for a property the object does not have (which reads as undefined); any
      other value is opaque and known only by its identity. */
  datatype Value = Null | Ref(id: nat)

  /** The four lifecycle stages of one fetch-and-render cycle. */
  datatype Status = Idle | Pending | Resolved | Rejected

  /** The state record: the three fields the reducer writes, and every other
      field the record carries (copied along by the object spread). The keys
      of `others` are the record's remaining keys, so they never include
      "status", "data" or "error". */
  datatype AsyncState = AsyncState(status: Status, data: Value, error: Value, others: map<string, Value>)

  /** A dispatched action object: its `type` tag and its `data` and `error`
      properties (`Null` where the object has none). */
  datatype Action = Action(kind: string, data: Value, error: Value)

  /** Either a value, or the message of the Error that was thrown instead. */
  datatype Result<T> = Ok(value: T) | Fail(message: string)

  /** The action object `{type: 'pending'}`. */
  function PendingAction(): Action { Action("pending", Null, Null) }

  /** The action object `{type: 'resolved', data}`. */
  function ResolvedAction(d: Value): Action { Action("resolved", d, Null) }

  /** The action object `{type: 'rejected', error}`. */
  function RejectedAction(e: Value): Action { Action("rejected", Null, e) }

  /** The type tags the reducer's switch has a case for. */
  predicate Handled(kind: string) {
    kind == "pending" || kind == "resolved" || kind == "rejected"
  }

  /** `data` and `error` are never both set. */
  predicate NotBoth(s: AsyncState) {
    s.data == Null || s.error == Null
  }

  /** The status tells which payload fields may be set: none while idle or
      pending, only data once resolved, only error once rejected. */
  predicate Consistent(s: AsyncState) {
    && (s.status.Idle? || s.status.Pending? ==> s.data == Null && s.error == Null)
    && (s.status.Resolved? ==> s.error == Null)
    && (s.status.Rejected? ==> s.data == Null)
  }

  /** A consistent state never has both payload fields set. */
  lemma ConsistentNotBoth(s: AsyncState)
    requires Consistent(s)
    ensures NotBoth(s)
  {
  }

  /** One reducer step. A known tag yields a fresh record that keeps every
      other field of `state`; an unknown tag throws
      "Unhandled action type: <tag>" and yields no state. */
  function Reduce(state: AsyncState, action: Action): (r: Result<AsyncState>)
    ensures r.Ok? <==> Handled(action.kind)
    ensures r.Fail? ==> r.message == "Unhandled action type: " + action.kind
    ensures r.Ok? ==> r.value.others == state.others && NotBoth(r.value) && Consistent(r.value)
    ensures action.kind == "pending" ==>
              r.Ok? && r.value.status == Pending && r.value.data == Null && r.value.error == Null
    ensures action.kind == "resolved" ==>
              r.Ok? && r.value.status == Resolved && r.value.data == action.data && r.value.error == Null
    ensures action.kind == "rejected" ==>
              r.Ok? && r.value.status == Rejected && r.value.data == Null && r.value.error == action.error
  {
    if action.kind == "pending" then
      Ok(state.(status := Pending, data := Null, error := Null))
    else if action.kind == "resolved" then
      Ok(state.(status := Resolved, data := action.data, error := Null))
    else if action.kind == "rejected" then
      Ok(state.(status := Rejected, data := Null, error := action.error))
    else
      Fail("Unhandled action type: " + action.kind)
  }

  /** A handled action overwrites status, data and error completely: the
      result depends on the old record only through its other fields. */
  lemma ReduceForgetsPayload(s1: AsyncState, s2: AsyncState, action: Action)
    requires s1.others == s2.others
    ensures Reduce(s1, action) == Reduce(s2, action)
  {
  }

  /** Dispatching the same action twice in a row is the same as dispatching
      it once (an operation whose callbacks are attached twice settles to
      the same state as one attached once). */
  lemma ReduceIdempotent(s: AsyncState, action: Action)
    requires Handled(action.kind)
    ensures Reduce(Reduce(s, action).value, action) == Reduce(s, action)
  {
  }

  /** The reducer applied to a sequence of dispatched actions in order; the
      first unhandled action throws and stops the sequence. */
  function Replay(s: AsyncState, actions: seq<Action>): Result<AsyncState>
    decreases |actions|
  {
    if actions == [] then Ok(s)
    else
      match Reduce(s, actions[0])
      case Fail(m) => Fail(m)
      case Ok(t) => Replay(t, actions[1..])
  }

  /** Every state reachable from a state whose data and error are not both
      set has them not both set either. */
  lemma {:induction false} ReplayPreservesInvariant(s: AsyncState, actions: seq<Action>)
    requires NotBoth(s)
    ensures Replay(s, actions).Ok? ==> NotBoth(Replay(s, actions).value)
    decreases |actions|
  {
    if actions != [] {
      var r := Reduce(s, actions[0]);
      if r.Ok? {
        ReplayPreservesInvariant(r.value, actions[1..]);
      }
    }
  }

  /** Every state reachable from a consistent state is consistent. */
  lemma {:induction false} ReplayConsistent(s: AsyncState, actions: seq<Action>)
    requires Consistent(s)
    ensures Replay(s, actions).Ok? ==> Consistent(Replay(s, actions).value)
    decreases |actions|
  {
    if actions != [] {
      var r := Reduce(s, actions[0]);
      if r.Ok? {
        ReplayConsistent(r.value, actions[1..]);
      }
    }
  }

  /** Every state reachable from any state carries the same other fields. */
  lemma {:induction false} ReplayKeepsOthers(s: AsyncState, actions: seq<Action>)
    ensures Replay(s, actions).Ok? ==> Replay(s, actions).value.others == s.others
    decreases |actions|
  {
    if actions != [] {
      var r := Reduce(s, actions[0]);
      if r.Ok? {
        ReplayKeepsOthers(r.value, actions[1..]);
      }
    }
  }

  /** A sequence of actions throws exactly when one of them has an unknown tag. */
  lemma {:induction false} ReplayFailsIffUnhandled(s: AsyncState, actions: seq<Action>)
    ensures Replay(s, actions).Fail? <==> exists i :: 0 <= i < |actions| && !Handled(actions[i].kind)
    decreases |actions|
  {
    if actions != [] {
      var r := Reduce(s, actions[0]);
      if r.Ok? {
        ReplayFailsIffUnhandled(r.value, actions[1..]);
        if exists i :: 0 <= i < |actions| && !Handled(actions[i].kind) {
          var i :| 0 <= i < |actions| && !Handled(actions[i].kind);
          assert i > 0;
          assert !Handled(actions[1..][i - 1].kind);
        }
        if exists j :: 0 <= j < |actions[1..]| && !Handled(actions[1..][j].kind) {
          var j :| 0 <= j < |actions[1..]| && !Handled(actions[1..][j].kind);
          assert !Handled(actions[j + 1].kind);
        }
      } else {
        assert !Handled(actions[0].kind);
      }
    }
  }

  /** After a non-empty sequence of handled actions the status is the one
      the last action names, whatever came before. */
  lemma {:induction false} ReplayEndsWithLastAction(s: AsyncState, actions: seq<Action>)
    requires |actions| > 0
    requires forall i :: 0 <= i < |actions| ==> Handled(actions[i].kind)
    ensures Replay(s, actions).Ok?
    ensures Replay(s, actions).value.status ==
              match actions[|actions| - 1].kind
              case "pending" => Pending
              case "resolved" => Resolved
              case _ => Rejected
    decreases |actions|
  {
    var r := Reduce(s, actions[0]);
    assert Handled(actions[0].kind);
    if |actions| > 1 {
      assert forall i :: 0 <= i < |actions[1..]| ==> Handled(actions[1..][i].kind) by {
        forall i | 0 <= i < |actions[1..]| ensures Handled(actions[1..][i].kind) {
          assert actions[1..][i] == actions[i + 1];
        }
      }
      ReplayEndsWithLastAction(r.value, actions[1..]);
      assert actions[1..][|actions[1..]| - 1] == actions[|actions| - 1];
    }
  }
}
