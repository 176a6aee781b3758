# Async-status hook of the Pokemon info exercise, in Dafny

This project models the logic of `src/exercise/02.js`, a UI exercise about a
reusable "async status" hook. A form submits a Pokemon name. A child
component fetches data for that name and shows one of four states: idle,
pending, resolved or rejected. The model has three parts.

- `AsyncReducer` (file `async_reducer.dfy`) models `pokemonInfoReducer`. It is a
  pure step function over the state record `{status, data, error, ...others}`.
  Actions are objects with a string `type` tag, so the reducer's "Unhandled
  action type" throw can be stated exactly. `Replay` folds the reducer over a
  sequence of actions, so that we can talk about every reachable state.
- `AsyncRunner` (file `async_runner.dfy`) models `useAsync`. It has the initial
  state (`data`/`error` null, overlaid with the caller's object) and a class
  `Runner`. The class holds the current state, the `abort` flag the `run`
  closure was made with, and the set of operations whose settlement callbacks
  are attached but not yet delivered. `Run` is `run(promise)`. `Settle` is the
  delivery of one operation's settlement.
- `PokemonInfo` (file `pokemon_info.dfy`) models the component. It has the
  initial status chosen from the name, the if-chain that picks the rendered
  output (an abstract `View`), and a method `FetchCycle` that goes through one
  mount → fetch → settle cycle using the class.

JavaScript values are abstract: `Value = Null | Ref(id)`, where `Null` stands
for both `null` and `undefined`. An empty name is the falsy name. A dispatch
applies the reducer to the stored state at once.

One might expect exactly one of `data`/`error` to be set in `resolved` and
`rejected`. The code does not guarantee that: an operation may fulfil with
`null`, and then `resolved` stores `data: null`. What the code does
guarantee is proved instead (`Consistent`): idle and pending states have
neither field set, resolved states have no error, and rejected states have
no data. It follows that `data` and `error` are never both set (`NotBoth`).

## Model

| member | source | states |
|---|---|---|
| `AsyncReducer.Reduce` | src/exercise/02.js:14-29 | A result exists exactly when the tag is `pending`, `resolved` or `rejected`. An unknown tag fails with "Unhandled action type: " followed by the tag. `pending` gives status pending with data and error null. `resolved` gives status resolved, data equal to the action's data and error null. `rejected` gives status rejected, data null and error equal to the action's error. Every result keeps all other fields, is consistent with its status (no payload while pending, no error once resolved, no data once rejected), and never has both data and error set. |
| `AsyncReducer.ReduceForgetsPayload` | src/exercise/02.js:16-23 | Two states with the same other fields give the same result for any action. A handled action overwrites the previous status, data and error completely. |
| `AsyncReducer.ReduceIdempotent` | src/exercise/02.js:19-23 | Dispatching a handled action twice in a row gives the same state as dispatching it once. This is why the runner may keep its registered operations as a set. |
| `AsyncReducer.ReplayPreservesInvariant` | src/exercise/02.js:14-29 | From a state whose data and error are not both set, every state reached by a sequence of actions also has them not both set. |
| `AsyncReducer.ReplayConsistent` | src/exercise/02.js:14-29 | From a state consistent with its status, every state reached by a sequence of actions is consistent with its status too. |
| `AsyncReducer.ReplayKeepsOthers` | src/exercise/02.js:17-23 | From any state, every state reached by a sequence of actions has the same other fields. |
| `AsyncReducer.ReplayFailsIffUnhandled` | src/exercise/02.js:25-26 | A sequence of actions throws if and only if some action in it has an unknown tag. |
| `AsyncReducer.ReplayEndsWithLastAction` | src/exercise/02.js:15-24 | After a non-empty sequence of handled actions, the status is the one named by the last action, whatever came before. |
| `AsyncRunner.InitialState` | src/exercise/02.js:32-36 | Status and other fields come from the caller's object. Data and error default to null when the caller does not give them, and take the caller's value when it does. The initial state has data and error not both set exactly when the caller does not give both as non-null. |
| `AsyncRunner.SettleAction` | src/exercise/02.js:46-53 | The fulfilment callback dispatches `resolved` with the fulfilled value. The rejection callback dispatches `rejected` with the reason. Both are handled actions. |
| `AsyncRunner.Runner.constructor` | src/exercise/02.js:31-36 | A new hook holds the initial state for the caller's object, no registered operations, and the given `abort` flag. |
| `AsyncRunner.Runner.Run` | src/exercise/02.js:38-55 | An absent operation changes nothing. Otherwise the new state is the reducer's result for `pending` on the old state. The operation is registered if and only if `abort` is false. With `abort` true, nothing is ever registered. A consistent state stays consistent. |
| `AsyncRunner.Runner.Settle` | src/exercise/02.js:46-53 | A registered operation's settlement makes the new state the reducer's result for the matching `resolved`/`rejected` action, and removes the operation. An unregistered operation changes nothing. With `abort` true, the state never changes. A consistent state stays consistent. |
| `PokemonInfo.PokemonSeed` | src/exercise/02.js:61-63 | The initial status is pending if and only if a name is present, and idle if and only if it is absent. Data and error are null, there are no other fields, and the initial state is consistent with its status. |
| `PokemonInfo.SelectView` | src/exercise/02.js:73-83 | The prompt is shown if and only if the status is idle or the name is empty, whatever the stored status. Otherwise: pending gives the fallback for the name, rejected throws the stored error, and resolved gives the data view. The final "This should be impossible" throw is never reached. |
| `PokemonInfo.ReachableConsistent` | src/exercise/02.js:61-63 | Every state the component's hook can reach by dispatching actions is consistent with its status, and has data and error not both set. |
| `PokemonInfo.FetchCycle` | src/exercise/02.js:60-84 | With an empty name, every render shows the prompt. With a name, the first render and the render after the fetch starts show the fallback. After settlement, an aborted hook still shows the fallback. Otherwise it shows the data view for a fulfilment and throws the reason for a rejection. |

## Left out

- React's machinery: `useReducer`'s storage and re-rendering, `useCallback`
  memoisation, and `useEffect` scheduling and cleanup. A dispatch is modelled
  as an immediate reducer step. The effect that runs a fetch when the name is
  non-empty appears only inside `FetchCycle`.
- `fetchPokemon`, `PokemonForm`, `PokemonDataView`, `PokemonInfoFallback` and
  `PokemonErrorBoundary`. They come from `../pokemon`, which is not part of this
  model. A fetch is an abstract `Operation`, and what is rendered is an
  abstract `View`.
- AsyncRunner.Runner: the `abort` flag is fixed for the life of a `Runner`.
  In the code the flag is a prop, and a change of it makes a new `run`
  closure. Callbacks that an earlier closure attached while the flag was
  false stay on their promise and still dispatch `resolved`/`rejected` after
  the flag has become true. A flag that changes during the hook's life is
  not modelled, so "with `abort` true the state never changes" holds only
  for a hook whose flag was true from the start.
- `App` and `AppWithUnmountCheckbox`. They hold the name, the reset handler and
  the flip of the abort flag on unmount. `abort` is only an input to `Runner`.
- Promise scheduling and the order in which settlements arrive. `Settle` takes
  any registered operation in any order. No "latest request wins" property is
  stated, because the code has no guard against a stale operation settling
  after a newer `run`.
- An operation with its callbacks attached twice is registered once. The
  reducer is idempotent for this case (`ReduceIdempotent`).
- Truthiness of `promise` and of `pokemonName` beyond "absent" and "empty
  string". Other falsy values are not modelled.
- AsyncRunner.InitialState: the caller's object must carry a status. A caller
  that leaves `status` undefined is not modelled. The only caller always sets
  it.
- The reducer's throw carries only its message. It is not modelled as a
  JavaScript `Error` object travelling to an error boundary.
