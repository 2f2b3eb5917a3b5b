# use-saga bridge, modelled in Dafny

`useReducerAndSaga` connects a React reducer store to a redux-saga runtime.
Its core is a small environment record kept across renders: the saga
channel, the last committed state, and the actions dispatched since the last
commit. `dispatch` forwards an action to the store and queues it; the
commit-phase effect records the committed state and, when actions are
queued, publishes them on the channel in order followed by one
`REACT_STATE_READY` message carrying that state. A middleware rewrites every
`SELECT` effect into a call of `selectAsyncSaga`, which waits for the next
ready message and applies the selector to the state it carries. The model
proves a guarantee about log order. A saga that dispatches and then selects
outside a flush resolves on a ready marker published after every action it
dispatched. That the marker's state has absorbed those actions is assumed of
the committed state, not proved (see "## Left out"). A saga that dispatches
and selects while a flush is still publishing is an exception even to the
order guarantee: see the reentrancy line under "## Left out".

The model:

- `messages.dfy` (module `Messages`): the channel message `Action(a) | StateReady(s)`,
  the published log as a sequence, what one flush publishes (`FlushMessages`),
  and the facts about flushing: no loss, no duplication, order, one ready
  marker per non-empty flush, and the block shape of the log.
- `select_async.dfy` (module `SelectSaga`): `selectAsyncSaga` as a function of
  the published log and a cursor (the log length when its `take` starts).
  `None` means the saga is still suspended.
- `bridge.dfy` (module `Bridge`): the environment as the class `SagaEnv`, with
  `Dispatch` and `Commit` (the commit-phase effect, with its publishing loop)
  and the consistent-cut lemma. A ghost `dispatched` log and a ghost `flushes`
  counter carry the conservation invariant.
- `middleware.dfy` (module `EffectMiddleware`): the SELECT rewrite over an
  effect datatype, and what a rewritten SELECT resolves to.
- `wrappers.dfy`: `Option`.

The store's reducer and React's scheduling are outside the model. `Commit`
receives the committed state as a parameter. `Dispatch` receives
`storeAccepts`, which says whether the store's dispatch returned normally or
threw.

## Model

| member | source | states |
|---|---|---|
| `Messages.Publish` | src/useSaga.ts:48 | the published block has one message per queued action, and message i is `Action` of the i-th queued action |
| `Messages.ActionsPublish` | src/useSaga.ts:48 | the actions read back from a published block are exactly the queue, in order |
| `Messages.ActionsFlush` | src/useSaga.ts:45-50 | a commit's flush publishes exactly the queued actions, in queue order, with none lost and none duplicated |
| `Messages.ReadyCountFlush` | src/useSaga.ts:45-50 | a commit publishes one ready marker when the queue is non-empty and none when it is empty |
| `Messages.WellBlockedFlush` | src/useSaga.ts:45-50 | after a flush the log still ends with a ready marker (or is empty), and every ready marker closes a non-empty block of actions |
| `SelectSaga.NextReady` | src/useSaga.ts:9 | the take resolves on the first ready marker at or after the cursor; everything it skips is an action; it stays pending when no ready marker follows |
| `SelectSaga.SelectAsync` | src/useSaga.ts:5-11 | selectAsyncSaga returns the selector applied to the state of the first ready marker after it started waiting, and is suspended exactly when no such marker exists |
| `SelectSaga.NextReadyStable` | src/useSaga.ts:9 | once the take has resolved, messages published later do not change which ready marker it took |
| `SelectSaga.SelectAsyncStable` | src/useSaga.ts:9-10 | once selectAsyncSaga has a value, publishing more messages does not change it |
| `SelectSaga.NextReadyShift` | src/useSaga.ts:9 | a take started at the end of the log resolves on what is published afterwards, at the corresponding position |
| `SelectSaga.NextReadyFlush` | src/useSaga.ts:45-50 | a take started at the end of the log stays pending across a commit with an empty queue, and resolves on the ready marker right after the flushed actions otherwise |
| `SelectSaga.NextReadyMidFlush` | src/useSaga.ts:46-49 | a take registered while a flush is publishing, after any number of its actions, resolves on that flush's ready marker |
| `SelectSaga.WaitingOnlyAtEnd` | src/useSaga.ts:45-50 | in a log built by flushes, a take registered before the end of the log always has a ready marker to resolve on, so only takes registered at the end wait for a later commit |
| `SelectSaga.SelectAsyncFlush` | src/useSaga.ts:5-11 | a selectAsyncSaga started before a non-empty flush returns the selector applied to the committed state; before an empty one it stays suspended |
| `Bridge.SagaEnv.constructor` | src/useSaga.ts:20-28 | the new environment has an empty channel, the initial state and an empty queue |
| `Bridge.SagaEnv.Dispatch` | src/useSaga.ts:30-36 | a forwarded action is appended to the end of the queue; channel and state do not change; when the store's dispatch throws nothing changes |
| `Bridge.SagaEnv.Commit` | src/useSaga.ts:38-51 | the state becomes the committed state; the channel grows by the queued actions in order then one ready marker (by nothing if the queue was empty); the queue ends empty; the published actions plus the queue still equal every dispatched action; the new ready marker follows every dispatched action and is the next one a waiting saga takes |
| `Bridge.FlushIsConsistentCut` | src/useSaga.ts:42-50 | a non-empty flush puts every queued action before its ready marker, and a saga waiting at the old end of the log resolves on that marker |
| `Bridge.FlushKeepsInvariant` | src/useSaga.ts:45-50 | a flush adds exactly the queue to the log's actions, one ready marker if the queue is non-empty, and keeps the log's block shape |
| `EffectMiddleware.Rewrite` | src/useSaga.ts:67-80 | no SELECT reaches the runtime; a SELECT becomes a call of selectAsyncSaga with the same selector and arguments; every other effect passes unchanged |
| `EffectMiddleware.RunStateRead` | src/useSaga.ts:70-76 | a call of selectAsyncSaga yields exactly what selectAsyncSaga yields: the selector applied to the state of the first ready marker published after the call started, or nothing while no such marker exists; other effects yield no state read |
| `EffectMiddleware.SelectSeesNextCommit` | src/useSaga.ts:69-76 | a SELECT yielded at the end of the log starts suspended, and after the next commit with a non-empty queue resolves to the selector applied to the committed state (it stays suspended in between because dispatch leaves the channel unchanged and an empty-queue commit publishes nothing) |

## Left out

- React scheduling: when the store applies an action, and when the commit-phase effect runs. `Commit` is an explicit call with the committed state as a parameter.
- The reducer and the store's own state: the store is only the recipient of forwarded actions, recorded in the ghost `dispatched` log.
- Bridge.SagaEnv.Commit: accepts any committed state. The source assumes, without checking, that the state its commit-phase effect sees has absorbed every queued action (src/useSaga.ts:40-44), and scheduling the store's updates is React's job. When that assumption fails, the ready marker carries a state older than the actions published before it. The model proves only that the marker follows those actions in the log.
- redux-saga internals: `runSaga`, delivery of channel messages to takers, the generator interpreter, and `task.cancel()`. The channel is modelled as the log of everything published; a take is a cursor into it.
- The one-time launch of the root saga and its cancellation on unmount: lifecycle wiring over the library, with no logic of its own.
- The `getState` closure returning the first-render state: the middleware replaces every SELECT, so it is never read.
- Logging calls and the untyped `sagaOptions` spread.
- Reentrant dispatch from inside a channel put. The source replaces the queue before publishing, so such an action lands in the fresh queue; the model's `Commit` is atomic. One consequence is not prevented by the source. Suppose a saga is woken by a flushed action, dispatches, and then selects before the flush's ready marker is put. Its take is then registered inside the flush, and it resolves on that flush's marker (`NextReadyMidFlush`). That state does not include the action the saga just dispatched.
- Yielded values that are not effects. The middleware reads `effect.type` on every yielded value, so a bare `yield` or `yield null` throws a TypeError there. The `Effect` datatype has no constructor for such values, so this error path is not modelled.
- A selector that throws. The selector is a total function in the model, so the error that `selector(state, ...args)` could raise into the calling saga is not modelled.
- Ready markers are matched by their `type` string in the source, so a user action whose type were `REACT_STATE_READY` would also resolve a waiting select; the model's tagged message cannot confuse the two.
- Selector arguments are a sequence of one value type, and the effect payloads of kinds other than SELECT and CALL are a single opaque value.
