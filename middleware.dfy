/**
 * The effect middleware installed by useReducerAndSaga: every SELECT effect
 * a saga yields is replaced by a call of selectAsyncSaga with the same
 * selector and arguments, so that state reads wait for the next committed
 * state instead of reading the state of the first render. Every other
 * effect is handed to the saga runtime unchanged.
 */
module EffectMiddleware {
  import opened Wrappers
  import opened Messages
  import opened SelectSaga

  /** The kinds of redux-saga effects other than SELECT and CALL, which are kept apart below. */
  datatype EffectKind =
    | Take | Put | All | Race | Cps | Fork | Join | Cancel
    | ActionChannel | Cancelled | Flush | GetContext | SetContext

  /** The function a CALL effect invokes: the bridge's selectAsyncSaga over a selector, or some other function named by the saga. */
  datatype Callee<!S, !V> = SelectAsyncSaga(selector: Selector<S, V>) | Named(name: string)

  datatype Effect<!S, !V> =
    | Select(selector: Selector<S, V>, args: seq<V>)
    | Call(callee: Callee<S, V>, args: seq<V>)
    | Other(kind: EffectKind, payload: V)

  /** The effect the middleware passes on to the runtime in place of the one the saga yielded. */
  function Rewrite<S, V>(effect: Effect<S, V>): (r: Effect<S, V>)
    ensures !r.Select?
    ensures effect.Select? ==> r == Call(SelectAsyncSaga(effect.selector), effect.args)
    ensures !effect.Select? ==> r == effect
  {
    if effect.Select? then Call(SelectAsyncSaga(effect.selector), effect.args) else effect
  }

  /**
   * What the runtime produces for a call of selectAsyncSaga started when
   * the log has a given length: the selector at the next ready state, or
   * None while the call is suspended. Other effects are the runtime's own
   * business and have no value here.
   */
  function RunStateRead<A, S, V>(effect: Effect<S, V>, log: seq<Msg<A, S>>, cursor: nat): (r: Option<V>)
    ensures !(effect.Call? && effect.callee.SelectAsyncSaga?) ==> r.None?
    // A corollary of the next clause and SelectAsync's contract, stated for readers.
    ensures effect.Call? && effect.callee.SelectAsyncSaga? && r.Some? ==>
              exists i :: cursor <= i < |log| && log[i].StateReady?
                          && r.value == effect.callee.selector(log[i].state, effect.args)
    ensures effect.Call? && effect.callee.SelectAsyncSaga? ==>
              r == SelectAsync(log, cursor, effect.callee.selector, effect.args)
  {
    match effect
    case Call(SelectAsyncSaga(selector), args) => SelectAsync(log, cursor, selector, args)
    case _ => None
  }

  /**
   * A SELECT yielded at the end of the log resolves, once the next commit
   * flushes a non-empty queue, to the selector applied to the committed
   * state. The first clause only records that the call starts suspended;
   * that it stays suspended until the commit rests on Dispatch leaving the
   * channel unchanged and on an empty-queue commit publishing nothing.
   */
  lemma SelectSeesNextCommit<A, S, V>(effect: Effect<S, V>, log: seq<Msg<A, S>>, queue: seq<A>, committed: S)
    requires effect.Select?
    ensures RunStateRead(Rewrite(effect), log, |log|).None?
    ensures RunStateRead(Rewrite(effect), log + FlushMessages(queue, committed), |log|) ==
              if queue == [] then None else Some(effect.selector(committed, effect.args))
  {
    SelectAsyncFlush(log, queue, committed, effect.selector, effect.args);
  }
}
