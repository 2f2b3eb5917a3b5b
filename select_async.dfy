/**
 * selectAsyncSaga: a saga that takes the next REACT_STATE_READY message
 * published after it starts waiting and returns the selector applied to
 * the state that message carries. The wait is a take on the channel, so it
 * only sees messages published after the take was registered: the cursor
 * is the length of the log at that moment.
 */
module SelectSaga {
  import opened Wrappers
  import opened Messages

  /** A selector: the state and the extra arguments given to the SELECT effect. */
  type Selector<!S, !V> = (S, seq<V>) -> V

  /** The index of the first ready marker at or after the cursor; None when the take has nothing to resolve on yet. */
  function NextReady<A, S>(log: seq<Msg<A, S>>, cursor: nat): (r: Option<nat>)
    ensures r.Some? ==> cursor <= r.value < |log| && log[r.value].StateReady?
    ensures r.Some? ==> forall j :: cursor <= j < r.value ==> log[j].Action?
    ensures r.None? ==> forall j :: cursor <= j < |log| ==> log[j].Action?
    decreases |log| - cursor
  {
    if cursor >= |log| then None
    else if log[cursor].StateReady? then Some(cursor)
    else NextReady(log, cursor + 1)
  }

  /**
   * The value the saga returns: the selector applied to the state of the
   * first ready marker at or after the cursor, or None when the saga is
   * still suspended.
   */
  function SelectAsync<A, S, V>(log: seq<Msg<A, S>>, cursor: nat, selector: Selector<S, V>, args: seq<V>): (r: Option<V>)
    ensures r.None? <==> forall j :: cursor <= j < |log| ==> log[j].Action?
    ensures r.Some? ==> exists i :: cursor <= i < |log| && log[i].StateReady?
                                    && (forall j :: cursor <= j < i ==> log[j].Action?)
                                    && r.value == selector(log[i].state, args)
  {
    match NextReady(log, cursor)
    case None => None
    case Some(i) => Some(selector(log[i].state, args))
  }

  /** Once the saga has resolved, publishing more messages does not change what it returned. */
  lemma {:induction false} NextReadyStable<A, S>(log: seq<Msg<A, S>>, more: seq<Msg<A, S>>, cursor: nat)
    requires NextReady(log, cursor).Some?
    ensures NextReady(log + more, cursor) == NextReady(log, cursor)
    decreases |log| - cursor
  {
    assert (log + more)[cursor] == log[cursor];
    if !log[cursor].StateReady? {
      NextReadyStable(log, more, cursor + 1);
    }
  }

  lemma SelectAsyncStable<A, S, V>(log: seq<Msg<A, S>>, more: seq<Msg<A, S>>, cursor: nat, selector: Selector<S, V>, args: seq<V>)
    requires SelectAsync(log, cursor, selector, args).Some?
    ensures SelectAsync(log + more, cursor, selector, args) == SelectAsync(log, cursor, selector, args)
  {
    NextReadyStable(log, more, cursor);
    assert (log + more)[NextReady(log, cursor).value] == log[NextReady(log, cursor).value];
  }

  /** A saga waiting at the end of a log resolves on what is published next, as if that were the whole log. */
  lemma {:induction false} NextReadyShift<A, S>(log: seq<Msg<A, S>>, more: seq<Msg<A, S>>, k: nat)
    ensures NextReady(log + more, |log| + k) ==
              match NextReady(more, k)
              case None => None
              case Some(i) => Some(|log| + i)
    decreases |more| - k
  {
    if k < |more| {
      assert (log + more)[|log| + k] == more[k];
      if !more[k].StateReady? {
        NextReadyShift(log, more, k + 1);
      }
    }
  }

  /**
   * A saga that starts waiting at the end of the log and then sees one
   * commit: it stays suspended when the commit had nothing queued, and
   * otherwise resolves on that commit's ready marker, after every queued action.
   */
  lemma NextReadyFlush<A, S>(log: seq<Msg<A, S>>, queue: seq<A>, committed: S)
    ensures NextReady(log + FlushMessages(queue, committed), |log|) ==
              if queue == [] then None else Some(|log| + |queue|)
  {
    var flush := FlushMessages(queue, committed);
    NextReadyShift(log, flush, 0);
    if queue != [] {
      assert flush[|queue|] == StateReady(committed);
    }
  }

  /** The causal guarantee: waiting at the end of the log, the saga sees the state committed by the next non-empty flush. */
  lemma SelectAsyncFlush<A, S, V>(log: seq<Msg<A, S>>, queue: seq<A>, committed: S, selector: Selector<S, V>, args: seq<V>)
    ensures SelectAsync(log + FlushMessages(queue, committed), |log|, selector, args) ==
              if queue == [] then None else Some(selector(committed, args))
  {
    NextReadyFlush(log, queue, committed);
    if queue != [] {
      assert (log + FlushMessages(queue, committed))[|log| + |queue|] == StateReady(committed);
    }
  }

  /**
   * A take registered while a flush is publishing (after k of its actions,
   * for instance by a saga woken by one of them) resolves on that flush's
   * ready marker, not on a later one.
   */
  lemma NextReadyMidFlush<A, S>(log: seq<Msg<A, S>>, queue: seq<A>, committed: S, k: nat)
    requires k <= |queue|
    ensures NextReady(log + FlushMessages(queue, committed), |log| + k) ==
              if queue == [] then None else Some(|log| + |queue|)
  {
    var flush := FlushMessages(queue, committed);
    NextReadyShift(log, flush, k);
    if queue != [] {
      assert flush[|queue|] == StateReady(committed);
    }
  }

  /** In a well-formed log a take registered before the end always has a ready marker to resolve on: only takes at the end wait. */
  lemma WaitingOnlyAtEnd<A, S>(log: seq<Msg<A, S>>, cursor: nat)
    requires WellBlocked(log) && cursor < |log|
    ensures NextReady(log, cursor).Some?
  {
  }

}
