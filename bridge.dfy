/**
 * The saga environment of useReducerAndSaga: a record, kept across
 * renders, that holds the saga channel, the last committed state and the
 * actions dispatched since the last commit. dispatch hands an action to the
 * reducer store and queues it; the commit-phase effect records the
 * committed state and, when anything is queued, publishes the queue on the
 * channel followed by one ready marker.
 */
module Bridge {
  import opened Wrappers
  import opened Messages
  import opened SelectSaga

  class SagaEnv<A, S> {
    /** Everything published on the saga channel so far, in publication order. */
    var channel: seq<Msg<A, S>>
    /** The last committed state. */
    var state: S
    /** Actions forwarded to the store and not yet published, oldest first. */
    var pendingActions: seq<A>

    /** Every action the store accepted from dispatch, in dispatch order (the store's reducer itself is not modelled). */
    ghost var dispatched: seq<A>
    /** The number of commits that found a non-empty queue. */
    ghost var flushes: nat

    /**
     * Nothing dispatched is lost or duplicated: the published actions
     * followed by the queue are exactly the dispatched ones. Each flush left
     * one ready marker, closing its block of actions.
     */
    ghost predicate Valid()
      reads this
    {
      && Actions(channel) + pendingActions == dispatched
      && ReadyCount(channel) == flushes
      && WellBlocked(channel)
    }

    /** The environment created on first render: an empty channel, the initial state, nothing pending. */
    constructor (state0: S)
      ensures Valid()
      ensures channel == [] && state == state0 && pendingActions == []
      ensures dispatched == [] && flushes == 0
    {
      channel := [];
      state := state0;
      pendingActions := [];
      dispatched := [];
      flushes := 0;
    }

    /**
     * dispatch: forward the action to the store, then queue it for the next
     * commit. storeAccepts says whether the store's dispatch returned
     * normally; when it throws, the exception leaves dispatch before the
     * action is queued, and nothing changes.
     */
    method Dispatch(action: A, storeAccepts: bool) returns (ok: bool)
      requires Valid()
      modifies this
      ensures Valid()
      ensures ok == storeAccepts
      ensures pendingActions == if ok then old(pendingActions) + [action] else old(pendingActions)
      ensures dispatched == if ok then old(dispatched) + [action] else old(dispatched)
      ensures channel == old(channel) && state == old(state) && flushes == old(flushes)
    {
      if !storeAccepts {
        return false;
      }
      dispatched := dispatched + [action];
      pendingActions := pendingActions + [action];
      ok := true;
    }

    /**
     * The commit-phase effect: record the committed state; if actions are
     * pending, detach the queue, publish each queued action in order, then
     * one ready marker carrying the committed state.
     */
    method Commit(committed: S)
      requires Valid()
      modifies this
      ensures Valid()
      ensures state == committed && pendingActions == []
      ensures channel == old(channel) + FlushMessages(old(pendingActions), committed)
      ensures dispatched == old(dispatched)
      ensures flushes == old(flushes) + if old(pendingActions) == [] then 0 else 1
      // The ready marker published by a non-empty flush is the next one any
      // waiting saga sees, and it follows every action dispatched so far.
      ensures old(pendingActions) != [] ==>
                && NextReady(channel, |old(channel)|) == Some(|channel| - 1)
                && channel[|channel| - 1] == StateReady(committed)
                && Actions(channel[..|channel| - 1]) == dispatched
    {
      ghost var log := channel;
      state := committed;
      var pending := pendingActions;
      if |pending| > 0 {
        pendingActions := [];
        var i := 0;
        while i < |pending|
          invariant 0 <= i <= |pending|
          invariant channel == log + Publish(pending[..i])
          invariant pendingActions == [] && state == committed
          invariant dispatched == old(dispatched) && flushes == old(flushes)
        {
          channel := channel + [Action(pending[i])];
          i := i + 1;
        }
        assert pending[..i] == pending;
        channel := channel + [StateReady(committed)];
        flushes := flushes + 1;
        assert channel == log + FlushMessages(pending, committed);
        FlushIsConsistentCut(log, pending, committed);
      }
      FlushKeepsInvariant(log, pending, committed);
    }
  }

  /**
   * A non-empty flush is a consistent cut of the dispatch stream: after it
   * the log holds its old actions followed by the whole queue, the ready
   * marker comes after every one of them, and a saga waiting at the old end
   * of the log resolves on that marker.
   */
  lemma FlushIsConsistentCut<A, S>(log: seq<Msg<A, S>>, queue: seq<A>, committed: S)
    requires queue != []
    ensures var out := log + FlushMessages(queue, committed);
            && NextReady(out, |log|) == Some(|out| - 1)
            && out[|out| - 1] == StateReady(committed)
            && Actions(out[..|out| - 1]) == Actions(log) + queue
  {
    var published := Publish<A, S>(queue);
    var out := log + FlushMessages(queue, committed);
    assert out == (log + published) + [StateReady(committed)];
    assert out[..|out| - 1] == log + published;
    calc {
      Actions(log + published);
      { ActionsAppend(log, published); }
      Actions(log) + Actions(published);
      { ActionsPublish<A, S>(queue); }
      Actions(log) + queue;
    }
    NextReadyFlush(log, queue, committed);
  }

  /** Appending a flush keeps the published log well formed, adds the queue to its actions and one ready marker when the queue is non-empty. */
  lemma FlushKeepsInvariant<A, S>(log: seq<Msg<A, S>>, queue: seq<A>, committed: S)
    requires WellBlocked(log)
    ensures var out := log + FlushMessages(queue, committed);
            && WellBlocked(out)
            && Actions(out) == Actions(log) + queue
            && ReadyCount(out) == ReadyCount(log) + if queue == [] then 0 else 1
  {
    ActionsAppend(log, FlushMessages(queue, committed));
    ActionsFlush(queue, committed);
    ReadyCountAppend(log, FlushMessages(queue, committed));
    ReadyCountFlush(queue, committed);
    WellBlockedFlush(log, queue, committed);
  }

  /**
   * Two increments dispatched before a commit of count 2 are published in
   * order, followed by one ready marker, and a select of the count issued
   * before the commit resolves to 2.
   */
  method TwoIncrementsScenario()
  {
    var env := new SagaEnv<string, int>(0);
    var ok := env.Dispatch("inc", true);
    ok := env.Dispatch("inc", true);
    assert env.pendingActions == ["inc", "inc"];
    var cursor := |env.channel|;
    env.Commit(2);
    assert env.channel == [Action("inc"), Action("inc"), StateReady(2)];
    var count: Selector<int, int> := (s, args) => s;
    SelectAsyncFlush([], ["inc", "inc"], 2, count, []);
    assert SelectAsync(env.channel, cursor, count, []) == Some(2);
  }
}
