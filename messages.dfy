/**
 * The messages the bridge publishes on the saga channel, and the log of
 * everything published so far. The channel is append-only: a published
 * message is never taken back, so its whole history is a sequence.
 */
module Messages {

  /** A channel message: a flushed action, or the REACT_STATE_READY marker carrying the committed state. */
  datatype Msg<A, S> = Action(action: A) | StateReady(state: S)

  /** The actions of a log, in publication order. */
  function Actions<A, S>(log: seq<Msg<A, S>>): (r: seq<A>)
  {
    if log == [] then []
    else (if log[0].Action? then [log[0].action] else []) + Actions(log[1..])
  }

  /** The number of ready markers in a log. */
  function ReadyCount<A, S>(log: seq<Msg<A, S>>): (n: nat)
    ensures n + |Actions(log)| == |log|
  {
    if log == [] then 0
    else (if log[0].StateReady? then 1 else 0) + ReadyCount(log[1..])
  }

  /** One Action message per queued action, in queue order. */
  function Publish<A, S>(queue: seq<A>): (r: seq<Msg<A, S>>)
    ensures |r| == |queue|
    ensures forall i :: 0 <= i < |queue| ==> r[i] == Action(queue[i])
  {
    if queue == [] then [] else [Action(queue[0])] + Publish(queue[1..])
  }

  /**
   * What one commit publishes: nothing when the queue is empty, otherwise
   * every queued action in order followed by exactly one ready marker.
   */
  function FlushMessages<A, S>(queue: seq<A>, committed: S): (r: seq<Msg<A, S>>)
  {
    if queue == [] then [] else Publish(queue) + [StateReady(committed)]
  }

  /**
   * The shape every published log has: it is empty or ends with a ready
   * marker, and every ready marker closes a non-empty block of actions.
   */
  ghost predicate WellBlocked<A, S>(log: seq<Msg<A, S>>)
  {
    && (|log| > 0 ==> log[|log| - 1].StateReady?)
    && forall i :: 0 <= i < |log| && log[i].StateReady? ==> 0 < i && log[i - 1].Action?
  }

  lemma {:induction false} ActionsAppend<A, S>(a: seq<Msg<A, S>>, b: seq<Msg<A, S>>)
    ensures Actions(a + b) == Actions(a) + Actions(b)
  {
    if a == [] {
      assert a + b == b;
    } else {
      var head: seq<A> := if a[0].Action? then [a[0].action] else [];
      assert (a + b)[0] == a[0];
      assert (a + b)[1..] == a[1..] + b;
      ActionsAppend(a[1..], b);
      assert Actions(a + b) == head + Actions(a[1..] + b);
    }
  }

  lemma {:induction false} ReadyCountAppend<A, S>(a: seq<Msg<A, S>>, b: seq<Msg<A, S>>)
    ensures ReadyCount(a + b) == ReadyCount(a) + ReadyCount(b)
  {
    if a == [] {
      assert a + b == b;
    } else {
      assert (a + b)[1..] == a[1..] + b;
      ReadyCountAppend(a[1..], b);
    }
  }

  /** Publishing a queue and extracting its actions gives the queue back: nothing lost, nothing duplicated, same order. */
  lemma {:induction false} ActionsPublish<A, S>(queue: seq<A>)
    ensures Actions(Publish<A, S>(queue)) == queue
  {
    if queue != [] {
      var p := Publish<A, S>(queue);
      assert p[1..] == Publish<A, S>(queue[1..]);
      ActionsPublish<A, S>(queue[1..]);
    }
  }

  /** A flush carries exactly the queued actions, in order. */
  lemma ActionsFlush<A, S>(queue: seq<A>, committed: S)
    ensures Actions(FlushMessages(queue, committed)) == queue
  {
    if queue != [] {
      ActionsAppend(Publish<A, S>(queue), [StateReady(committed)]);
      ActionsPublish<A, S>(queue);
    }
  }

  /** A flush carries one ready marker when the queue is non-empty and none otherwise. */
  lemma ReadyCountFlush<A, S>(queue: seq<A>, committed: S)
    ensures ReadyCount(FlushMessages(queue, committed)) == if queue == [] then 0 else 1
  {
    if queue != [] {
      ReadyCountAppend(Publish<A, S>(queue), [StateReady(committed)]);
      ActionsPublish<A, S>(queue);
    }
  }

  /** Appending a flush keeps the log made of action blocks each closed by one ready marker. */
  lemma WellBlockedFlush<A, S>(log: seq<Msg<A, S>>, queue: seq<A>, committed: S)
    requires WellBlocked(log)
    ensures WellBlocked(log + FlushMessages(queue, committed))
  {
  }
}
