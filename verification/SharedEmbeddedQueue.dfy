/** The queue that can be stopped.  `StoppableQueueProtocol` says what its steps mean and what follows from them. */
module SharedEmbeddedQueues {
  import opened Errors
  import opened StoppableQueueProtocol

  /** How a critical section of `pop` ends. */
  datatype Outcome = Waits | Popped(element: Element) | Failed(error: Error)

  class SharedEmbeddedQueue {
    var isStopped: bool
    var list: seq<Element>
    ghost var state: State

    ghost predicate Valid()
      reads this
    {
      list == state.items && isStopped == state.stopped && Safe(state)
    }

    constructor ()
      ensures Valid() && state == IDLE
    {
      isStopped, list := false, [];
      state := IDLE;
    }

    /** `push`, up to the signal: the element is in the queue exactly if the call succeeds. */
    method Push(element: Element) returns (error: Error)
      requires Valid()
      modifies this
      ensures Valid() && state == Apply(old(state), Event.Push(element))
      ensures error == if old(isStopped) then Shutdown else Success
      ensures state.accepted == if error == Success then old(state).accepted + [element] else old(state).accepted
      ensures list == if error == Success then old(list) + [element] else old(list)
      ensures state.signals == old(state).signals + (if error == Success then 1 else 0)
      ensures state.delivered == old(state).delivered && isStopped == old(isStopped)
    {
      StepSafe(state, Event.Push(element));
      if isStopped {
        return Shutdown;
      }
      list := list + [element];
      state := Apply(state, Event.Push(element));
      error := Success;
    }

    /** A pop fails after a stop, and otherwise takes the first element, or waits if there is none. */
    twostate predicate Served(outcome: Outcome)
      reads this
    {
      && outcome == (if old(isStopped) then Failed(Shutdown)
                     else if old(list) != [] then Popped(old(list)[0])
                     else Waits)
      && list == (if outcome.Popped? then old(list)[1..] else old(list)) && isStopped == old(isStopped)
      && state.delivered == old(state).delivered + (if outcome.Popped? then [outcome.element] else [])
      && state.accepted == old(state).accepted && state.cleared == old(state).cleared
    }

    /** The loop of `pop` once round. */
    method TestPop(c: Client) returns (outcome: Outcome)
      requires list == state.items && isStopped == state.stopped
      modifies this
      ensures list == state.items && isStopped == state.stopped && state == PopOrWait(old(state), c)
      ensures Served(outcome) && state.asleep == old(state).asleep + (if outcome.Waits? then {c} else {})
      ensures state.awake == old(state).awake
    {
      if isStopped {
        return Failed(Shutdown);
      }
      if |list| > 0 {
        outcome := Popped(list[0]);
        list := list[1..];
        state := state.(items := list, delivered := state.delivered + [outcome.element]);
        return;
      }
      state := state.(asleep := state.asleep + {c});
      outcome := Waits;
    }

    method Pop(c: Client) returns (outcome: Outcome)
      requires Valid() && Enabled(state, PopEnter(c))
      modifies this
      ensures Valid() && state == Apply(old(state), PopEnter(c)) && Served(outcome)
      ensures state.asleep == old(state).asleep + (if outcome.Waits? then {c} else {})
      ensures state.awake == old(state).awake
    {
      StepSafe(state, PopEnter(c));
      outcome := TestPop(c);
    }

    /** `pop` when the wait is over. */
    method PopAwake(c: Client) returns (outcome: Outcome)
      requires Valid() && Enabled(state, PopResume(c))
      modifies this
      ensures Valid() && state == Apply(old(state), PopResume(c)) && Served(outcome)
      ensures state.asleep == old(state).asleep - {c} + (if outcome.Waits? then {c} else {})
      ensures state.awake == old(state).awake - {c}
    {
      StepSafe(state, PopResume(c));
      state := WithoutWaiter(state, c);
      outcome := TestPop(c);
    }

    /** `stop`, up to the broadcast. */
    method Stop()
      requires Valid()
      modifies this
      ensures Valid() && isStopped && state == Apply(old(state), Event.Stop) && list == []
      ensures state.cleared == old(state).cleared + old(list) && state.broadcasts == old(state).broadcasts + 1
      ensures state.accepted == old(state).accepted && state.delivered == old(state).delivered
      ensures state.asleep == old(state).asleep && state.awake == old(state).awake
    {
      StepSafe(state, Event.Stop);
      isStopped := true;
      list := [];
      state := Apply(state, Event.Stop);
    }
  }
}
