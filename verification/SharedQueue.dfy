/** The bounded producer and consumer queue.  `QueueProtocol` says what its steps mean and what follows from them. */
module SharedQueues {
  import opened Errors
  import opened QueueProtocol

  const NULL := 0

  /** How a critical section ends. */
  datatype Outcome = Waits | Done(error: Error, item: Item)

  class SharedQueue {
    const limit: nat
    var list: seq<Item>
    ghost var state: State

    ghost predicate Valid()
      reads this
    {
      list == state.items && Safe(state, limit)
    }

    constructor (limit: nat)
      ensures Valid() && state == IDLE && this.limit == limit
    {
      this.limit := limit;
      list := [];
      state := IDLE;
      new;
      assert forall c :: Places(IDLE, c) == 0;
    }

    /** The loop of `push` once round, and what follows it. */
    method TestPush(c: Client, granted: bool, ghost woken: set<Client>) returns (outcome: Outcome)
      requires list == state.items
      modifies this
      ensures list == state.items && state == PushOrWait(old(state), limit, c, granted, woken)
      ensures outcome == if limit != 0 && limit <= |old(list)| then Waits
                         else Done(if granted then Success else OutOfMemory, NULL)
      ensures Pushed(c, woken, outcome) && Slept(c, outcome)
    {
      if 0 != limit && limit <= |list| {
        state := state.(producersAsleep := state.producersAsleep + {c});
        return Waits;
      }
      if !granted {
        return Done(OutOfMemory, NULL);
      }
      list := list + [c.item];
      state := Append(state, c.item, true, woken);
      outcome := Done(Success, NULL);
    }

    /** A push that succeeds appends the item and wakes consumers; any other changes none of this. */
    twostate predicate Pushed(c: Client, woken: set<Client>, outcome: Outcome)
      reads this
    {
      && list == old(list) + (if outcome == Done(Success, NULL) then [c.item] else [])
      && state.accepted == old(state).accepted + (if outcome == Done(Success, NULL) then [c.item] else [])
      && state.delivered == old(state).delivered
      && state.consumersAsleep == old(state).consumersAsleep - (if outcome == Done(Success, NULL) then woken else {})
      && state.consumersAwake == old(state).consumersAwake + (if outcome == Done(Success, NULL) then woken else {})
    }

    /** A producer that does not wait leaves the others alone. */
    twostate predicate Slept(c: Client, outcome: Outcome)
      reads this
    {
      && state.producersAsleep == old(state).producersAsleep + (if outcome.Waits? then {c} else {})
      && state.producersAwake == old(state).producersAwake
    }

    /** The loop of `pop` once round, and what follows it. */
    method TestPop(c: Client) returns (outcome: Outcome)
      requires list == state.items
      modifies this
      ensures list == state.items && state == PopOrWait(old(state), limit, c)
      ensures Popped(outcome)
      ensures state.consumersAsleep == old(state).consumersAsleep + (if outcome.Waits? then {c} else {})
      ensures state.consumersAwake == old(state).consumersAwake
    {
      if |list| == 0 {
        state := state.(consumersAsleep := state.consumersAsleep + {c});
        return Waits;
      }
      var size, tmp := |list|, list[0];
      list := list[1..];
      state := state.(items := list, delivered := state.delivered + [tmp]);
      if limit == size {
        state := state.(producersAsleep := {}, producersAwake := state.producersAwake + state.producersAsleep);
      }
      outcome := Done(Success, tmp);
    }

    /** A pop takes the first item, if there is one, and wakes the producers if the queue was full. */
    twostate predicate Popped(outcome: Outcome)
      reads this
    {
      && outcome == (if old(list) == [] then Waits else Done(Success, old(list)[0]))
      && list == (if outcome.Waits? then old(list) else old(list)[1..])
      && state.delivered == old(state).delivered + (if outcome.Waits? then [] else [outcome.item])
      && state.accepted == old(state).accepted
      && (if outcome.Done? && |old(list)| == limit
          then state.producersAsleep == {}
               && state.producersAwake == old(state).producersAwake + old(state).producersAsleep
          else state.producersAsleep == old(state).producersAsleep && state.producersAwake == old(state).producersAwake)
    }

    method Push(c: Client, granted: bool, ghost woken: set<Client>) returns (outcome: Outcome)
      requires Valid() && Enabled(state, PushEnter(c, granted, woken))
      modifies this
      ensures Valid()
      ensures c.item == NULL ==> outcome == Done(NullPointer, NULL) && state == old(state)
      ensures c.item != NULL ==> state == Apply(old(state), limit, PushEnter(c, granted, woken))
      ensures c.item != NULL ==>
                outcome == if limit != 0 && limit <= |old(list)| then Waits
                else Done(if granted then Success else OutOfMemory, NULL)
      ensures Pushed(c, woken, outcome) && Slept(c, outcome)
    {
      if c.item == NULL {
        return Done(NullPointer, NULL);
      }
      StepSafe(state, limit, PushEnter(c, granted, woken));
      outcome := TestPush(c, granted, woken);
    }

    /** `push` when the wait is over. */
    method PushAwake(c: Client, granted: bool, ghost woken: set<Client>) returns (outcome: Outcome)
      requires Valid() && Enabled(state, PushResume(c, granted, woken))
      modifies this
      ensures Valid() && state == Apply(old(state), limit, PushResume(c, granted, woken))
      ensures outcome == if limit != 0 && limit <= |old(list)| then Waits
                         else Done(if granted then Success else OutOfMemory, NULL)
      ensures Pushed(c, woken, outcome)
      ensures state.producersAsleep == old(state).producersAsleep - {c} + (if outcome.Waits? then {c} else {})
      ensures state.producersAwake == old(state).producersAwake - {c}
    {
      StepSafe(state, limit, PushResume(c, granted, woken));
      WaiterLeaves(state, c);
      state := WithoutWaiter(state, c);
      outcome := TestPush(c, granted, woken);
    }

    method TryPush(c: Client, granted: bool, ghost woken: set<Client>) returns (error: Error)
      requires Valid() && Enabled(state, Event.TryPush(c, granted, woken))
      modifies this
      ensures Valid()
      ensures error == if c.item == NULL then NullPointer
                       else if limit != 0 && limit <= |old(list)| then Again
                       else if granted then Success
                       else OutOfMemory
      ensures state == if error == Success
                       then Apply(old(state), limit, Event.TryPush(c, granted, woken)) else old(state)
      ensures Pushed(c, woken, Done(error, NULL)) && Slept(c, Done(error, NULL))
    {
      if c.item == NULL {
        return NullPointer;
      }
      if 0 != limit && limit <= |list| {
        return Again;
      }
      StepSafe(state, limit, Event.TryPush(c, granted, woken));
      var outcome := TestPush(c, granted, woken);
      error := outcome.error;
    }

    /** `pop`: the first item, which is then the last that has been delivered. */
    method Pop(c: Client) returns (outcome: Outcome)
      requires Valid() && Enabled(state, PopEnter(c))
      modifies this
      ensures Valid() && state == Apply(old(state), limit, PopEnter(c)) && Popped(outcome)
      ensures state.consumersAsleep == old(state).consumersAsleep + (if outcome.Waits? then {c} else {})
      ensures state.consumersAwake == old(state).consumersAwake
    {
      StepSafe(state, limit, PopEnter(c));
      outcome := TestPop(c);
    }

    /** `pop` when the wait is over. */
    method PopAwake(c: Client) returns (outcome: Outcome)
      requires Valid() && Enabled(state, PopResume(c))
      modifies this
      ensures Valid() && state == Apply(old(state), limit, PopResume(c)) && Popped(outcome)
      ensures state.consumersAsleep == old(state).consumersAsleep - {c} + (if outcome.Waits? then {c} else {})
      ensures state.consumersAwake == old(state).consumersAwake - {c}
    {
      StepSafe(state, limit, PopResume(c));
      WaiterLeaves(state, c);
      state := WithoutWaiter(state, c);
      outcome := TestPop(c);
    }

    method TryPop(c: Client) returns (error: Error, item: Item)
      requires Valid() && Enabled(state, Event.TryPop(c))
      modifies this
      ensures Valid() && state == Apply(old(state), limit, Event.TryPop(c))
      ensures error == if old(list) == [] then Again else Success
      ensures Popped(if error == Success then Done(Success, item) else Waits)
      ensures state.consumersAsleep == old(state).consumersAsleep && state.consumersAwake == old(state).consumersAwake
    {
      if 0 == |list| {
        return Again, NULL;
      }
      StepSafe(state, limit, Event.TryPop(c));
      var outcome := TestPop(c);
      error, item := outcome.error, outcome.item;
    }

    /** `clear`: it never wakes anybody, and leaves the queue in order exactly if no producer sleeps. */
    method Clear()
      requires Valid()
      modifies this
      ensures list == state.items == [] && state == Cleared(old(state), limit)
      ensures state.accepted == state.delivered == old(state).delivered
      ensures state.producersAsleep == old(state).producersAsleep && state.producersAwake == old(state).producersAwake
      ensures state.consumersAsleep == old(state).consumersAsleep && state.consumersAwake == old(state).consumersAwake
      ensures NoneForgotten(state, limit) <==> old(state).producersAsleep == {}
      ensures limit == 0 || |old(list)| < limit ==> NoneForgotten(state, limit)
    {
      ClearForgets(state, limit);
      var size := |list|;
      list := [];
      state := Cleared(state, limit);
    }

    method Size() returns (size: nat)
      requires Valid()
      ensures size == |state.accepted| - |state.delivered|
    {
      size := |list|;
    }
  }
}
