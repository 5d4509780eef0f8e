/** The counters of the reader/writer lock.  `LockProtocol` says what they stand for and what follows from it. */
module ReadWriteLocks {
  import opened Errors
  import opened Sums
  import opened LockProtocol

  class ReadWriteLock {
    var readersActive: int
    var readersWaiting: int
    var writersActive: int
    var writersWaiting: int
    ghost var state: State

    ghost predicate Counted()
      reads this
    {
      && readersActive == |state.reading| && writersActive == |state.writing|
      && readersWaiting == |state.readAsleep| + |state.readAwake|
      && writersWaiting == |state.writeAsleep| + |state.writeAwake|
    }

    ghost predicate Valid()
      reads this
    {
      Counted() && Safe(state)
    }

    constructor ()
      ensures Valid() && state == IDLE
    {
      readersActive, readersWaiting, writersActive, writersWaiting := 0, 0, 0, 0;
      state := IDLE;
    }

    /** How much each counter has changed. */
    twostate predicate Changed(readersBy: int, readersWaitingBy: int, writersBy: int, writersWaitingBy: int)
      reads this
    {
      && readersActive == old(readersActive) + readersBy && readersWaiting == old(readersWaiting) + readersWaitingBy
      && writersActive == old(writersActive) + writersBy && writersWaiting == old(writersWaiting) + writersWaitingBy
    }

    /** There are never two writers, or a writer and a reader. */
    lemma Excluded()
      requires Valid()
      ensures writersActive <= 1 && (writersActive == 1 ==> readersActive == 0)
    {
      AtMostOne(state);
    }

    /** The loop of `writeAcquire` once round, up to the wait. */
    method TestWrite(c: Client) returns (acquired: bool)
      requires Counted() && c !in state.writing && c !in state.writeAsleep && |state.writing| <= 1
      modifies this
      ensures Counted() && state == TryWrite(old(state), c) && acquired == (old(state).Holding() == {})
    {
      if 0 < writersActive || 0 < readersActive {
        writersWaiting := writersWaiting + 1;
        acquired := false;
      } else {
        writersActive := 1;
        acquired := true;
      }
      CardAdd(state.writeAsleep, c);
      CardAdd(state.writing, c);
      state := TryWrite(state, c);
    }

    lemma NoWriters(s: State)
      ensures s.Writers() == {} <==> |s.writeAsleep| + |s.writeAwake| == 0
    {
      if |s.writeAsleep| + |s.writeAwake| == 0 {
        assert s.writeAsleep == {} && s.writeAwake == {};
      } else {
        assert s.writeAsleep <= s.Writers() && s.writeAwake <= s.Writers();
      }
    }

    /** The loop of `readAcquire` once round, up to the wait. */
    method TestRead(c: Client) returns (acquired: bool)
      requires Counted() && c !in state.reading && c !in state.readAsleep
      modifies this
      ensures Counted() && state == TryRead(old(state), c)
      ensures acquired == (old(state).writing == {} && old(state).Writers() == {})
    {
      NoWriters(state);
      if 0 < writersActive || 0 < writersWaiting {
        CardAdd(state.readAsleep, c);
        readersWaiting := readersWaiting + 1;
        acquired := false;
      } else {
        CardAdd(state.reading, c);
        readersActive := readersActive + 1;
        acquired := true;
      }
      state := TryRead(state, c);
    }

    /** `writeAcquire` from the start. */
    method WriteAcquire(c: Client) returns (acquired: bool)
      requires Valid() && Enabled(state, WriteEnter(c))
      modifies this
      ensures Valid() && state == Apply(old(state), WriteEnter(c)) && acquired == (c in state.writing)
      ensures acquired == (old(writersActive) == 0 && old(readersActive) == 0)
      ensures if acquired then Changed(0, 0, 1, 0) else Changed(0, 0, 0, 1)
      ensures state == if acquired then old(state).(writing := {c})
                       else old(state).(writeAsleep := old(state).writeAsleep + {c})
    {
      StepSafe(state, WriteEnter(c));
      AtMostOne(state);
      acquired := TestWrite(c);
    }

    /** `writeAcquire` when the wait is over. */
    method WriteAwake(c: Client) returns (acquired: bool)
      requires Valid() && Enabled(state, WriteResume(c))
      modifies this
      ensures Valid() && state == Apply(old(state), WriteResume(c)) && acquired == (c in state.writing)
      ensures acquired == (old(writersActive) == 0 && old(readersActive) == 0)
      ensures if acquired then Changed(0, 0, 1, -1) else Changed(0, 0, 0, 0)
      ensures var s := old(state).(writeAsleep := old(state).writeAsleep - {c},
                       writeAwake := old(state).writeAwake - {c});
              state == if acquired then s.(writing := {c}) else s.(writeAsleep := s.writeAsleep + {c})
    {
      StepSafe(state, WriteResume(c));
      AtMostOne(state);
      LeaveCounts(state, c);
      WaiterLeaves(state, c);
      acquired := StopWriteWait(c);
    }

    method StopWriteWait(c: Client) returns (acquired: bool)
      requires c !in state.writing && |state.writing| <= 1
      requires writersWaiting == |WithoutWaiter(state, c).writeAsleep| + |WithoutWaiter(state, c).writeAwake| + 1
      requires readersWaiting == |WithoutWaiter(state, c).readAsleep| + |WithoutWaiter(state, c).readAwake|
      requires readersActive == |state.reading| && writersActive == |state.writing|
      modifies this
      ensures Counted() && state == TryWrite(WithoutWaiter(old(state), c), c)
      ensures acquired == (old(state).Holding() == {})
    {
      writersWaiting := writersWaiting - 1;
      state := WithoutWaiter(state, c);
      acquired := TestWrite(c);
    }

    /** `readAcquire` from the start: nobody gets in while a writer holds the lock or waits for it. */
    method ReadAcquire(c: Client) returns (acquired: bool)
      requires Valid() && Enabled(state, ReadEnter(c))
      modifies this
      ensures Valid() && state == Apply(old(state), ReadEnter(c)) && acquired == (c in state.reading)
      ensures acquired == (old(writersActive) == 0 && old(writersWaiting) == 0)
      ensures if acquired then Changed(1, 0, 0, 0) else Changed(0, 1, 0, 0)
      ensures state == if acquired then old(state).(reading := old(state).reading + {c})
                       else old(state).(readAsleep := old(state).readAsleep + {c})
    {
      StepSafe(state, ReadEnter(c));
      acquired := TestRead(c);
    }

    /** `readAcquire` when the wait is over. */
    method ReadAwake(c: Client) returns (acquired: bool)
      requires Valid() && Enabled(state, ReadResume(c))
      modifies this
      ensures Valid() && state == Apply(old(state), ReadResume(c)) && acquired == (c in state.reading)
      ensures acquired == (old(writersActive) == 0 && old(writersWaiting) == 0)
      ensures if acquired then Changed(1, -1, 0, 0) else Changed(0, 0, 0, 0)
      ensures var s := old(state).(readAsleep := old(state).readAsleep - {c}, readAwake := old(state).readAwake - {c});
              state == if acquired then s.(reading := s.reading + {c}) else s.(readAsleep := s.readAsleep + {c})
    {
      StepSafe(state, ReadResume(c));
      LeaveCounts(state, c);
      WaiterLeaves(state, c);
      acquired := StopReadWait(c);
    }

    method StopReadWait(c: Client) returns (acquired: bool)
      requires c !in state.reading
      requires writersWaiting == |WithoutWaiter(state, c).writeAsleep| + |WithoutWaiter(state, c).writeAwake|
      requires readersWaiting == |WithoutWaiter(state, c).readAsleep| + |WithoutWaiter(state, c).readAwake| + 1
      requires readersActive == |state.reading| && writersActive == |state.writing|
      modifies this
      ensures Counted() && state == TryRead(WithoutWaiter(old(state), c), c)
      ensures acquired == (c in state.reading) && (acquired ==> old(writersActive) == 0 && old(writersWaiting) == 0)
    {
      readersWaiting := readersWaiting - 1;
      state := WithoutWaiter(state, c);
      acquired := TestRead(c);
    }

    method WriteAttempt(c: Client) returns (error: Error)
      requires Valid() && Enabled(state, Event.WriteAttempt(c))
      modifies this
      ensures Valid() && state == Apply(old(state), Event.WriteAttempt(c))
      ensures error == if old(writersActive) == 0 && old(readersActive) == 0 then Success else Again
      ensures if error == Success then Changed(0, 0, 1, 0) else Changed(0, 0, 0, 0)
      ensures state == if error == Success then old(state).(writing := {c}) else old(state)
    {
      StepSafe(state, Event.WriteAttempt(c));
      if 0 < writersActive || 0 < readersActive {
        return Again;
      }
      writersActive := 1;
      state := Apply(state, Event.WriteAttempt(c));
      error := Success;
    }

    /** Unlike `readAcquire`, this overtakes waiting writers. */
    method ReadAttempt(c: Client) returns (error: Error)
      requires Valid() && Enabled(state, Event.ReadAttempt(c))
      modifies this
      ensures Valid() && state == Apply(old(state), Event.ReadAttempt(c))
      ensures error == if old(writersActive) == 0 then Success else Again
      ensures if error == Success then Changed(1, 0, 0, 0) else Changed(0, 0, 0, 0)
      ensures state == if error == Success then old(state).(reading := old(state).reading + {c}) else old(state)
    {
      StepSafe(state, Event.ReadAttempt(c));
      if 0 < writersActive {
        return Again;
      }
      CardAdd(state.reading, c);
      readersActive := readersActive + 1;
      state := Apply(state, Event.ReadAttempt(c));
      error := Success;
    }

    /** These waiting writers have been woken, and nobody else. */
    twostate predicate Signalled(woken: set<Client>)
      reads this
    {
      && state.writeAsleep == old(state).writeAsleep - woken && state.writeAwake == old(state).writeAwake + woken
      && state.readAsleep == old(state).readAsleep && state.readAwake == old(state).readAwake
    }

    /** `woken` are the waiting writers that the signal, if there is one, will wake. */
    method WriteRelease(c: Client, ghost woken: set<Client>) returns (error: Error)
      requires Valid() && (state.writing != {} ==> Enabled(state, Event.WriteRelease(c, woken)))
      modifies this
      ensures Valid() && error == if old(writersActive) != 1 then InvalidState else Success
      ensures state == if error == Success then Apply(old(state), Event.WriteRelease(c, woken)) else old(state)
      ensures if error == Success then Changed(0, 0, -1, 0) else Changed(0, 0, 0, 0)
      ensures error == Success ==> state.writing == {} && state.reading == {}
      ensures error == Success && old(writersWaiting) > 0 ==> Signalled(woken)
      ensures error == Success && old(writersWaiting) == 0 ==>
                state.readAsleep == {} && state.readAwake == old(state).readAwake + old(state).readAsleep
    {
      AtMostOne(state);
      if 1 != writersActive {
        return InvalidState;
      }
      StepSafe(state, Event.WriteRelease(c, woken));
      CardDrop(state.writing, c);
      writersActive := 0;
      if 0 < writersWaiting {
        SignalWriter(woken);
      } else if 0 < readersWaiting {
        BroadcastReaders();
      } else {
        NoReaders(state);
      }
      state := state.(writing := state.writing - {c});
      error := Success;
    }

    method ReadRelease(c: Client, ghost woken: set<Client>) returns (error: Error)
      requires Valid() && (state.reading != {} ==> Enabled(state, Event.ReadRelease(c, woken)))
      modifies this
      ensures Valid() && error == if old(writersActive) > 0 || old(readersActive) < 1 then InvalidState else Success
      ensures state == if error == Success then Apply(old(state), Event.ReadRelease(c, woken)) else old(state)
      ensures if error == Success then Changed(-1, 0, 0, 0) else Changed(0, 0, 0, 0)
      ensures error == Success ==> state.reading == old(state).reading - {c} && state.writing == {}
      ensures error == Success && old(readersActive) == 1 && old(writersWaiting) > 0 ==> Signalled(woken)
      ensures error == Success && !(old(readersActive) == 1 && old(writersWaiting) > 0) ==> Signalled({})
    {
      if 0 < writersActive || 1 > readersActive {
        return InvalidState;
      }
      StepSafe(state, Event.ReadRelease(c, woken));
      CardDrop(state.reading, c);
      readersActive := readersActive - 1;
      if 0 == readersActive && 0 < writersWaiting {
        SignalWriter(woken);
      }
      state := state.(reading := state.reading - {c});
      error := Success;
    }

    /** `pthread_cond_signal` on the writers' condition. */
    ghost method SignalWriter(woken: set<Client>)
      requires Safe(state) && woken <= state.writeAsleep
      modifies `state
      ensures state == Wake(old(state), woken)
      ensures |state.writeAsleep| + |state.writeAwake| == |old(state).writeAsleep| + |old(state).writeAwake|
    {
      SleepersDisjoint(state);
      WakeCards(state.writeAsleep, state.writeAwake, woken);
      state := Wake(state, woken);
    }

    /** `pthread_cond_broadcast` on the readers' condition. */
    ghost method BroadcastReaders()
      requires Safe(state)
      modifies `state
      ensures state == WakeReaders(old(state))
      ensures |state.readAsleep| + |state.readAwake| == |old(state).readAsleep| + |old(state).readAwake|
    {
      SleepersDisjoint(state);
      CardUnion(state.readAwake, state.readAsleep);
      state := WakeReaders(state);
    }

    lemma NoReaders(s: State)
      requires |s.readAsleep| + |s.readAwake| == 0
      ensures WakeReaders(s) == s
    {
    }
  }
}
