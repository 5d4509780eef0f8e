/** The reader/writer lock as a transition system.  A step is what one thread does between taking the mutex and giving
    it up again, by unlocking it or by waiting for a signal. */
module LockProtocol {
  import opened Sums

  /** One acquisition of the lock, from its first step until its release. */
  type Client = int

  /** Who holds the lock and who waits for it.  A waiter sleeps until it is signalled; then it is awake, but must still
      get the mutex and look again. */
  datatype State = State(reading: set<Client>, writing: set<Client>, readAsleep: set<Client>, readAwake: set<Client>,
                         writeAsleep: set<Client>, writeAwake: set<Client>)
  {
    function Holding(): set<Client>
    {
      reading + writing
    }

    function Writers(): set<Client>
    {
      writeAsleep + writeAwake
    }

    function Readers(): set<Client>
    {
      readAsleep + readAwake
    }

    function Waiting(): set<Client>
    {
      Readers() + Writers()
    }

    function Present(): set<Client>
    {
      Holding() + Waiting()
    }
  }

  const IDLE := State({}, {}, {}, {}, {}, {})

  /** `Release` events carry the waiting writers that a signal wakes, which are one or more if any are asleep. */
  datatype Event =
    | WriteEnter(c: Client)
    | WriteResume(c: Client)
    | ReadEnter(c: Client)
    | ReadResume(c: Client)
    | WriteAttempt(c: Client)
    | ReadAttempt(c: Client)
    | WriteRelease(c: Client, woken: set<Client>)
    | ReadRelease(c: Client, woken: set<Client>)

  predicate CanWake(s: State, woken: set<Client>)
  {
    woken <= s.writeAsleep && (s.writeAsleep != {} ==> woken != {})
  }

  /** Waiters may resume at any time: wake-ups can be spurious. */
  predicate Enabled(s: State, e: Event)
  {
    match e
    case WriteEnter(c) => c !in s.Present()
    case WriteResume(c) => c in s.Writers()
    case ReadEnter(c) => c !in s.Present()
    case ReadResume(c) => c in s.Readers()
    case WriteAttempt(c) => c !in s.Present()
    case ReadAttempt(c) => c !in s.Present()
    case WriteRelease(c, woken) => c in s.writing && CanWake(s, woken)
    case ReadRelease(c, woken) => c in s.reading && CanWake(s, woken)
  }

  function WithoutWaiter(s: State, c: Client): State
  {
    s.(readAsleep := s.readAsleep - {c}, readAwake := s.readAwake - {c},
    writeAsleep := s.writeAsleep - {c}, writeAwake := s.writeAwake - {c})
  }

  function Wake(s: State, woken: set<Client>): State
  {
    s.(writeAsleep := s.writeAsleep - woken, writeAwake := s.writeAwake + woken)
  }

  function WakeReaders(s: State): State
  {
    s.(readAsleep := {}, readAwake := s.readAwake + s.readAsleep)
  }

  /** The loop of `writeAcquire`, once round. */
  function TryWrite(s: State, c: Client): State
  {
    if s.Holding() != {} then s.(writeAsleep := s.writeAsleep + {c}) else s.(writing := s.writing + {c})
  }

  /** The loop of `readAcquire`, once round. */
  function TryRead(s: State, c: Client): State
  {
    if s.writing != {} || s.Writers() != {}
    then s.(readAsleep := s.readAsleep + {c}) else s.(reading := s.reading + {c})
  }

  function Apply(s: State, e: Event): State
    requires Enabled(s, e)
  {
    match e
    case WriteEnter(c) => TryWrite(s, c)
    case WriteResume(c) => TryWrite(WithoutWaiter(s, c), c)
    case ReadEnter(c) => TryRead(s, c)
    case ReadResume(c) => TryRead(WithoutWaiter(s, c), c)
    case WriteAttempt(c) => if s.Holding() != {} then s else s.(writing := s.writing + {c})
    case ReadAttempt(c) => if s.writing != {} then s else s.(reading := s.reading + {c})
    case WriteRelease(c, woken) =>
      var s1 := s.(writing := s.writing - {c});
      if s.Writers() != {} then Wake(s1, woken) else WakeReaders(s1)
    case ReadRelease(c, woken) =>
      var s1 := s.(reading := s.reading - {c});
      if s1.reading == {} && s.Writers() != {} then Wake(s1, woken) else s1
  }

  // ---------- safety ----------

  /** The number of places that a client is in. */
  function Places(s: State, c: Client): nat
  {
    (if c in s.reading then 1 else 0) + (if c in s.writing then 1 else 0) + (if c in s.readAsleep then 1 else 0)
    + (if c in s.readAwake then 1 else 0) + (if c in s.writeAsleep then 1 else 0) + (if c in s.writeAwake then 1 else 0)
  }

  ghost predicate OnePlace(s: State)
  {
    forall c :: Places(s, c) <= 1
  }

  ghost predicate Exclusive(s: State)
  {
    (forall c, c' :: c in s.writing && c' in s.writing ==> c == c') && (s.writing != {} ==> s.reading == {})
  }

  /** No wake-up is lost: a writer sleeps only while there is somebody who will signal it or another writer that has
      been signalled, and a reader sleeps only while there is a writer. */
  ghost predicate NoneForgotten(s: State)
  {
    && (s.writeAsleep != {} ==> s.Holding() != {} || s.writeAwake != {})
    && (s.readAsleep != {} ==> s.writing != {} || s.Writers() != {})
  }

  ghost predicate Safe(s: State)
  {
    OnePlace(s) && Exclusive(s) && NoneForgotten(s)
  }

  lemma StepSafe(s: State, e: Event)
    requires Safe(s) && Enabled(s, e)
    ensures Safe(Apply(s, e))
  {
    forall c
      ensures Places(Apply(s, e), c) <= 1
    {
      assert Places(s, c) <= 1 && Places(s, e.c) <= 1;
    }
  }

  /** Who gets the lock: a writer if nobody holds it, a reader if no writer holds it or waits for it, an attempt to read
      if no writer holds it.  Nobody else comes, goes or stops waiting. */
  lemma StepMeans(s: State, e: Event)
    requires Safe(s) && Enabled(s, e)
    ensures e.WriteEnter? || e.WriteResume? || e.WriteAttempt? ==>
              (e.c in Apply(s, e).writing <==> s.writing == {} && s.reading == {})
    ensures e.ReadEnter? || e.ReadResume? ==>
              (e.c in Apply(s, e).reading <==> s.writing == {} && s.writeAsleep == {} && s.writeAwake == {})
    ensures e.ReadAttempt? ==> (e.c in Apply(s, e).reading <==> s.writing == {})
    ensures e.WriteRelease? || e.ReadRelease? ==> e.c !in Apply(s, e).Present()
    ensures e.WriteAttempt? || e.ReadAttempt? ==> e.c !in Apply(s, e).Waiting()
    ensures forall c :: c != e.c ==>
                          && (c in Apply(s, e).reading <==> c in s.reading)
                          && (c in Apply(s, e).writing <==> c in s.writing)
                          && (c in Apply(s, e).Readers() <==> c in s.Readers())
                          && (c in Apply(s, e).Writers() <==> c in s.Writers())
  {
    assert Places(s, e.c) <= 1;
    if e.ReadResume? {
      WaiterPlaces(s, e.c);
    }
  }

  /** The states that a sequence of events leads to. */
  ghost predicate Run(s: State, events: seq<Event>, s': State)
    decreases |events|
  {
    if events == [] then s == s' else Enabled(s, events[0]) && Run(Apply(s, events[0]), events[1..], s')
  }

  lemma {:induction false} RunSafe(s: State, events: seq<Event>, s': State)
    requires Safe(s) && Run(s, events, s')
    ensures Safe(s')
    decreases |events|
  {
    if events != [] {
      StepSafe(s, events[0]);
      RunSafe(Apply(s, events[0]), events[1..], s');
    }
  }

  /** Whatever threads do, and however they interleave, the lock is safe. */
  lemma AlwaysSafe(events: seq<Event>, s: State)
    requires Run(IDLE, events, s)
    ensures OnePlace(s) && Exclusive(s) && NoneForgotten(s)
  {
    RunSafe(IDLE, events, s);
  }

  // ---------- progress ----------

  /** Steps that finish what has begun: a holder lets go, or a signalled waiter looks again. */
  predicate Progress(s: State, e: Event)
  {
    match e
    case WriteResume(c) => c in s.writeAwake
    case ReadResume(c) => c in s.readAwake
    case WriteRelease(_, _) => true
    case ReadRelease(_, _) => true
    case _ => false
  }

  /** As long as somebody holds the lock or waits for it, such a step can be taken; and if nobody holds it, one that
      hands it to a waiter. */
  lemma NeverStuck(s: State) returns (e: Event)
    requires Safe(s) && s.Present() != {}
    ensures Enabled(s, e) && Progress(s, e)
    ensures s.Holding() == {} ==> e.c in s.Waiting() && e.c in Apply(s, e).Holding()
  {
    if s.reading != {} {
      e := ReadRelease(Pick(s.reading), s.writeAsleep);
    } else if s.writing != {} {
      e := WriteRelease(Pick(s.writing), s.writeAsleep);
    } else if s.writeAwake != {} {
      e := WriteResume(Pick(s.writeAwake));
    } else {
      assert s.Present() == s.readAwake;
      e := ReadResume(Pick(s.readAwake));
    }
  }

  /** Work left: two for each waiter and one for each holder. */
  ghost function Work(s: State): nat
  {
    2 * |s.readAsleep| + 2 * |s.readAwake| + 2 * |s.writeAsleep| + 2 * |s.writeAwake| + |s.reading| + |s.writing|
  }

  ghost function Awake(s: State): nat
  {
    |s.readAwake| + |s.writeAwake|
  }

  lemma AtMostOne(s: State)
    requires Exclusive(s)
    ensures |s.writing| <= 1
  {
    if s.writing != {} {
      var c := Pick(s.writing);
      assert forall c' :: c' in s.writing ==> c' == c;
      assert s.writing == {c};
    }
  }

  /** Where a waiter is, and where it is not. */
  lemma WaiterPlaces(s: State, c: Client)
    requires OnePlace(s)
    ensures c in s.readAsleep ==> c !in s.readAwake && c !in s.Writers() && c !in s.Holding()
    ensures c in s.readAwake ==> c !in s.readAsleep && c !in s.Writers() && c !in s.Holding()
    ensures c in s.writeAsleep ==> c !in s.writeAwake && c !in s.Readers() && c !in s.Holding()
    ensures c in s.writeAwake ==> c !in s.writeAsleep && c !in s.Readers() && c !in s.Holding()
  {
    assert Places(s, c) <= 1;
  }

  lemma SleepersDisjoint(s: State)
    requires OnePlace(s)
    ensures s.writeAsleep !! s.writeAwake && s.readAsleep !! s.readAwake
  {
    forall c
      ensures !(c in s.writeAsleep && c in s.writeAwake) && !(c in s.readAsleep && c in s.readAwake)
    {
      WaiterPlaces(s, c);
    }
  }

  /** A waiting writer is no waiting reader, and the other way round. */
  lemma WaiterLeaves(s: State, c: Client)
    requires OnePlace(s)
    ensures c in s.Readers() ==>
              WithoutWaiter(s, c) == s.(readAsleep := s.readAsleep - {c}, readAwake := s.readAwake - {c})
    ensures c in s.Writers() ==>
              WithoutWaiter(s, c) == s.(writeAsleep := s.writeAsleep - {c}, writeAwake := s.writeAwake - {c})
  {
    WaiterPlaces(s, c);
  }

  /** What a waiter that has got the mutex back leaves behind. */
  lemma LeaveCounts(s: State, c: Client)
    requires OnePlace(s)
    ensures var s' := WithoutWaiter(s, c);
            && (c in s.Readers() ==> |s'.readAsleep| + |s'.readAwake| == |s.readAsleep| + |s.readAwake| - 1
                                     && |s'.writeAsleep| + |s'.writeAwake| == |s.writeAsleep| + |s.writeAwake|)
            && (c in s.Writers() ==> |s'.writeAsleep| + |s'.writeAwake| == |s.writeAsleep| + |s.writeAwake| - 1
                                     && |s'.readAsleep| + |s'.readAwake| == |s.readAsleep| + |s.readAwake|)
            && (c in s.Waiting() ==>
                  c !in s'.reading && c !in s'.writing && c !in s'.readAsleep && c !in s'.writeAsleep)
  {
    WaiterPlaces(s, c);
    CardDrop(s.readAsleep, c);
    CardDrop(s.readAwake, c);
    CardDrop(s.writeAsleep, c);
    CardDrop(s.writeAwake, c);
  }

  /** A step of progress gets work done, or puts a waiter back to sleep. */
  ghost predicate Less(s': State, s: State)
  {
    Work(s') < Work(s) || (Work(s') == Work(s) && Awake(s') < Awake(s))
  }

  lemma WriteResumeCounts(s: State, c: Client)
    requires Safe(s) && c in s.writeAwake
    ensures Less(Apply(s, WriteResume(c)), s)
  {
    ResumeCounts(s, c);
    TryCounts(WithoutWaiter(s, c), c);
  }

  lemma ReadResumeCounts(s: State, c: Client)
    requires Safe(s) && c in s.readAwake
    ensures Less(Apply(s, ReadResume(c)), s)
  {
    ResumeCounts(s, c);
    TryCounts(WithoutWaiter(s, c), c);
  }

  /** One try adds at most the work of a sleeper, and wakes nobody. */
  lemma TryCounts(s: State, c: Client)
    ensures Work(TryWrite(s, c)) <= Work(s) + 2 && Awake(TryWrite(s, c)) == Awake(s)
    ensures Work(TryRead(s, c)) <= Work(s) + 2 && Awake(TryRead(s, c)) == Awake(s)
  {
    CardAdd(s.writeAsleep, c);
    CardAdd(s.writing, c);
    CardAdd(s.readAsleep, c);
    CardAdd(s.reading, c);
  }

  lemma WriteReleaseCounts(s: State, c: Client, woken: set<Client>)
    requires Safe(s) && Enabled(s, WriteRelease(c, woken))
    ensures Work(Apply(s, WriteRelease(c, woken))) == Work(s) - 1
  {
    var s1 := s.(writing := s.writing - {c});
    DropCounts(s, s1, c);
    SleepersDisjoint(s);
    WakeCounts(s1, woken);
  }

  lemma ReadReleaseCounts(s: State, c: Client, woken: set<Client>)
    requires Safe(s) && Enabled(s, ReadRelease(c, woken))
    ensures Work(Apply(s, ReadRelease(c, woken))) == Work(s) - 1
  {
    var s1 := s.(reading := s.reading - {c});
    DropCounts(s, s1, c);
    SleepersDisjoint(s);
    WakeCounts(s1, woken);
  }

  lemma DropCounts(s: State, s': State, c: Client)
    requires (c in s.writing && s' == s.(writing := s.writing - {c}))
             || (c in s.reading && s' == s.(reading := s.reading - {c}))
    ensures Work(s') == Work(s) - 1
  {
    CardDrop(s.writing, c);
    CardDrop(s.reading, c);
  }

  lemma WakeCounts(s: State, woken: set<Client>)
    requires s.writeAsleep !! s.writeAwake && s.readAsleep !! s.readAwake && woken <= s.writeAsleep
    ensures Work(Wake(s, woken)) == Work(s) && Work(WakeReaders(s)) == Work(s)
  {
    WakeCards(s.writeAsleep, s.writeAwake, woken);
    CardUnion(s.readAwake, s.readAsleep);
  }

  lemma ProgressCounts(s: State, e: Event)
    requires Safe(s) && Enabled(s, e) && Progress(s, e)
    ensures Less(Apply(s, e), s)
  {
    match e
    case WriteResume(c) => WriteResumeCounts(s, c);
    case ReadResume(c) => ReadResumeCounts(s, c);
    case WriteRelease(c, woken) => WriteReleaseCounts(s, c, woken);
    case ReadRelease(c, woken) => ReadReleaseCounts(s, c, woken);
  }

  lemma ResumeCounts(s: State, c: Client)
    requires OnePlace(s) && c in s.readAwake + s.writeAwake
    ensures Work(WithoutWaiter(s, c)) == Work(s) - 2 && Awake(WithoutWaiter(s, c)) == Awake(s) - 1
  {
    WaiterPlaces(s, c);
    CardDrop(s.readAsleep, c);
    CardDrop(s.readAwake, c);
    CardDrop(s.writeAsleep, c);
    CardDrop(s.writeAwake, c);
  }

  /** An upper bound for the steps of progress that are left. */
  ghost function Bound(s: State): nat
  {
    Sum(Work(s)) + Awake(s)
  }

  lemma AwakeWorks(s: State)
    ensures Awake(s) <= Work(s)
  {
  }

  lemma ProgressBounded(s: State, e: Event)
    requires Safe(s) && Enabled(s, e) && Progress(s, e)
    ensures Bound(Apply(s, e)) < Bound(s)
  {
    var s' := Apply(s, e);
    ProgressCounts(s, e);
    AwakeWorks(s');
    SumLess(Work(s'), Awake(s'), Work(s), Awake(s));
  }

  ghost predicate ProgressRun(s: State, events: seq<Event>, s': State)
    decreases |events|
  {
    if events == [] then s == s'
    else Enabled(s, events[0]) && Progress(s, events[0]) && ProgressRun(Apply(s, events[0]), events[1..], s')
  }

  /** If nobody new comes, the lock drains: every run of such steps comes to an end, and if it cannot go on, everybody
      has had the lock and has released it. */
  lemma {:induction false} Drains(s: State, events: seq<Event>, s': State)
    requires Safe(s) && ProgressRun(s, events, s')
    ensures |events| + Bound(s') <= Bound(s)
    ensures (forall e :: !(Enabled(s', e) && Progress(s', e))) ==> s' == IDLE
    decreases |events|
  {
    if events != [] {
      StepSafe(s, events[0]);
      ProgressBounded(s, events[0]);
      Drains(Apply(s, events[0]), events[1..], s');
    } else if s.Present() != {} {
      var e := NeverStuck(s);
    }
  }
}
