/** The bounded queue as a transition system.  A step is what one thread does between taking the mutex and giving it up
    again. */
module QueueProtocol {
  import opened Sums

  type Item = int

  /** One call, from its first step until it returns; the item is what a producer brings. */
  datatype Client = Client(id: int, item: Item)

  datatype State = State(items: seq<Item>,
                         producersAsleep: set<Client>, producersAwake: set<Client>,
                         consumersAsleep: set<Client>, consumersAwake: set<Client>,
                         accepted: seq<Item>, delivered: seq<Item>)
  {
    function Producers(): set<Client>
    {
      producersAsleep + producersAwake
    }

    function Consumers(): set<Client>
    {
      consumersAsleep + consumersAwake
    }

    function Waiting(): set<Client>
    {
      Producers() + Consumers()
    }
  }

  const IDLE := State([], {}, {}, {}, {}, [], [])

  /** `woken` are the consumers that the signal after a push wakes, `granted` says whether the list found memory. */
  datatype Event =
    | PushEnter(c: Client, granted: bool, woken: set<Client>)
    | PushResume(c: Client, granted: bool, woken: set<Client>)
    | PopEnter(c: Client)
    | PopResume(c: Client)
    | TryPush(c: Client, granted: bool, woken: set<Client>)
    | TryPop(c: Client)

  /** A limit of zero means that there is none. */
  predicate Full(s: State, limit: nat)
  {
    0 != limit && limit <= |s.items|
  }

  predicate CanWake(s: State, woken: set<Client>)
  {
    woken <= s.consumersAsleep && (s.consumersAsleep != {} ==> woken != {})
  }

  predicate Enabled(s: State, e: Event)
  {
    match e
    case PushEnter(c, _, woken) => c !in s.Waiting() && CanWake(s, woken)
    case PushResume(c, _, woken) => c in s.Producers() && CanWake(s, woken)
    case PopEnter(c) => c !in s.Waiting()
    case PopResume(c) => c in s.Consumers()
    case TryPush(c, _, woken) => c !in s.Waiting() && CanWake(s, woken)
    case TryPop(c) => c !in s.Waiting()
  }

  function WithoutWaiter(s: State, c: Client): State
  {
    s.(producersAsleep := s.producersAsleep - {c}, producersAwake := s.producersAwake - {c},
    consumersAsleep := s.consumersAsleep - {c}, consumersAwake := s.consumersAwake - {c})
  }

  /** Appends an item and signals a consumer. */
  function Append(s: State, item: Item, granted: bool, woken: set<Client>): State
  {
    if granted then
      s.(items := s.items + [item], accepted := s.accepted + [item],
      consumersAsleep := s.consumersAsleep - woken, consumersAwake := s.consumersAwake + woken)
    else s
  }

  /** Takes the first item, and signals all producers if the queue was full. */
  function Take(s: State, limit: nat): State
    requires s.items != []
  {
    var s1 := s.(items := s.items[1..], delivered := s.delivered + [s.items[0]]);
    if limit == |s.items| then
      s1.(producersAsleep := {}, producersAwake := s.producersAwake + s.producersAsleep)
    else s1
  }

  function PushOrWait(s: State, limit: nat, c: Client, granted: bool, woken: set<Client>): State
  {
    if Full(s, limit) then s.(producersAsleep := s.producersAsleep + {c}) else Append(s, c.item, granted, woken)
  }

  function PopOrWait(s: State, limit: nat, c: Client): State
  {
    if s.items == [] then s.(consumersAsleep := s.consumersAsleep + {c}) else Take(s, limit)
  }

  function Apply(s: State, limit: nat, e: Event): State
    requires Enabled(s, e)
  {
    match e
    case PushEnter(c, granted, woken) => PushOrWait(s, limit, c, granted, woken)
    case PushResume(c, granted, woken) => PushOrWait(WithoutWaiter(s, c), limit, c, granted, woken)
    case PopEnter(c) => PopOrWait(s, limit, c)
    case PopResume(c) => PopOrWait(WithoutWaiter(s, c), limit, c)
    case TryPush(c, granted, woken) => if Full(s, limit) then s else Append(s, c.item, granted, woken)
    case TryPop(c) => if s.items == [] then s else Take(s, limit)
  }

  // ---------- safety ----------

  function Places(s: State, c: Client): nat
  {
    (if c in s.producersAsleep then 1 else 0) + (if c in s.producersAwake then 1 else 0)
    + (if c in s.consumersAsleep then 1 else 0) + (if c in s.consumersAwake then 1 else 0)
  }

  ghost predicate OnePlace(s: State)
  {
    forall c :: Places(s, c) <= 1
  }

  /** What goes in comes out, once, and in the order in which it went in; the limit is kept. */
  ghost predicate InOrder(s: State, limit: nat)
  {
    s.accepted == s.delivered + s.items && (limit != 0 ==> |s.items| <= limit)
  }

  /** A producer sleeps only while the queue is full.  A consumer sleeps only while every item has a consumer that has
      been signalled. */
  ghost predicate NoneForgotten(s: State, limit: nat)
  {
    && (s.producersAsleep != {} ==> limit != 0 && |s.items| == limit)
    && (s.consumersAsleep != {} ==> |s.items| <= |s.consumersAwake|)
  }

  ghost predicate Safe(s: State, limit: nat)
  {
    OnePlace(s) && InOrder(s, limit) && NoneForgotten(s, limit)
  }

  lemma PlacesNow(s: State, limit: nat, e: Event)
    requires OnePlace(s) && Enabled(s, e)
    ensures OnePlace(Apply(s, limit, e))
  {
    forall c
      ensures Places(Apply(s, limit, e), c) <= 1
    {
      assert Places(s, c) <= 1 && Places(s, e.c) <= 1;
    }
  }

  lemma AppendKeeps(s: State, limit: nat, item: Item, granted: bool, woken: set<Client>)
    requires InOrder(s, limit) && NoneForgotten(s, limit) && !Full(s, limit) && CanWake(s, woken)
    requires s.consumersAsleep !! s.consumersAwake
    ensures InOrder(Append(s, item, granted, woken), limit) && NoneForgotten(Append(s, item, granted, woken), limit)
  {
    CardUnion(s.consumersAwake, woken);
  }

  /** `slack` says that a signalled consumer has just left to take the item. */
  ghost predicate Served(s: State, slack: nat)
  {
    s.consumersAsleep != {} ==> |s.items| <= |s.consumersAwake| + slack
  }

  lemma TakeKeeps(s: State, limit: nat)
    requires InOrder(s, limit) && s.items != [] && Served(s, 1)
    requires (s.producersAsleep != {} ==> limit != 0 && |s.items| == limit)
    ensures InOrder(Take(s, limit), limit) && NoneForgotten(Take(s, limit), limit)
  {
    assert s.items == [s.items[0]] + s.items[1..];
    assert (s.delivered + [s.items[0]]) + s.items[1..] == s.delivered + s.items;
  }

  /** A waiting producer is no consumer, and the other way round. */
  lemma WaiterLeaves(s: State, c: Client)
    requires OnePlace(s)
    ensures c in s.Producers() ==>
              WithoutWaiter(s, c)
              == s.(producersAsleep := s.producersAsleep - {c}, producersAwake := s.producersAwake - {c})
    ensures c in s.Consumers() ==>
              WithoutWaiter(s, c)
              == s.(consumersAsleep := s.consumersAsleep - {c}, consumersAwake := s.consumersAwake - {c})
  {
    assert Places(s, c) <= 1;
  }

  lemma SleepersDisjoint(s: State)
    requires OnePlace(s)
    ensures s.producersAsleep !! s.producersAwake && s.consumersAsleep !! s.consumersAwake
  {
    forall c
      ensures !(c in s.producersAsleep && c in s.producersAwake) && !(c in s.consumersAsleep && c in s.consumersAwake)
    {
      assert Places(s, c) <= 1;
    }
  }

  lemma PushSafe(s: State, limit: nat, c: Client, granted: bool, woken: set<Client>)
    requires Safe(s, limit) && CanWake(s, woken)
    ensures InOrder(PushOrWait(s, limit, c, granted, woken), limit)
    ensures NoneForgotten(PushOrWait(s, limit, c, granted, woken), limit)
  {
    SleepersDisjoint(s);
    if !Full(s, limit) {
      AppendKeeps(s, limit, c.item, granted, woken);
    }
  }

  lemma PopSafe(s: State, limit: nat, c: Client)
    requires InOrder(s, limit) && Served(s, 1) && (s.producersAsleep != {} ==> limit != 0 && |s.items| == limit)
    ensures InOrder(PopOrWait(s, limit, c), limit) && NoneForgotten(PopOrWait(s, limit, c), limit)
  {
    if s.items != [] {
      TakeKeeps(s, limit);
    }
  }

  lemma ProducerLeaves(s: State, limit: nat, c: Client)
    requires Safe(s, limit) && c in s.Producers()
    ensures Safe(WithoutWaiter(s, c), limit) && WithoutWaiter(s, c).consumersAsleep == s.consumersAsleep
  {
    var s' := WithoutWaiter(s, c);
    OnlyProducer(s, c);
    forall c'
      ensures Places(s', c') <= 1
    {
      assert Places(s, c') <= 1;
    }
  }

  /** A producer that waits is not a consumer that waits. */
  lemma OnlyProducer(s: State, c: Client)
    requires OnePlace(s) && c in s.Producers()
    ensures s.consumersAsleep - {c} == s.consumersAsleep && s.consumersAwake - {c} == s.consumersAwake
  {
    assert Places(s, c) <= 1;
  }

  lemma ConsumerLeaves(s: State, limit: nat, c: Client)
    requires Safe(s, limit)
    ensures InOrder(WithoutWaiter(s, c), limit) && Served(WithoutWaiter(s, c), 1)
    ensures WithoutWaiter(s, c).producersAsleep != {} ==> limit != 0 && |s.items| == limit
  {
    CardDrop(s.consumersAwake, c);
  }

  lemma StepSafe(s: State, limit: nat, e: Event)
    requires Safe(s, limit) && Enabled(s, e)
    ensures Safe(Apply(s, limit, e), limit)
  {
    PlacesNow(s, limit, e);
    match e
    case PushEnter(c, granted, woken) => PushSafe(s, limit, c, granted, woken);
    case PushResume(c, granted, woken) =>
      ProducerLeaves(s, limit, c);
      PushSafe(WithoutWaiter(s, c), limit, c, granted, woken);
    case PopEnter(c) => PopSafe(s, limit, c);
    case PopResume(c) =>
      ConsumerLeaves(s, limit, c);
      PopSafe(WithoutWaiter(s, c), limit, c);
    case TryPush(c, granted, woken) =>
      if !Full(s, limit) {
        PushSafe(s, limit, c, granted, woken);
      }
    case TryPop(c) =>
      if s.items != [] {
        PopSafe(s, limit, c);
      }
  }

  ghost predicate Run(s: State, limit: nat, events: seq<Event>, s': State)
    decreases |events|
  {
    if events == [] then s == s' else Enabled(s, events[0]) && Run(Apply(s, limit, events[0]), limit, events[1..], s')
  }

  lemma {:induction false} RunSafe(s: State, limit: nat, events: seq<Event>, s': State)
    requires Safe(s, limit) && Run(s, limit, events, s')
    ensures Safe(s', limit)
    decreases |events|
  {
    if events != [] {
      StepSafe(s, limit, events[0]);
      RunSafe(Apply(s, limit, events[0]), limit, events[1..], s');
    }
  }

  /** Whatever threads do, and however they interleave, items come out in the order in which they went in, each once,
      the limit is kept, and no wake-up is lost. */
  lemma AlwaysSafe(limit: nat, events: seq<Event>, s: State)
    requires Run(IDLE, limit, events, s)
    ensures InOrder(s, limit) && NoneForgotten(s, limit) && OnePlace(s)
  {
    assert forall c :: Places(IDLE, c) == 0;
    RunSafe(IDLE, limit, events, s);
  }

  // ---------- what a run does to the items ----------

  /** What a step puts into a queue that holds `items`: the item that a producer brings, if there is room and memory. */
  ghost function PutIn(items: seq<Item>, limit: nat, e: Event): seq<Item>
  {
    match e
    case PushEnter(c, granted, _) => if granted && (limit == 0 || |items| < limit) then [c.item] else []
    case PushResume(c, granted, _) => if granted && (limit == 0 || |items| < limit) then [c.item] else []
    case TryPush(c, granted, _) => if granted && (limit == 0 || |items| < limit) then [c.item] else []
    case _ => []
  }

  /** What a step takes out: the first item, for a consumer. */
  ghost function TakenOut(items: seq<Item>, e: Event): (out: seq<Item>)
    ensures out <= items
  {
    if (e.PopEnter? || e.PopResume? || e.TryPop?) && items != [] then [items[0]] else []
  }

  lemma StepMeans(s: State, limit: nat, e: Event)
    requires Enabled(s, e)
    ensures var s', put, out := Apply(s, limit, e), PutIn(s.items, limit, e), TakenOut(s.items, e);
            && s'.accepted == s.accepted + put && s'.delivered == s.delivered + out
            && s'.items == (s.items + put)[|out|..]
  {
  }

  /** What a queue without waiters lets in, if the same calls are made one after another. */
  ghost function LetIn(items: seq<Item>, limit: nat, events: seq<Event>): seq<Item>
    decreases |events|
  {
    if events == [] then []
    else
      var put, out := PutIn(items, limit, events[0]), TakenOut(items, events[0]);
      put + LetIn((items + put)[|out|..], limit, events[1..])
  }

  ghost function GivenOut(items: seq<Item>, limit: nat, events: seq<Event>): seq<Item>
    decreases |events|
  {
    if events == [] then []
    else
      var put, out := PutIn(items, limit, events[0]), TakenOut(items, events[0]);
      out + GivenOut((items + put)[|out|..], limit, events[1..])
  }

  /** The waiters make no difference: what has been accepted are the items of the pushes that found room and memory, in
      their order, and what has been delivered is what a plain queue gives out. */
  lemma {:induction false} RunMeans(s: State, limit: nat, events: seq<Event>, s': State)
    requires Run(s, limit, events, s')
    ensures s'.accepted == s.accepted + LetIn(s.items, limit, events)
    ensures s'.delivered == s.delivered + GivenOut(s.items, limit, events)
    decreases |events|
  {
    if events != [] {
      StepMeans(s, limit, events[0]);
      RunMeans(Apply(s, limit, events[0]), limit, events[1..], s');
    }
  }

  // ---------- progress ----------

  /** A signalled waiter looks again. */
  predicate Progress(s: State, e: Event)
  {
    match e
    case PushResume(c, _, _) => c in s.producersAwake
    case PopResume(c) => c in s.consumersAwake
    case _ => false
  }

  /** Somebody waits for what is there: an item, or room for one. */
  predicate CanServe(s: State, limit: nat)
  {
    (s.items != [] && s.Consumers() != {}) || (!Full(s, limit) && s.Producers() != {})
  }

  /** Then a waiter that has been signalled can get it. */
  lemma NeverStuck(s: State, limit: nat) returns (e: Event)
    requires Safe(s, limit) && CanServe(s, limit)
    ensures Enabled(s, e) && Progress(s, e) && e.c !in Apply(s, limit, e).Waiting()
  {
    if s.items != [] && s.Consumers() != {} {
      assert s.consumersAwake != {} by {
        assert s.consumersAsleep == {} ==> s.Consumers() == s.consumersAwake;
      }
      e := PopResume(Pick(s.consumersAwake));
    } else {
      assert s.Producers() == s.producersAwake;
      e := PushResume(Pick(s.producersAwake), true, s.consumersAsleep);
    }
    assert Places(s, e.c) <= 1;
  }

  ghost function Work(s: State): nat
  {
    |s.producersAsleep| + |s.producersAwake| + |s.consumersAsleep| + |s.consumersAwake|
  }

  ghost function Awake(s: State): nat
  {
    |s.producersAwake| + |s.consumersAwake|
  }

  /** An upper bound for the steps of progress that are left. */
  ghost function Bound(s: State): nat
  {
    Sum(Work(s)) + Awake(s)
  }

  lemma LeaveCounts(s: State, c: Client)
    requires OnePlace(s) && c in s.producersAwake + s.consumersAwake
    ensures Work(WithoutWaiter(s, c)) == Work(s) - 1 && Awake(WithoutWaiter(s, c)) == Awake(s) - 1
    ensures OnePlace(WithoutWaiter(s, c))
  {
    assert Places(s, c) <= 1;
    CardDrop(s.producersAsleep, c);
    CardDrop(s.producersAwake, c);
    CardDrop(s.consumersAsleep, c);
    CardDrop(s.consumersAwake, c);
    forall c'
      ensures Places(WithoutWaiter(s, c), c') <= 1
    {
      assert Places(s, c') <= 1;
    }
  }

  /** A try makes no work, except that it may put the client itself to sleep. */
  lemma TryCounts(s: State, limit: nat, c: Client, granted: bool, woken: set<Client>)
    requires OnePlace(s) && woken <= s.consumersAsleep
    ensures var s' := PushOrWait(s, limit, c, granted, woken);
            Work(s') <= Work(s) || (Work(s') == Work(s) + 1 && Awake(s') == Awake(s))
    ensures var s' := PopOrWait(s, limit, c);
            Work(s') <= Work(s) || (Work(s') == Work(s) + 1 && Awake(s') == Awake(s))
  {
    SleepersDisjoint(s);
    CardAdd(s.producersAsleep, c);
    CardAdd(s.consumersAsleep, c);
    WakeCards(s.consumersAsleep, s.consumersAwake, woken);
    CardUnion(s.producersAwake, s.producersAsleep);
  }

  lemma ProgressBounded(s: State, limit: nat, e: Event)
    requires Safe(s, limit) && Enabled(s, e) && Progress(s, e)
    ensures Bound(Apply(s, limit, e)) < Bound(s)
  {
    var s', s1 := Apply(s, limit, e), WithoutWaiter(s, e.c);
    LeaveCounts(s, e.c);
    var woken := if e.PushResume? then e.woken else {};
    var granted := e.PushResume? && e.granted;
    assert Places(s, e.c) <= 1;
    TryCounts(s1, limit, e.c, granted, woken);
    AwakeWorks(s');
    SumLess(Work(s'), Awake(s'), Work(s), Awake(s));
  }

  lemma AwakeWorks(s: State)
    ensures Awake(s) <= Work(s)
  {
  }

  ghost predicate ProgressRun(s: State, limit: nat, events: seq<Event>, s': State)
    decreases |events|
  {
    if events == [] then s == s'
    else Enabled(s, events[0]) && Progress(s, events[0])
         && ProgressRun(Apply(s, limit, events[0]), limit, events[1..], s')
  }

  /** If nobody new comes, the queue settles: every run of such steps comes to an end, and if it cannot go on, consumers
      wait only for an empty queue, producers only for a full one, and not both. */
  lemma {:induction false} Settles(s: State, limit: nat, events: seq<Event>, s': State)
    requires Safe(s, limit) && ProgressRun(s, limit, events, s')
    ensures |events| + Bound(s') <= Bound(s)
    ensures (forall e :: !(Enabled(s', e) && Progress(s', e))) ==>
              && (s'.Consumers() != {} ==> s'.items == [])
              && (s'.Producers() != {} ==> Full(s', limit))
              && (s'.Consumers() == {} || s'.Producers() == {})
    decreases |events|
  {
    if events != [] {
      StepSafe(s, limit, events[0]);
      ProgressBounded(s, limit, events[0]);
      Settles(Apply(s, limit, events[0]), limit, events[1..], s');
    } else if CanServe(s, limit) {
      var e := NeverStuck(s, limit);
    }
  }

  // ---------- clear ----------

  /** `clear` discards the items, and signals the producers when the queue was one short of full. */
  function Cleared(s: State, limit: nat): State
  {
    var s1 := s.(items := [], accepted := s.delivered);
    if limit == |s.items| + 1 then
      s1.(producersAsleep := {}, producersAwake := s.producersAwake + s.producersAsleep)
    else s1
  }

  /** So it forgets sleeping producers, whenever there are any.  There are none without a limit, and none while the
      queue is not full. */
  lemma ClearForgets(s: State, limit: nat)
    requires Safe(s, limit)
    ensures NoneForgotten(Cleared(s, limit), limit) <==> s.producersAsleep == {}
    ensures limit == 0 || |s.items| < limit ==> s.producersAsleep == {}
  {
  }

  /** A producer and a consumer can then wait for each other for ever. */
  lemma ClearStrands(a: Client, b: Client, c: Client)
    requires a != b && b != c && a != c
    ensures var s := Apply(Apply(IDLE, 1, PushEnter(a, true, {})), 1, PushEnter(b, true, {}));
            && Safe(s, 1) && c !in Cleared(s, 1).Waiting()
            && var t := Apply(Cleared(s, 1), 1, PopEnter(c));
            && t.Producers() == {b} && t.Consumers() == {c} && CanServe(t, 1)
            && forall e :: !(Enabled(t, e) && Progress(t, e))
  {
    var s1 := Apply(IDLE, 1, PushEnter(a, true, {}));
    assert forall c :: Places(IDLE, c) == 0;
    StepSafe(IDLE, 1, PushEnter(a, true, {}));
    StepSafe(s1, 1, PushEnter(b, true, {}));
  }
}
