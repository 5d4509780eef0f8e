/** The queue that can be stopped, as a transition system.  Its signals are sent after the mutex has been given up, so
    that each is a step of its own. */
module StoppableQueueProtocol {
  import opened Sums

  type Element = int

  /** One call of `pop`, from its first step until it returns. */
  type Client = int

  datatype State = State(items: seq<Element>, stopped: bool, asleep: set<Client>, awake: set<Client>,
                         signals: nat, broadcasts: nat,
                         accepted: seq<Element>, delivered: seq<Element>, cleared: seq<Element>)

  const IDLE := State([], false, {}, {}, 0, 0, [], [], [])

  datatype Event =
    | Push(element: Element)
    | Signal(woken: set<Client>)
    | PopEnter(c: Client)
    | PopResume(c: Client)
    | Stop
    | Broadcast

  /** A signal wakes one consumer or more, if any sleep. */
  predicate Enabled(s: State, e: Event)
  {
    match e
    case Push(_) => true
    case Signal(woken) => s.signals > 0 && woken <= s.asleep && (s.asleep != {} ==> woken != {})
    case PopEnter(c) => c !in s.asleep && c !in s.awake
    case PopResume(c) => c in s.asleep || c in s.awake
    case Stop => true
    case Broadcast => s.broadcasts > 0
  }

  function WithoutWaiter(s: State, c: Client): State
  {
    s.(asleep := s.asleep - {c}, awake := s.awake - {c})
  }

  function PopOrWait(s: State, c: Client): State
  {
    if s.stopped then s
    else if s.items != [] then s.(items := s.items[1..], delivered := s.delivered + [s.items[0]])
    else s.(asleep := s.asleep + {c})
  }

  function Apply(s: State, e: Event): State
    requires Enabled(s, e)
  {
    match e
    case Push(element) =>
      if s.stopped then s
      else s.(items := s.items + [element], accepted := s.accepted + [element], signals := s.signals + 1)
    case Signal(woken) => s.(asleep := s.asleep - woken, awake := s.awake + woken, signals := s.signals - 1)
    case PopEnter(c) => PopOrWait(s, c)
    case PopResume(c) => PopOrWait(WithoutWaiter(s, c), c)
    case Stop => s.(stopped := true, items := [], cleared := s.cleared + s.items, broadcasts := s.broadcasts + 1)
    case Broadcast => s.(asleep := {}, awake := s.awake + s.asleep, broadcasts := s.broadcasts - 1)
  }

  // ---------- safety ----------

  /** Every element that was accepted has been delivered once, or has been cleared by `stop`, or is still there. */
  ghost predicate Accounted(s: State)
  {
    s.accepted == s.delivered + s.cleared + s.items && (if s.stopped then s.items == [] else s.cleared == [])
  }

  /** A consumer sleeps only while every item has a consumer that has been signalled or a signal on its way, and after a
      stop only while a broadcast is on its way. */
  ghost predicate NoneForgotten(s: State)
  {
    s.asleep != {} ==> if s.stopped then s.broadcasts > 0 else |s.items| <= |s.awake| + s.signals
  }

  ghost predicate Safe(s: State)
  {
    s.asleep !! s.awake && Accounted(s) && NoneForgotten(s)
  }

  lemma PopSafe(s: State, c: Client)
    requires c !in s.awake && s.asleep !! s.awake && Accounted(s)
    requires s.asleep != {} ==> if s.stopped then s.broadcasts > 0 else |s.items| <= |s.awake| + s.signals + 1
    ensures Safe(PopOrWait(s, c))
  {
    if !s.stopped && s.items != [] {
      assert s.items == [s.items[0]] + s.items[1..];
      assert s.accepted == (s.delivered + [s.items[0]]) + s.cleared + s.items[1..];
    }
  }

  lemma StepSafe(s: State, e: Event)
    requires Safe(s) && Enabled(s, e)
    ensures Safe(Apply(s, e))
  {
    match e
    case Push(element) =>
      assert s.delivered + s.cleared + (s.items + [element]) == (s.delivered + s.cleared + s.items) + [element];
    case Signal(woken) => CardUnion(s.awake, woken);
    case PopEnter(c) => PopSafe(s, c);
    case PopResume(c) =>
      CardDrop(s.awake, c);
      PopSafe(WithoutWaiter(s, c), c);
    case Stop =>
    case Broadcast =>
  }

  ghost predicate Run(s: State, events: seq<Event>, s': State)
    decreases |events|
  {
    if events == [] then s == s' else Enabled(s, events[0]) && Run(Apply(s, events[0]), events[1..], s')
  }

  lemma {:induction false} RunSafe(s: State, events: seq<Event>, s': State)
    requires Safe(s) && Run(s, events, s')
    ensures Safe(s')
    decreases |events|
  {
    if events != [] {
      StepSafe(s, events[0]);
      RunSafe(Apply(s, events[0]), events[1..], s');
    }
  }

  /** Whatever threads do, no element is lost or delivered twice, elements are delivered in order, and no wake-up is
      lost. */
  lemma AlwaysSafe(events: seq<Event>, s: State)
    requires Run(IDLE, events, s)
    ensures Accounted(s) && NoneForgotten(s)
  {
    RunSafe(IDLE, events, s);
  }

  // ---------- what a run does to the elements ----------

  /** What a step puts in, and what it takes out, if the queue holds `items` and has been stopped or not. */
  ghost function PutIn(stopped: bool, e: Event): seq<Element>
  {
    if e.Push? && !stopped then [e.element] else []
  }

  ghost function TakenOut(items: seq<Element>, stopped: bool, e: Event): (out: seq<Element>)
    ensures out <= items
  {
    if (e.PopEnter? || e.PopResume?) && !stopped && items != [] then [items[0]] else []
  }

  ghost function Left(items: seq<Element>, stopped: bool, e: Event): seq<Element>
  {
    if e.Stop? then [] else (items + PutIn(stopped, e))[|TakenOut(items, stopped, e)|..]
  }

  lemma StepMeans(s: State, e: Event)
    requires Enabled(s, e)
    ensures var s' := Apply(s, e);
            && s'.accepted == s.accepted + PutIn(s.stopped, e)
            && s'.delivered == s.delivered + TakenOut(s.items, s.stopped, e)
            && s'.cleared == s.cleared + (if e.Stop? then s.items else [])
            && s'.items == Left(s.items, s.stopped, e) && (s'.stopped <==> s.stopped || e.Stop?)
  {
  }

  /** What a queue without waiters lets in, and what it gives out, if the same calls are made one after another. */
  ghost function LetIn(stopped: bool, events: seq<Event>): seq<Element>
    decreases |events|
  {
    if events == [] then [] else PutIn(stopped, events[0]) + LetIn(stopped || events[0].Stop?, events[1..])
  }

  ghost function GivenOut(items: seq<Element>, stopped: bool, events: seq<Event>): seq<Element>
    decreases |events|
  {
    if events == [] then []
    else
      TakenOut(items, stopped, events[0])
      + GivenOut(Left(items, stopped, events[0]), stopped || events[0].Stop?, events[1..])
  }

  /** The waiters make no difference: what has been accepted are the elements that were pushed before the first stop, in
      their order, and what has been delivered is what a plain queue gives out. */
  lemma {:induction false} RunMeans(s: State, events: seq<Event>, s': State)
    requires Run(s, events, s')
    ensures s'.accepted == s.accepted + LetIn(s.stopped, events)
    ensures s'.delivered == s.delivered + GivenOut(s.items, s.stopped, events)
    decreases |events|
  {
    if events != [] {
      StepMeans(s, events[0]);
      RunMeans(Apply(s, events[0]), events[1..], s');
    }
  }

  /** After a stop nothing is accepted, and nothing is delivered. */
  lemma {:induction false} StoppedForEver(s: State, events: seq<Event>, s': State)
    requires Safe(s) && s.stopped && Run(s, events, s')
    ensures s'.stopped && s'.accepted == s.accepted && s'.delivered == s.delivered && s'.cleared == s.cleared
    decreases |events|
  {
    if events != [] {
      StepSafe(s, events[0]);
      assert Apply(s, events[0]).cleared == s.cleared;
      StoppedForEver(Apply(s, events[0]), events[1..], s');
    }
  }

  // ---------- progress ----------

  /** Signals arrive, and signalled consumers look again. */
  predicate Progress(s: State, e: Event)
  {
    match e
    case Signal(_) => true
    case PopResume(c) => c in s.awake
    case Broadcast => true
    case _ => false
  }

  predicate CanServe(s: State)
  {
    (s.stopped || s.items != []) && (s.asleep != {} || s.awake != {})
  }

  /** Such a step can be taken as long as a consumer waits although the queue has been stopped or is not empty. */
  lemma NeverStuck(s: State) returns (e: Event)
    requires Safe(s) && CanServe(s)
    ensures Enabled(s, e) && Progress(s, e)
  {
    if s.awake != {} {
      e := PopResume(Pick(s.awake));
    } else if s.stopped {
      e := Broadcast;
    } else {
      e := Signal(s.asleep);
    }
  }

  ghost function Work(s: State): nat
  {
    |s.asleep| + |s.awake| + s.signals + s.broadcasts
  }

  /** An upper bound for the steps of progress that are left. */
  ghost function Bound(s: State): nat
  {
    Sum(Work(s)) + |s.awake|
  }

  lemma ProgressBounded(s: State, e: Event)
    requires Safe(s) && Enabled(s, e) && Progress(s, e)
    ensures Bound(Apply(s, e)) < Bound(s)
  {
    var s' := Apply(s, e);
    match e {
      case Signal(woken) => WakeCards(s.asleep, s.awake, woken);
      case PopResume(c) =>
        CardDrop(s.awake, c);
        CardDrop(s.asleep, c);
        CardAdd(s.asleep - {c}, c);
      case Broadcast => CardUnion(s.awake, s.asleep);
    }
    SumLess(Work(s'), |s'.awake|, Work(s), |s.awake|);
  }

  ghost predicate ProgressRun(s: State, events: seq<Event>, s': State)
    decreases |events|
  {
    if events == [] then s == s'
    else Enabled(s, events[0]) && Progress(s, events[0]) && ProgressRun(Apply(s, events[0]), events[1..], s')
  }

  /** If nobody new comes, the queue settles: every run of such steps comes to an end, and if it cannot go on, consumers
      wait only for an empty queue.  After a stop, every one of them has been released. */
  lemma {:induction false} Settles(s: State, events: seq<Event>, s': State)
    requires Safe(s) && ProgressRun(s, events, s')
    ensures |events| + Bound(s') <= Bound(s)
    ensures (forall e :: !(Enabled(s', e) && Progress(s', e))) ==>
              s'.awake == {} && (s'.asleep != {} ==> !s'.stopped && s'.items == [])
    decreases |events|
  {
    if events != [] {
      StepSafe(s, events[0]);
      ProgressBounded(s, events[0]);
      Settles(Apply(s, events[0]), events[1..], s');
    } else {
      if CanServe(s) {
        var e := NeverStuck(s);
      }
      if s.awake != {} {
        assert Enabled(s, PopResume(Pick(s.awake)));
      }
    }
  }
}
