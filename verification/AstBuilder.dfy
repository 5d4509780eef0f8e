/** The stack machine that turns events into an element.  What is on top of the stack says what comes next: a list takes
    an element, a map takes a key, and a key takes its value. */
module AstBuilder {
  import opened Errors
  import opened AstElements

  datatype Root = NoRoot | Root(element: Element)

  datatype State = State(stack: seq<Element>, root: Root, error: Error)

  const FRESH := State([], NoRoot, Success)

  /** A callback asks the parser to go on or to stop.  `Undefined` stands for a call that the code does not cater for:
      the end of a container that was never begun, or a second boolean key in a map. */
  datatype Outcome = Continue(state: State) | Break(state: State) | Undefined

  function Last(s: seq<Element>): Element
    requires s != []
  {
    s[|s| - 1]
  }

  function Rest(s: seq<Element>): seq<Element>
    requires s != []
  {
    s[..|s| - 1]
  }

  function Fails(st: State, error: Error): Outcome
  {
    Break(st.(error := error))
  }

  function AddLast(st: State, e: Element): State
    requires st.stack != [] && Last(st.stack).List?
  {
    st.(stack := Rest(st.stack) + [List(Last(st.stack).elements + [e])])
  }

  predicate HasBoolKey(ps: seq<Pair>)
  {
    exists i :: 0 <= i < |ps| && ps[i].key.Bool?
  }

  /** `insertKeyPair`: the key leaves the stack even if the map has it already. */
  ghost function InsertKeyPair(st: State, e: Element): Outcome
    requires st.stack != []
  {
    var top, st1 := Last(st.stack), st.(stack := Rest(st.stack));
    if !top.Leaf? then Fails(st, CannotParse)
    else if st1.stack == [] then Undefined
    else if !Last(st1.stack).Map? then Fails(st1, CannotParse)
    else
      var ps, k := Last(st1.stack).pairs, top.scalar;
      if k.Bool? && HasBoolKey(ps) then Undefined
      else if HasKey(ps, k) then Fails(st1, UniquenessViolation)
      else Continue(st1.(stack := Rest(st1.stack) + [Map(Put(ps, k, e))]))
  }

  ghost function InsertKeyOrValue(st: State, e: Element): Outcome
    requires st.stack != []
  {
    var top := Last(st.stack);
    if top.List? then Continue(AddLast(st, e))
    else if top.Map? then Continue(st.(stack := st.stack + [e]))
    else InsertKeyPair(st, e)
  }

  /** `onMapEnd` and `onListEnd`, for the element that was on top. */
  ghost function Close(st: State): Outcome
    requires st.stack != []
  {
    var e, st1 := Last(st.stack), st.(stack := Rest(st.stack));
    if st1.stack == [] then Continue(st1.(root := Root(e)))
    else if Last(st1.stack).List? then Continue(AddLast(st1, e))
    else
      match InsertKeyPair(st1, e)
      case Break(st2) => Break(st2.(stack := st2.stack + [e]))
      case other => other
  }

  ghost function Step(st: State, event: Event): Outcome
  {
    match event
    case MapStart => Continue(st.(stack := st.stack + [Map([])]))
    case ListStart => Continue(st.(stack := st.stack + [List([])]))
    case MapEnd =>
      if st.stack == [] then Undefined
      else if !Last(st.stack).Map? then Fails(st.(stack := Rest(st.stack)), CannotParse)
      else Close(st)
    case ListEnd =>
      if st.stack == [] then Undefined
      else if !Last(st.stack).List? then Fails(st.(stack := Rest(st.stack)), CannotParse)
      else Close(st)
    case Null =>
      if st.stack == [] || Last(st.stack).Nil? || Last(st.stack).Map? then Fails(st, CannotParse)
      else InsertKeyOrValue(st, Nil)
    case Value(s) =>
      if st.stack == [] || Last(st.stack).Nil? then Fails(st, CannotParse)
      else InsertKeyOrValue(st, Leaf(Shown(s)))
  }

  /** The parser stops at the first break. */
  ghost function Run(st: State, events: seq<Event>): Outcome
    decreases |events|
  {
    if events == [] then Continue(st)
    else
      match Run(st, events[..|events| - 1])
      case Continue(st1) => Step(st1, events[|events| - 1])
      case other => other
  }

  lemma {:induction false} RunConcat(st: State, a: seq<Event>, b: seq<Event>)
    ensures Run(st, a + b) == (if Run(st, a).Continue? then Run(Run(st, a).state, b) else Run(st, a))
    decreases |b|
  {
    if b == [] {
      assert a + b == a;
    } else {
      var b' := b[..|b| - 1];
      assert (a + b)[..|a + b| - 1] == a + b' && (a + b)[|a + b| - 1] == b[|b| - 1];
      RunConcat(st, a, b');
    }
  }

  lemma RunOne(st: State, event: Event)
    ensures Run(st, [event]) == Step(st, event)
  {
    assert [event][..0] == [];
    assert Run(st, []) == Continue(st);
  }

  // ---------- from an element to events and back ----------

  /** The element goes where the top of the stack says, which is not a map. */
  ghost predicate Takes(st: State)
  {
    st.stack != [] && (Last(st.stack).List? || Last(st.stack).Leaf?)
  }

  /** The outcome is to go on exactly if the element is good and can be put in its place, and then it is there. */
  ghost predicate Built(out: Outcome, st: State, e: Element)
    requires Takes(st)
  {
    BuiltAs(out, InsertKeyOrValue(st, Canonical(e)), Good(e), NoBoolKeys(e))
  }

  ghost predicate BuiltAs(out: Outcome, put: Outcome, good: bool, comparable: bool)
  {
    && (out.Continue? <==> good && put.Continue?) && (out.Continue? ==> out == put)
    && (good ==> SameFailure(out, put)) && (!good ==> Rejected(out, comparable))
  }

  /** A key came a second time.  If there are no boolean keys, the code knows. */
  ghost predicate Rejected(out: Outcome, comparable: bool)
  {
    if out.Undefined? then !comparable else out.Break? && out.state.error == UniquenessViolation
  }

  ghost predicate SameFailure(out: Outcome, put: Outcome)
  {
    (put.Undefined? ==> out.Undefined?) && (put.Break? ==> out.Break? && out.state.error == put.state.error)
  }

  /** The end of a container that was begun on top of the stack puts it where it belongs. */
  lemma CloseInserts(st: State, c: Element)
    requires Takes(st)
    ensures BuiltAs(Close(st.(stack := st.stack + [c])), InsertKeyOrValue(st, c), true, true)
  {
    var begun := st.(stack := st.stack + [c]);
    assert Rest(begun.stack) == st.stack && Last(begun.stack) == c;
  }

  lemma BuiltThen(out: Outcome, mid: Outcome, put: Outcome, good: bool, comparable: bool)
    requires BuiltAs(out, mid, good, comparable) && BuiltAs(mid, put, true, true)
    ensures BuiltAs(out, put, good, comparable)
  {
  }

  lemma {:induction false} BuildElement(st: State, e: Element)
    requires Takes(st)
    ensures Built(Run(st, Events(e)), st, e)
    decreases e, 2
  {
    if Container(e) {
      BuildContainer(st, e);
      CloseInserts(st, Canonical(e));
      BuiltThen(Run(st, Events(e)), Close(st.(stack := st.stack + [Canonical(e)])), InsertKeyOrValue(st, Canonical(e)),
                Good(e), NoBoolKeys(e));
    } else {
      RunOne(st, if e.Nil? then Null else Value(e.scalar));
    }
  }

  /** A container, at any place. */
  lemma {:induction false} BuildContainer(st: State, e: Element)
    requires Container(e)
    ensures var begun := st.(stack := st.stack + [Canonical(e)]);
            BuiltAs(Run(st, Events(e)), Close(begun), Good(e), NoBoolKeys(e))
    decreases e, 1
  {
    match e
    case List(es) =>
      var st1 := st.(stack := st.stack + [List([])]);
      BuildAll(st, es);
      RunOne(st, ListStart);
      RunConcat(st, [ListStart], AllEvents(es));
      Ends(st, [ListStart] + AllEvents(es), ListEnd);
    case Map(ps) =>
      BuildPairs(st, ps);
      RunOne(st, MapStart);
      RunConcat(st, [MapStart], PairEvents(ps));
      Ends(st, [MapStart] + PairEvents(ps), MapEnd);
  }

  lemma Ends(st: State, events: seq<Event>, end: Event)
    ensures Run(st, events + [end]) == if Run(st, events).Continue?
                                       then Step(Run(st, events).state, end) else Run(st, events)
  {
    RunConcat(st, events, [end]);
    if Run(st, events).Continue? {
      RunOne(Run(st, events).state, end);
    }
  }

  lemma {:induction false} BuildAll(st: State, es: seq<Element>)
    ensures var out := Run(st.(stack := st.stack + [List([])]), AllEvents(es));
            && (out.Continue? <==> forall i :: 0 <= i < |es| ==> Good(es[i]))
            && (out.Continue? || Rejected(out, NoBoolKeys(List(es))))
            && (out.Continue? ==> out.state == st.(stack := st.stack + [List(AllCanonical(es))]))
    decreases es, 0
  {
    var st1 := st.(stack := st.stack + [List([])]);
    if es == [] {
      assert Run(st1, AllEvents(es)) == Continue(st1);
    } else {
      var n := |es| - 1;
      BuildAll(st, es[..n]);
      AllSplit(es);
      RunConcat(st1, AllEvents(es[..n]), Events(es[n]));
      BuildNext(st, AllCanonical(es[..n]), es[n]);
    }
  }

  lemma AllSplit(es: seq<Element>)
    requires es != []
    ensures var n := |es| - 1;
            && ((forall i :: 0 <= i < |es| ==> Good(es[i]))
                <==> (forall i :: 0 <= i < n ==> Good(es[..n][i])) && Good(es[n]))
            && (NoBoolKeys(List(es)) ==> NoBoolKeys(List(es[..n])) && NoBoolKeys(es[n]))
  {
    var n := |es| - 1;
    var es' := es[..n];
    assert forall i :: 0 <= i < n ==> es'[i] == es[i];
  }

  lemma {:induction false} BuildNext(st: State, c: seq<Element>, e: Element)
    ensures var out := Run(st.(stack := st.stack + [List(c)]), Events(e));
            && (out.Continue? <==> Good(e)) && (out.Continue? || Rejected(out, NoBoolKeys(e)))
            && (out.Continue? ==> out.state == st.(stack := st.stack + [List(c + [Canonical(e)])]))
    decreases e, 3
  {
    var st1 := st.(stack := st.stack + [List(c)]);
    BuildElement(st1, e);
    assert Rest(st1.stack) == st.stack;
  }

  ghost predicate GoodPairs(ps: seq<Pair>)
  {
    DistinctKeys(ps) && forall i :: 0 <= i < |ps| ==> Good(ps[i].value)
  }

  lemma {:induction false} BuildPairs(st: State, ps: seq<Pair>)
    ensures var out := Run(st.(stack := st.stack + [Map([])]), PairEvents(ps));
            && (out.Continue? <==> GoodPairs(ps)) && (out.Continue? || Rejected(out, NoBoolKeys(Map(ps))))
            && (out.Continue? ==> out.state == st.(stack := st.stack + [Map(PairsCanonical(ps))]))
    decreases ps, 0
  {
    var st1 := st.(stack := st.stack + [Map([])]);
    if ps == [] {
      assert Run(st1, PairEvents(ps)) == Continue(st1);
    } else {
      var n := |ps| - 1;
      BuildPairs(st, ps[..n]);
      RunConcat(st1, PairEvents(ps[..n]), OnePair(ps[n]));
      GoodSplit(ps);
      if GoodPairs(ps[..n]) {
        PairsMean(ps[..n]);
        BuildPair(st, PairsCanonical(ps[..n]), ps[n]);
      }
    }
  }

  lemma GoodSplit(ps: seq<Pair>)
    requires ps != []
    ensures var n := |ps| - 1;
            && (GoodPairs(ps) <==> GoodPairs(ps[..n]) && Good(ps[n].value) && !ShowsKey(ps[..n], Shown(ps[n].key)))
            && (NoBoolKeys(Map(ps)) ==> NoBoolKeys(Map(ps[..n])) && !ps[n].key.Bool? && NoBoolKeys(ps[n].value))
  {
    var n := |ps| - 1;
    var ps' := ps[..n];
    assert forall i :: 0 <= i < n ==> ps'[i] == ps[i];
  }

  lemma {:induction false} BuildPair(st: State, c: seq<Pair>, p: Pair)
    ensures var st1 := st.(stack := st.stack + [Map(c)]);
            var out := Run(st1, OnePair(p));
            var k := PairCanonical(p);
            && (out.Continue? <==> Good(p.value) && !HasKey(c, k.key))
            && (out.Continue? || Rejected(out, !p.key.Bool? && NoBoolKeys(p.value)))
            && (out.Continue? ==> out.state == st.(stack := st.stack + [Map(Put(c, k.key, k.value))]))
    decreases p, 0
  {
    var st1 := st.(stack := st.stack + [Map(c)]);
    var k := Leaf(Shown(p.key));
    var st2 := st1.(stack := st1.stack + [k]);
    RunOne(st1, Value(p.key));
    RunConcat(st1, [Value(p.key)], Events(p.value));
    BuildElement(st2, p.value);
    assert Rest(st2.stack) == st1.stack && Rest(st1.stack) == st.stack;
    BoolKeys(c, Shown(p.key));
  }

  lemma BoolKeys(c: seq<Pair>, k: Scalar)
    ensures k.Bool? && HasBoolKey(c) ==> HasKey(c, k)
  {
    if k.Bool? && HasBoolKey(c) {
      var i :| 0 <= i < |c| && c[i].key.Bool?;
      assert SameKey(c[i].key, k);
    }
  }

  /** The events of a list or a map build it: the tree goes on to the end exactly if no map has a key twice, and then
      its stack is empty and its root is the element, with maps in order. */
  lemma BuildRoundTrip(e: Element)
    requires Container(e)
    ensures !Good(e) ==> Rejected(Run(FRESH, Events(e)), NoBoolKeys(e))
    ensures Good(e) ==> Run(FRESH, Events(e)) == Continue(State([], Root(Canonical(e)), Success))
  {
    BuildContainer(FRESH, e);
    var begun := FRESH.(stack := FRESH.stack + [Canonical(e)]);
    assert Rest(begun.stack) == [];
  }

  // ---------- traversal ----------

  /** What a listener's callback leaves behind, and whether it wants to hear more. */
  datatype Heard<S> = Going(state: S) | Stopped(state: S)

  type Listener<!S> = (S, Event) -> Heard<S>

  function Then<S>(f: Listener<S>, h: Heard<S>, event: Event): Heard<S>
  {
    if h.Going? then f(h.state, event) else h
  }

  /** The traversal of an element, for any callbacks. */
  function Traverse<S>(f: Listener<S>, h: Heard<S>, e: Element): Heard<S>
    decreases e
  {
    match e
    case Nil => Then(f, h, Null)
    case Leaf(s) => Then(f, h, Value(Shown(s)))
    case List(es) => Then(f, TraverseAll(f, Then(f, h, ListStart), es), ListEnd)
    case Map(ps) => Then(f, TraversePairs(f, Then(f, h, MapStart), ps), MapEnd)
  }

  function TraverseAll<S>(f: Listener<S>, h: Heard<S>, es: seq<Element>): Heard<S>
    decreases es
  {
    if es == [] then h else Traverse(f, TraverseAll(f, h, es[..|es| - 1]), es[|es| - 1])
  }

  function TraversePairs<S>(f: Listener<S>, h: Heard<S>, ps: seq<Pair>): Heard<S>
    decreases ps
  {
    if ps == [] then h else TraversePair(f, TraversePairs(f, h, ps[..|ps| - 1]), ps[|ps| - 1])
  }

  function TraversePair<S>(f: Listener<S>, h: Heard<S>, p: Pair): Heard<S>
    decreases p
  {
    Traverse(f, Then(f, h, Value(Shown(p.key))), p.value)
  }

  /** A listener that hears events one after the other, until it stops. */
  function Feed<S>(f: Listener<S>, h: Heard<S>, events: seq<Event>): Heard<S>
    decreases |events|
  {
    if events == [] then h else Then(f, Feed(f, h, events[..|events| - 1]), events[|events| - 1])
  }

  lemma {:induction false} FeedConcat<S>(f: Listener<S>, h: Heard<S>, a: seq<Event>, b: seq<Event>)
    ensures Feed(f, h, a + b) == Feed(f, Feed(f, h, a), b)
    decreases |b|
  {
    if b == [] {
      assert a + b == a;
    } else {
      var b' := b[..|b| - 1];
      assert (a + b)[..|a + b| - 1] == a + b' && (a + b)[|a + b| - 1] == b[|b| - 1];
      FeedConcat(f, h, a, b');
    }
  }

  lemma FeedOne<S>(f: Listener<S>, h: Heard<S>, event: Event)
    ensures Feed(f, h, [event]) == Then(f, h, event)
  {
    assert [event][..0] == [];
    assert Feed(f, h, []) == h;
  }

  /** Whatever the callbacks do, the traversal of an element with its maps in order is one call for each of its events,
      in their order, up to the first call that says to stop. */
  lemma {:induction false} TraverseEmits<S>(f: Listener<S>, h: Heard<S>, e: Element)
    requires InOrder(e)
    ensures Traverse(f, h, e) == Feed(f, h, Events(e))
    decreases e, 1
  {
    match e
    case Nil => FeedOne(f, h, Null);
    case Leaf(s) => FeedOne(f, h, Value(s));
    case List(es) =>
      AllEmit(f, Then(f, h, ListStart), es);
      Bracketed(f, h, ListStart, AllEvents(es), ListEnd);
    case Map(ps) =>
      PairsEmit(f, Then(f, h, MapStart), ps);
      Bracketed(f, h, MapStart, PairEvents(ps), MapEnd);
  }

  lemma Bracketed<S>(f: Listener<S>, h: Heard<S>, first: Event, events: seq<Event>, last: Event)
    ensures Feed(f, h, [first] + events + [last]) == Then(f, Feed(f, Then(f, h, first), events), last)
  {
    FeedConcat(f, h, [first] + events, [last]);
    FeedConcat(f, h, [first], events);
    FeedOne(f, h, first);
    FeedOne(f, Feed(f, h, [first] + events), last);
  }

  lemma {:induction false} AllEmit<S>(f: Listener<S>, h: Heard<S>, es: seq<Element>)
    requires forall i :: 0 <= i < |es| ==> InOrder(es[i])
    ensures TraverseAll(f, h, es) == Feed(f, h, AllEvents(es))
    decreases es, 0
  {
    if es != [] {
      var n := |es| - 1;
      AllEmit(f, h, es[..n]);
      TraverseEmits(f, TraverseAll(f, h, es[..n]), es[n]);
      FeedConcat(f, h, AllEvents(es[..n]), Events(es[n]));
    }
  }

  lemma {:induction false} PairsEmit<S>(f: Listener<S>, h: Heard<S>, ps: seq<Pair>)
    requires forall i :: 0 <= i < |ps| ==> Shown(ps[i].key) == ps[i].key && InOrder(ps[i].value)
    ensures TraversePairs(f, h, ps) == Feed(f, h, PairEvents(ps))
    decreases ps, 0
  {
    if ps != [] {
      var n := |ps| - 1;
      PairsEmit(f, h, ps[..n]);
      PairEmits(f, TraversePairs(f, h, ps[..n]), ps[n]);
      FeedConcat(f, h, PairEvents(ps[..n]), OnePair(ps[n]));
    }
  }

  lemma {:induction false} PairEmits<S>(f: Listener<S>, h: Heard<S>, p: Pair)
    requires Shown(p.key) == p.key && InOrder(p.value)
    ensures TraversePair(f, h, p) == Feed(f, h, OnePair(p))
    decreases p, 0
  {
    TraverseEmits(f, Then(f, h, Value(p.key)), p.value);
    FeedOne(f, h, Value(p.key));
    FeedConcat(f, h, [Value(p.key)], Events(p.value));
  }

  /** A listener that writes down what it hears, up to `most` events. */
  function Record(most: nat): Listener<seq<Event>>
  {
    (heard: seq<Event>, event: Event) =>
      if |heard| + 1 < most then Going(heard + [event]) else Stopped(heard + [event])
  }

  lemma {:induction false} Recorded(most: nat, events: seq<Event>)
    requires most > 0
    ensures Feed(Record(most), Going([]), events)
         == if |events| < most then Going(events) else Stopped(events[..most])
    decreases |events|
  {
    if events != [] {
      var n := |events| - 1;
      Recorded(most, events[..n]);
      assert events == events[..n] + [events[n]];
      if |events| > most {
        assert events[..n][..most] == events[..most];
      } else {
        assert events[..|events|] == events;
      }
    }
  }

  /** The calls of a traversal are the events of the element, and none comes after the one that stops it. */
  lemma TraverseRecords(most: nat, e: Element)
    requires most > 0 && InOrder(e)
    ensures var events := Events(e);
            Traverse(Record(most), Going([]), e) == if |events| < most then Going(events) else Stopped(events[..most])
  {
    TraverseEmits(Record(most), Going([]), e);
    Recorded(most, Events(e));
  }

  /** A tree as a listener. */
  ghost function Hear(out: Outcome, event: Event): Heard<Outcome>
  {
    if out.Continue? then AsHeard(Step(out.state, event)) else Stopped(out)
  }

  ghost function AsHeard(out: Outcome): Heard<Outcome>
  {
    if out.Continue? then Going(out) else Stopped(out)
  }

  lemma {:induction false} FeedTree(st: State, events: seq<Event>)
    ensures Feed(Hear, Going(Continue(st)), events) == AsHeard(Run(st, events))
    decreases |events|
  {
    if events != [] {
      FeedTree(st, events[..|events| - 1]);
    }
  }

  /** What a tree has built, it shows to another tree, which builds the same. */
  lemma TraverseRoundTrip(e: Element)
    requires Container(e) && Good(e)
    ensures Run(FRESH, Events(e)) == Continue(State([], Root(Canonical(e)), Success))
    ensures Traverse(Hear, Going(Continue(FRESH)), Canonical(e)) ==
            Going(Continue(State([], Root(Canonical(e)), Success)))
  {
    CanonicalInOrder(e);
    TraverseEmits(Hear, Going(Continue(FRESH)), Canonical(e));
    FeedTree(FRESH, Events(Canonical(e)));
    InOrderCanonical(Canonical(e));
    BuildRoundTrip(e);
    BuildRoundTrip(Canonical(e));
  }

  // ---------- from events to an element ----------

  /** The events so far of an element on the stack. */
  function Begun(e: Element): seq<Event>
  {
    match e
    case Nil => []
    case Leaf(s) => [Value(s)]
    case List(es) => [ListStart] + AllEvents(es)
    case Map(ps) => [MapStart] + PairEvents(ps)
  }

  function AllBegun(es: seq<Element>): seq<Event>
  {
    if es == [] then [] else AllBegun(es[..|es| - 1]) + Begun(es[|es| - 1])
  }

  /** The stack holds these elements, in the order in which their parts came. */
  ghost predicate Holds(stack: seq<Element>, es: seq<Element>)
  {
    |stack| == |es| && forall i :: 0 <= i < |es| ==> stack[i] == Canonical(es[i]) && Good(es[i])
  }

  lemma BegunMore(es: seq<Element>, e: Element)
    ensures AllBegun(es + [e]) == AllBegun(es) + Begun(e)
  {
    assert (es + [e])[..|es|] == es;
  }

  lemma AllMore(es: seq<Element>, e: Element)
    ensures AllEvents(es + [e]) == AllEvents(es) + Events(e)
    ensures AllCanonical(es + [e]) == AllCanonical(es) + [Canonical(e)]
  {
    assert (es + [e])[..|es|] == es;
  }

  lemma PairsMore(ps: seq<Pair>, p: Pair)
    ensures PairEvents(ps + [p]) == PairEvents(ps) + OnePair(p)
    ensures PairsCanonical(ps + [p]) == Put(PairsCanonical(ps), Shown(p.key), Canonical(p.value))
  {
    assert (ps + [p])[..|ps|] == ps;
  }

  lemma GoodMore(ps: seq<Pair>, p: Pair)
    requires GoodPairs(ps) && Good(p.value) && !HasKey(PairsCanonical(ps), Shown(p.key))
    ensures GoodPairs(ps + [p])
  {
    PairsMean(ps);
    var ps' := ps + [p];
    assert ps'[..|ps'| - 1] == ps;
    GoodSplit(ps');
  }

  lemma ElementsMore(es: seq<Element>, e: Element)
    requires Good(List(es)) && Good(e)
    ensures Good(List(es + [e]))
  {
  }

  lemma BegunList(base: seq<Element>, es: seq<Element>, e: Element)
    ensures AllBegun(base + [List(es + [e])]) == AllBegun(base + [List(es)]) + Events(e)
  {
    AllMore(es, e);
    BegunMore(base, List(es + [e]));
    BegunMore(base, List(es));
    Associate(AllBegun(base), [ListStart], AllEvents(es), Events(e));
  }

  lemma Associate(a: seq<Event>, b: seq<Event>, c: seq<Event>, d: seq<Event>)
    ensures a + (b + (c + d)) == (a + (b + c)) + d
  {
  }

  lemma BegunMap(base: seq<Element>, ps: seq<Pair>, p: Pair)
    ensures AllBegun(base + [Map(ps + [p])]) == AllBegun(base + [Map(ps)] + [Leaf(p.key)]) + Events(p.value)
  {
    PairsMore(ps, p);
    BegunMore(base, Map(ps + [p]));
    BegunMore(base, Map(ps));
    BegunMore(base + [Map(ps)], Leaf(p.key));
    Associate(AllBegun(base), [MapStart], PairEvents(ps), OnePair(p));
    Regroup(AllBegun(base + [Map(ps)]), [Value(p.key)], Events(p.value));
  }

  lemma Regroup(a: seq<Event>, b: seq<Event>, c: seq<Event>)
    ensures a + (b + c) == (a + b) + c
  {
  }

  /** The list on top gets one more element. */
  lemma ListGrows(hs: seq<Element>, e: Element) returns (hs': seq<Element>)
    requires hs != [] && Last(hs).List? && Good(Last(hs)) && Good(e)
    ensures hs' == Rest(hs) + [List(Last(hs).elements + [e])]
    ensures AllBegun(hs') == AllBegun(hs) + Events(e) && Good(Last(hs'))
    ensures Canonical(Last(hs')) == List(Canonical(Last(hs)).elements + [Canonical(e)])
  {
    var es := Last(hs).elements;
    hs' := Rest(hs) + [List(es + [e])];
    assert hs == Rest(hs) + [List(es)];
    BegunList(Rest(hs), es, e);
    AllMore(es, e);
    ElementsMore(es, e);
  }

  /** The key on top gets its value, and both go into the map below. */
  lemma MapGrows(hs: seq<Element>, e: Element) returns (hs': seq<Element>)
    requires |hs| >= 2 && Last(hs).Leaf? && Last(Rest(hs)).Map? && Good(Last(Rest(hs))) && Good(e)
    requires !HasKey(Canonical(Last(Rest(hs))).pairs, Shown(Last(hs).scalar))
    ensures var p := Pair(Last(hs).scalar, e);
            && hs' == Rest(Rest(hs)) + [Map(Last(Rest(hs)).pairs + [p])]
            && AllBegun(hs') == AllBegun(hs) + Events(e) && Good(Last(hs'))
            && Canonical(Last(hs')) == Map(Put(Canonical(Last(Rest(hs))).pairs, Shown(p.key), Canonical(e)))
  {
    var ps, p := Last(Rest(hs)).pairs, Pair(Last(hs).scalar, e);
    hs' := Rest(Rest(hs)) + [Map(ps + [p])];
    assert hs == Rest(Rest(hs)) + [Map(ps)] + [Leaf(p.key)];
    BegunMap(Rest(Rest(hs)), ps, p);
    PairsMore(ps, p);
    GoodMore(ps, p);
  }

  /** Holding goes element by element. */
  lemma HoldsRest(stack: seq<Element>, hs: seq<Element>)
    requires Holds(stack, hs) && hs != []
    ensures Last(stack) == Canonical(Last(hs)) && Good(Last(hs)) && Holds(Rest(stack), Rest(hs))
  {
  }

  lemma HoldsMore(stack: seq<Element>, hs: seq<Element>, e: Element)
    requires Holds(stack, hs) && Good(e)
    ensures Holds(stack + [Canonical(e)], hs + [e])
  {
  }

  lemma PlacedInList(st: State, hs: seq<Element>, e: Element) returns (hs': seq<Element>)
    requires Holds(st.stack, hs) && st.stack != [] && Last(st.stack).List? && Good(e)
    ensures Holds(AddLast(st, Canonical(e)).stack, hs') && AllBegun(hs') == AllBegun(hs) + Events(e)
  {
    HoldsRest(st.stack, hs);
    hs' := ListGrows(hs, e);
    HoldsMore(Rest(st.stack), Rest(hs), Last(hs'));
  }

  lemma PlacedInMap(st: State, hs: seq<Element>, e: Element) returns (hs': seq<Element>)
    requires Holds(st.stack, hs) && st.stack != [] && Last(st.stack).Leaf? && Good(e)
    requires InsertKeyPair(st, Canonical(e)).Continue?
    ensures Holds(InsertKeyPair(st, Canonical(e)).state.stack, hs') && AllBegun(hs') == AllBegun(hs) + Events(e)
  {
    HoldsRest(st.stack, hs);
    HoldsRest(Rest(st.stack), Rest(hs));
    hs' := MapGrows(hs, e);
    HoldsMore(Rest(Rest(st.stack)), Rest(Rest(hs)), Last(hs'));
  }

  lemma Placed(st: State, hs: seq<Element>, e: Element) returns (hs': seq<Element>)
    requires Holds(st.stack, hs) && Takes(st) && Good(e) && InsertKeyOrValue(st, Canonical(e)).Continue?
    ensures Holds(InsertKeyOrValue(st, Canonical(e)).state.stack, hs') && AllBegun(hs') == AllBegun(hs) + Events(e)
  {
    if Last(st.stack).List? {
      hs' := PlacedInList(st, hs, e);
    } else {
      hs' := PlacedInMap(st, hs, e);
    }
  }

  /** A step that goes on adds its event to the events that the stack stands for. */
  lemma StepMeans(st: State, event: Event, hs: seq<Element>) returns (hs': seq<Element>)
    requires Holds(st.stack, hs) && Step(st, event).Continue? && Step(st, event).state.stack != []
    ensures Holds(Step(st, event).state.stack, hs') && AllBegun(hs') == AllBegun(hs) + [event]
  {
    match event
    case MapStart =>
      BegunMore(hs, Map([]));
      hs' := hs + [Map([])];
    case ListStart =>
      BegunMore(hs, List([]));
      hs' := hs + [List([])];
    case MapEnd => hs' := CloseMeans(st, event, hs);
    case ListEnd => hs' := CloseMeans(st, event, hs);
    case Null => hs' := Placed(st, hs, Nil);
    case Value(s) =>
      if Last(st.stack).Map? {
        BegunMore(hs, Leaf(s));
        hs' := hs + [Leaf(s)];
      } else {
        hs' := Placed(st, hs, Leaf(s));
      }
  }

  lemma CloseMeans(st: State, event: Event, hs: seq<Element>) returns (hs': seq<Element>)
    requires Holds(st.stack, hs) && (event.MapEnd? || event.ListEnd?)
    requires Step(st, event).Continue? && Step(st, event).state.stack != []
    ensures Holds(Step(st, event).state.stack, hs') && AllBegun(hs') == AllBegun(hs) + [event]
  {
    var e := Last(hs);
    var st1 := st.(stack := Rest(st.stack));
    assert Last(st.stack) == Canonical(e);
    hs' := Placed(st1, Rest(hs), e);
    assert AllBegun(hs) == AllBegun(Rest(hs)) + Begun(e);
    assert Events(e) == Begun(e) + [event];
  }

  /** The first k events leave something on the stack. */
  ghost predicate StaysOpen(events: seq<Event>)
  {
    forall k :: 0 < k < |events| ==> Run(FRESH, events[..k]).Continue? ==> Run(FRESH, events[..k]).state.stack != []
  }

  lemma {:induction false} RunMeans(events: seq<Event>) returns (hs: seq<Element>)
    requires Run(FRESH, events).Continue? && StaysOpen(events)
    requires events != [] ==> Run(FRESH, events).state.stack != []
    ensures Holds(Run(FRESH, events).state.stack, hs) && AllBegun(hs) == events
    decreases |events|
  {
    if events == [] {
      hs := [];
    } else {
      var n := |events| - 1;
      PrefixOpen(events, n);
      var hs0 := RunMeans(events[..n]);
      hs := StepMeans(Run(FRESH, events[..n]).state, events[n], hs0);
      SplitLast(events);
    }
  }

  lemma PrefixOpen(events: seq<Event>, n: nat)
    requires StaysOpen(events) && n < |events|
    ensures StaysOpen(events[..n])
  {
    forall k | 0 < k < n
      ensures Run(FRESH, events[..n][..k]).Continue? ==> Run(FRESH, events[..n][..k]).state.stack != []
    {
      assert events[..n][..k] == events[..k];
    }
  }

  /** Any events that the tree accepts, and that empty its stack for the first time, are the events of some list or map
      with distinct keys, and this is the root, with maps in order. */
  lemma AcceptedMeans(events: seq<Event>) returns (e: Element)
    requires events != [] && Run(FRESH, events).Continue? && Run(FRESH, events).state.stack == [] && StaysOpen(events)
    ensures Container(e) && Good(e) && Events(e) == events && Run(FRESH, events).state.root == Root(Canonical(e))
  {
    var n := |events| - 1;
    PrefixOpen(events, n);
    SplitLast(events);
    var hs := RunMeans(events[..n]);
    e := ClosedMeans(Run(FRESH, events[..n]).state, events[n], hs);
  }

  lemma ClosedMeans(st: State, event: Event, hs: seq<Element>) returns (e: Element)
    requires Holds(st.stack, hs) && Step(st, event).Continue? && Step(st, event).state.stack == []
    ensures Container(e) && Good(e) && Events(e) == AllBegun(hs) + [event]
    ensures Step(st, event).state.root == Root(Canonical(e))
  {
    e := Last(hs);
    assert Last(st.stack) == Canonical(e) && Rest(hs) == [];
    assert AllBegun(hs) == AllBegun(Rest(hs)) + Begun(e);
    assert Events(e) == Begun(e) + [event];
  }
}
