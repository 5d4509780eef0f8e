/** The elements of an abstract syntax tree, the order of map keys, and the events that stand for an element. */
module AstElements {
  /** A character; strings may contain zeros, but nothing behind the first one is ever looked at. */
  type Char = x: int | 0 <= x < 256

  type Text = seq<Char>

  datatype Scalar = Str(text: Text) | Int(value: int) | Dec(decimal: real) | Bool(flag: bool)

  datatype Element =
    | Nil
    | Leaf(scalar: Scalar)
    | List(elements: seq<Element>)
    | Map(pairs: seq<Pair>)

  datatype Pair = Pair(key: Scalar, value: Element)

  predicate Container(e: Element)
  {
    e.List? || e.Map?
  }

  // ---------- keys ----------

  function Visible(t: Text): (v: Text)
    ensures |v| <= |t|
  {
    if t == [] || t[0] == 0 then [] else [t[0]] + Visible(t[1..])
  }

  /** Text without a zero is shown whole, and other text up to its first zero. */
  lemma {:induction false} VisibleMeans(t: Text)
    ensures var n := |Visible(t)|;
            && Visible(t) == t[..n] && (forall i :: 0 <= i < n ==> t[i] != 0) && (n < |t| ==> t[n] == 0)
  {
    if t != [] && t[0] != 0 {
      VisibleMeans(t[1..]);
      assert t == [t[0]] + t[1..];
    }
  }

  lemma {:induction false} VisibleTwice(t: Text)
    ensures Visible(Visible(t)) == Visible(t)
  {
    if t != [] && t[0] != 0 {
      VisibleTwice(t[1..]);
      assert Visible(t)[1..] == Visible(t[1..]);
    }
  }

  /** A scalar as the tree shows it. */
  function Shown(s: Scalar): Scalar
  {
    if s.Str? then Str(Visible(s.text)) else s
  }

  /** `strcmp` says less. */
  predicate TextLess(a: Text, b: Text)
  {
    b != [] && (a == [] || a[0] < b[0] || (a[0] == b[0] && TextLess(a[1..], b[1..])))
  }

  function TypeNumber(s: Scalar): int
  {
    match s
    case Str(_) => 3
    case Int(_) => 4
    case Dec(_) => 5
    case Bool(_) => 6
  }

  /** The comparator says less.  It knows no order between booleans. */
  predicate KeyLess(a: Scalar, b: Scalar)
  {
    if TypeNumber(a) != TypeNumber(b) then TypeNumber(a) < TypeNumber(b)
    else
      match a
      case Str(t) => TextLess(t, b.text)
      case Int(i) => i < b.value
      case Dec(r) => r < b.decimal
      case Bool(_) => true
  }

  /** Keys that cannot be in the same map. */
  predicate SameKey(a: Scalar, b: Scalar)
  {
    a == b || (a.Bool? && b.Bool?)
  }

  /** Text a comes first where the two differ first: there a has ended, or has the smaller character. */
  ghost predicate DiffersAt(a: Text, b: Text, i: nat)
  {
    i <= |a| && i < |b| && a[..i] == b[..i] && (i == |a| || a[i] < b[i])
  }

  lemma {:induction false} TextLessMeans(a: Text, b: Text)
    ensures TextLess(a, b) <==> exists i: nat :: DiffersAt(a, b, i)
  {
    if a == [] || b == [] || a[0] != b[0] {
      assert TextLess(a, b) ==> DiffersAt(a, b, 0);
      assert forall i: nat :: DiffersAt(a, b, i) && i > 0 ==> a[..i][0] == b[..i][0];
    } else {
      TextLessMeans(a[1..], b[1..]);
      if TextLess(a, b) {
        var i: nat :| DiffersAt(a[1..], b[1..], i);
        Behind(a, b, i);
      }
      if i: nat :| DiffersAt(a, b, i) {
        Behind(a, b, i - 1);
      }
    }
  }

  lemma Behind(a: Text, b: Text, i: nat)
    requires a != [] && b != [] && a[0] == b[0]
    ensures DiffersAt(a[1..], b[1..], i) <==> DiffersAt(a, b, i + 1)
  {
    if i < |a| && i + 1 < |b| {
      assert a[..i + 1] == [a[0]] + a[1..][..i] && b[..i + 1] == [b[0]] + b[1..][..i];
      assert a[1..][..i] == a[..i + 1][1..] && b[1..][..i] == b[..i + 1][1..];
    }
  }

  lemma {:induction false} TextOrder(a: Text, b: Text)
    ensures a == b || TextLess(a, b) || TextLess(b, a)
    ensures !(TextLess(a, b) && TextLess(b, a)) && !TextLess(a, a)
  {
    if a != [] && b != [] && a[0] == b[0] {
      TextOrder(a[1..], b[1..]);
      assert a == [a[0]] + a[1..] && b == [b[0]] + b[1..];
    }
    if a != [] {
      TextOrder(a[1..], a[1..]);
    }
  }

  lemma {:induction false} TextTransitive(a: Text, b: Text, c: Text)
    requires TextLess(a, b) && TextLess(b, c)
    ensures TextLess(a, c)
  {
    if a != [] && a[0] == b[0] == c[0] {
      TextTransitive(a[1..], b[1..], c[1..]);
    }
  }

  /** Strings come before integers, these before decimals, and these before booleans; within a type the value decides.
    */
  lemma KeysMean(a: Scalar, b: Scalar)
    ensures a.Str? ==> (KeyLess(a, b) <==> !b.Str? || exists i: nat :: DiffersAt(a.text, b.text, i))
    ensures a.Int? ==> (KeyLess(a, b) <==> b.Dec? || b.Bool? || (b.Int? && a.value < b.value))
    ensures a.Dec? ==> (KeyLess(a, b) <==> b.Bool? || (b.Dec? && a.decimal < b.decimal))
    ensures a.Bool? ==> (KeyLess(a, b) <==> b.Bool?)
  {
    if a.Str? && b.Str? {
      TextLessMeans(a.text, b.text);
    }
  }

  /** But for booleans, the comparator is a total order. */
  lemma KeyOrder(a: Scalar, b: Scalar)
    requires !SameKey(a, b)
    ensures KeyLess(a, b) <==> !KeyLess(b, a)
  {
    if a.Str? && b.Str? {
      TextOrder(a.text, b.text);
    }
  }

  lemma KeyTransitive(a: Scalar, b: Scalar, c: Scalar)
    requires KeyLess(a, b) && KeyLess(b, c)
    ensures KeyLess(a, c)
  {
    if a.Str? && b.Str? && c.Str? {
      TextTransitive(a.text, b.text, c.text);
    }
  }

  // ---------- maps ----------

  predicate HasKey(ps: seq<Pair>, k: Scalar)
  {
    exists i :: 0 <= i < |ps| && SameKey(ps[i].key, k)
  }

  ghost predicate Sorted(ps: seq<Pair>)
  {
    forall i, j :: 0 <= i < j < |ps| ==> !SameKey(ps[i].key, ps[j].key) && KeyLess(ps[i].key, ps[j].key)
  }

  /** A map with one more pair. */
  function Put(ps: seq<Pair>, k: Scalar, v: Element): seq<Pair>
  {
    if ps == [] || KeyLess(k, ps[0].key) then [Pair(k, v)] + ps else [ps[0]] + Put(ps[1..], k, v)
  }

  lemma {:induction false} PutMeans(ps: seq<Pair>, k: Scalar, v: Element)
    requires Sorted(ps) && !HasKey(ps, k)
    ensures Sorted(Put(ps, k, v))
    ensures forall p :: p in Put(ps, k, v) <==> p in ps || p == Pair(k, v)
  {
    if ps != [] {
      assert !SameKey(ps[0].key, k);
      if KeyLess(k, ps[0].key) {
        forall j | 0 <= j < |ps|
          ensures KeyLess(k, ps[j].key) && !SameKey(k, ps[j].key)
        {
          assert !SameKey(ps[j].key, k);
          if j > 0 {
            KeyTransitive(k, ps[0].key, ps[j].key);
          }
        }
      } else {
        assert forall i :: 0 <= i < |ps| - 1 ==> ps[1..][i] == ps[i + 1];
        PutMeans(ps[1..], k, v);
        var q := Put(ps[1..], k, v);
        KeyOrder(k, ps[0].key);
        forall j | 0 <= j < |q|
          ensures KeyLess(ps[0].key, q[j].key) && !SameKey(ps[0].key, q[j].key)
        {
          assert q[j] in q;
        }
        assert forall p :: p in ps <==> p == ps[0] || p in ps[1..];
      }
    }
  }

  /** A key larger than all others goes last. */
  lemma {:induction false} PutLast(ps: seq<Pair>, k: Scalar, v: Element)
    requires forall i :: 0 <= i < |ps| ==> KeyLess(ps[i].key, k) && !SameKey(ps[i].key, k)
    ensures Put(ps, k, v) == ps + [Pair(k, v)]
  {
    if ps != [] {
      KeyOrder(ps[0].key, k);
      PutLast(ps[1..], k, v);
    }
  }

  // ---------- events ----------

  datatype Event = MapStart | MapEnd | ListStart | ListEnd | Null | Value(scalar: Scalar)

  function Events(e: Element): seq<Event>
  {
    match e
    case Nil => [Null]
    case Leaf(s) => [Value(s)]
    case List(es) => [ListStart] + AllEvents(es) + [ListEnd]
    case Map(ps) => [MapStart] + PairEvents(ps) + [MapEnd]
  }

  function AllEvents(es: seq<Element>): seq<Event>
  {
    if es == [] then [] else AllEvents(es[..|es| - 1]) + Events(es[|es| - 1])
  }

  function PairEvents(ps: seq<Pair>): seq<Event>
  {
    if ps == [] then [] else PairEvents(ps[..|ps| - 1]) + OnePair(ps[|ps| - 1])
  }

  function OnePair(p: Pair): seq<Event>
  {
    [Value(p.key)] + Events(p.value)
  }

  lemma LastOfSum<T>(s: seq<T>, t: seq<T>)
    requires t != []
    ensures s + t != [] && (s + t)[..|s + t| - 1] == s + t[..|t| - 1] && (s + t)[|s + t| - 1] == t[|t| - 1]
  {
  }

  lemma Joined(a: seq<Event>, b: seq<Event>, c: seq<Event>)
    ensures (a + b) + c == a + (b + c)
  {
  }

  /** The events of a list are those of its elements, in their order. */
  lemma {:induction false} AllEventsAre(es: seq<Element>, fs: seq<Element>)
    ensures AllEvents(es + fs) == AllEvents(es) + AllEvents(fs)
    decreases |fs|
  {
    if fs == [] {
      assert es + fs == es;
    } else {
      var n := |fs| - 1;
      AllEventsAre(es, fs[..n]);
      LastOfSum(es, fs);
      Joined(AllEvents(es), AllEvents(fs[..n]), Events(fs[n]));
    }
  }

  /** The events of a map are those of its pairs, in their order, the key before the value. */
  lemma {:induction false} PairEventsAre(ps: seq<Pair>, qs: seq<Pair>)
    ensures PairEvents(ps + qs) == PairEvents(ps) + PairEvents(qs)
    decreases |qs|
  {
    if qs == [] {
      assert ps + qs == ps;
    } else {
      var n := |qs| - 1;
      PairEventsAre(ps, qs[..n]);
      LastOfSum(ps, qs);
      Joined(PairEvents(ps), PairEvents(qs[..n]), OnePair(qs[n]));
    }
  }

  lemma EventsAre(e: Element, p: Pair)
    ensures AllEvents([e]) == Events(e) && PairEvents([p]) == [Value(p.key)] + Events(p.value)
  {
    assert [e][..0] == [] && [p][..0] == [];
    assert AllEvents([]) == [] && PairEvents([]) == [];
  }

  // ---------- what a tree makes of an element ----------

  /** The keys of every map are distinct, as far as they are shown. */
  ghost predicate Good(e: Element)
  {
    match e
    case Nil => true
    case Leaf(_) => true
    case List(es) => forall i :: 0 <= i < |es| ==> Good(es[i])
    case Map(ps) =>
      && (forall i, j :: 0 <= i < j < |ps| ==> !SameKey(Shown(ps[i].key), Shown(ps[j].key)))
      && (forall i :: 0 <= i < |ps| ==> Good(ps[i].value))
  }

  ghost predicate NoBoolKeys(e: Element)
  {
    match e
    case Nil => true
    case Leaf(_) => true
    case List(es) => forall i :: 0 <= i < |es| ==> NoBoolKeys(es[i])
    case Map(ps) => forall i :: 0 <= i < |ps| ==> !ps[i].key.Bool? && NoBoolKeys(ps[i].value)
  }

  /** The element with its maps in order, and its strings cut. */
  function Canonical(e: Element): Element
  {
    match e
    case Nil => Nil
    case Leaf(s) => Leaf(Shown(s))
    case List(es) => List(AllCanonical(es))
    case Map(ps) => Map(PairsCanonical(ps))
  }

  function AllCanonical(es: seq<Element>): seq<Element>
  {
    if es == [] then [] else AllCanonical(es[..|es| - 1]) + [Canonical(es[|es| - 1])]
  }

  function PairsCanonical(ps: seq<Pair>): seq<Pair>
  {
    if ps == [] then []
    else
      var p := PairCanonical(ps[|ps| - 1]);
      Put(PairsCanonical(ps[..|ps| - 1]), p.key, p.value)
  }

  function PairCanonical(p: Pair): Pair
  {
    Pair(Shown(p.key), Canonical(p.value))
  }

  ghost predicate DistinctKeys(ps: seq<Pair>)
  {
    forall i, j :: 0 <= i < j < |ps| ==> !SameKey(Shown(ps[i].key), Shown(ps[j].key))
  }

  /** The keys of a map are the shown keys, in order. */
  lemma {:induction false} PairsMean(ps: seq<Pair>)
    requires DistinctKeys(ps)
    ensures Sorted(PairsCanonical(ps))
    ensures forall k :: HasKey(PairsCanonical(ps), k) <==> ShowsKey(ps, k)
    decreases |ps|
  {
    if ps != [] {
      var n := |ps| - 1;
      var c, p := PairsCanonical(ps[..n]), PairCanonical(ps[n]);
      PairsMean(ps[..n]);
      NewKey(ps);
      PutMeans(c, p.key, p.value);
      forall k
        ensures HasKey(Put(c, p.key, p.value), k) <==> ShowsKey(ps, k)
      {
        PutKeys(c, p.key, p.value, k);
        ShownKeys(ps, ps[..n], k);
      }
    }
  }

  /** A list keeps the order of its elements. */
  lemma {:induction false} ListKept(es: seq<Element>)
    ensures |AllCanonical(es)| == |es| && forall i :: 0 <= i < |es| ==> AllCanonical(es)[i] == Canonical(es[i])
    decreases |es|
  {
    if es != [] {
      ListKept(es[..|es| - 1]);
    }
  }

  /** A map keeps its pairs. */
  lemma {:induction false} PairsKept(ps: seq<Pair>)
    requires DistinctKeys(ps)
    ensures forall p :: p in PairsCanonical(ps) <==> exists i :: 0 <= i < |ps| && p == PairCanonical(ps[i])
    decreases |ps|
  {
    if ps != [] {
      var n := |ps| - 1;
      var c, q := PairsCanonical(ps[..n]), PairCanonical(ps[n]);
      PairsKept(ps[..n]);
      PairsMean(ps[..n]);
      NewKey(ps);
      PutMeans(c, q.key, q.value);
      forall p
        ensures p in PairsCanonical(ps) <==> exists i :: 0 <= i < |ps| && p == PairCanonical(ps[i])
      {
        if i :| 0 <= i < |ps| && p == PairCanonical(ps[i]) {
          assert i < n ==> ps[..n][i] == ps[i];
        }
        if i :| 0 <= i < n && p == PairCanonical(ps[..n][i]) {
          assert ps[..n][i] == ps[i];
        }
      }
    }
  }

  ghost predicate ShowsKey(ps: seq<Pair>, k: Scalar)
  {
    exists i :: 0 <= i < |ps| && SameKey(Shown(ps[i].key), k)
  }

  lemma NewKey(ps: seq<Pair>)
    requires ps != [] && DistinctKeys(ps)
    ensures !ShowsKey(ps[..|ps| - 1], Shown(ps[|ps| - 1].key))
  {
  }

  lemma PutKeys(c: seq<Pair>, k: Scalar, v: Element, k': Scalar)
    requires forall p :: p in Put(c, k, v) <==> p in c || p == Pair(k, v)
    ensures HasKey(Put(c, k, v), k') <==> HasKey(c, k') || SameKey(k, k')
  {
    var q := Put(c, k, v);
    if HasKey(q, k') {
      var i :| 0 <= i < |q| && SameKey(q[i].key, k');
      assert q[i] in q;
    }
    if HasKey(c, k') {
      var i :| 0 <= i < |c| && SameKey(c[i].key, k');
      assert c[i] in q;
    }
    if SameKey(k, k') {
      assert Pair(k, v) in q;
    }
  }

  lemma ShownKeys(ps: seq<Pair>, ps': seq<Pair>, k: Scalar)
    requires ps != [] && ps' == ps[..|ps| - 1]
    ensures ShowsKey(ps, k) <==> ShowsKey(ps', k) || SameKey(Shown(ps[|ps| - 1].key), k)
  {
    if ShowsKey(ps, k) {
      var i :| 0 <= i < |ps| && SameKey(Shown(ps[i].key), k);
      assert i < |ps'| ==> ps'[i] == ps[i];
    }
    if ShowsKey(ps', k) {
      var i :| 0 <= i < |ps'| && SameKey(Shown(ps'[i].key), k);
      assert ps'[i] == ps[i];
    }
  }

  // ---------- canonical elements ----------

  lemma ShownTwice(s: Scalar)
    ensures Shown(Shown(s)) == Shown(s)
  {
    if s.Str? {
      VisibleTwice(s.text);
    }
  }

  /** Strings are cut, and maps are in order and have distinct keys. */
  ghost predicate InOrder(e: Element)
  {
    match e
    case Nil => true
    case Leaf(s) => Shown(s) == s
    case List(es) => forall i :: 0 <= i < |es| ==> InOrder(es[i])
    case Map(ps) => Sorted(ps) && forall i :: 0 <= i < |ps| ==> Shown(ps[i].key) == ps[i].key && InOrder(ps[i].value)
  }

  lemma {:induction false} CanonicalInOrder(e: Element)
    requires Good(e)
    ensures InOrder(Canonical(e))
    decreases e, 1
  {
    match e
    case Nil =>
    case Leaf(s) => ShownTwice(s);
    case List(es) => AllInOrder(es);
    case Map(ps) =>
      PairsMean(ps);
      PairsInOrder(ps);
  }

  lemma {:induction false} AllInOrder(es: seq<Element>)
    requires forall i :: 0 <= i < |es| ==> Good(es[i])
    ensures |AllCanonical(es)| == |es| && forall i :: 0 <= i < |es| ==> InOrder(AllCanonical(es)[i])
    decreases es, 0
  {
    if es != [] {
      AllInOrder(es[..|es| - 1]);
      CanonicalInOrder(es[|es| - 1]);
    }
  }

  lemma {:induction false} PairsInOrder(ps: seq<Pair>)
    requires DistinctKeys(ps) && forall i :: 0 <= i < |ps| ==> Good(ps[i].value)
    ensures forall p :: p in PairsCanonical(ps) ==> Shown(p.key) == p.key && InOrder(p.value)
    decreases ps, 0
  {
    if ps != [] {
      var n := |ps| - 1;
      var c, p := PairsCanonical(ps[..n]), PairCanonical(ps[n]);
      PairsInOrder(ps[..n]);
      PairInOrder(ps[n]);
      PairsMean(ps[..n]);
      NewKey(ps);
      PutMeans(c, p.key, p.value);
    }
  }

  lemma {:induction false} PairInOrder(p: Pair)
    requires Good(p.value)
    ensures Shown(Shown(p.key)) == Shown(p.key) && InOrder(Canonical(p.value))
    decreases p, 0
  {
    ShownTwice(p.key);
    CanonicalInOrder(p.value);
  }

  /** Such an element is what it was made from. */
  lemma {:induction false} InOrderCanonical(e: Element)
    requires InOrder(e)
    ensures Canonical(e) == e && Good(e)
    decreases e, 1
  {
    match e
    case Nil =>
    case Leaf(s) =>
    case List(es) => AllStay(es);
    case Map(ps) => PairsStay(ps);
  }

  lemma SplitLast<T>(s: seq<T>)
    requires s != []
    ensures s == s[..|s| - 1] + [s[|s| - 1]]
  {
  }

  lemma {:induction false} AllStay(es: seq<Element>)
    requires forall i :: 0 <= i < |es| ==> InOrder(es[i])
    ensures AllCanonical(es) == es && forall i :: 0 <= i < |es| ==> Good(es[i])
    decreases es, 0
  {
    if es != [] {
      var n := |es| - 1;
      AllStay(es[..n]);
      InOrderCanonical(es[n]);
      SplitLast(es);
    }
  }

  lemma {:induction false} PairsStay(ps: seq<Pair>)
    requires Sorted(ps) && forall i :: 0 <= i < |ps| ==> Shown(ps[i].key) == ps[i].key && InOrder(ps[i].value)
    ensures PairsCanonical(ps) == ps && forall i :: 0 <= i < |ps| ==> Good(ps[i].value)
    decreases ps, 0
  {
    if ps != [] {
      var n := |ps| - 1;
      PairsStay(ps[..n]);
      PairStays(ps[n]);
      PutLast(ps[..n], ps[n].key, ps[n].value);
    }
  }

  lemma {:induction false} PairStays(p: Pair)
    requires Shown(p.key) == p.key && InOrder(p.value)
    ensures PairCanonical(p) == p && Good(p.value)
    decreases p, 0
  {
    InOrderCanonical(p.value);
  }
}
