/** What a timing wheel stands for: timers in the order in which they were linked, each with the tick at which it is
    due.  The next one to expire is the first one of the least tick. */
module TimerQueues {
  import opened Dates
  import opened EmbeddedLists
  import opened PowersOfTwo

  /** A timer with its tick, the time when it was set and the delay it was given then. */
  datatype Entry = Entry(timer: Timer, tick: int, setAt: Date, delay: UInt32)

  ghost function TimersOf(q: seq<Entry>): set<Timer>
  {
    set e | e in q :: e.timer
  }

  function Removed(q: seq<Entry>, p: nat): seq<Entry>
    requires p < |q|
  {
    q[..p] + q[p + 1..]
  }

  ghost predicate DistinctTimers(q: seq<Entry>)
  {
    forall i, j :: 0 <= i < j < |q| ==> q[i].timer != q[j].timer
  }

  /** Every tick lies strictly between the current one and the one at which the wheel comes round again. */
  ghost predicate Window(q: seq<Entry>, current: int, m: int)
  {
    forall p :: 0 <= p < |q| ==> current < q[p].tick < current + m
  }

  ghost function IndexOf(q: seq<Entry>, timer: Timer): (p: nat)
    requires timer in TimersOf(q)
    ensures p < |q| && q[p].timer == timer
  {
    var p :| 0 <= p < |q| && q[p].timer == timer;
    p
  }

  lemma RemovedAt(q: seq<Entry>, p: nat)
    requires p < |q|
    ensures forall j :: 0 <= j < |q| - 1 ==> Removed(q, p)[j] == q[if j < p then j else j + 1]
  {
  }

  /** The timer of entry p has left the queue. */
  ghost predicate Detached(q: seq<Entry>, q': seq<Entry>, timer: Timer, p: nat)
  {
    p < |q| && timer == q[p].timer && q' == Removed(q, p) && TimersOf(q') == TimersOf(q) - {timer}
  }

  // ---------- buckets ----------

  /** The timers whose tick falls into bucket i of m. */
  ghost function Bucket(q: seq<Entry>, m: nat, i: int): (b: seq<Timer>)
    requires m > 0
    ensures forall t :: t in b ==> t in TimersOf(q)
  {
    if q == [] then [] else (if q[0].tick % m == i then [q[0].timer] else []) + Bucket(q[1..], m, i)
  }

  lemma {:induction false} BucketConcat(a: seq<Entry>, b: seq<Entry>, m: nat, i: int)
    requires m > 0
    ensures Bucket(a + b, m, i) == Bucket(a, m, i) + Bucket(b, m, i)
  {
    if a == [] {
      assert a + b == b;
    } else {
      assert (a + b)[1..] == a[1..] + b;
      BucketConcat(a[1..], b, m, i);
      var h := if a[0].tick % m == i then [a[0].timer] else [];
      assert Bucket(a + b, m, i) == h + (Bucket(a[1..], m, i) + Bucket(b, m, i));
    }
  }

  lemma BucketAppend(q: seq<Entry>, e: Entry, m: nat, i: int)
    requires m > 0
    ensures Bucket(q + [e], m, i) == if e.tick % m == i then Bucket(q, m, i) + [e.timer] else Bucket(q, m, i)
  {
    BucketConcat(q, [e], m, i);
    assert Bucket([e], m, i) == (if e.tick % m == i then [e.timer] else []) + Bucket([], m, i);
  }

  /** An entry stands in its bucket behind those before it in the queue. */
  ghost function Place(q: seq<Entry>, p: nat, m: nat): (k: nat)
    requires m > 0 && p < |q|
    ensures var b := Bucket(q, m, q[p].tick % m); k < |b| && b[k] == q[p].timer
  {
    var i := q[p].tick % m;
    BucketSplit(q, p, m, i);
    |Bucket(q[..p], m, i)|
  }

  lemma BucketSplit(q: seq<Entry>, p: nat, m: nat, i: int)
    requires m > 0 && p < |q|
    ensures Bucket(q, m, i) ==
            Bucket(q[..p], m, i) + (if q[p].tick % m == i then [q[p].timer] else []) + Bucket(q[p + 1..], m, i)
  {
    assert q == q[..p] + q[p..] && q[p..][1..] == q[p + 1..];
    BucketConcat(q[..p], q[p..], m, i);
  }

  lemma BucketRemoved(q: seq<Entry>, p: nat, m: nat, i: int)
    requires m > 0 && p < |q|
    ensures Bucket(Removed(q, p), m, i) ==
            if q[p].tick % m == i then Without(Bucket(q, m, i), Place(q, p, m)) else Bucket(q, m, i)
  {
    BucketSplit(q, p, m, i);
    BucketConcat(q[..p], q[p + 1..], m, i);
  }

  /** An element of a bucket comes from an entry of the queue, and the first one from the first such entry. */
  lemma {:induction false} BucketEntry(q: seq<Entry>, m: nat, i: int, k: nat) returns (p: nat)
    requires m > 0 && k < |Bucket(q, m, i)|
    ensures p < |q| && q[p].tick % m == i && q[p].timer == Bucket(q, m, i)[k]
    ensures k == 0 ==> Place(q, p, m) == 0 && forall p' :: 0 <= p' < p ==> q[p'].tick % m != i
    decreases |q|
  {
    if q[0].tick % m == i && k == 0 {
      p := 0;
    } else {
      var k' := if q[0].tick % m == i then k - 1 else k;
      var p' := BucketEntry(q[1..], m, i, k');
      p := p' + 1;
      if k == 0 {
        assert q[..p][1..] == q[1..][..p'];
        assert q[..p][0] == q[0];
      }
    }
  }

  lemma BucketEmpty(q: seq<Entry>, m: nat, i: int)
    requires m > 0
    ensures Bucket(q, m, i) == [] <==> forall p :: 0 <= p < |q| ==> q[p].tick % m != i
  {
    if Bucket(q, m, i) != [] {
      var p := BucketEntry(q, m, i, 0);
    } else {
      forall p | 0 <= p < |q|
        ensures q[p].tick % m != i
      {
        BucketSplit(q, p, m, i);
      }
    }
  }

  lemma BucketsDisjoint(q: seq<Entry>, m: nat, i: int, j: int, t: Timer)
    requires m > 0 && DistinctTimers(q) && i != j && t in Bucket(q, m, i)
    ensures t !in Bucket(q, m, j)
  {
    if t in Bucket(q, m, j) {
      var k :| 0 <= k < |Bucket(q, m, i)| && Bucket(q, m, i)[k] == t;
      var k' :| 0 <= k' < |Bucket(q, m, j)| && Bucket(q, m, j)[k'] == t;
      var p := BucketEntry(q, m, i, k);
      var p' := BucketEntry(q, m, j, k');
      assert false;
    }
  }

  /** The buckets hold what the queue says. */
  ghost predicate Matches(b: seq<seq<Timer>>, q: seq<Entry>, m: nat)
  {
    m > 0 && |b| == m && DistinctTimers(q) && forall i :: 0 <= i < m ==> b[i] == Bucket(q, m, i)
  }

  /** No timer is in two buckets. */
  ghost predicate Separated(b: seq<seq<Timer>>)
  {
    forall i, j, t :: 0 <= i < |b| && 0 <= j < |b| && i != j && t in b[i] ==> t !in b[j]
  }

  ghost predicate Among(b: seq<seq<Timer>>, all: set<Timer>)
  {
    forall i, t :: 0 <= i < |b| && t in b[i] ==> t in all
  }

  lemma MatchesMeans(b: seq<seq<Timer>>, q: seq<Entry>, m: nat)
    requires Matches(b, q, m)
    ensures Separated(b) && Among(b, TimersOf(q))
  {
    forall i, j, t | 0 <= i < |b| && 0 <= j < |b| && i != j && t in b[i]
      ensures t !in b[j]
    {
      BucketsDisjoint(q, m, i, j, t);
    }
  }

  /** Buckets are kept up to date by changing one of them. */
  lemma Appended(b: seq<seq<Timer>>, q: seq<Entry>, e: Entry, m: nat)
    requires Matches(b, q, m) && e.timer !in TimersOf(q)
    ensures var i := e.tick % m; Matches(b[i := b[i] + [e.timer]], q + [e], m)
    ensures TimersOf(q + [e]) == TimersOf(q) + {e.timer}
  {
    assert forall p :: 0 <= p < |q| ==> q[p].timer in TimersOf(q);
    forall t
      ensures t in TimersOf(q + [e]) <==> t in TimersOf(q) || t == e.timer
    {
      assert e in q + [e];
      assert forall e' :: e' in q + [e] <==> e' in q || e' == e;
    }
    forall i | 0 <= i < m
      ensures Bucket(q + [e], m, i) == if i == e.tick % m then b[i] + [e.timer] else b[i]
    {
      BucketAppend(q, e, m, i);
    }
  }

  lemma TakenAway(b: seq<seq<Timer>>, q: seq<Entry>, p: nat, m: nat)
    requires Matches(b, q, m) && p < |q|
    ensures var i := q[p].tick % m;
            Place(q, p, m) < |b[i]| && Matches(b[i := Without(b[i], Place(q, p, m))], Removed(q, p), m)
    ensures TimersOf(Removed(q, p)) == TimersOf(q) - {q[p].timer}
  {
    var q' := Removed(q, p);
    forall t | t in TimersOf(q) && t != q[p].timer
      ensures t in TimersOf(q')
    {
      var e :| e in q && e.timer == t;
      var n :| 0 <= n < |q| && q[n] == e;
      assert q'[if n < p then n else n - 1] == e;
    }
    forall i | 0 <= i < m
      ensures Bucket(q', m, i) == if i == q[p].tick % m then Without(b[i], Place(q, p, m)) else b[i]
    {
      BucketRemoved(q, p, m, i);
    }
  }

  /** A timer that keeps its place and its tick, but was set again. */
  lemma {:induction false} BucketSet(q: seq<Entry>, p: nat, e: Entry, m: nat, i: int)
    requires m > 0 && p < |q| && e.timer == q[p].timer && e.tick == q[p].tick
    ensures Bucket(q[p := e], m, i) == Bucket(q, m, i)
  {
    if p == 0 {
      assert q[p := e][1..] == q[1..];
    } else {
      assert q[p := e][1..] == q[1..][p - 1 := e];
      BucketSet(q[1..], p - 1, e, m, i);
    }
  }

  lemma SetAgain(b: seq<seq<Timer>>, q: seq<Entry>, p: nat, e: Entry, m: nat)
    requires Matches(b, q, m) && p < |q| && e.timer == q[p].timer && e.tick == q[p].tick
    ensures Matches(b, q[p := e], m) && TimersOf(q[p := e]) == TimersOf(q)
  {
    var q' := q[p := e];
    assert forall j :: 0 <= j < |q| ==> q'[j].timer == q[j].timer;
    forall t
      ensures t in TimersOf(q') <==> t in TimersOf(q)
    {
      assert t in TimersOf(q') <==> exists j :: 0 <= j < |q| && q'[j].timer == t;
      assert t in TimersOf(q) <==> exists j :: 0 <= j < |q| && q[j].timer == t;
    }
    forall i | 0 <= i < m
      ensures Bucket(q', m, i) == b[i]
    {
      BucketSet(q, p, e, m, i);
    }
  }

  /** Only bucket i and the ones behind it hold timers. */
  ghost predicate FromBucket(q: seq<Entry>, m: nat, i: int)
    requires m > 0
  {
    forall p :: 0 <= p < |q| ==> i <= q[p].tick % m
  }

  lemma RemovedFrom(q: seq<Entry>, p: nat, m: nat, i: int)
    requires p < |q| && m > 0 && FromBucket(q, m, i)
    ensures FromBucket(Removed(q, p), m, i)
  {
    RemovedAt(q, p);
  }

  lemma NextBucket(q: seq<Entry>, m: nat, i: int)
    requires m > 0 && FromBucket(q, m, i) && Bucket(q, m, i) == []
    ensures FromBucket(q, m, i + 1)
  {
    BucketEmpty(q, m, i);
  }

  lemma NoBucket(q: seq<Entry>, m: nat)
    requires m > 0 && FromBucket(q, m, m)
    ensures q == []
  {
    if q != [] {
      ResidueBelow(q[0].tick, m);
      assert false;
    }
  }

  lemma ResidueBelow(x: int, m: nat)
    requires m > 0
    ensures x % m < m
  {
  }

  lemma SameResidue(a: int, b: int, m: nat)
    requires m > 0 && a % m == b % m && a - b < m && b - a < m
    ensures a == b
  {
    var d := a / m - b / m;
    assert d * m == a - b;
    MulSmall(d, m);
  }

  // ---------- the next timer ----------

  /** Entry p has the least tick, and is the first one that has it. */
  ghost predicate IsNext(q: seq<Entry>, p: int)
  {
    0 <= p < |q| && forall j :: 0 <= j < |q| ==> q[p].tick <= q[j].tick && (j < p ==> q[p].tick < q[j].tick)
  }

  ghost function Next(q: seq<Entry>): (p: nat)
    requires q != []
    ensures IsNext(q, p)
    decreases |q|
  {
    var n := |q| - 1;
    if n == 0 then 0
    else
      var p := Next(q[..n]);
      if q[n].tick < q[p].tick then n else p
  }

  lemma NextUnique(q: seq<Entry>, p: nat)
    requires IsNext(q, p)
    ensures p == Next(q)
  {
    assert q[p].tick == q[Next(q)].tick;
  }

  ghost predicate SomeDue(q: seq<Entry>, now: int)
  {
    exists p :: 0 <= p < |q| && q[p].tick <= now
  }

  // ---------- the scan for it ----------

  /** The tick that turn n of the scan looks at. */
  function ScanTick(current: UInt32, n: nat): UInt32
  {
    if n == 0 then current else Wrap(ScanTick(current, n - 1) + 1)
  }

  lemma {:induction false} ScanTickIs(current: UInt32, n: nat)
    ensures ScanTick(current, n) == Wrap(current + n)
    decreases n
  {
    if n > 0 {
      ScanTickIs(current, n - 1);
      WrapAdd(current + n - 1);
    }
  }

  lemma WrapAdd(x: nat)
    ensures Wrap(Wrap(x) + 1) == Wrap(x + 1)
  {
  }

  lemma ScanTickSmall(current: UInt32, n: nat)
    requires current + n < WORD
    ensures ScanTick(current, n) == current + n
  {
    ScanTickIs(current, n);
  }

  /** The scan stops at a tick that is still to come, or at a bucket that holds a timer. */
  ghost predicate Stops(q: seq<Entry>, m: nat, now: UInt32, tick: UInt32)
    requires m > 0
  {
    tick > now || Bucket(q, m, tick % m) != []
  }

  /** Turn n is the one in which the scan stops. */
  ghost predicate LastTurn(q: seq<Entry>, m: nat, current: UInt32, now: UInt32, n: nat)
    requires m > 0
  {
    Stops(q, m, now, ScanTick(current, n)) && NoStop(q, m, current, now, n)
  }

  ghost predicate NoStop(q: seq<Entry>, m: nat, current: UInt32, now: UInt32, n: nat)
    requires m > 0
  {
    forall i :: 0 <= i < n ==> !Stops(q, m, now, ScanTick(current, i))
  }

  lemma OneMoreTurn(q: seq<Entry>, m: nat, current: UInt32, now: UInt32, n: nat, last: nat, tick: UInt32)
    requires m > 0 && NoStop(q, m, current, now, n) && tick == ScanTick(current, n) && !Stops(q, m, now, tick)
    requires n <= last && Stops(q, m, now, ScanTick(current, last))
    ensures NoStop(q, m, current, now, n + 1) && n < last && Wrap(tick + 1) == ScanTick(current, n + 1)
  {
  }

  lemma ScanStops(q: seq<Entry>, m: nat, current: UInt32, now: UInt32) returns (n: nat)
    requires 0 < m <= WORD && (now < WORD - 1 || q != [])
    ensures Stops(q, m, now, ScanTick(current, n))
  {
    if now < WORD - 1 {
      n := WORD - 1 - current;
      ScanTickSmall(current, n);
    } else {
      var r := q[0].tick % m;
      ResidueBelow(q[0].tick, m);
      n := WORD + r - current;
      ScanTickIs(current, n);
      OneRound(r);
      SmallResidue(r, m);
      BucketEmpty(q, m, r);
    }
  }

  lemma OneRound(r: nat)
    requires r < WORD
    ensures Wrap(WORD + r) == r
  {
  }

  lemma SmallResidue(r: nat, m: nat)
    requires r < m
    ensures r % m == r
  {
  }

  /** The scan ends, whatever the buckets hold, unless they are empty and every 32-bit tick has come. */
  lemma ScanEnds(q: seq<Entry>, m: nat, current: UInt32, now: UInt32)
    requires 0 < m <= WORD
    ensures (exists n: nat :: LastTurn(q, m, current, now, n)) <==> now < WORD - 1 || q != []
  {
    if now < WORD - 1 || q != [] {
      var n := ScanStops(q, m, current, now);
      n := FirstStop(q, m, current, now, n);
    }
  }

  lemma EmptyScan(m: nat, current: UInt32, n: nat)
    requires 0 < m <= WORD
    ensures !LastTurn([], m, current, WORD - 1, n)
  {
    ScanEnds([], m, current, WORD - 1);
  }

  lemma {:induction false} FirstStop(q: seq<Entry>, m: nat, current: UInt32, now: UInt32, k: nat) returns (n: nat)
    requires m > 0 && Stops(q, m, now, ScanTick(current, k))
    ensures LastTurn(q, m, current, now, n)
    decreases k
  {
    if i :| 0 <= i < k && Stops(q, m, now, ScanTick(current, i)) {
      n := FirstStop(q, m, current, now, i);
    } else {
      n := k;
    }
  }

  /** The wheel moves on to the tick of a timer that it has handed out if the bucket is empty now. */
  ghost function Moved(q: seq<Entry>, m: nat, current: UInt32, tick: UInt32): UInt32
    requires m > 0
  {
    if Bucket(q, m, tick % m) == [] then tick else current
  }

  /** Entry p is the first one in the bucket for tick `t`. */
  ghost predicate FirstIn(q: seq<Entry>, m: nat, t: nat, p: nat)
    requires m > 0
  {
    p < |q| && q[p].tick % m == t % m && forall j :: 0 <= j < p ==> q[j].tick % m != t % m
  }

  /** The scan stops in turn n at entry p. */
  ghost predicate Finds(q: seq<Entry>, m: nat, current: UInt32, now: UInt32, n: nat, p: nat)
    requires m > 0
  {
    && LastTurn(q, m, current, now, n) && ScanTick(current, n) <= now && FirstIn(q, m, ScanTick(current, n), p)
  }

  ghost predicate FindsNone(q: seq<Entry>, m: nat, current: UInt32, now: UInt32, n: nat)
    requires m > 0
  {
    LastTurn(q, m, current, now, n) && now < ScanTick(current, n)
  }

  /** The scan has come to each tick of the window in less than a round. */
  lemma StopsBefore(q: seq<Entry>, m: nat, current: UInt32, now: UInt32, n: nat, p: nat)
    requires m > 0 && current + m <= WORD && Window(q, current, m) && LastTurn(q, m, current, now, n) && p < |q|
    ensures current + n <= q[p].tick && ScanTick(current, n) == current + n
  {
    var i := q[p].tick - current;
    ScanTickSmall(current, i);
    BucketEmpty(q, m, q[p].tick % m);
    ScanTickSmall(current, if n <= i then n else i);
  }

  /** The first bucket with a timer in it holds the timers of one tick, and the first of them is next. */
  lemma ScanFinds(q: seq<Entry>, m: nat, current: UInt32, now: UInt32, n: nat, p: nat)
    requires m > 0 && current + m <= WORD && Window(q, current, m) && Finds(q, m, current, now, n, p)
    ensures IsNext(q, p) && q[p].tick == ScanTick(current, n) == current + n
    ensures forall j :: 0 <= j < |q| && q[j].tick % m == (current + n) % m ==> q[j].tick == current + n
  {
    forall j | 0 <= j < |q|
      ensures current + n <= q[j].tick && (q[j].tick % m == (current + n) % m ==> q[j].tick == current + n)
    {
      StopsBefore(q, m, current, now, n, j);
      if q[j].tick % m == (current + n) % m {
        SameResidue(q[j].tick, current + n, m);
      }
    }
    StopsBefore(q, m, current, now, n, p);
  }

  /** If it finds none, no timer is due. */
  lemma ScanFindsNone(q: seq<Entry>, m: nat, current: UInt32, now: UInt32, n: nat)
    requires m > 0 && current + m <= WORD && Window(q, current, m) && FindsNone(q, m, current, now, n)
    ensures !SomeDue(q, now)
  {
    forall p | 0 <= p < |q|
      ensures q[p].tick > now
    {
      StopsBefore(q, m, current, now, n, p);
    }
  }

  /** No timer is due a whole round of the wheel, or more, after `current`. */
  ghost predicate InReach(q: seq<Entry>, current: int, m: nat)
  {
    forall p :: 0 <= p < |q| ==> q[p].tick < current + m
  }

  /** A timer is taken at its tick exactly if that is in reach, and at an earlier tick if it is not. */
  lemma TakenAtItsTick(q: seq<Entry>, m: nat, current: UInt32, now: UInt32, n: nat, p: nat)
    requires m > 0 && Finds(q, m, current, now, n, p) && current + m <= WORD && current < q[p].tick
    ensures ScanTick(current, n) == current + n <= q[p].tick
    ensures current + n == q[p].tick <==> q[p].tick < current + m
  {
    var i := (q[p].tick - current) % m;
    ResidueBelow(q[p].tick - current, m);
    ResidueAfter(current, q[p].tick, m);
    ScanTickSmall(current, i);
    BucketEmpty(q, m, q[p].tick % m);
    assert n <= i;
    ScanTickSmall(current, n);
    SameResidue(current + i, current + n, m);
  }

  lemma LastTurnUnique(q: seq<Entry>, m: nat, current: UInt32, now: UInt32, n: nat, n': nat)
    requires m > 0 && LastTurn(q, m, current, now, n) && LastTurn(q, m, current, now, n')
    ensures n == n'
  {
  }

  /** A window of ten ticks at tick 100, and a timer for tick 105: a scan at tick 50 finds none, but one from 50 to 55
      takes the timer. */
  lemma FoundTooEarly(q: seq<Entry>)
    requires |q| == 1 && q[0].tick == 105
    ensures Window(q, 100, 10) && FindsNone(q, 10, 100, 50, 0) && Finds(q, 10, 50, 55, 5, 0)
  {
    forall i | 0 <= i <= 5
      ensures ScanTick(50, i) == 50 + i && (Bucket(q, 10, (50 + i) % 10) == [] <==> i < 5)
    {
      ScanTickSmall(50, i);
      BucketEmpty(q, 10, (50 + i) % 10);
    }
  }

  /** How far it is from `a` to the next number with the residue of `b`. */
  lemma ResidueAfter(a: nat, b: nat, m: nat)
    requires m > 0 && a < b
    ensures var i := (b - a) % m; (a + i) % m == b % m && i <= b - a && (i == b - a <==> b - a < m)
  {
    var d := b - a;
    assert d == d / m * m + d % m;
    AddMultiple(a + d % m, d / m, m);
    if d < m {
      SmallResidue(d, m);
    }
  }

  lemma AddMultiple(x: nat, k: nat, m: nat)
    requires m > 0
    ensures (x + k * m) % m == x % m
  {
    DivSplit(x, m);
    Distributed(x / m, k, m);
    ResidueBelow(x, m);
    MultipleMod(x / m + k, m, x % m);
  }

  lemma DivSplit(x: nat, m: nat)
    requires m > 0
    ensures x == x / m * m + x % m
  {
  }

  lemma Distributed(a: int, b: int, m: int)
    ensures (a + b) * m == a * m + b * m
  {
  }

  /** The bucket of the next timer is empty after it exactly if no other timer has its tick. */
  lemma NothingLeft(q: seq<Entry>, p: nat, m: nat, t: int)
    requires m > 0 && IsNext(q, p) && q[p].tick == t
    requires forall j :: 0 <= j < |q| && q[j].tick % m == t % m ==> q[j].tick == t
    ensures Bucket(Removed(q, p), m, t % m) == [] <==> !SomeDue(Removed(q, p), t)
  {
    var q' := Removed(q, p);
    RemovedAt(q, p);
    BucketEmpty(q', m, t % m);
  }

  /** The current tick after the next timer has been handed out. */
  ghost function After(q: seq<Entry>, current: UInt32): int
    requires q != []
  {
    var tick := q[Next(q)].tick;
    if SomeDue(Removed(q, Next(q)), tick) then current else tick
  }

  /** Whether the wheel stays in order when `nextExpired` is called at tick `now`: if a timer is due, unless the wheel
      moves on to its tick and that is too close to the end of all ticks; if none is, unless the new current tick is
      too late, or so early that some timer is a whole round away. */
  ghost predicate StaysInOrder(q: seq<Entry>, current: UInt32, m: nat, now: int, limit: int)
  {
    if SomeDue(q, now) then After(q, current) + m <= limit else now + m <= limit && InReach(q, now, m)
  }

  lemma FoundMeans(q: seq<Entry>, m: nat, current: UInt32, now: UInt32, n: nat, p: nat)
    requires m > 0 && current + m <= WORD && Window(q, current, m) && Finds(q, m, current, now, n, p)
    ensures p == Next(q) && q[p].tick <= now && SomeDue(q, now)
    ensures Moved(Removed(q, p), m, current, ScanTick(current, n)) == After(q, current)
  {
    ScanFinds(q, m, current, now, n, p);
    MovesOn(q, p, m, current, ScanTick(current, n));
  }

  lemma MovesOn(q: seq<Entry>, p: nat, m: nat, current: UInt32, t: UInt32)
    requires m > 0 && IsNext(q, p) && q[p].tick == t
    requires forall j :: 0 <= j < |q| && q[j].tick % m == t % m ==> q[j].tick == t
    ensures p == Next(q) && Moved(Removed(q, p), m, current, t) == After(q, current)
  {
    NextUnique(q, p);
    NothingLeft(q, p, m, t);
  }

  lemma FoundInOrder(q: seq<Entry>, m: nat, current: UInt32, limit: int)
    requires q != [] && Window(q, current, m)
    ensures Window(Removed(q, Next(q)), After(q, current), m) && InReach(Removed(q, Next(q)), After(q, current), m)
  {
    RemovedAt(q, Next(q));
  }

  // ---------- whole runs ----------

  /** All entries in the order in which they expire. */
  ghost function Drained(q: seq<Entry>): seq<Entry>
    decreases |q|
  {
    if q == [] then [] else [q[Next(q)]] + Drained(Removed(q, Next(q)))
  }

  ghost function WithTick(q: seq<Entry>, tick: int): seq<Entry>
  {
    if q == [] then [] else (if q[0].tick == tick then [q[0]] else []) + WithTick(q[1..], tick)
  }

  lemma {:induction false} WithTickConcat(a: seq<Entry>, b: seq<Entry>, tick: int)
    ensures WithTick(a + b, tick) == WithTick(a, tick) + WithTick(b, tick)
  {
    if a == [] {
      assert a + b == b;
    } else {
      assert (a + b)[1..] == a[1..] + b && (a + b)[0] == a[0];
      WithTickConcat(a[1..], b, tick);
      var h := if a[0].tick == tick then [a[0]] else [];
      assert WithTick(a + b, tick) == h + (WithTick(a[1..], tick) + WithTick(b, tick));
    }
  }

  lemma {:induction false} WithTickNone(q: seq<Entry>, tick: int)
    requires forall j :: 0 <= j < |q| ==> q[j].tick != tick
    ensures WithTick(q, tick) == []
  {
    if q != [] {
      WithTickNone(q[1..], tick);
    }
  }

  lemma RemovedMultiset(q: seq<Entry>, p: nat)
    requires p < |q|
    ensures multiset(q) == multiset{q[p]} + multiset(Removed(q, p))
  {
    assert q == q[..p] + [q[p]] + q[p + 1..];
  }

  /** Draining takes every entry, once. */
  lemma {:induction false} DrainedAll(q: seq<Entry>)
    ensures multiset(Drained(q)) == multiset(q)
    decreases |q|
  {
    if q != [] {
      DrainedAll(Removed(q, Next(q)));
      RemovedMultiset(q, Next(q));
    }
  }

  lemma SameElements(a: seq<Entry>, b: seq<Entry>, i: nat)
    requires multiset(a) == multiset(b) && i < |a|
    ensures a[i] in b
  {
    assert a[i] in multiset(b);
  }

  /** Timers expire in the order of their ticks, ... */
  lemma {:induction false} DrainedSorted(q: seq<Entry>)
    ensures forall i, j :: 0 <= i < j < |Drained(q)| ==> Drained(q)[i].tick <= Drained(q)[j].tick
    ensures forall e :: e in Drained(q) ==> e in q
    decreases |q|
  {
    if q != [] {
      DrainedSorted(Removed(q, Next(q)));
      var d := Drained(Removed(q, Next(q)));
      assert forall e :: e in Removed(q, Next(q)) ==> e in q;
      forall i, j | 0 <= i < j < |Drained(q)|
        ensures Drained(q)[i].tick <= Drained(q)[j].tick
      {
        assert d[j - 1] in q;
      }
    }
  }

  lemma FirstOfItsTick(q: seq<Entry>, p: nat, tick: int)
    requires IsNext(q, p)
    ensures WithTick(q, tick) == (if q[p].tick == tick then [q[p]] else []) + WithTick(Removed(q, p), tick)
  {
    assert q == q[..p] + ([q[p]] + q[p + 1..]);
    WithTickConcat(q[..p], [q[p]] + q[p + 1..], tick);
    WithTickConcat([q[p]], q[p + 1..], tick);
    WithTickConcat(q[..p], q[p + 1..], tick);
    if q[p].tick == tick {
      WithTickNone(q[..p], tick);
    }
    assert WithTick([q[p]], tick) == (if q[p].tick == tick then [q[p]] else []) + WithTick([], tick);
  }

  /** ... and timers of one tick in the order in which they were linked, each once. */
  lemma {:induction false} DrainedStable(q: seq<Entry>, tick: int)
    ensures WithTick(Drained(q), tick) == WithTick(q, tick)
    decreases |q|
  {
    if q != [] {
      var p := Next(q);
      DrainedStable(Removed(q, p), tick);
      FirstOfItsTick(q, p, tick);
      WithTickConcat([q[p]], Drained(Removed(q, p)), tick);
      assert WithTick([q[p]], tick) == (if q[p].tick == tick then [q[p]] else []) + WithTick([], tick);
    }
  }

  // ---------- draining up to a time ----------

  /** The entries that are not due yet. */
  ghost function Later(q: seq<Entry>, now: int): seq<Entry>
  {
    if q == [] then [] else (if q[0].tick > now then [q[0]] else []) + Later(q[1..], now)
  }

  lemma {:induction false} LaterConcat(a: seq<Entry>, b: seq<Entry>, now: int)
    ensures Later(a + b, now) == Later(a, now) + Later(b, now)
  {
    if a == [] {
      assert a + b == b;
    } else {
      assert (a + b)[1..] == a[1..] + b && (a + b)[0] == a[0];
      LaterConcat(a[1..], b, now);
      var h := if a[0].tick > now then [a[0]] else [];
      assert Later(a + b, now) == h + (Later(a[1..], now) + Later(b, now));
    }
  }

  lemma {:induction false} LaterAll(q: seq<Entry>, now: int)
    requires !SomeDue(q, now)
    ensures Later(q, now) == q
  {
    if q != [] {
      assert q == [q[0]] + q[1..];
      assert q[0].tick > now;
      forall j | 0 <= j < |q[1..]|
        ensures q[1..][j].tick > now
      {
        assert q[1..][j] == q[j + 1];
      }
      LaterAll(q[1..], now);
    }
  }

  lemma LaterRemoved(q: seq<Entry>, p: nat, now: int)
    requires p < |q| && q[p].tick <= now
    ensures Later(Removed(q, p), now) == Later(q, now)
  {
    assert q == q[..p] + ([q[p]] + q[p + 1..]);
    LaterConcat(q[..p], [q[p]] + q[p + 1..], now);
    LaterConcat([q[p]], q[p + 1..], now);
    LaterConcat(q[..p], q[p + 1..], now);
    assert Later([q[p]], now) == [] + Later([], now);
  }

  /** The timers of `expired` are the first ones of `d`, and these are due; the others are not, and are left. */
  ghost predicate Split(d: seq<Entry>, expired: seq<Timer>, left: seq<Entry>, now: int)
  {
    var k := |expired|;
    && k <= |d| && left == d[k..]
    && (forall i :: 0 <= i < k ==> expired[i] == d[i].timer && d[i].tick <= now)
    && (forall i :: 0 <= i < |left| ==> now < left[i].tick)
  }

  lemma SplitNone(d: seq<Entry>, now: int)
    requires forall i :: 0 <= i < |d| ==> now < d[i].tick
    ensures Split(d, [], d, now)
  {
  }

  lemma SplitMore(d: seq<Entry>, expired: seq<Timer>, left: seq<Entry>, now: int, e: Entry)
    requires Split(d, expired, left, now) && e.tick <= now
    ensures Split([e] + d, [e.timer] + expired, left, now)
  {
    assert ([e] + d)[|expired| + 1..] == d[|expired|..];
  }

  /** The timers of `q` that are due have been handed out in the order in which they expire, and `rest` is left. */
  ghost predicate HandedOut(q: seq<Entry>, expired: seq<Timer>, rest: seq<Entry>, now: int)
  {
    Split(Drained(q), expired, Drained(rest), now)
  }

  lemma NoneHandedOut(q: seq<Entry>, now: int)
    requires !SomeDue(q, now)
    ensures HandedOut(q, [], q, now) && Later(q, now) == q
  {
    LaterAll(q, now);
    DrainedLater(q, now);
    SplitNone(Drained(q), now);
  }

  lemma DrainedLater(q: seq<Entry>, now: int)
    requires !SomeDue(q, now)
    ensures forall i :: 0 <= i < |Drained(q)| ==> now < Drained(q)[i].tick
  {
    DrainedAll(q);
    forall i | 0 <= i < |Drained(q)|
      ensures now < Drained(q)[i].tick
    {
      SameElements(Drained(q), q, i);
    }
  }

  lemma OneMoreHandedOut(q: seq<Entry>, expired: seq<Timer>, rest: seq<Entry>, now: int)
    requires q != [] && q[Next(q)].tick <= now && HandedOut(Removed(q, Next(q)), expired, rest, now)
    ensures HandedOut(q, [q[Next(q)].timer] + expired, rest, now)
    ensures Later(Removed(q, Next(q)), now) == Later(q, now)
  {
    LaterRemoved(q, Next(q), now);
    SplitMore(Drained(Removed(q, Next(q))), expired, Drained(rest), now, q[Next(q)]);
  }

  lemma RestLater(q: seq<Entry>, expired: seq<Timer>, rest: seq<Entry>, now: int)
    requires HandedOut(q, expired, rest, now)
    ensures !SomeDue(rest, now)
  {
    var d := Drained(rest);
    DrainedAll(rest);
    forall p | 0 <= p < |rest|
      ensures now < rest[p].tick
    {
      SameElements(rest, d, p);
    }
  }
}
