/** How dates and delays become ticks, and how far a timer can be off its time. */
module WheelTicks {
  import opened PowersOfTwo
  import opened Dates

  // ---------- division ----------

  /** Unsigned division, which `QuotientMeans` ties to `/`.  This form spares the proofs the arithmetic of `/`. */
  function Quotient(x: nat, m: nat): (q: nat)
    requires m > 0
    ensures q <= x
    decreases x
  {
    if x < m then 0 else 1 + Quotient(x - m, m)
  }

  lemma {:induction false} QuotientBounds(x: nat, m: nat)
    requires m > 0
    ensures Quotient(x, m) * m <= x < Quotient(x, m) * m + m
    decreases x
  {
    if x >= m {
      QuotientBounds(x - m, m);
      OneMore(Quotient(x - m, m), m);
    }
  }

  lemma QuotientMeans(x: nat, m: nat)
    requires m > 0
    ensures Quotient(x, m) == x / m
  {
    var q := Quotient(x, m);
    QuotientBounds(x, m);
    MultipleMod(q, m, x - q * m);
  }

  /** A product that stays below the next multiple. */
  lemma NextMultiple(a: int, q: int, m: int)
    requires m > 0 && a * m < q * m + m
    ensures a <= q
  {
    OneMore(q, m);
    MulCancel(a, q + 1, m);
  }

  lemma QuotientMonotone(x: nat, y: nat, m: nat)
    requires m > 0 && x <= y
    ensures Quotient(x, m) <= Quotient(y, m)
  {
    QuotientBounds(x, m);
    QuotientBounds(y, m);
    NextMultiple(Quotient(x, m), Quotient(y, m), m);
  }

  lemma Distribute(x: int, y: int, m: int)
    ensures (x + y) * m == x * m + y * m
  {
  }

  /** Rounding down twice and adding falls short by less than two. */
  lemma QuotientSum(x: nat, y: nat, m: nat)
    requires m > 0
    ensures x + y - 2 * m + 1 < (Quotient(x, m) + Quotient(y, m)) * m <= x + y
    ensures Quotient(x, m) + Quotient(y, m) <= Quotient(x + y, m)
  {
    QuotientBounds(x, m);
    QuotientBounds(y, m);
    QuotientBounds(x + y, m);
    Distribute(Quotient(x, m), Quotient(y, m), m);
    NextMultiple(Quotient(x, m) + Quotient(y, m), Quotient(x + y, m), m);
  }

  // ---------- from dates to ticks ----------

  function TicksOf(date: Date, tickMilliSeconds: nat): UInt32
    requires tickMilliSeconds > 0
  {
    Wrap(Quotient(Wrap(date.seconds * 1000), tickMilliSeconds) + Quotient(date.microSeconds / 1000, tickMilliSeconds))
  }

  function MilliSeconds(date: Date): nat
  {
    date.seconds * 1000 + date.microSeconds / 1000
  }

  /** Milliseconds that fit into 32 bits: almost 50 days. */
  predicate Countable(date: Date)
  {
    MilliSeconds(date) < WORD
  }

  lemma WrapAtMost(x: nat)
    ensures Wrap(x) <= x && (x < WORD ==> Wrap(x) == x)
  {
  }

  /** Nothing wraps around when the code counts the ticks of a date, and then adds those of a delay. */
  predicate TicksFit(date: Date, delay: UInt32, t: nat)
    requires t > 0
  {
    && date.seconds * 1000 < WORD
    && Quotient(date.seconds * 1000, t) + Quotient(date.microSeconds / 1000, t) + Quotient(delay, t) < WORD
  }

  /** Milliseconds that fit into 32 bits are enough for that, whatever the ticks. */
  lemma CountableFits(date: Date, delay: UInt32, t: nat)
    requires t > 0 && MilliSeconds(date) + delay < WORD
    ensures TicksFit(date, delay, t)
  {
    QuotientAtMost(date.seconds * 1000, t);
    QuotientAtMost(date.microSeconds / 1000, t);
    QuotientAtMost(delay, t);
  }

  lemma QuotientAtMost(x: nat, t: nat)
    requires t > 0
    ensures Quotient(x, t) <= x
  {
  }

  /** Ticks are never ahead of the milliseconds, and unless they wrap around less than two behind. */
  lemma TicksBounds(date: Date, t: nat)
    requires t > 0
    ensures TicksOf(date, t) * t <= MilliSeconds(date)
    ensures TicksFit(date, 0, t) ==> TicksOf(date, t) * t > MilliSeconds(date) - 2 * t + 1
  {
    var x, y := Wrap(date.seconds * 1000), date.microSeconds / 1000;
    WrapAtMost(date.seconds * 1000);
    WrapAtMost(Quotient(x, t) + Quotient(y, t));
    QuotientSum(x, y, t);
    MulMonotone(TicksOf(date, t), Quotient(x, t) + Quotient(y, t), t);
  }

  lemma TicksCountable(date: Date, t: nat)
    requires t > 0 && Countable(date)
    ensures TicksOf(date, t) == Quotient(date.seconds * 1000, t) + Quotient(date.microSeconds / 1000, t)
  {
    WrapAtMost(date.seconds * 1000);
    WrapAtMost(Quotient(date.seconds * 1000, t) + Quotient(date.microSeconds / 1000, t));
  }

  // ---------- where ticks stop being monotone ----------

  /** Dates of less than `limit` milliseconds have ticks that never decrease. */
  ghost predicate MonotoneBelow(limit: nat, t: nat)
    requires t > 0
  {
    forall a, b :: Normal(a) && Normal(b) && NotAfter(a, b) && MilliSeconds(b) < limit ==>
                     TicksOf(a, t) <= TicksOf(b, t)
  }

  /** The milliseconds of second `s`, modulo 2^32, make a tick, and those of the next second start again. */
  predicate Rollover(s: nat, t: nat)
  {
    Wrap(s * 1000) >= t && Wrap(s * 1000) + 1000 >= WORD
  }

  /** Ticks of one millisecond start again when their sum does, longer ones when the milliseconds of the seconds do. */
  ghost predicate NoRollover(limit: nat, t: nat)
  {
    if t == 1 then limit <= WORD
    else forall s :: 0 <= s < WORD - 1 && Rollover(s, t) ==> limit <= s * 1000 + 1000
  }

  lemma WrapNext(s: nat)
    ensures var x := Wrap(s * 1000); Wrap(s * 1000 + 1000) == if x + 1000 < WORD then x + 1000 else x + 1000 - WORD
  {
  }

  /** From two milliseconds on the sum itself does not wrap around. */
  lemma TicksLong(date: Date, t: nat)
    requires t >= 2 && Normal(date)
    ensures TicksOf(date, t) == Quotient(Wrap(date.seconds * 1000), t) + Quotient(date.microSeconds / 1000, t)
  {
    var q := Quotient(Wrap(date.seconds * 1000), t);
    QuotientBounds(Wrap(date.seconds * 1000), t);
    if 2 * q >= WORD {
      MulMonotone(2, t, q);
      assert false;
    }
    WrapAtMost(q + Quotient(date.microSeconds / 1000, t));
  }

  /** The last tick of a second is not after the first one of the next, unless the ticks start again. */
  lemma NextSecond(s: nat, t: nat)
    requires t >= 2 && s < WORD - 1 && !Rollover(s, t)
    ensures Quotient(Wrap(s * 1000), t) + Quotient(999, t) <= Quotient(Wrap(s * 1000 + 1000), t)
  {
    var x := Wrap(s * 1000);
    WrapNext(s);
    if x + 1000 < WORD {
      QuotientSum(x, 999, t);
      QuotientMonotone(x + 999, x + 1000, t);
    }
  }

  lemma {:induction false} LaterSecond(s: nat, s': nat, t: nat)
    requires t >= 2 && s < s' < WORD && forall i :: s <= i < s' ==> !Rollover(i, t)
    ensures Quotient(Wrap(s * 1000), t) + Quotient(999, t) <= Quotient(Wrap(s' * 1000), t)
    decreases s'
  {
    NextSecond(s' - 1, t);
    if s < s' - 1 {
      LaterSecond(s, s' - 1, t);
    }
  }

  /** Later dates do not have smaller ticks before the ticks start again, ... */
  lemma TicksMonotone(a: Date, b: Date, t: nat)
    requires t > 0 && Normal(a) && Normal(b) && NotAfter(a, b) && NoRollover(MilliSeconds(b) + 1, t)
    ensures TicksOf(a, t) <= TicksOf(b, t)
  {
    if t == 1 {
      TicksOne(a);
      TicksOne(b);
    } else {
      TicksLong(a, t);
      TicksLong(b, t);
      QuotientMonotone(a.microSeconds / 1000, if a.seconds == b.seconds then b.microSeconds / 1000 else 999, t);
      if a.seconds < b.seconds {
        LaterSecond(a.seconds, b.seconds, t);
      }
    }
  }

  lemma {:induction false} QuotientOne(x: nat)
    ensures Quotient(x, 1) == x
  {
    QuotientBounds(x, 1);
  }

  lemma TicksOne(date: Date)
    requires Countable(date)
    ensures TicksOf(date, 1) == MilliSeconds(date)
  {
    TicksCountable(date, 1);
    QuotientOne(date.seconds * 1000);
    QuotientOne(date.microSeconds / 1000);
  }

  /** ... and then they do. */
  lemma TicksFallBack(s: nat, t: nat)
    requires t > 0 && s < WORD - 1 && Rollover(s, t)
    ensures TicksOf(Date(s + 1, 0), t) < TicksOf(Date(s, 0), t)
  {
    var x, y := Wrap(s * 1000), Wrap(s * 1000 + 1000);
    WrapNext(s);
    WrapAtMost(Quotient(x, t));
    WrapAtMost(Quotient(y, t));
    QuotientBounds(x, t);
    QuotientBounds(y, t);
    if Quotient(x, t) <= Quotient(y, t) {
      MulMonotone(Quotient(x, t), Quotient(y, t), t);
      assert false;
    }
  }

  lemma TicksFallBackOne()
    ensures var a, b := Date(4294967, 295000), Date(4294967, 296000);
            Before(a, b) && MilliSeconds(b) == WORD && TicksOf(b, 1) < TicksOf(a, 1)
  {
    TicksOne(Date(4294967, 295000));
    QuotientOne(4294967000);
    QuotientOne(296);
  }

  /** Ticks never decrease up to the point where they start again, and not beyond it. */
  lemma MonotoneExactly(limit: nat, t: nat)
    requires t > 0
    ensures MonotoneBelow(limit, t) <==> NoRollover(limit, t)
  {
    if NoRollover(limit, t) {
      forall a, b | Normal(a) && Normal(b) && NotAfter(a, b) && MilliSeconds(b) < limit
        ensures TicksOf(a, t) <= TicksOf(b, t)
      {
        TicksMonotone(a, b, t);
      }
    } else if t == 1 {
      TicksFallBackOne();
    } else {
      var s :| 0 <= s < WORD - 1 && Rollover(s, t) && limit > s * 1000 + 1000;
      TicksFallBack(s, t);
      assert NotAfter(Date(s, 0), Date(s + 1, 0)) && MilliSeconds(Date(s + 1, 0)) < limit;
    }
  }

  /** For all ticks but the very longest this is second 4294968, after 49.7 days. */
  lemma FirstRollover(limit: nat, t: nat)
    requires 2 <= t <= 4294967000
    ensures NoRollover(limit, t) <==> limit <= 4294968000
  {
    assert Rollover(4294967, t);
    forall s | 0 <= s < 4294967
      ensures !Rollover(s, t)
    {
      WrapAtMost(s * 1000);
    }
  }

  /** The tick that a timer gets when it is set at `now` with a delay. */
  function DueTick(start: Date, now: Date, delay: UInt32, t: nat): UInt32
    requires t > 0
  {
    Wrap(TicksOf(Minus(now, start), t) + Quotient(delay, t))
  }

  /** The ticks of a time and of a delay, before the sum wraps around. */
  function TickSum(since: Date, delay: UInt32, t: nat): nat
    requires t > 0
  {
    Quotient(Wrap(since.seconds * 1000), t) + Quotient(since.microSeconds / 1000, t) + Quotient(delay, t)
  }

  lemma WrapPlus(x: nat, y: nat)
    ensures Wrap(Wrap(x) + y) == Wrap(x + y)
  {
  }

  lemma DueIs(start: Date, now: Date, delay: UInt32, t: nat)
    requires t > 0
    ensures DueTick(start, now, delay, t) == Wrap(TickSum(Minus(now, start), delay, t))
  {
    var since := Minus(now, start);
    WrapPlus(Quotient(Wrap(since.seconds * 1000), t) + Quotient(since.microSeconds / 1000, t), Quotient(delay, t));
  }

  lemma TickSumBounds(since: Date, delay: UInt32, t: nat)
    requires t > 0
    ensures var m := Wrap(since.seconds * 1000) + since.microSeconds / 1000 + delay;
            m - 3 * (t - 1) <= TickSum(since, delay, t) * t <= m
  {
    var x, y := Wrap(since.seconds * 1000), since.microSeconds / 1000;
    QuotientBounds(x, t);
    QuotientBounds(y, t);
    QuotientBounds(delay, t);
    Distribute(Quotient(x, t), Quotient(y, t), t);
    Distribute(Quotient(x, t) + Quotient(y, t), Quotient(delay, t), t);
  }

  /** The tick is never later than the time. */
  lemma DueAtMost(start: Date, now: Date, delay: UInt32, t: nat)
    requires t > 0
    ensures DueTick(start, now, delay, t) * t <= MilliSeconds(Minus(now, start)) + delay
  {
    var since := Minus(now, start);
    DueIs(start, now, delay, t);
    TickSumBounds(since, delay, t);
    WrapAtMost(since.seconds * 1000);
    WrapAtMost(TickSum(since, delay, t));
    MulMonotone(DueTick(start, now, delay, t), TickSum(since, delay, t), t);
  }

  /** It is at most three roundings earlier if nothing wraps around, ... */
  lemma DueAtLeast(start: Date, now: Date, delay: UInt32, t: nat)
    requires t > 0 && TicksFit(Minus(now, start), delay, t)
    ensures DueTick(start, now, delay, t) * t >= MilliSeconds(Minus(now, start)) + delay - 3 * (t - 1)
  {
    var since := Minus(now, start);
    DueIs(start, now, delay, t);
    TickSumBounds(since, delay, t);
    WrapAtMost(since.seconds * 1000);
    WrapAtMost(TickSum(since, delay, t));
  }

  lemma WrapLess(x: nat)
    requires x >= WORD
    ensures Wrap(x) + WORD <= x
  {
  }

  lemma AtLeastWord(t: nat)
    requires t > 0
    ensures WORD * t >= WORD
  {
  }

  /** ... and 2^32 milliseconds or more if something does. */
  lemma DueBehind(start: Date, now: Date, delay: UInt32, t: nat)
    requires t > 0 && !TicksFit(Minus(now, start), delay, t)
    ensures DueTick(start, now, delay, t) * t + WORD <= MilliSeconds(Minus(now, start)) + delay
  {
    var since, d := Minus(now, start), DueTick(start, now, delay, t);
    var sum := TickSum(since, delay, t);
    DueIs(start, now, delay, t);
    TickSumBounds(since, delay, t);
    WrapAtMost(sum);
    if since.seconds * 1000 >= WORD {
      WrapLess(since.seconds * 1000);
      MulMonotone(d, sum, t);
    } else {
      WrapAtMost(since.seconds * 1000);
      WrapLess(sum);
      MulMonotone(d + WORD, sum, t);
      Distribute(d, WORD, t);
      AtLeastWord(t);
    }
  }

  /** A timer that is due at `later` was set for a time that is at most 3 (t - 1) milliseconds later than that, in whole
      milliseconds since the start of the wheel. */
  lemma NotEarly(start: Date, now: Date, delay: UInt32, t: nat, later: Date)
    requires t > 0 && TicksFit(Minus(now, start), delay, t)
    requires DueTick(start, now, delay, t) <= TicksOf(Minus(later, start), t)
    ensures MilliSeconds(Minus(later, start)) >= MilliSeconds(Minus(now, start)) + delay - 3 * (t - 1)
  {
    DueAtLeast(start, now, delay, t);
    TicksBounds(Minus(later, start), t);
    MulMonotone(DueTick(start, now, delay, t), TicksOf(Minus(later, start), t), t);
  }

  /** And once its time has passed by 2 (t - 1) milliseconds, it is due. */
  lemma NotLate(start: Date, now: Date, delay: UInt32, t: nat, later: Date)
    requires t > 0 && TicksFit(Minus(later, start), 0, t)
    requires MilliSeconds(Minus(later, start)) >= MilliSeconds(Minus(now, start)) + delay + 2 * (t - 1)
    ensures DueTick(start, now, delay, t) <= TicksOf(Minus(later, start), t)
  {
    DueAtMost(start, now, delay, t);
    TicksBounds(Minus(later, start), t);
    NextMultiple(DueTick(start, now, delay, t), TicksOf(Minus(later, start), t), t);
  }

  // ---------- where timers become early ----------

  /** The last second whose milliseconds fit into 32 bits. */
  const LAST_SECOND := 4294967

  /** Some date before the milliseconds wrap around has this tick, or a later one. */
  ghost predicate Reached(tick: UInt32, t: nat)
    requires t > 0
  {
    exists date :: Normal(date) && date.seconds <= LAST_SECOND && tick <= TicksOf(date, t)
  }

  function DateOf(m: nat): Date
    requires m < WORD * 1000
  {
    Date(m / 1000, m % 1000 * 1000)
  }

  lemma DateOfMeans(m: nat)
    requires m < WORD * 1000
    ensures Normal(DateOf(m)) && MilliSeconds(DateOf(m)) == m
  {
  }

  lemma EarlySecond(date: Date, t: nat)
    requires t >= 2 && Normal(date) && date.seconds <= LAST_SECOND
    ensures TicksFit(date, 0, t)
  {
    TicksLong(date, t);
    WrapAtMost(date.seconds * 1000);
    QuotientBounds(date.seconds * 1000, t);
    QuotientBounds(date.microSeconds / 1000, t);
  }

  lemma ReachedNear(tick: UInt32, t: nat, m: nat)
    requires t > 0 && m == tick * t + 2 * (t - 1) && m <= LAST_SECOND * 1000 + 999
    ensures tick <= TicksOf(DateOf(m), t)
  {
    var date := DateOf(m);
    DateOfMeans(m);
    if t == 1 {
      AtMostOne(tick, t, m);
      TicksOne(date);
    } else {
      EarlySecond(date, t);
      TicksBounds(date, t);
      NextMultiple(tick, TicksOf(date, t), t);
    }
  }

  lemma AtMostOne(tick: UInt32, t: nat, m: nat)
    requires t == 1 && m == tick * t + 2 * (t - 1)
    ensures m == tick
  {
  }

  /** A tick that is reached has a date that is less than two ticks behind its milliseconds. */
  lemma ReachedAt(tick: UInt32, t: nat) returns (date: Date)
    requires t > 0 && Reached(tick, t)
    ensures Normal(date) && tick <= TicksOf(date, t) && MilliSeconds(date) <= tick * t + 2 * (t - 1)
  {
    date :| Normal(date) && date.seconds <= LAST_SECOND && tick <= TicksOf(date, t);
    var m := tick * t + 2 * (t - 1);
    if MilliSeconds(date) > m {
      ReachedNear(tick, t, m);
      DateOfMeans(m);
      date := DateOf(m);
    }
  }

  /** No clock reading that has the tick is before `bound` milliseconds. */
  ghost predicate NoneBefore(start: Date, due: UInt32, t: nat, bound: int)
    requires t > 0
  {
    forall later :: Normal(later) && due <= TicksOf(Minus(later, start), t) ==>
                      MilliSeconds(Minus(later, start)) >= bound
  }

  /** That no timer set then with this delay is due early, whenever the clock is read. */
  ghost predicate NeverEarly(start: Date, now: Date, delay: UInt32, t: nat)
    requires t > 0
  {
    NoneBefore(start, DueTick(start, now, delay, t), t, MilliSeconds(Minus(now, start)) + delay - 3 * (t - 1))
  }

  /** So for ticks of up to ten days a timer can be due early if and only if something wraps around, as long as its tick
      is reached at all before the milliseconds do. */
  lemma NotEarlyExactly(start: Date, now: Date, delay: UInt32, t: nat)
    requires t > 0 && 5 * (t - 1) < WORD && Normal(start) && Reached(DueTick(start, now, delay, t), t)
    ensures NeverEarly(start, now, delay, t) <==> TicksFit(Minus(now, start), delay, t)
  {
    if TicksFit(Minus(now, start), delay, t) {
      forall later | Normal(later) && DueTick(start, now, delay, t) <= TicksOf(Minus(later, start), t)
        ensures MilliSeconds(Minus(later, start)) >= MilliSeconds(Minus(now, start)) + delay - 3 * (t - 1)
      {
        NotEarly(start, now, delay, t, later);
      }
    } else {
      DueBehind(start, now, delay, t);
      var date := ReachedAt(DueTick(start, now, delay, t), t);
      Occurs(date, start);
    }
  }

  /** Every time since the start comes. */
  lemma Occurs(date: Date, start: Date)
    requires Normal(date) && Normal(start)
    ensures Normal(Plus(date, start)) && Minus(Plus(date, start), start) == date
  {
    PlusMinus(date, start);
    PlusExact(date, start);
  }

  /** The first second that is not before `m` milliseconds. */
  function SecondFrom(m: nat): nat
  {
    (m + 999) / 1000
  }

  lemma SecondFromMeans(m: nat, s: nat)
    ensures m <= s * 1000 <==> SecondFrom(m) <= s
  {
  }

  lemma TicksOfSeconds(date: Date, t: nat)
    requires t >= 1000 && Normal(date)
    ensures TicksOf(date, t) == Quotient(Wrap(date.seconds * 1000), t)
    ensures TicksOf(date, t) * t <= date.seconds * 1000
  {
    TicksLong(date, t);
    QuotientBounds(Wrap(date.seconds * 1000), t);
    WrapAtMost(date.seconds * 1000);
  }

  lemma LaterThanFirst(start: Date, later: Date, due: UInt32, t: nat)
    requires t >= 1000 && Normal(start) && Normal(later) && due <= TicksOf(Minus(later, start), t)
    ensures MilliSeconds(Minus(later, start)) >= SecondFrom(due * t) * 1000
  {
    MinusExact(later, start);
    NotBeforeFirst(Minus(later, start), due, t);
  }

  lemma FirstOccurs(start: Date, due: UInt32, t: nat) returns (later: Date)
    requires t >= 1000 && Normal(start) && Reached(due, t)
    ensures Normal(later) && due <= TicksOf(Minus(later, start), t)
    ensures MilliSeconds(Minus(later, start)) == SecondFrom(due * t) * 1000
  {
    FirstReaches(due, t);
    var date := Date(SecondFrom(due * t), 0);
    Occurs(date, start);
    later := Plus(date, start);
  }

  lemma NoneBeforeFirst(start: Date, due: UInt32, t: nat, bound: int)
    requires t >= 1000 && Normal(start) && SecondFrom(due * t) * 1000 >= bound
    ensures NoneBefore(start, due, t, bound)
  {
    forall later | Normal(later) && due <= TicksOf(Minus(later, start), t)
      ensures MilliSeconds(Minus(later, start)) >= bound
    {
      LaterThanFirst(start, later, due, t);
    }
  }

  lemma SomeBefore(start: Date, due: UInt32, t: nat, bound: int, later: Date)
    requires t > 0 && Normal(later) && due <= TicksOf(Minus(later, start), t)
    requires MilliSeconds(Minus(later, start)) < bound
    ensures !NoneBefore(start, due, t, bound)
  {
  }

  lemma NoneBeforeLong(start: Date, due: UInt32, t: nat, bound: int)
    requires t >= 1000 && Normal(start) && Reached(due, t)
    ensures NoneBefore(start, due, t, bound) <==> SecondFrom(due * t) * 1000 >= bound
  {
    if SecondFrom(due * t) * 1000 >= bound {
      NoneBeforeFirst(start, due, t, bound);
    } else {
      var later := FirstOccurs(start, due, t);
      SomeBefore(start, due, t, bound, later);
    }
  }

  /** Ticks of a second and more, whatever their length: a timer can be due early if and only if the first second that
      has its tick is too early. */
  lemma NotEarlyLong(start: Date, now: Date, delay: UInt32, t: nat)
    requires t >= 1000 && Normal(start) && Reached(DueTick(start, now, delay, t), t)
    ensures var first := SecondFrom(DueTick(start, now, delay, t) * t) * 1000;
            NeverEarly(start, now, delay, t) <==> first >= MilliSeconds(Minus(now, start)) + delay - 3 * (t - 1)
  {
    NoneBeforeLong(start, DueTick(start, now, delay, t), t, MilliSeconds(Minus(now, start)) + delay - 3 * (t - 1));
  }

  lemma NotBeforeFirst(date: Date, due: UInt32, t: nat)
    requires t >= 1000 && Normal(date) && due <= TicksOf(date, t)
    ensures SecondFrom(due * t) <= date.seconds
  {
    TicksOfSeconds(date, t);
    MulMonotone(due, TicksOf(date, t), t);
    SecondFromMeans(due * t, date.seconds);
  }

  lemma FirstReaches(due: UInt32, t: nat)
    requires t >= 1000 && Reached(due, t)
    ensures SecondFrom(due * t) <= LAST_SECOND && due <= TicksOf(Date(SecondFrom(due * t), 0), t)
  {
    var date :| Normal(date) && date.seconds <= LAST_SECOND && due <= TicksOf(date, t);
    NotBeforeFirst(date, due, t);
    var first := SecondFrom(due * t);
    SecondFromMeans(due * t, first);
    TicksOfSeconds(Date(first, 0), t);
    WrapAtMost(first * 1000);
    QuotientBounds(first * 1000, t);
    NextMultiple(due, Quotient(first * 1000, t), t);
  }

  /** Ticks of one millisecond are always reached. */
  lemma ReachedOne(tick: UInt32)
    ensures Reached(tick, 1)
  {
    DateOfMeans(tick);
    TicksOne(DateOf(tick));
  }

  /** Whatever the ticks, a timer that is set in second 4294968, where the milliseconds of the seconds have wrapped
      around, is due in second 1. */
  lemma EarlyAfterWrap(t: nat)
    requires t > 0
    ensures var start, now, later := Date(0, 0), Date(4294968, 0), Date(1, 0);
            && DueTick(start, now, 0, t) <= TicksOf(Minus(later, start), t)
            && MilliSeconds(Minus(now, start)) - MilliSeconds(Minus(later, start)) == 4294967000
  {
    var start, now, later := Date(0, 0), Date(4294968, 0), Date(1, 0);
    assert Minus(now, start) == now && Minus(later, start) == later;
    assert Wrap(4294968000) == 704 && Quotient(0, t) == 0;
    QuotientMonotone(704, 1000, t);
    WrapAtMost(Quotient(704, t));
    WrapAtMost(Quotient(1000, t));
  }
}
