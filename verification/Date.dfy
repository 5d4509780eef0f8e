/** Points in time with microsecond resolution, in two unsigned 32-bit words. */
module Dates {
  const WORD := 0x1_0000_0000
  const MICROS := 1_000_000

  type UInt32 = x: int | 0 <= x < 0x1_0000_0000

  /** Unsigned arithmetic wraps around. */
  function Wrap(x: int): UInt32
  {
    x % WORD
  }

  datatype Date = Date(seconds: UInt32, microSeconds: UInt32)

  predicate Normal(d: Date)
  {
    d.microSeconds < MICROS
  }

  function Total(d: Date): nat
  {
    d.seconds * MICROS + d.microSeconds
  }

  function Plus(a: Date, b: Date): Date
  {
    var micros := Wrap(a.microSeconds + b.microSeconds);
    Date(Wrap(Wrap(a.seconds + b.seconds) + micros / MICROS), micros % MICROS)
  }

  function Minus(a: Date, b: Date): Date
  {
    if b.microSeconds > a.microSeconds then
      Date(Wrap(Wrap(a.seconds - 1) - b.seconds), Wrap(Wrap(a.microSeconds + MICROS) - b.microSeconds))
    else
      Date(Wrap(a.seconds - b.seconds), Wrap(a.microSeconds - b.microSeconds))
  }

  /** The order of dates. */
  predicate Before(a: Date, b: Date)
  {
    a.seconds < b.seconds || (a.seconds == b.seconds && a.microSeconds < b.microSeconds)
  }

  predicate NotAfter(a: Date, b: Date)
  {
    a == b || Before(a, b)
  }

  lemma WrapCases(x: int)
    requires -WORD <= x < 2 * WORD
    ensures Wrap(x) == if x < 0 then x + WORD else if x < WORD then x else x - WORD
  {
  }

  lemma CarryCases(x: int)
    requires 0 <= x < 2 * MICROS
    ensures x / MICROS == (if x < MICROS then 0 else 1) && x % MICROS == (if x < MICROS then x else x - MICROS)
  {
  }

  lemma PlusCases(a: Date, b: Date)
    requires Normal(a) && Normal(b)
    ensures var m := a.microSeconds + b.microSeconds;
            var s := a.seconds + b.seconds + if m < MICROS then 0 else 1;
            Plus(a, b) == Date(if s < WORD then s else s - WORD, if m < MICROS then m else m - MICROS)
  {
    var m := a.microSeconds + b.microSeconds;
    WrapCases(m);
    CarryCases(m);
    WrapCases(a.seconds + b.seconds);
    WrapCases(Wrap(a.seconds + b.seconds) + m / MICROS);
  }

  /** Addition is exact, unless the seconds overflow. */
  lemma PlusExact(a: Date, b: Date)
    requires Normal(a) && Normal(b)
    ensures Normal(Plus(a, b))
    ensures Total(Plus(a, b)) == Total(a) + Total(b) <==> Total(a) + Total(b) < WORD * MICROS
    ensures Total(Plus(a, b)) ==
            (Total(a) + Total(b)) - (if Total(a) + Total(b) < WORD * MICROS then 0 else WORD * MICROS)
  {
    PlusCases(a, b);
  }

  lemma MinusCases(a: Date, b: Date)
    requires Normal(a) && Normal(b)
    ensures var m := a.microSeconds - b.microSeconds;
            var s := a.seconds - b.seconds - if m < 0 then 1 else 0;
            Minus(a, b) == Date(if s < 0 then s + WORD else s, if m < 0 then m + MICROS else m)
  {
    var m := a.microSeconds - b.microSeconds;
    WrapCases(a.microSeconds + MICROS);
    WrapCases(a.microSeconds + MICROS - b.microSeconds);
    WrapCases(m);
    WrapCases(a.seconds - 1);
    WrapCases(Wrap(a.seconds - 1) - b.seconds);
    WrapCases(a.seconds - b.seconds);
  }

  /** Subtraction is exact, unless a later date is taken from an earlier one. */
  lemma MinusExact(a: Date, b: Date)
    requires Normal(a) && Normal(b)
    ensures Normal(Minus(a, b))
    ensures Total(Minus(a, b)) == Total(a) - Total(b) <==> NotAfter(b, a)
    ensures Total(Minus(a, b)) == (Total(a) - Total(b)) + (if NotAfter(b, a) then 0 else WORD * MICROS)
  {
    MinusCases(a, b);
  }

  /** Subtraction undoes addition, and addition undoes subtraction, even when they wrap around. */
  lemma PlusMinus(a: Date, b: Date)
    requires Normal(a) && Normal(b)
    ensures Minus(Plus(a, b), b) == a && Plus(Minus(a, b), b) == a
  {
    PlusExact(a, b);
    MinusExact(Plus(a, b), b);
    MinusExact(a, b);
    PlusExact(Minus(a, b), b);
    TotalUnique(Minus(Plus(a, b), b), a);
    TotalUnique(Plus(Minus(a, b), b), a);
  }

  lemma TotalUnique(a: Date, b: Date)
    requires Normal(a) && Normal(b) && Total(a) == Total(b)
    ensures a == b
  {
  }

  /** The order of dates is the order of their microseconds. */
  lemma OrderMeans(a: Date, b: Date)
    requires Normal(a) && Normal(b)
    ensures NotAfter(a, b) <==> Total(a) <= Total(b)
  {
  }

  /** The C++ object, which the compound assignments update. */
  class DateVar {
    var seconds: UInt32
    var microSeconds: UInt32

    ghost function Value(): Date
      reads this
    {
      Date(seconds, microSeconds)
    }

    constructor (date: Date)
      ensures Value() == date
    {
      seconds, microSeconds := date.seconds, date.microSeconds;
    }

    method PlusAssign(date: Date)
      modifies this
      ensures Value() == Plus(old(Value()), date)
    {
      seconds := Wrap(seconds + date.seconds);
      seconds := Wrap(seconds + Wrap(microSeconds + date.microSeconds) / MICROS);
      microSeconds := Wrap(microSeconds + date.microSeconds) % MICROS;
    }

    method MinusAssign(date: Date)
      modifies this
      ensures Value() == Minus(old(Value()), date)
    {
      if date.microSeconds > microSeconds {
        seconds := Wrap(seconds - 1);
        microSeconds := Wrap(microSeconds + 1000 * 1000);
      }
      seconds := Wrap(seconds - date.seconds);
      microSeconds := Wrap(microSeconds - date.microSeconds);
    }
  }
}
