/** Universally unique identifiers as text, in the layout of section 3 of RFC 4122. */
module UniqueIds {
  import opened Errors
  import opened PointerBytes

  const SIZE := 16
  const PRESENTATION_SIZE := 37

  /** The n bytes of a number, the least significant one first. */
  function Bytes(u: nat, n: nat): (b: seq<Byte>)
    ensures |b| == n
  {
    if n == 0 then [] else [u % 256] + Bytes(u / 256, n - 1)
  }

  function Number(b: seq<Byte>): nat
  {
    if b == [] then 0 else b[0] + 256 * Number(b[1..])
  }

  lemma {:induction false} BytesNumber(b: seq<Byte>)
    ensures Bytes(Number(b), |b|) == b
  {
    if b != [] {
      BytesNumber(b[1..]);
      assert Number(b) / 256 == Number(b[1..]);
    }
  }

  lemma {:induction false} NumberBytes(u: nat, n: nat)
    requires u < Power256(n)
    ensures Number(Bytes(u, n)) == u
  {
    if n > 0 {
      NumberBytes(u / 256, n - 1);
      assert Bytes(u, n)[1..] == Bytes(u / 256, n - 1);
    }
  }

  // ---------- digits ----------

  /** Characters are bytes. */
  type Text = seq<Byte>

  const ZERO := 48
  const NINE := 57
  const UPPER_A := 65
  const LOWER_A := 97
  const HYPHEN := 45

  function HexToInt(hex: Byte): (i: int)
    ensures -1 <= i < 16
  {
    if ZERO <= hex && NINE >= hex then hex - ZERO
    else if LOWER_A <= hex && LOWER_A + 5 >= hex then hex - LOWER_A + 10
    else if UPPER_A <= hex && UPPER_A + 5 >= hex then hex - UPPER_A + 10
    else -1
  }

  function IntToHex(i: nat): Byte
  {
    if i <= 9 then ZERO + i else if i <= 15 then LOWER_A + i - 10 else 0
  }

  const LOWER_DIGITS := "0123456789abcdef"
  const UPPER_DIGITS := "0123456789ABCDEF"

  /** The character of a digit. */
  function DigitAt(digits: string, i: nat): int
    requires i < |digits|
  {
    digits[i] as int
  }

  lemma WritesDigit(i: nat)
    requires i < 16
    ensures IntToHex(i) == DigitAt(LOWER_DIGITS, i)
  {
  }

  /** A character is read as the digit that it is, in either case, and nothing else is a digit. */
  lemma ReadsDigit(c: Byte)
    ensures forall i: nat :: i < 16 ==>
                               (HexToInt(c) == i <==> c == DigitAt(LOWER_DIGITS, i) || c == DigitAt(UPPER_DIGITS, i))
    ensures HexToInt(c) == -1 <==>
            forall i: nat :: i < 16 ==> c != DigitAt(LOWER_DIGITS, i) && c != DigitAt(UPPER_DIGITS, i)
  {
    if HexToInt(c) >= 0 {
      var i: nat := HexToInt(c);
      assert c == DigitAt(LOWER_DIGITS, i) || c == DigitAt(UPPER_DIGITS, i);
    }
  }

  lemma HexRoundTrip(i: nat, c: Byte)
    ensures i < 16 ==> HexToInt(IntToHex(i)) == i && IntToHex(i) != HYPHEN
    ensures HexToInt(c) >= 0 ==> IntToHex(HexToInt(c)) == Lower(c)
  {
  }

  function Lower(c: Byte): Byte
  {
    if UPPER_A <= c <= UPPER_A + 25 then c - UPPER_A + LOWER_A else c
  }

  function Pair(x: Byte): (t: Text)
    ensures |t| == 2
  {
    [IntToHex(x / 16), IntToHex(x % 16)]
  }

  // ---------- formatting ----------

  predicate HyphenAfter(i: int)
  {
    i == 3 || i == 5 || i == 7 || i == 9
  }

  function Hyphen(i: int): Text
  {
    if HyphenAfter(i) then [HYPHEN] else []
  }

  /** The digits of the bytes from the i-th on, with a hyphen after the 4th, 6th, 8th and 10th byte. */
  function TextFrom(b: seq<Byte>, i: nat): Text
    requires i <= |b|
    decreases |b| - i
  {
    if i == |b| then [] else Pair(b[i]) + (Hyphen(i) + TextFrom(b, i + 1))
  }

  function Digits(b: seq<Byte>): Text
  {
    if b == [] then [] else Pair(b[0]) + Digits(b[1..])
  }

  lemma {:induction false} DigitsLength(b: seq<Byte>)
    ensures |Digits(b)| == 2 * |b|
  {
    if b != [] {
      DigitsLength(b[1..]);
    }
  }

  lemma Regroup(a: Text, b: Text, c: Text)
    ensures a + (b + c) == (a + b) + c
  {
  }

  lemma AddByte(x: Byte, b: seq<Byte>)
    ensures Digits([x] + b) == Pair(x) + Digits(b)
  {
    assert ([x] + b)[1..] == b;
  }

  /** A group of bytes without a hyphen inside. */
  lemma {:induction false} GroupText(b: seq<Byte>, i: nat, j: nat)
    requires i < j <= |b| && forall k :: i <= k < j - 1 ==> !HyphenAfter(k)
    ensures TextFrom(b, i) == Digits(b[i..j]) + (Hyphen(j - 1) + TextFrom(b, j))
    decreases j - i
  {
    assert b[i..j] == [b[i]] + b[i + 1..j];
    AddByte(b[i], b[i + 1..j]);
    if i + 1 < j {
      GroupText(b, i + 1, j);
      assert Hyphen(i) + TextFrom(b, i + 1) == TextFrom(b, i + 1);
      Regroup(Pair(b[i]), Digits(b[i + 1..j]), Hyphen(j - 1) + TextFrom(b, j));
    } else {
      assert b[i + 1..j] == [] && Pair(b[i]) + Digits([]) == Pair(b[i]);
    }
  }

  /** The layout: 8, 4, 4, 4 and 12 lower-case digits, with hyphens between them. */
  lemma Layout(b: seq<Byte>)
    requires |b| == SIZE
    ensures TextFrom(b, 0) == Digits(b[0..4]) + ([HYPHEN] + TextFrom(b, 4))
    ensures TextFrom(b, 4) == Digits(b[4..6]) + ([HYPHEN] + TextFrom(b, 6))
    ensures TextFrom(b, 6) == Digits(b[6..8]) + ([HYPHEN] + TextFrom(b, 8))
    ensures TextFrom(b, 8) == Digits(b[8..10]) + ([HYPHEN] + TextFrom(b, 10))
    ensures TextFrom(b, 10) == Digits(b[10..16]) && |TextFrom(b, 0)| == 36
  {
    OneGroup(b, 0, 4);
    OneGroup(b, 4, 6);
    OneGroup(b, 6, 8);
    OneGroup(b, 8, 10);
    LastGroup(b);
    LayoutLength(b);
  }

  lemma OneGroup(b: seq<Byte>, i: nat, j: nat)
    requires |b| == SIZE && ((i == 0 && j == 4) || (j == i + 2 && (i == 4 || i == 6 || i == 8)))
    ensures TextFrom(b, i) == Digits(b[i..j]) + ([HYPHEN] + TextFrom(b, j))
  {
    GroupText(b, i, j);
    assert Hyphen(j - 1) == [HYPHEN];
  }

  lemma LastGroup(b: seq<Byte>)
    requires |b| == SIZE
    ensures TextFrom(b, 10) == Digits(b[10..16])
  {
    GroupText(b, 10, 16);
    assert TextFrom(b, 16) == [] && Hyphen(15) == [];
  }

  lemma {:induction false} TextLength(b: seq<Byte>, i: nat)
    requires i <= |b|
    ensures |TextFrom(b, i)| == 2 * (|b| - i) + (if i <= 3 < |b| then 1 else 0) + (if i <= 5 < |b| then 1 else 0)
                                + (if i <= 7 < |b| then 1 else 0) + (if i <= 9 < |b| then 1 else 0)
    decreases |b| - i
  {
    if i < |b| {
      TextLength(b, i + 1);
    }
  }

  lemma LayoutLength(b: seq<Byte>)
    requires |b| == SIZE
    ensures |TextFrom(b, 0)| == 36
  {
    TextLength(b, 0);
  }

  /** Where the i-th byte goes. */
  function Position(i: nat): nat
  {
    2 * i + (if i > 3 then 1 else 0) + (if i > 5 then 1 else 0) + (if i > 7 then 1 else 0) + (if i > 9 then 1 else 0)
  }

  /** Where the digits and the hyphens are. */
  lemma {:induction false} TextAt(b: seq<Byte>, i: nat, j: nat)
    requires i <= j < |b| == SIZE
    ensures var t, p := TextFrom(b, i), Position(j) - Position(i);
            0 <= p && p + 1 < |t| && t[p] == IntToHex(b[j] / 16) && t[p + 1] == IntToHex(b[j] % 16)
    ensures HyphenAfter(j) ==>
              var t, p := TextFrom(b, i), Position(j) - Position(i); p + 2 < |t| && t[p + 2] == HYPHEN
    decreases j - i
  {
    var rest := TextFrom(b, i + 1);
    assert Position(i + 1) == Position(i) + 2 + |Hyphen(i)|;
    assert TextFrom(b, i) == (Pair(b[i]) + Hyphen(i)) + rest;
    if i < j {
      TextAt(b, i + 1, j);
    }
  }

  /** Digit d of byte i of a number, the least significant byte first. */
  lemma TextDigits(uuid: nat, i: nat)
    requires i < SIZE
    ensures var t, p := TextFrom(Bytes(uuid, SIZE), 0), Position(i);
            && p + 1 < |t| && t[p] == DigitAt(LOWER_DIGITS, uuid / Power256(i) % 256 / 16)
            && t[p + 1] == DigitAt(LOWER_DIGITS, uuid / Power256(i) % 16)
  {
    var b := Bytes(uuid, SIZE);
    TextAt(b, 0, i);
    ByteIs(uuid, SIZE, i);
    ShiftIs(uuid, i);
    WritesDigit(b[i] / 16);
    WritesDigit(b[i] % 16);
    LowDigit(uuid / Power256(i));
  }

  /** The text of a number: two lower-case digits for each byte, the least significant byte first, and four hyphens. */
  ghost predicate Written(t: Text, uuid: nat)
  {
    && |t| == 36 && t[8] == t[13] == t[18] == t[23] == '-' as int
    && forall i: nat :: i < SIZE ==>
                          Position(i) < 35
                          && t[Position(i)] == DigitAt(LOWER_DIGITS, uuid / Power256(i) % 256 / 16)
                          && t[Position(i) + 1] == DigitAt(LOWER_DIGITS, uuid / Power256(i) % 16)
  }

  lemma TextIsWritten(uuid: nat)
    ensures Written(TextFrom(Bytes(uuid, SIZE), 0), uuid)
  {
    var b := Bytes(uuid, SIZE);
    LayoutLength(b);
    HyphenAt(b, 3, 8);
    HyphenAt(b, 5, 13);
    HyphenAt(b, 7, 18);
    HyphenAt(b, 9, 23);
    forall i: nat | i < SIZE
      ensures Position(i) < 35
              && TextFrom(b, 0)[Position(i)] == DigitAt(LOWER_DIGITS, uuid / Power256(i) % 256 / 16)
              && TextFrom(b, 0)[Position(i) + 1] == DigitAt(LOWER_DIGITS, uuid / Power256(i) % 16)
    {
      TextDigits(uuid, i);
    }
  }

  lemma HyphenAt(b: seq<Byte>, j: nat, p: nat)
    requires |b| == SIZE && HyphenAfter(j) && p == Position(j) + 2
    ensures p < |TextFrom(b, 0)| && TextFrom(b, 0)[p] == HYPHEN
  {
    TextAt(b, 0, j);
  }

  lemma LowDigit(x: nat)
    ensures x % 256 % 16 == x % 16
  {
  }

  method Format(buffer: array<Byte>, uuid: nat) returns (error: Error)
    requires uuid < Power256(SIZE)
    modifies buffer
    ensures error == if PRESENTATION_SIZE > buffer.Length then Overflow else Success
    ensures error == Success ==> buffer[..36] == TextFrom(Bytes(uuid, SIZE), 0) && buffer[36] == 0
    ensures error == Success ==> Written(buffer[..36], uuid)
    ensures error != Success ==> buffer[..] == old(buffer[..])
  {
    if PRESENTATION_SIZE > buffer.Length {
      return Overflow;
    }
    FormatBytes(buffer, uuid);
    TextIsWritten(uuid);
    Terminate(buffer, PRESENTATION_SIZE - 1);
    error := Success;
  }

  method Terminate(buffer: array<Byte>, n: nat)
    requires n < buffer.Length
    modifies buffer
    ensures buffer[..n] == old(buffer[..n]) && buffer[n] == 0
  {
    buffer[n] := 0;
  }

  /** The loop of `Format`. */
  method FormatBytes(buffer: array<Byte>, uuid: nat)
    requires PRESENTATION_SIZE <= buffer.Length
    modifies buffer
    ensures buffer[..36] == TextFrom(Bytes(uuid, SIZE), 0)
  {
    ghost var b := Bytes(uuid, SIZE);
    LayoutLength(b);
    var i, idx, rest := 0, 0, uuid;
    while i < 16
      invariant 0 <= i <= 16 && idx == Position(i) <= 36 && rest == ShiftBytes(uuid, i)
      invariant buffer[..idx] + TextFrom(b, i) == TextFrom(b, 0)
    {
      ByteIs(uuid, SIZE, i);
      Regroup(buffer[..idx], Pair(b[i]), Hyphen(i) + TextFrom(b, i + 1));
      Regroup(buffer[..idx] + Pair(b[i]), Hyphen(i), TextFrom(b, i + 1));
      idx := FormatByte(buffer, idx, rest % 256, i);
      ShiftMore(uuid, i);
      i, rest := i + 1, rest / 256;
    }
    assert TextFrom(b, 16) == [];
  }

  /** Two digits, and a hyphen if one is due. */
  method FormatByte(buffer: array<Byte>, idx: nat, digit: Byte, ghost i: nat) returns (idx': nat)
    requires idx == Position(i) && i < 16 && PRESENTATION_SIZE <= buffer.Length
    modifies buffer
    ensures idx' == Position(i + 1) <= 36 && buffer[..idx'] == old(buffer[..idx]) + Pair(digit) + Hyphen(i)
  {
    buffer[idx] := IntToHex(digit / 16);
    buffer[idx + 1] := IntToHex(digit % 16);
    idx' := idx + 2;
    if idx' == 8 || idx' == 13 || idx' == 18 || idx' == 23 {
      buffer[idx'] := HYPHEN;
      idx' := idx' + 1;
    }
  }

  lemma {:induction false} ShiftMore(u: nat, n: nat)
    ensures ShiftBytes(u, n + 1) == ShiftBytes(u, n) / 256
  {
    if n > 0 {
      ShiftMore(u / 256, n - 1);
    }
  }

  lemma {:induction false} ByteIs(u: nat, n: nat, i: nat)
    requires i < n
    ensures Bytes(u, n)[i] == ShiftBytes(u, i) % 256
  {
    if i > 0 {
      ByteIs(u / 256, n - 1, i - 1);
    }
  }

  // ---------- parsing ----------

  datatype Parsed = Failed | Parsed(bytes: seq<Byte>)

  /** What is left to parse, after `b` has been read. */
  function ParseFrom(s: Text, b: seq<Byte>): Parsed
    decreases |s|
  {
    if |b| >= SIZE then Parsed(b)
    else if s == [] then Failed
    else if s[0] == HYPHEN then ParseFrom(s[1..], b)
    else if |s| == 1 || HexToInt(s[0]) < 0 || HexToInt(s[1]) < 0 then Failed
    else ParseFrom(s[2..], b + [HexToInt(s[0]) * 16 + HexToInt(s[1])])
  }

  method Parse(text: Text) returns (error: Error, uuid: nat)
    ensures error == if ParseFrom(text, []).Parsed? then Success else CannotParse
    ensures error == Success ==>
              uuid == Number(ParseFrom(text, []).bytes) && Bytes(uuid, SIZE) == ParseFrom(text, []).bytes
  {
    var p := 0;
    var bytes: seq<Byte> := [];
    while p < |text| && |bytes| < 16
      invariant 0 <= p <= |text| && |bytes| <= 16 && ParseFrom(text[p..], bytes) == ParseFrom(text, [])
      decreases |text| - p
    {
      assert text[p..][1..] == text[p + 1..];
      if HYPHEN == text[p] {
        p := p + 1;
        continue;
      }
      if p + 1 == |text| {
        return CannotParse, 0;
      }
      assert text[p..][2..] == text[p + 2..];
      var high := HexToInt(text[p]);
      if 0 > high {
        return CannotParse, 0;
      }
      var low := HexToInt(text[p + 1]);
      if 0 > low {
        return CannotParse, 0;
      }
      bytes := bytes + [high * 16 + low];
      p := p + 2;
    }
    if |bytes| != 16 {
      return CannotParse, 0;
    }
    BytesNumber(bytes);
    error, uuid := Success, Number(bytes);
  }

  /** The digits of a byte stand for it. */
  lemma PairReads(x: Byte)
    ensures HexToInt(Pair(x)[0]) == x / 16 && HexToInt(Pair(x)[1]) == x % 16 && Pair(x)[0] != HYPHEN
  {
    HexRoundTrip(x / 16, ZERO);
    HexRoundTrip(x % 16, ZERO);
  }

  lemma ParsePair(x: Byte, t: Text, b: seq<Byte>)
    requires |b| < SIZE
    ensures ParseFrom(Pair(x) + t, b) == ParseFrom(t, b + [x])
  {
    PairReads(x);
    ParseDigits(Pair(x)[0], Pair(x)[1], t, b, x);
    assert Pair(x) + t == [Pair(x)[0], Pair(x)[1]] + t;
  }

  lemma ParseDigits(c: Byte, d: Byte, t: Text, b: seq<Byte>, x: Byte)
    requires |b| < SIZE && c != HYPHEN && HexToInt(c) >= 0 && HexToInt(d) >= 0 && x == HexToInt(c) * 16 + HexToInt(d)
    ensures ParseFrom([c, d] + t, b) == ParseFrom(t, b + [x])
  {
    var s := [c, d] + t;
    assert s[2..] == t && s[0] == c && s[1] == d && |s| >= 2;
    assert ParseFrom(s, b) == ParseFrom(s[2..], b + [HexToInt(s[0]) * 16 + HexToInt(s[1])]);
  }

  /** A hyphen between two bytes does not matter. */
  lemma ParseHyphen(t: Text, b: seq<Byte>)
    requires |b| < SIZE
    ensures ParseFrom([HYPHEN] + t, b) == ParseFrom(t, b)
  {
    assert ([HYPHEN] + t)[1..] == t;
  }

  lemma {:induction false} ParseText(b: seq<Byte>, i: nat)
    requires |b| == SIZE && i <= SIZE
    ensures ParseFrom(TextFrom(b, i), b[..i]) == Parsed(b)
    decreases SIZE - i
  {
    if i == SIZE {
      assert b[..i] == b;
    } else {
      ParseText(b, i + 1);
      ParsePair(b[i], Hyphen(i) + TextFrom(b, i + 1), b[..i]);
      assert b[..i] + [b[i]] == b[..i + 1];
      if HyphenAfter(i) {
        ParseHyphen(TextFrom(b, i + 1), b[..i + 1]);
      } else {
        assert [] + TextFrom(b, i + 1) == TextFrom(b, i + 1);
      }
    }
  }

  /** Parsing what was formatted gives back every identifier. */
  lemma FormatRoundTrip(uuid: nat)
    requires uuid < Power256(SIZE)
    ensures ParseFrom(TextFrom(Bytes(uuid, SIZE), 0), []) == Parsed(Bytes(uuid, SIZE))
    ensures Number(Bytes(uuid, SIZE)) == uuid
  {
    ParseText(Bytes(uuid, SIZE), 0);
    NumberBytes(uuid, SIZE);
  }

  /** A string ends at its terminator. */
  function CString(s: Text): Text
  {
    if s == [] || s[0] == 0 then [] else [s[0]] + CString(s[1..])
  }

  lemma {:induction false} CStringOf(t: Text, rest: Text)
    requires forall i :: 0 <= i < |t| ==> t[i] != 0
    ensures CString(t + ([0] + rest)) == t
  {
    var s := t + ([0] + rest);
    if t == [] {
      assert s[0] == 0;
    } else {
      assert s[0] == t[0] && s[1..] == t[1..] + ([0] + rest);
      CStringOf(t[1..], rest);
    }
  }

  lemma {:induction false} NoTerminator(b: seq<Byte>, i: nat)
    requires i <= |b|
    ensures forall j :: 0 <= j < |TextFrom(b, i)| ==> TextFrom(b, i)[j] != 0
    decreases |b| - i
  {
    if i < |b| {
      NoTerminator(b, i + 1);
    }
  }

  lemma Terminated(s: Text, t: Text)
    requires |s| == |t| + 1 && s[..|t|] == t && s[|t|] == 0 && forall i :: 0 <= i < |t| ==> t[i] != 0
    ensures CString(s) == t
  {
    assert s == t + ([0] + []);
    CStringOf(t, []);
  }

  lemma Reads(s: Text, uuid: nat)
    requires uuid < Power256(SIZE) && |s| == 37 && s[36] == 0 && s[..36] == TextFrom(Bytes(uuid, SIZE), 0)
    ensures var r := ParseFrom(CString(s), []); r.Parsed? && Number(r.bytes) == uuid
  {
    NoTerminator(Bytes(uuid, SIZE), 0);
    Terminated(s, TextFrom(Bytes(uuid, SIZE), 0));
    FormatRoundTrip(uuid);
  }

  /** Every identifier survives being written and read. */
  method Reread(uuid: nat) returns (error: Error, back: nat)
    requires uuid < Power256(SIZE)
    ensures error == Success && back == uuid
  {
    var buffer := new Byte[PRESENTATION_SIZE];
    error := Format(buffer, uuid);
    Reads(buffer[..], uuid);
    error, back := Parse(CString(buffer[..]));
  }

  // ---------- what is accepted ----------

  /** The text of one byte: two characters, and any hyphens before them. */
  datatype Group = Group(hyphens: nat, high: Byte, low: Byte)

  predicate Digital(g: Group)
  {
    HexToInt(g.high) >= 0 && HexToInt(g.low) >= 0
  }

  function Value(g: Group): Byte
    requires Digital(g)
  {
    HexToInt(g.high) * 16 + HexToInt(g.low)
  }

  predicate Hexadecimal(gs: seq<Group>)
  {
    forall i :: 0 <= i < |gs| ==> Digital(gs[i])
  }

  function Hyphens(n: nat): Text
  {
    if n == 0 then [] else [HYPHEN] + Hyphens(n - 1)
  }

  function Spelling(gs: seq<Group>): Text
  {
    if gs == [] then [] else Hyphens(gs[0].hyphens) + ([gs[0].high, gs[0].low] + Spelling(gs[1..]))
  }

  function Values(gs: seq<Group>): (b: seq<Byte>)
    requires Hexadecimal(gs)
    ensures |b| == |gs|
  {
    if gs == [] then [] else [Value(gs[0])] + Values(gs[1..])
  }

  /** The text begins with n groups, and they spell out `b`. */
  ghost predicate Spells(gs: seq<Group>, n: nat, s: Text, b: seq<Byte>)
  {
    |gs| == n && Hexadecimal(gs) && Spelling(gs) <= s && Values(gs) == b
  }

  lemma {:induction false} ParseHyphens(n: nat, t: Text, b: seq<Byte>)
    requires |b| < SIZE
    ensures ParseFrom(Hyphens(n) + t, b) == ParseFrom(t, b)
  {
    if n == 0 {
      assert Hyphens(0) + t == t;
    } else {
      ParseHyphens(n - 1, t, b);
      Regroup([HYPHEN], Hyphens(n - 1), t);
      ParseHyphen(Hyphens(n - 1) + t, b);
    }
  }

  lemma {:induction false} ParseSpelling(gs: seq<Group>, rest: Text, b: seq<Byte>)
    requires |b| + |gs| == SIZE && Hexadecimal(gs)
    ensures ParseFrom(Spelling(gs) + rest, b) == Parsed(b + Values(gs))
    decreases |gs|
  {
    if gs == [] {
      assert b + Values(gs) == b;
    } else {
      var g, x, t := gs[0], Values(gs)[0], Spelling(gs[1..]);
      Regroup([g.high, g.low], t, rest);
      Regroup(Hyphens(g.hyphens), [g.high, g.low] + t, rest);
      ParseHyphens(g.hyphens, [g.high, g.low] + (t + rest), b);
      ParseDigits(g.high, g.low, t + rest, b, x);
      ParseSpelling(gs[1..], rest, b + [x]);
      Regroup(b, [x], Values(gs[1..]));
    }
  }

  lemma {:induction false} ParseGroups(s: Text, b: seq<Byte>) returns (gs: seq<Group>)
    requires |b| <= SIZE && ParseFrom(s, b).Parsed?
    ensures b <= ParseFrom(s, b).bytes && Spells(gs, SIZE - |b|, s, ParseFrom(s, b).bytes[|b|..])
    decreases |s|
  {
    if |b| == SIZE {
      gs := [];
    } else if s[0] == HYPHEN {
      var gs' := ParseGroups(s[1..], b);
      gs := OneMoreHyphen(gs', s);
    } else {
      var g := Group(0, s[0], s[1]);
      var gs' := ParseGroups(s[2..], b + [Value(g)]);
      gs := [g] + gs';
      TwoMore(g, gs', s);
      assert ParseFrom(s, b).bytes[|b|..] == [Value(g)] + ParseFrom(s, b).bytes[|b| + 1..];
    }
  }

  lemma AddGroup(g: Group, gs: seq<Group>)
    requires Digital(g) && Hexadecimal(gs)
    ensures Hexadecimal([g] + gs) && Spelling([g] + gs) == Hyphens(g.hyphens) + ([g.high, g.low] + Spelling(gs))
    ensures Values([g] + gs) == [Value(g)] + Values(gs)
  {
    assert ([g] + gs)[1..] == gs;
  }

  lemma PrefixHyphen(n: nat, t: Text, s: Text)
    requires s != [] && s[0] == HYPHEN && Hyphens(n) + t <= s[1..]
    ensures Hyphens(n + 1) + t <= s
  {
    assert s == [HYPHEN] + s[1..];
    assert Hyphens(n + 1) + t == [HYPHEN] + (Hyphens(n) + t);
  }

  lemma OneMoreHyphen(gs: seq<Group>, s: Text) returns (gs': seq<Group>)
    requires gs != [] && s != [] && s[0] == HYPHEN && Hexadecimal(gs) && Spelling(gs) <= s[1..]
    ensures Spells(gs', |gs|, s, Values(gs))
  {
    var g, rest := gs[0], gs[1..];
    var g' := Group(g.hyphens + 1, g.high, g.low);
    assert gs == [g] + rest && Digital(g);
    AddGroup(g, rest);
    AddGroup(g', rest);
    PrefixHyphen(g.hyphens, [g.high, g.low] + Spelling(rest), s);
    gs' := [g'] + rest;
  }

  lemma PrefixAfter(c: Byte, d: Byte, t: Text, s: Text)
    requires |s| >= 2 && s[0] == c && s[1] == d && t <= s[2..]
    ensures Hyphens(0) + ([c, d] + t) <= s
  {
    assert Hyphens(0) + ([c, d] + t) == [c, d] + t;
    assert s == [c, d] + s[2..];
    assert s[2..] == t + s[2..][|t|..];
    assert s == ([c, d] + t) + s[2..][|t|..];
  }

  lemma TwoMore(g: Group, gs: seq<Group>, s: Text)
    requires Digital(g) && Hexadecimal(gs) && |s| >= 2 && g == Group(0, s[0], s[1]) && Spelling(gs) <= s[2..]
    ensures Spells([g] + gs, |gs| + 1, s, [Value(g)] + Values(gs))
  {
    AddGroup(g, gs);
    PrefixAfter(s[0], s[1], Spelling(gs), s);
    assert Spelling([g] + gs) <= s;
  }

  /** Text is accepted exactly if it begins with the digits of 16 bytes, in either case and with hyphens nowhere but
      before a byte, and these are the bytes.  What follows them does not matter. */
  lemma AcceptedMeans(s: Text, b: seq<Byte>)
    ensures ParseFrom(s, []) == Parsed(b) <==> exists gs :: Spells(gs, SIZE, s, b)
  {
    if ParseFrom(s, []) == Parsed(b) {
      var gs := ParseGroups(s, []);
      assert b[0..] == b;
    }
    if gs :| Spells(gs, SIZE, s, b) {
      var rest := s[|Spelling(gs)|..];
      assert s == Spelling(gs) + rest;
      ParseSpelling(gs, rest, []);
    }
  }
}
