/** Pointers as eight bytes, the most significant one first. */
module PointerBytes {
  import opened PowersOfTwo

  type Byte = x: int | 0 <= x < 256

  const POINTER_SIZE := 8
  const ADDRESSES := 0x1_0000_0000_0000_0000

  function Power256(n: nat): (p: nat)
    ensures p >= 1
  {
    if n == 0 then 1 else 256 * Power256(n - 1)
  }

  function ToBytes(v: nat, n: nat): (s: seq<Byte>)
    ensures |s| == n
  {
    if n == 0 then [] else ToBytes(v / 256, n - 1) + [v % 256]
  }

  function FromBytes(s: seq<Byte>): nat
  {
    if s == [] then 0 else 256 * FromBytes(s[..|s| - 1]) + s[|s| - 1]
  }

  /** `v >> 8 * n`. */
  function ShiftBytes(v: nat, n: nat): nat
  {
    if n == 0 then v else ShiftBytes(v / 256, n - 1)
  }

  lemma {:induction false} FromTo(v: nat, n: nat)
    requires v < Power256(n)
    ensures FromBytes(ToBytes(v, n)) == v
    decreases n
  {
    if n > 0 {
      FromTo(v / 256, n - 1);
      assert ToBytes(v, n)[..n - 1] == ToBytes(v / 256, n - 1);
    }
  }

  lemma {:induction false} ToFrom(s: seq<Byte>)
    ensures FromBytes(s) < Power256(|s|) && ToBytes(FromBytes(s), |s|) == s
    decreases |s|
  {
    if s != [] {
      ToFrom(s[..|s| - 1]);
      assert s == s[..|s| - 1] + [s[|s| - 1]];
    }
  }

  /** The k-th byte is what a shift leaves in the lowest place. */
  lemma {:induction false} ByteAt(v: nat, n: nat, k: nat)
    requires k < n
    ensures ToBytes(v, n)[k] == ShiftBytes(v, n - 1 - k) % 256
    decreases n
  {
    if k < n - 1 {
      ByteAt(v / 256, n - 1, k);
      assert ToBytes(v, n)[k] == ToBytes(v / 256, n - 1)[k];
      assert ShiftBytes(v, n - 1 - k) == ShiftBytes(v / 256, n - 1 - k - 1);
    }
  }

  /** Where each byte of a number goes, the most significant one first. */
  lemma ByteMeans(v: nat, n: nat, k: nat)
    requires k < n
    ensures ToBytes(v, n)[k] == v / Power256(n - 1 - k) % 256
  {
    ByteAt(v, n, k);
    ShiftIs(v, n - 1 - k);
  }

  lemma {:induction false} ShiftIs(u: nat, n: nat)
    ensures ShiftBytes(u, n) == u / Power256(n)
  {
    if n > 0 {
      ShiftIs(u / 256, n - 1);
      DivideTwice(u, Power256(n - 1));
    }
  }

  lemma DivideTwice(u: nat, m: nat)
    requires m > 0
    ensures u / 256 / m == u / (256 * m)
  {
    var q, r := u / 256 / m, u / 256 % m;
    assert u / 256 == q * m + r;
    assert u == q * (256 * m) + (256 * r + u % 256);
    MultipleMod(q, 256 * m, 256 * r + u % 256);
  }

  lemma AddressBound()
    ensures Power256(POINTER_SIZE) == ADDRESSES
  {
    assert Power256(4) == 0x1_0000_0000;
    assert Power256(5) == 0x100_0000_0000 && Power256(6) == 0x1_0000_0000_0000;
    assert Power256(7) == 0x100_0000_0000_0000;
  }

  function ReadPointer(s: seq<Byte>): nat
    requires |s| == POINTER_SIZE
  {
    (s[0] as int) * 0x100_0000_0000_0000 + (s[1] as int) * 0x1_0000_0000_0000 + (s[2] as int) * 0x100_0000_0000
    + (s[3] as int) * 0x1_0000_0000 + (s[4] as int) * 0x100_0000 + (s[5] as int) * 0x1_0000 + (s[6] as int) * 0x100
    + (s[7] as int)
  }

  lemma {:induction false} Take(s: seq<Byte>, n: nat)
    requires 0 < n <= |s|
    ensures FromBytes(s[..n]) == 256 * FromBytes(s[..n - 1]) + s[n - 1]
  {
    assert s[..n][..n - 1] == s[..n - 1];
  }

  lemma TakeFour(s: seq<Byte>, n: nat)
    requires n + 4 <= |s|
    ensures FromBytes(s[..n + 4]) ==
            0x1_0000_0000 * FromBytes(s[..n]) + 0x100_0000 * (s[n] as int) + 0x1_0000 * (s[n + 1] as int)
            + 0x100 * (s[n + 2] as int) + (s[n + 3] as int)
  {
    Take(s, n + 1);
    Take(s, n + 2);
    Take(s, n + 3);
    Take(s, n + 4);
  }

  lemma ReadMeans(s: seq<Byte>)
    requires |s| == POINTER_SIZE
    ensures ReadPointer(s) == FromBytes(s)
  {
    TakeFour(s, 0);
    TakeFour(s, 4);
    assert s[..8] == s && s[..0] == [];
  }

  /** Reading gives back what was written, for every 64-bit pointer. */
  lemma ReadAfterWrite(v: nat)
    requires v < ADDRESSES
    ensures ReadPointer(ToBytes(v, POINTER_SIZE)) == v
  {
    ReadMeans(ToBytes(v, POINTER_SIZE));
    AddressBound();
    FromTo(v, POINTER_SIZE);
  }

  lemma InThree(b': seq<Byte>, b: seq<Byte>, p: nat, x: seq<Byte>)
    requires p + |x| <= |b| == |b'|
    requires forall i :: 0 <= i < |b| ==> b'[i] == if p <= i < p + |x| then x[i - p] else b[i]
    ensures b' == b[..p] + x + b[p + |x|..]
  {
  }

  /** The bytes with a pointer at p. */
  function WithPointer(b: seq<Byte>, p: nat, v: nat): seq<Byte>
    requires p + POINTER_SIZE <= |b|
  {
    b[..p] + ToBytes(v, POINTER_SIZE) + b[p + POINTER_SIZE..]
  }

  method WritePointer(buffer: array<Byte>, p: nat, v: nat)
    requires p + POINTER_SIZE <= buffer.Length
    modifies buffer
    ensures buffer[..] == WithPointer(old(buffer[..]), p, v)
  {
    ghost var b := buffer[..];
    buffer[p] := ShiftBytes(v, 7) % 256;
    buffer[p + 1] := ShiftBytes(v, 6) % 256;
    buffer[p + 2] := ShiftBytes(v, 5) % 256;
    buffer[p + 3] := ShiftBytes(v, 4) % 256;
    buffer[p + 4] := ShiftBytes(v, 3) % 256;
    buffer[p + 5] := ShiftBytes(v, 2) % 256;
    buffer[p + 6] := ShiftBytes(v, 1) % 256;
    buffer[p + 7] := v % 256;
    forall k | 0 <= k < POINTER_SIZE
      ensures buffer[p + k] == ToBytes(v, POINTER_SIZE)[k]
    {
      ByteAt(v, POINTER_SIZE, k);
    }
    InThree(buffer[..], b, p, ToBytes(v, POINTER_SIZE));
  }

  /** The bytes with those from q on moved down to p; the last ones stay where they are, too. */
  function MovedTo(b: seq<Byte>, p: nat, q: nat): seq<Byte>
    requires p <= q <= |b|
  {
    b[..p] + b[q..] + b[|b| - (q - p)..]
  }

  /** `memmove` of everything from q on. */
  method MoveDown(buffer: array<Byte>, p: nat, q: nat)
    requires p <= q <= buffer.Length
    modifies buffer
    ensures buffer[..] == MovedTo(old(buffer[..]), p, q)
  {
    var n := buffer.Length - q;
    forall k | 0 <= k < n {
      buffer[p + k] := buffer[q + k];
    }
  }
}
