/** The byte layout of the compact map: one record for each pair, and a zero behind the last. */
module CompactRecords {
  import opened PointerBytes

  type Key = seq<Byte>

  datatype Entry = Entry(key: Key, value: nat)

  predicate GoodKey(key: Key)
  {
    1 <= |key| <= 255
  }

  ghost predicate Good(es: seq<Entry>)
  {
    && (forall i :: 0 <= i < |es| ==> GoodKey(es[i].key) && es[i].value < ADDRESSES)
    && (forall i, j :: 0 <= i < j < |es| ==> es[i].key != es[j].key)
  }

  /** The length and the key. */
  function Head(key: Key): (h: seq<Byte>)
    requires GoodKey(key)
    ensures |h| == 1 + |key|
  {
    [|key|] + key
  }

  /** The length, the key, and the pointer. */
  ghost function Record(e: Entry): (r: seq<Byte>)
    requires GoodKey(e.key)
    ensures |r| == 1 + |e.key| + POINTER_SIZE
  {
    Head(e.key) + ToBytes(e.value, POINTER_SIZE)
  }

  ghost function Encoding(es: seq<Entry>): seq<Byte>
    requires forall i :: 0 <= i < |es| ==> GoodKey(es[i].key)
  {
    if es == [] then [] else Record(es[0]) + Encoding(es[1..])
  }

  lemma {:induction false} EncodingConcat(a: seq<Entry>, b: seq<Entry>)
    requires forall i :: 0 <= i < |a| ==> GoodKey(a[i].key)
    requires forall i :: 0 <= i < |b| ==> GoodKey(b[i].key)
    ensures Encoding(a + b) == Encoding(a) + Encoding(b)
  {
    if a == [] {
      assert a + b == b;
    } else {
      assert (a + b)[1..] == a[1..] + b && (a + b)[0] == a[0];
      EncodingConcat(a[1..], b);
      assert Encoding(a + b) == Record(a[0]) + (Encoding(a[1..]) + Encoding(b));
    }
  }

  /** Where the i-th record starts. */
  ghost function Offset(es: seq<Entry>, i: nat): nat
    requires Good(es) && i <= |es|
  {
    |Encoding(es[..i])|
  }

  /** The bytes of the records, up to the zero. */
  ghost predicate Holds(b: seq<Byte>, es: seq<Entry>)
  {
    Good(es) && Encoding(es) + [0] <= b
  }

  lemma EncodingOne(e: Entry)
    requires GoodKey(e.key)
    ensures Encoding([e]) == Record(e)
  {
    assert [e][1..] == [];
    assert Encoding([e]) == Record(e) + Encoding([]);
  }

  lemma SplitAt<T>(s: seq<T>, i: nat)
    requires i < |s|
    ensures s == s[..i + 1] + s[i + 1..] && s[..i + 1] == s[..i] + [s[i]]
  {
  }

  /** The encoding around one record. */
  lemma Around(es: seq<Entry>, i: nat)
    requires Good(es) && i < |es|
    ensures Encoding(es) == Encoding(es[..i]) + Record(es[i]) + Encoding(es[i + 1..])
    ensures Offset(es, i + 1) == Offset(es, i) + |Record(es[i])|
  {
    SplitAt(es, i);
    EncodingConcat(es[..i], [es[i]]);
    EncodingOne(es[i]);
    EncodingConcat(es[..i + 1], es[i + 1..]);
  }

  lemma PrefixSlice(a: seq<Byte>, x: seq<Byte>, c: seq<Byte>, b: seq<Byte>)
    requires a + x + c <= b
    ensures |a| + |x| + |c| <= |b| && b[|a|..|a| + |x|] == x
  {
    assert b[..|a + x + c|] == a + x + c;
    assert b[|a|..|a| + |x|] == b[..|a + x + c|][|a|..|a| + |x|];
  }

  /** Where the i-th record is. */
  lemma RecordSlice(b: seq<Byte>, es: seq<Entry>, i: nat)
    requires Holds(b, es) && i < |es|
    ensures var p, r := Offset(es, i), Record(es[i]);
            p + |r| < |b| && b[p..p + |r|] == r && Offset(es, i + 1) == p + |r|
  {
    var a, r, c := Encoding(es[..i]), Record(es[i]), Encoding(es[i + 1..]);
    Around(es, i);
    Join(a + r, c);
    PrefixSlice(a, r, c + [0], b);
  }

  /** What the code finds at the start of the i-th record. */
  lemma RecordAt(b: seq<Byte>, es: seq<Entry>, i: nat)
    requires Holds(b, es) && i < |es|
    ensures var p, e := Offset(es, i), es[i];
            var n := |e.key|;
            && p + 1 + n + POINTER_SIZE < |b| && b[p] == n && b[p] != 0
            && b[p + 1..p + 1 + n] == e.key && b[p + 1 + n..p + 1 + n + POINTER_SIZE] == ToBytes(e.value, POINTER_SIZE)
            && Offset(es, i + 1) == p + 1 + n + POINTER_SIZE
  {
    RecordSlice(b, es, i);
    RecordParts(b, Offset(es, i), es[i]);
  }

  /** The comparison that the code makes there finds the key. */
  lemma KeyAt(b: seq<Byte>, es: seq<Entry>, i: nat, key: Key)
    requires Holds(b, es) && i < |es|
    ensures var p := Offset(es, i);
            && p < |b| && 0 < b[p] && p + 1 + b[p] + POINTER_SIZE < |b|
            && Offset(es, i + 1) == p + 1 + b[p] + POINTER_SIZE
            && (b[p] == |key| && b[p + 1..p + 1 + b[p]] == key <==> es[i].key == key)
  {
    RecordAt(b, es, i);
  }

  lemma RecordParts(b: seq<Byte>, p: nat, e: Entry)
    requires GoodKey(e.key) && p + |Record(e)| <= |b| && b[p..p + |Record(e)|] == Record(e)
    ensures var n := |e.key|;
            && b[p] == n && b[p + 1..p + 1 + n] == e.key
            && b[p + 1 + n..p + 1 + n + POINTER_SIZE] == ToBytes(e.value, POINTER_SIZE)
  {
    var n, r := |e.key|, b[p..p + |Record(e)|];
    RecordFields(e);
    SubSlice(b, p, |r|, 0, 1);
    SubSlice(b, p, |r|, 1, 1 + n);
    SubSlice(b, p, |r|, 1 + n, |r|);
  }

  lemma SubSlice(b: seq<Byte>, p: nat, n: nat, i: nat, j: nat)
    requires p + n <= |b| && i <= j <= n
    ensures b[p..p + n][i..j] == b[p + i..p + j] && (i < n ==> b[p..p + n][i] == b[p + i])
  {
    var r, x, y := b[p..p + n], b[p..p + n][i..j], b[p + i..p + j];
    forall k | 0 <= k < j - i
      ensures x[k] == y[k]
    {
      assert x[k] == r[i + k];
    }
    assert x == y;
  }

  lemma RecordFields(e: Entry)
    requires GoodKey(e.key)
    ensures var n, r := |e.key|, Record(e);
            r[0] == n && r[1..1 + n] == e.key && r[1 + n..] == ToBytes(e.value, POINTER_SIZE)
  {
  }

  lemma EndAt(b: seq<Byte>, es: seq<Entry>)
    requires Holds(b, es)
    ensures Offset(es, |es|) < |b| && b[Offset(es, |es|)] == 0
  {
    assert es[..|es|] == es;
    assert b[..|Encoding(es)| + 1] == Encoding(es) + [0];
  }

  // ---------- what the operations do to the bytes ----------

  /** The bytes with a record and a terminator at p. */
  ghost function WithRecord(b: seq<Byte>, p: nat, e: Entry): seq<Byte>
    requires GoodKey(e.key) && p + |Record(e)| + 1 <= |b|
  {
    b[..p] + (Record(e) + [0]) + b[p + |Record(e)| + 1..]
  }

  function WithHead(b: seq<Byte>, p: nat, key: Key): (h: seq<Byte>)
    requires GoodKey(key) && p + 1 + |key| <= |b|
    ensures |h| == |b|
  {
    b[..p] + Head(key) + b[p + 1 + |key|..]
  }

  /** The length and the key have been written at p: the pointer and the terminator complete the record. */
  lemma RecordWritten(b: seq<Byte>, p: nat, e: Entry)
    requires GoodKey(e.key) && p + |Record(e)| + 1 <= |b|
    ensures var q := p + 1 + |e.key|;
            WithPointer(WithHead(b, p, e.key), q, e.value)[q + POINTER_SIZE := 0] == WithRecord(b, p, e)
  {
    var q, h := p + 1 + |e.key|, WithHead(b, p, e.key);
    var x := ToBytes(e.value, POINTER_SIZE);
    assert h[..q] == b[..p] + Head(e.key) && h[q + POINTER_SIZE..] == b[q + POINTER_SIZE..];
    LastByte(h[..q] + x, b, q + POINTER_SIZE);
    Gather(b[..p], Head(e.key), x, b[q + POINTER_SIZE + 1..]);
  }

  lemma LastByte(a: seq<Byte>, b: seq<Byte>, n: nat)
    requires |a| == n < |b|
    ensures (a + b[n..])[n := 0] == a + ([0] + b[n + 1..])
  {
  }

  lemma Gather(a: seq<Byte>, h: seq<Byte>, x: seq<Byte>, c: seq<Byte>)
    ensures ((a + h) + x) + ([0] + c) == a + ((h + x) + [0]) + c
  {
  }

  /** A record that is written behind the others is parsed as one more pair. */
  lemma Appended(b: seq<Byte>, es: seq<Entry>, e: Entry)
    requires Holds(b, es) && GoodKey(e.key) && e.value < ADDRESSES && forall i :: 0 <= i < |es| ==> es[i].key != e.key
    requires Offset(es, |es|) + |Record(e)| + 1 <= |b|
    ensures Holds(WithRecord(b, Offset(es, |es|), e), es + [e])
  {
    assert es[..|es|] == es;
    EncodingConcat(es, [e]);
    EncodingOne(e);
    GatherPrefix(b, Encoding(es), Record(e), b[|Encoding(es)| + |Record(e)| + 1..]);
  }

  lemma GatherPrefix(b: seq<Byte>, a: seq<Byte>, r: seq<Byte>, c: seq<Byte>)
    requires a + [0] <= b
    ensures a + r + [0] <= b[..|a|] + (r + [0]) + c
  {
    assert b[..|a| + 1] == a + [0];
    assert b[..|a|] == b[..|a| + 1][..|a|];
    assert b[..|a|] + (r + [0]) + c == (a + r + [0]) + c;
  }

  ghost function Replaced(es: seq<Entry>, i: nat, v: nat): seq<Entry>
    requires i < |es|
  {
    es[i := es[i].(value := v)]
  }

  /** Everything before the pointer of the i-th record, and everything behind it. */
  ghost function BeforePointer(es: seq<Entry>, i: nat): seq<Byte>
    requires Good(es) && i < |es|
  {
    Encoding(es[..i]) + Head(es[i].key)
  }

  ghost function BehindPointer(es: seq<Entry>, i: nat): seq<Byte>
    requires Good(es) && i < |es|
  {
    Encoding(es[i + 1..]) + [0]
  }

  lemma Regroup(a: seq<Byte>, h: seq<Byte>, x: seq<Byte>, c: seq<Byte>, z: seq<Byte>)
    ensures a + (h + x) + c + z == (a + h) + x + (c + z)
  {
  }

  lemma AroundPointer(es: seq<Entry>, i: nat)
    requires Good(es) && i < |es|
    ensures Encoding(es) + [0] == BeforePointer(es, i) + ToBytes(es[i].value, POINTER_SIZE) + BehindPointer(es, i)
    ensures |BeforePointer(es, i)| == Offset(es, i) + 1 + |es[i].key|
  {
    Around(es, i);
    Regroup(Encoding(es[..i]), Head(es[i].key), ToBytes(es[i].value, POINTER_SIZE), Encoding(es[i + 1..]), [0]);
  }

  lemma SamePointerSurroundings(es: seq<Entry>, i: nat, v: nat)
    requires Good(es) && i < |es| && v < ADDRESSES
    ensures Good(Replaced(es, i, v)) && Offset(Replaced(es, i, v), i) == Offset(es, i)
    ensures BeforePointer(Replaced(es, i, v), i) == BeforePointer(es, i)
    ensures BehindPointer(Replaced(es, i, v), i) == BehindPointer(es, i)
  {
    var es' := Replaced(es, i, v);
    assert es'[..i] == es[..i] && es'[i + 1..] == es[i + 1..];
  }

  lemma Overwritten(b: seq<Byte>, es: seq<Entry>, i: nat, v: nat)
    requires Holds(b, es) && i < |es| && v < ADDRESSES
    ensures var q := Offset(es, i) + 1 + |es[i].key|;
            q + POINTER_SIZE <= |b| && Holds(WithPointer(b, q, v), Replaced(es, i, v))
  {
    AroundPointer(es, i);
    SamePointerSurroundings(es, i, v);
    AroundPointer(Replaced(es, i, v), i);
    ReplacePrefix(BeforePointer(es, i), ToBytes(es[i].value, POINTER_SIZE), ToBytes(v, POINTER_SIZE),
                  BehindPointer(es, i), b);
  }

  lemma ReplacePrefix(a: seq<Byte>, x: seq<Byte>, y: seq<Byte>, c: seq<Byte>, b: seq<Byte>)
    requires |x| == |y| && a + x + c <= b
    ensures a + y + c <= b[..|a|] + y + b[|a| + |y|..]
  {
    var d := b[|a + x + c|..];
    assert b == a + x + c + d;
    assert b[..|a|] == a && b[|a| + |y|..] == c + d;
    assert a + y + (c + d) == a + y + c + d;
  }

  ghost function Dropped(es: seq<Entry>, i: nat): seq<Entry>
    requires i < |es|
  {
    es[..i] + es[i + 1..]
  }

  /** The bytes behind the record move down; those at the end stay. */
  lemma MovedDown(b: seq<Byte>, es: seq<Entry>, i: nat)
    requires Holds(b, es) && i < |es|
    ensures Offset(es, i) <= Offset(es, i + 1) <= |b|
    ensures Holds(MovedTo(b, Offset(es, i), Offset(es, i + 1)), Dropped(es, i))
  {
    var a, r, c := Encoding(es[..i]), Record(es[i]), Encoding(es[i + 1..]);
    RecordAt(b, es, i);
    Around(es, i);
    EncodingConcat(es[..i], es[i + 1..]);
    Join(a + r, c);
    Join(a, c);
    RemovePrefix(a, r, c + [0], b);
    DroppedGood(es, i);
  }

  lemma Join(a: seq<Byte>, c: seq<Byte>)
    ensures a + c + [0] == a + (c + [0])
  {
  }

  lemma DroppedGood(es: seq<Entry>, i: nat)
    requires Good(es) && i < |es|
    ensures Good(Dropped(es, i))
  {
    DroppedElems(es, i);
  }

  lemma DroppedElems(es: seq<Entry>, i: nat)
    requires i < |es|
    ensures forall j :: 0 <= j < |es| - 1 ==> Dropped(es, i)[j] == es[if j < i then j else j + 1]
  {
  }

  lemma RemovePrefix(a: seq<Byte>, x: seq<Byte>, c: seq<Byte>, b: seq<Byte>)
    requires |a| + |x| <= |b| && a + x + c <= b
    ensures a + c <= MovedTo(b, |a|, |a| + |x|)
  {
    var d := b[|a + x + c|..];
    assert b == a + x + c + d;
    assert b[..|a|] == a && b[|a| + |x|..] == c + d;
    assert MovedTo(b, |a|, |a| + |x|) == a + c + (d + b[|b| - |x|..]);
  }

  // ---------- the finite map ----------

  /** The place of a key, or the number of entries. */
  ghost function Index(es: seq<Entry>, k: Key): (i: nat)
    ensures i <= |es| && (i < |es| ==> es[i].key == k)
    ensures forall j :: 0 <= j < i ==> es[j].key != k
  {
    if es == [] then 0 else if es[0].key == k then 0
    else
      var i := Index(es[1..], k);
      assert forall j :: 0 < j < i + 1 ==> es[j] == es[1..][j - 1];
      i + 1
  }

  lemma FirstWithKey(es: seq<Entry>, k: Key, i: nat)
    requires i <= |es| && (i < |es| ==> es[i].key == k) && forall j :: 0 <= j < i ==> es[j].key != k
    ensures Index(es, k) == i
  {
  }

  ghost function Keys(es: seq<Entry>): set<Key>
  {
    set e | e in es :: e.key
  }

  ghost function AsMap(es: seq<Entry>): map<Key, nat>
  {
    map k | k in Keys(es) && Index(es, k) < |es| :: es[Index(es, k)].value
  }

  lemma MapAt(es: seq<Entry>, i: nat)
    requires Good(es) && i < |es|
    ensures es[i].key in AsMap(es) && AsMap(es)[es[i].key] == es[i].value
  {
    assert es[i] in es;
    assert Index(es, es[i].key) == i;
  }

  lemma NotInMap(es: seq<Entry>, k: Key)
    ensures k in AsMap(es) <==> Index(es, k) < |es|
  {
    if Index(es, k) < |es| {
      assert es[Index(es, k)] in es;
    }
  }

  /** The lists agree on a key. */
  ghost predicate Agree(es: seq<Entry>, es': seq<Entry>, k: Key)
  {
    (k in AsMap(es) <==> k in AsMap(es')) && (k in AsMap(es) ==> AsMap(es)[k] == AsMap(es')[k])
  }

  /** They do if the entries with that key, which are at j and at j' if there are any, have the same value. */
  lemma AgreeAt(es: seq<Entry>, es': seq<Entry>, k: Key, j: int, j': int)
    requires j == Index(es, k) && j' == Index(es', k) && (j < |es| <==> j' < |es'|)
    requires j < |es| ==> es[j].value == es'[j'].value
    ensures Agree(es, es', k)
  {
    NotInMap(es, k);
    NotInMap(es', k);
  }

  lemma IndexIs(es: seq<Entry>, i: nat)
    requires Good(es) && i < |es|
    ensures Index(es, es[i].key) == i
  {
  }

  lemma AppendAt(es: seq<Entry>, e: Entry, k: Key)
    requires Good(es + [e]) && Good(es) && k != e.key
    ensures Agree(es, es + [e], k)
  {
    var es' := es + [e];
    var j, j' := Index(es, k), Index(es', k);
    assert j < |es| ==> es'[j] == es[j];
    assert j' < |es| ==> es'[j'] == es[j'];
    AgreeAt(es, es', k, j, j');
  }

  lemma ReplacedAt(es: seq<Entry>, i: nat, v: nat, k: Key)
    requires Good(es) && i < |es| && v < ADDRESSES && k != es[i].key
    ensures Agree(es, Replaced(es, i, v), k)
  {
    var es' := Replaced(es, i, v);
    var j, j' := Index(es, k), Index(es', k);
    assert j < |es| ==> es'[j] == es[j];
    assert j' < |es| && j' != i ==> es'[j'] == es[j'];
    AgreeAt(es, es', k, j, j');
  }

  lemma DroppedAt(es: seq<Entry>, i: nat, k: Key)
    requires Good(es) && i < |es| && k != es[i].key && Good(Dropped(es, i))
    ensures Agree(es, Dropped(es, i), k)
  {
    var es' := Dropped(es, i);
    DroppedElems(es, i);
    var j, j' := Index(es, k), Index(es', k);
    if j < |es| {
      var n := if j < i then j else j - 1;
      assert es'[n] == es[j];
      IndexIs(es', n);
    }
    AgreeAt(es, es', k, j, j');
  }

  lemma {:induction false} AppendMap(es: seq<Entry>, e: Entry)
    requires Good(es + [e]) && Good(es)
    ensures AsMap(es + [e]) == AsMap(es)[e.key := e.value]
  {
    MapAt(es + [e], |es|);
    forall k | k != e.key
      ensures Agree(es, es + [e], k)
    {
      AppendAt(es, e, k);
    }
    OneChanged(es, es + [e], e.key, e.value);
  }

  lemma ReplacedMap(es: seq<Entry>, i: nat, v: nat)
    requires Good(es) && i < |es| && v < ADDRESSES
    ensures AsMap(Replaced(es, i, v)) == AsMap(es)[es[i].key := v]
  {
    MapAt(Replaced(es, i, v), i);
    forall k | k != es[i].key
      ensures Agree(es, Replaced(es, i, v), k)
    {
      ReplacedAt(es, i, v, k);
    }
    OneChanged(es, Replaced(es, i, v), es[i].key, v);
  }

  lemma OneChanged(es: seq<Entry>, es': seq<Entry>, key: Key, v: nat)
    requires forall k :: k != key ==> Agree(es, es', k)
    requires key in AsMap(es') && AsMap(es')[key] == v
    ensures AsMap(es') == AsMap(es)[key := v]
  {
    forall k
      ensures k in AsMap(es') <==> k in AsMap(es)[key := v]
      ensures k in AsMap(es') ==> AsMap(es')[k] == AsMap(es)[key := v][k]
    {
      assert k != key ==> Agree(es, es', k);
    }
  }

  lemma DroppedMap(es: seq<Entry>, i: nat)
    requires Good(es) && i < |es|
    ensures AsMap(Dropped(es, i)) == AsMap(es) - {es[i].key}
  {
    DroppedGood(es, i);
    DroppedGone(es, i);
    forall k | k != es[i].key
      ensures Agree(es, Dropped(es, i), k)
    {
      DroppedAt(es, i, k);
    }
    OneGone(es, Dropped(es, i), es[i].key);
  }

  lemma OneGone(es: seq<Entry>, es': seq<Entry>, key: Key)
    requires forall k :: k != key ==> Agree(es, es', k)
    requires key !in AsMap(es')
    ensures AsMap(es') == AsMap(es) - {key}
  {
    forall k
      ensures k in AsMap(es') <==> k in AsMap(es) - {key}
      ensures k in AsMap(es') ==> AsMap(es')[k] == (AsMap(es) - {key})[k]
    {
      assert k != key ==> Agree(es, es', k);
    }
  }

  lemma DroppedGone(es: seq<Entry>, i: nat)
    requires Good(es) && i < |es|
    ensures es[i].key !in AsMap(Dropped(es, i))
  {
    var es' := Dropped(es, i);
    DroppedElems(es, i);
    NotInMap(es', es[i].key);
  }
}
