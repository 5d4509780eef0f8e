/**
  * The bytes of the pool: block headers and payload share them.  Writing a header destroys any other header and any
  * payload byte that it overlaps; writing a payload byte destroys any header that it hits.  Whatever is read is proved
  * to be
  there. */
module BuddyMemory {
  import opened PowersOfTwo
  import opened BuddyTree

  /** A pointer into the pool, as an offset. */
  datatype Link = Nil | To(at: int)

  datatype Elem = Elem(linkB: Link, linkF: Link, kVal: nat, tag: nat)

  datatype Memory = Memory(heads: map<int, Elem>, data: map<int, int>)

  function PutHead(m: Memory, o: int, e: Elem): Memory
  {
    Memory((map p | p in m.heads && (p + HEADER <= o || o + HEADER <= p) :: m.heads[p])[o := e],
           map i | i in m.data && !(o <= i < o + HEADER) :: m.data[i])
  }

  function PutByte(m: Memory, i: int, b: int): Memory
  {
    Memory(map p | p in m.heads && !(p <= i < p + HEADER) :: m.heads[p], m.data[i := b])
  }

  /** The copy of one byte.  A byte that was never written stays undefined in the copy. */
  function CopyByte(m: Memory, to: int, from: int): Memory
  {
    Memory(map p | p in m.heads && !(p <= to < p + HEADER) :: m.heads[p],
           if from in m.data then m.data[to := m.data[from]] else m.data - {to})
  }

  /** `memcpy` of n bytes. */
  function CopyBytes(m: Memory, to: int, from: int, n: nat): Memory
  {
    if n == 0 then m else CopyByte(CopyBytes(m, to, from, n - 1), to + (n - 1), from + (n - 1))
  }

  /** Headers sit at multiples of 32, so writing one leaves the others alone. */
  lemma PutKeeps(m: Memory, o: int, e: Elem)
    requires o % 32 == 0
    ensures o in PutHead(m, o, e).heads && PutHead(m, o, e).heads[o] == e
    ensures forall p :: p in m.heads && p % 32 == 0 && p != o ==>
                          p in PutHead(m, o, e).heads && PutHead(m, o, e).heads[p] == m.heads[p]
  {
  }

  // ---------- headers ----------

  /** The headers spell out a block. */
  ghost predicate Written(m: Memory, t: Block, o: int, k: nat)
    decreases t
  {
    match t
    case Free => o in m.heads && m.heads[o].kVal == k && m.heads[o].tag == 1
    case Used(_) => o in m.heads && m.heads[o] == Elem(Nil, Nil, k, 0)
    case Split(l, r) => k > 0 && Written(m, l, o, k - 1) && Written(m, r, o + Pow2(k - 1), k - 1)
  }

  ghost predicate WrittenAround(m: Memory, c: Path, o: int, k: nat)
    decreases c
  {
    match c
    case Top => true
    case InLeft(up, sib) => Written(m, sib, o + Pow2(k), k) && WrittenAround(m, up, o, k + 1)
    case InRight(up, sib) => Written(m, sib, o - Pow2(k), k) && WrittenAround(m, up, o - Pow2(k), k + 1)
  }

  /** A header that has been kept, except that the links of a free block may have changed. */
  ghost predicate Kept(a: Elem, b: Elem)
  {
    a.kVal == b.kVal && a.tag == b.tag && (a.tag == 0 ==> a == b)
  }

  ghost predicate KeptWithin(m: Memory, m': Memory, lo: int, hi: int)
  {
    forall p :: p in m.heads && p % 32 == 0 && lo <= p < hi ==> p in m'.heads && Kept(m.heads[p], m'.heads[p])
  }

  ghost predicate KeptOutside(m: Memory, m': Memory, lo: int, hi: int)
  {
    forall p :: p in m.heads && p % 32 == 0 && (p < lo || hi <= p) ==> p in m'.heads && Kept(m.heads[p], m'.heads[p])
  }

  lemma {:induction false} WrittenFrame(m: Memory, m': Memory, t: Block, o: int, k: nat)
    requires Written(m, t, o, k) && Sized(t, k) && o >= 0 && o % Pow2(k) == 0 && KeptWithin(m, m', o, o + Pow2(k))
    ensures Written(m', t, o, k)
    decreases t
  {
    if t.Split? {
      AlignedHalves(o, k - 1);
      WrittenFrame(m, m', t.left, o, k - 1);
      WrittenFrame(m, m', t.right, o + Pow2(k - 1), k - 1);
    } else {
      AlignedTo32(o, k);
    }
  }

  lemma {:induction false} WrittenAroundFrame(m: Memory, m': Memory, c: Path, o: int, k: nat, top: nat)
    requires WrittenAround(m, c, o, k) && PathSized(c, k) && LeadsTo(c, o, k, top) && KeptOutside(m, m', o, o + Pow2(k))
    ensures WrittenAround(m', c, o, k)
    decreases c
  {
    if !c.Top? {
      PathAligned(c, o, k, top);
      if c.InLeft? {
        PathAligned(c.up, o, k + 1, top);
        AlignedHalves(o, k);
        WrittenFrame(m, m', c.sib, o + Pow2(k), k);
        WrittenAroundFrame(m, m', c.up, o, k + 1, top);
      } else {
        PathAligned(c.up, o - Pow2(k), k + 1, top);
        AlignedHalves(o - Pow2(k), k);
        WrittenFrame(m, m', c.sib, o - Pow2(k), k);
        WrittenAroundFrame(m, m', c.up, o - Pow2(k), k + 1, top);
      }
    }
  }

  lemma {:induction false} WrittenPlug(m: Memory, c: Path, t: Block, o: int, k: nat, top: nat)
    requires LeadsTo(c, o, k, top)
    ensures Written(m, Plug(c, t), 0, top) <==> Written(m, t, o, k) && WrittenAround(m, c, o, k)
    decreases c
  {
    match c
    case Top =>
    case InLeft(up, sib) => WrittenPlug(m, up, Split(t, sib), o, k + 1, top);
    case InRight(up, sib) => WrittenPlug(m, up, Split(sib, t), o - Pow2(k), k + 1, top);
  }

  /** The header at a block's offset tells whether the block is free as a whole. */
  lemma {:induction false} FirstHead(m: Memory, t: Block, o: int, k: nat)
    requires Written(m, t, o, k)
    ensures o in m.heads && m.heads[o].kVal <= k && (m.heads[o].kVal == k <==> !t.Split?)
    ensures t.Free? <==> m.heads[o].kVal == k && m.heads[o].tag != 0
    decreases t
  {
    if t.Split? {
      FirstHead(m, t.left, o, k - 1);
    }
  }

  /** Memory with a new forward, respectively backward, link in a header. */
  function WithLinkF(m: Memory, o: int, link: Link): (m': Memory)
    requires o in m.heads && o % 32 == 0
    ensures o in m'.heads && m'.heads[o] == m.heads[o].(linkF := link) && OnlyHeads(m, m', {o})
  {
    PutOnly(m, o, m.heads[o].(linkF := link));
    PutHead(m, o, m.heads[o].(linkF := link))
  }

  function WithLinkB(m: Memory, o: int, link: Link): (m': Memory)
    requires o in m.heads && o % 32 == 0
    ensures o in m'.heads && m'.heads[o] == m.heads[o].(linkB := link) && OnlyHeads(m, m', {o})
  {
    PutOnly(m, o, m.heads[o].(linkB := link));
    PutHead(m, o, m.heads[o].(linkB := link))
  }

  // ---------- what an operation leaves alone ----------

  ghost predicate Under(heads: set<int>, i: int)
  {
    exists a :: a in heads && a <= i < a + HEADER
  }

  ghost predicate SameByte(m: Memory, m': Memory, i: int)
  {
    (i in m.data <==> i in m'.data) && (i in m.data ==> m'.data[i] == m.data[i])
  }

  /** Byte i' of the second memory is byte i of the first. */
  ghost predicate SameAt(m: Memory, i: int, m': Memory, i': int)
  {
    (i in m.data <==> i' in m'.data) && (i in m.data ==> m'.data[i'] == m.data[i])
  }

  ghost predicate Copied(m: Memory, from: int, m': Memory, to: int, count: int)
  {
    forall i, i' :: 0 <= i - from < count && i' - to == i - from ==> SameAt(m, i, m', i')
  }

  /** Memory differs only in some headers, and in the payload bytes under them. */
  ghost predicate OnlyHeads(m: Memory, m': Memory, heads: set<int>)
  {
    && (forall p :: p in m.heads && p % 32 == 0 && p !in heads ==> p in m'.heads && m'.heads[p] == m.heads[p])
    && (forall i :: !Under(heads, i) ==> SameByte(m, m', i))
  }

  lemma PutOnly(m: Memory, o: int, e: Elem)
    requires o % 32 == 0
    ensures OnlyHeads(m, PutHead(m, o, e), {o})
  {
    forall i | !Under({o}, i)
      ensures SameByte(m, PutHead(m, o, e), i)
    {
      assert o in {o};
    }
  }

  lemma OnlyWider(m: Memory, m': Memory, s': set<int>, s: set<int>)
    requires OnlyHeads(m, m', s') && s' <= s
    ensures OnlyHeads(m, m', s)
  {
    OnlyThen(m, m, m', {}, s', s);
  }

  lemma OnlyThen(m: Memory, m1: Memory, m2: Memory, s1: set<int>, s2: set<int>, s: set<int>)
    requires OnlyHeads(m, m1, s1) && OnlyHeads(m1, m2, s2) && s1 <= s && s2 <= s
    ensures OnlyHeads(m, m2, s)
  {
    forall i | !Under(s, i)
      ensures SameByte(m, m2, i)
    {
      assert !Under(s1, i) && !Under(s2, i);
    }
  }

  /** All headers but one are kept, up to the links of free blocks. */
  ghost predicate KeptBut(m: Memory, m': Memory, e: int)
  {
    forall p :: p in m.heads && p % 32 == 0 && p != e ==> p in m'.heads && Kept(m.heads[p], m'.heads[p])
  }

  // ---------- avail lists ----------

  ghost function Elements(s: seq<int>): set<int>
  {
    set p | p in s
  }

  /** An avail list operation on the element `e` and the list `s` writes the header of `e`, and links in the headers of
      elements of the list. */
  ghost predicate ListOp(m: Memory, m': Memory, e: int, s: seq<int>)
  {
    e in m'.heads && OnlyHeads(m, m', {e} + Elements(s)) && KeptBut(m, m', e)
  }

  const LISTS := 64

  ghost function LinkAt(s: seq<int>, i: int): Link
  {
    if 0 <= i < |s| then To(s[i]) else Nil
  }

  /** The header of the i-th element of an avail list for blocks of size 2^j. */
  ghost function ChainElem(s: seq<int>, i: int, j: nat): Elem
  {
    Elem(LinkAt(s, i - 1), LinkAt(s, i + 1), j, 1)
  }

  /** The elements `s` are doubly linked from `head`, and all are free blocks of size 2^j. */
  ghost predicate Chained(m: Memory, head: Link, s: seq<int>, j: nat)
  {
    && head == LinkAt(s, 0)
    && (forall i :: 0 <= i < |s| ==> s[i] in m.heads && s[i] % 32 == 0 && m.heads[s[i]] == ChainElem(s, i, j))
    && (forall i, i' :: 0 <= i < i' < |s| ==> s[i] != s[i'])
  }

  ghost predicate AllChained(m: Memory, avail: seq<Link>, lists: seq<seq<int>>)
  {
    |avail| == |lists| == LISTS && forall j :: 0 <= j < LISTS ==> Chained(m, avail[j], lists[j], j)
  }

  /** Lists of other sizes do not notice changes to headers of one size. */
  lemma ChainFrame(m: Memory, m': Memory, head: Link, s: seq<int>, j: nat)
    requires Chained(m, head, s, j)
    requires forall p :: p in m.heads && p % 32 == 0 && m.heads[p].tag == 1 && m.heads[p].kVal == j ==>
                           p in m'.heads && m'.heads[p] == m.heads[p]
    ensures Chained(m', head, s, j)
  {
    forall i | 0 <= i < |s|
      ensures s[i] in m'.heads && m'.heads[s[i]] == ChainElem(s, i, j)
    {
      assert m.heads[s[i]] == ChainElem(s, i, j);
    }
  }

  /** `pushAvailList`: the new element goes first. */
  lemma Pushed(m: Memory, m': Memory, avail: seq<Link>, lists: seq<seq<int>>, e: int, j: nat)
    requires AllChained(m, avail, lists) && j < LISTS && e % 32 == 0 && e in m.heads && m.heads[e].tag == 0
    requires e in m'.heads && m'.heads[e] == Elem(Nil, avail[j], j, 1)
    requires avail[j].To? ==>
               avail[j].at in m.heads && avail[j].at in m'.heads
               && m'.heads[avail[j].at] == m.heads[avail[j].at].(linkB := To(e))
    requires forall p :: p in m.heads && p % 32 == 0 && p != e && To(p) != avail[j] ==>
                           p in m'.heads && m'.heads[p] == m.heads[p]
    ensures AllChained(m', avail[j := To(e)], lists[j := [e] + lists[j]])
  {
    var s := lists[j];
    var s' := [e] + s;
    forall i | 0 <= i < |s'|
      ensures s'[i] in m'.heads && s'[i] % 32 == 0 && m'.heads[s'[i]] == ChainElem(s', i, j)
    {
      if i > 0 {
        assert m.heads[s[i - 1]] == ChainElem(s, i - 1, j);
      }
    }
    forall i, i' | 0 <= i < i' < |s'|
      ensures s'[i] != s'[i']
    {
      assert m.heads[s[i' - 1]] == ChainElem(s, i' - 1, j);
    }
    if s != [] {
      assert m.heads[s[0]] == ChainElem(s, 0, j);
    }
    forall j' | 0 <= j' < LISTS && j' != j
      ensures Chained(m', avail[j'], lists[j'], j')
    {
      ChainFrame(m, m', avail[j'], lists[j'], j');
    }
  }

  /** The neighbours of the i-th element of a list have been linked to each other. */
  ghost predicate Bypassed(m: Memory, m': Memory, s: seq<int>, i: nat)
    requires i < |s|
  {
    && (forall p :: p in m.heads && p % 32 == 0 && p != s[i] && To(p) != LinkAt(s, i - 1)
                    && To(p) != LinkAt(s, i + 1) ==>
                      p in m'.heads && m'.heads[p] == m.heads[p])
    && (i > 0 ==>
          s[i - 1] in m.heads && s[i - 1] in m'.heads
          && m'.heads[s[i - 1]] == m.heads[s[i - 1]].(linkF := LinkAt(s, i + 1)))
    && (i + 1 < |s| ==>
          s[i + 1] in m.heads && s[i + 1] in m'.heads
          && m'.heads[s[i + 1]] == m.heads[s[i + 1]].(linkB := LinkAt(s, i - 1)))
  }

  lemma NeighboursDistinct(m: Memory, head: Link, s: seq<int>, i: nat, j: nat)
    requires Chained(m, head, s, j) && i < |s|
    ensures i > 0 ==>
              s[i - 1] % 32 == 0 && s[i - 1] in m.heads && m.heads[s[i - 1]] == ChainElem(s, i - 1, j)
              && s[i - 1] != s[i]
    ensures i + 1 < |s| ==>
              s[i + 1] % 32 == 0 && s[i + 1] in m.heads && m.heads[s[i + 1]] == ChainElem(s, i + 1, j)
              && s[i + 1] != s[i]
    ensures 0 < i < |s| - 1 ==> s[i - 1] != s[i + 1]
  {
  }

  ghost function Bypassing(m: Memory, head: Link, s: seq<int>, i: nat, j: nat): Memory
    requires Chained(m, head, s, j) && i < |s|
  {
    NeighboursDistinct(m, head, s, i, j);
    var e := ChainElem(s, i, j);
    var m1 := if e.linkB.To? then WithLinkF(m, e.linkB.at, e.linkF) else m;
    if e.linkF.To? then WithLinkB(m1, e.linkF.at, e.linkB) else m1
  }

  lemma BypassingOnly(m: Memory, head: Link, s: seq<int>, i: nat, j: nat)
    requires Chained(m, head, s, j) && i < |s|
    ensures OnlyHeads(m, Bypassing(m, head, s, i, j), Elements(s))
  {
    NeighboursDistinct(m, head, s, i, j);
    var e := ChainElem(s, i, j);
    var m1 := if e.linkB.To? then WithLinkF(m, e.linkB.at, e.linkF) else m;
    OnlyWider(m, m1, if i > 0 then {s[i - 1]} else {}, Elements(s));
    if e.linkF.To? {
      OnlyThen(m, m1, Bypassing(m, head, s, i, j), Elements(s), {s[i + 1]}, Elements(s));
    }
  }

  lemma BypassingHeads(m: Memory, head: Link, s: seq<int>, i: nat, j: nat)
    requires Chained(m, head, s, j) && i < |s|
    ensures Bypassed(m, Bypassing(m, head, s, i, j), s, i) && KeptBut(m, Bypassing(m, head, s, i, j), s[i])
  {
    NeighboursDistinct(m, head, s, i, j);
  }

  ghost function Without(s: seq<int>, i: nat): seq<int>
    requires i < |s|
  {
    s[..i] + s[i + 1..]
  }

  /** The neighbours of an element, once the i-th is gone. */
  lemma WithoutLinks(s: seq<int>, i: nat, n: nat)
    requires i < |s| && n < |s| - 1
    ensures var s', n' := Without(s, i), if n < i then n else n + 1;
            && s'[n] == s[n']
            && LinkAt(s', n - 1) == LinkAt(s, if n' == i + 1 then i - 1 else n' - 1)
            && LinkAt(s', n + 1) == LinkAt(s, if n' == i - 1 then i + 1 else n' + 1)
  {
  }

  lemma BypassedElem(m: Memory, m': Memory, head: Link, s: seq<int>, i: nat, j: nat, n: nat)
    requires Chained(m, head, s, j) && i < |s| && Bypassed(m, m', s, i) && n < |s| - 1
    ensures var s' := Without(s, i); s'[n] in m'.heads && s'[n] % 32 == 0 && m'.heads[s'[n]] == ChainElem(s', n, j)
  {
    var n' := if n < i then n else n + 1;
    WithoutLinks(s, i, n);
    assert s[n'] in m.heads && s[n'] % 32 == 0 && m.heads[s[n']] == ChainElem(s, n', j);
    if n' == i - 1 {
      assert m'.heads[s[n']] == m.heads[s[n']].(linkF := LinkAt(s, i + 1));
    } else if n' == i + 1 {
      assert m'.heads[s[n']] == m.heads[s[n']].(linkB := LinkAt(s, i - 1));
    } else {
      assert m'.heads[s[n']] == m.heads[s[n']];
    }
  }

  lemma BypassedChain(m: Memory, m': Memory, head: Link, s: seq<int>, i: nat, j: nat)
    requires Chained(m, head, s, j) && i < |s| && Bypassed(m, m', s, i)
    ensures Chained(m', if i == 0 then LinkAt(s, 1) else head, Without(s, i), j)
  {
    var s' := Without(s, i);
    forall n | 0 <= n < |s'|
      ensures s'[n] in m'.heads && s'[n] % 32 == 0 && m'.heads[s'[n]] == ChainElem(s', n, j)
    {
      BypassedElem(m, m', head, s, i, j, n);
    }
  }

  /** `removeFromAvailList`: the i-th element leaves its list, and the other lists stay as they are. */
  lemma Unlinked(m: Memory, m': Memory, avail: seq<Link>, lists: seq<seq<int>>, i: nat, j: nat)
    requires AllChained(m, avail, lists) && j < LISTS && i < |lists[j]| && Bypassed(m, m', lists[j], i)
    ensures AllChained(m', if i == 0 then avail[j := LinkAt(lists[j], 1)] else avail, lists[j := Without(lists[j], i)])
  {
    var s := lists[j];
    var avail' := if i == 0 then avail[j := LinkAt(s, 1)] else avail;
    BypassedChain(m, m', avail[j], s, i, j);
    assert m.heads[s[i]] == ChainElem(s, i, j);
    assert i > 0 ==> m.heads[s[i - 1]] == ChainElem(s, i - 1, j);
    assert i + 1 < |s| ==> m.heads[s[i + 1]] == ChainElem(s, i + 1, j);
    forall j' | 0 <= j' < LISTS && j' != j
      ensures Chained(m', avail'[j'], lists[j'], j')
    {
      ChainFrame(m, m', avail[j'], lists[j'], j');
    }
  }
}
