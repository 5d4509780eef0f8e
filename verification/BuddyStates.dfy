/**
  * The states between which `allocate` and `deallocate` move: all blocks in order, or one block (the pending one) in
  * the hands of the running
  operation. */
module BuddyStates {
  import opened PowersOfTwo
  import opened BuddyTree
  import opened BuddyMemory

  /** The avail lists hold exactly the free blocks of each size. */
  ghost predicate ListsHold(lists: seq<seq<int>>, t: Block, o: int, k: nat)
    requires |lists| == LISTS
  {
    forall j, p :: 0 <= j < LISTS ==> (p in lists[j] <==> IsFree(t, o, k, j, p))
  }

  ghost predicate ListsHoldAround(lists: seq<seq<int>>, c: Path, o: int, k: nat)
    requires |lists| == LISTS
  {
    forall j, p :: 0 <= j < LISTS ==> (p in lists[j] <==> IsFreeAround(c, o, k, j, p))
  }

  /** The pool is divided into the blocks of `t`. */
  ghost predicate Whole(m: Memory, avail: seq<Link>, lists: seq<seq<int>>, t: Block, top: nat)
  {
    && MIN_KVAL <= top < LISTS && Sized(t, top) && Coalesced(t) && Written(m, t, 0, top)
    && AllChained(m, avail, lists) && ListsHold(lists, t, 0, top)
  }

  /** The pool is divided into the blocks around the one at offset `o`, which is on no list. */
  ghost predicate Pending(m: Memory, avail: seq<Link>, lists: seq<seq<int>>, c: Path, o: int, k: nat, top: nat)
  {
    && top < LISTS && LeadsTo(c, o, k, top) && PathSized(c, k) && CoalescedAround(c) && WrittenAround(m, c, o, k)
    && o in m.heads && m.heads[o] == Elem(Nil, Nil, k, 0)
    && AllChained(m, avail, lists) && ListsHoldAround(lists, c, o, k)
  }

  /** No byte of the payload of a block in use has changed. */
  ghost predicate PayloadKept(m: Memory, m': Memory, c: Path, o: int, k: nat)
  {
    forall j, p, n, i :: IsUsedAround(c, o, k, j, p, n) && p + HEADER <= i < p + Pow2(j) ==> SameByte(m, m', i)
  }

  lemma PayloadThen(m: Memory, m1: Memory, m2: Memory, c: Path, o: int, k: nat)
    requires PayloadKept(m, m1, c, o, k) && PayloadKept(m1, m2, c, o, k)
    ensures PayloadKept(m, m2, c, o, k)
  {
    forall j, p, n, i | IsUsedAround(c, o, k, j, p, n) && p + HEADER <= i < p + Pow2(j)
      ensures SameByte(m, m2, i)
    {
      assert SameByte(m, m1, i) && SameByte(m1, m2, i);
    }
  }

  /** What is kept around one block is kept around any other that has the same, or fewer, blocks in use around it. */
  lemma PayloadFewer(m: Memory, m': Memory, c': Path, o': int, k': nat, c: Path, o: int, k: nat)
    requires PayloadKept(m, m', c', o', k')
    requires forall j, p, n :: IsUsedAround(c, o, k, j, p, n) ==> IsUsedAround(c', o', k', j, p, n)
    ensures PayloadKept(m, m', c, o, k)
  {
  }

  // ---------- frames ----------

  /** Listed blocks lie outside the pending block. */
  lemma ListedOutside(lists: seq<seq<int>>, c: Path, o: int, k: nat, top: nat, j: nat, p: int)
    requires |lists| == LISTS && ListsHoldAround(lists, c, o, k) && LeadsTo(c, o, k, top) && j < LISTS && p in lists[j]
    ensures IsFreeAround(c, o, k, j, p) && (p + Pow2(j) <= o || o + Pow2(k) <= p)
  {
    BlockOutside(c, o, k, top, j, p, 0);
  }

  lemma {:induction false} AroundAligned(c: Path, o: int, k: nat, top: nat, j: nat, p: int, n: nat)
    requires LeadsTo(c, o, k, top) && PathSized(c, k) && (IsFreeAround(c, o, k, j, p) || IsUsedAround(c, o, k, j, p, n))
    ensures p % 32 == 0 && j >= MIN_KVAL && Pow2(j) >= 32
    decreases c
  {
    var o' := if c.InLeft? then o else o - Pow2(k);
    PathAligned(c.up, o', k + 1, top);
    AlignedHalves(o', k);
    if IsFreeAround(c.up, o', k + 1, j, p) || IsUsedAround(c.up, o', k + 1, j, p, n) {
      AroundAligned(c.up, o', k + 1, top, j, p, n);
    } else {
      BlockAligned(c.sib, if c.InLeft? then o + Pow2(k) else o', k, j, p, n);
      Pow2Monotone(5, j);
      assert Pow2(5) == 32;
    }
  }

  /** A free block and a block in use around the pending one do not overlap. */
  lemma AroundDisjoint(c: Path, o: int, k: nat, top: nat, j: nat, p: int, j': nat, p': int, n': nat)
    requires LeadsTo(c, o, k, top) && IsFreeAround(c, o, k, j, p) && IsUsedAround(c, o, k, j', p', n')
    ensures p + Pow2(j) <= p' || p' + Pow2(j') <= p
  {
    FreePlug(c, Free, o, k, top, j, p);
    UsedPlug(c, Free, o, k, top, j', p', n');
    FreeUsedDisjoint(Plug(c, Free), 0, top, j, p, j', p', n');
  }

  /** A header that an operation may write: inside the pending block, or that of a free block. */
  ghost predicate Writable(c: Path, o: int, k: nat, a: int)
  {
    a % 32 == 0 && (o <= a < o + Pow2(k) || exists j :: IsFreeAround(c, o, k, j, a))
  }

  lemma PayloadSafe(m: Memory, m': Memory, c: Path, o: int, k: nat, top: nat, heads: set<int>)
    requires LeadsTo(c, o, k, top) && PathSized(c, k) && OnlyHeads(m, m', heads)
    requires forall a :: a in heads ==> Writable(c, o, k, a)
    ensures PayloadKept(m, m', c, o, k)
  {
    forall j, p, n, i | IsUsedAround(c, o, k, j, p, n) && p + HEADER <= i < p + Pow2(j)
      ensures SameByte(m, m', i)
    {
      forall a | a in heads
        ensures !(a <= i < a + HEADER)
      {
        HeadMissesPayload(c, o, k, top, a, j, p, n, i);
      }
      assert !Under(heads, i);
    }
  }

  lemma HeadMissesPayload(c: Path, o: int, k: nat, top: nat, a: int, j: nat, p: int, n: nat, i: int)
    requires LeadsTo(c, o, k, top) && PathSized(c, k) && Writable(c, o, k, a)
    requires IsUsedAround(c, o, k, j, p, n) && p + HEADER <= i < p + Pow2(j)
    ensures !(a <= i < a + HEADER)
  {
    if o <= a < o + Pow2(k) {
      PathAligned(c, o, k, top);
      AlignedFits(o, k, a, 5) by {
        assert Pow2(5) == 32;
      }
      assert Pow2(5) == 32;
      BlockOutside(c, o, k, top, j, p, n);
    } else {
      var j' :| IsFreeAround(c, o, k, j', a);
      AroundAligned(c, o, k, top, j', a, n);
      AroundDisjoint(c, o, k, top, j', a, j, p, n);
    }
  }

  // ---------- taking a block out of the pool ----------

  /** Where a block sits in the pool. */
  lemma {:induction false} Locate(c0: Path, t: Block, o: int, k: nat, top: nat, j: nat, p: int, n: nat)
    returns (c: Path, b: Block)
    requires LeadsTo(c0, o, k, top) && Sized(t, k) && (IsFree(t, o, k, j, p) || IsUsed(t, o, k, j, p, n))
    ensures LeadsTo(c, p, j, top) && Plug(c, b) == Plug(c0, t) && b == if IsFree(t, o, k, j, p) then Free else Used(n)
    decreases t
  {
    if t.Split? {
      BlockInsideHalf(t, o, k, j, p, n);
      if IsFree(t.left, o, k - 1, j, p) || IsUsed(t.left, o, k - 1, j, p, n) {
        c, b := Locate(InLeft(c0, t.right), t.left, o, k - 1, top, j, p, n);
      } else {
        c, b := Locate(InRight(c0, t.left), t.right, o + Pow2(k - 1), k - 1, top, j, p, n);
      }
    } else {
      c, b := c0, t;
    }
  }

  /** A block is in one half only. */
  lemma BlockInsideHalf(t: Block, o: int, k: nat, j: nat, p: int, n: nat)
    requires t.Split? && k > 0
    ensures IsFree(t.left, o, k - 1, j, p) || IsUsed(t.left, o, k - 1, j, p, n) ==>
              !IsFree(t.right, o + Pow2(k - 1), k - 1, j, p) && !IsUsed(t.right, o + Pow2(k - 1), k - 1, j, p, n)
  {
    if IsFree(t.left, o, k - 1, j, p) || IsUsed(t.left, o, k - 1, j, p, n) {
      BlockInside(t.left, o, k - 1, j, p, n);
    }
    if IsFree(t.right, o + Pow2(k - 1), k - 1, j, p) || IsUsed(t.right, o + Pow2(k - 1), k - 1, j, p, n) {
      BlockInside(t.right, o + Pow2(k - 1), k - 1, j, p, n);
    }
  }

  /** `deallocate` picks up a block in use; nothing is written. */
  lemma PickedUp(m: Memory, avail: seq<Link>, lists: seq<seq<int>>, t: Block, c: Path, o: int, k: nat, top: nat, n: nat)
    requires Whole(m, avail, lists, t, top) && LeadsTo(c, o, k, top) && Plug(c, Used(n)) == t
    ensures Pending(m, avail, lists, c, o, k, top)
  {
    SizedPlug(c, Used(n), o, k, top);
    CoalescedPlug(c, Used(n));
    WrittenPlug(m, c, Used(n), o, k, top);
    forall j, p | 0 <= j < LISTS
      ensures p in lists[j] <==> IsFreeAround(c, o, k, j, p)
    {
      FreePlug(c, Used(n), o, k, top, j, p);
    }
  }

  /** A block goes to a request. */
  lemma HandedOut(m: Memory, avail: seq<Link>, lists: seq<seq<int>>, c: Path, o: int, k: nat, top: nat, n: nat)
    requires Pending(m, avail, lists, c, o, k, top) && 0 < n <= Pow2(k) - HEADER
    ensures Whole(m, avail, lists, Plug(c, Used(n)), top)
  {
    PathAligned(c, o, k, top);
    SizedPlug(c, Used(n), o, k, top);
    CoalescedPlug(c, Used(n));
    WrittenPlug(m, c, Used(n), o, k, top);
    forall j, p | 0 <= j < LISTS
      ensures p in lists[j] <==> IsFree(Plug(c, Used(n)), 0, top, j, p)
    {
      FreePlug(c, Used(n), o, k, top, j, p);
    }
  }

  /** An operation on one list keeps the headers around the pending block. */
  lemma AroundKept(m: Memory, m': Memory, c: Path, o: int, k: nat, top: nat, e: int)
    requires WrittenAround(m, c, o, k) && PathSized(c, k) && LeadsTo(c, o, k, top) && KeptBut(m, m', e)
    requires o <= e < o + Pow2(k)
    ensures WrittenAround(m', c, o, k)
  {
    WrittenAroundFrame(m, m', c, o, k, top);
  }

  /** A free block is taken off its list: the first one by `allocate`, any one by `deallocate`. */
  lemma TakenOff(m: Memory, m': Memory, avail: seq<Link>, avail': seq<Link>, lists: seq<seq<int>>,
                 t: Block, c: Path, o: int, k: nat, top: nat, i: nat)
    requires Whole(m, avail, lists, t, top) && LeadsTo(c, o, k, top) && Plug(c, Free) == t && k < LISTS
    requires i < |lists[k]| && lists[k][i] == o && ListOp(m, m', o, lists[k]) && m'.heads[o] == Elem(Nil, Nil, k, 0)
    requires AllChained(m', avail', lists[k := Without(lists[k], i)])
    ensures Pending(m', avail', lists[k := Without(lists[k], i)], c, o, k, top)
    ensures PayloadKept(m, m', c, o, k)
  {
    SizedPlug(c, Free, o, k, top);
    CoalescedPlug(c, Free);
    WrittenPlug(m, c, Free, o, k, top);
    AroundKept(m, m', c, o, k, top, o);
    var s, lists' := lists[k], lists[k := Without(lists[k], i)];
    assert Chained(m, avail[k], s, k);
    forall j, p | 0 <= j < LISTS
      ensures p in lists'[j] <==> IsFreeAround(c, o, k, j, p)
    {
      FreePlug(c, Free, o, k, top, j, p);
      if IsFreeAround(c, o, k, j, p) {
        BlockOutside(c, o, k, top, j, p, 0);
      }
    }
    forall a | a in {o} + Elements(s)
      ensures Writable(c, o, k, a)
    {
      PathAligned(c, o, k, top);
      assert a in s;
      FreePlug(c, Free, o, k, top, k, a);
    }
    PayloadSafe(m, m', c, o, k, top, {o} + Elements(s));
  }

  /** `deallocate`, or a split of `allocate`, pushes the pending block. */
  lemma PushedBack(m: Memory, m': Memory, avail: seq<Link>, avail': seq<Link>, lists: seq<seq<int>>,
                   c: Path, o: int, k: nat, top: nat)
    requires Pending(m, avail, lists, c, o, k, top) && !(!c.Top? && c.sib.Free?)
    requires ListOp(m, m', o, lists[k]) && m'.heads[o].kVal == k && m'.heads[o].tag == 1
    requires AllChained(m', avail', lists[k := [o] + lists[k]])
    ensures Whole(m', avail', lists[k := [o] + lists[k]], Plug(c, Free), top)
    ensures PayloadKept(m, m', c, o, k)
  {
    PathAligned(c, o, k, top);
    SizedPlug(c, Free, o, k, top);
    CoalescedPlug(c, Free);
    AroundKept(m, m', c, o, k, top, o);
    WrittenPlug(m', c, Free, o, k, top);
    var s, lists' := lists[k], lists[k := [o] + lists[k]];
    forall j, p | 0 <= j < LISTS
      ensures p in lists'[j] <==> IsFree(Plug(c, Free), 0, top, j, p)
    {
      FreePlug(c, Free, o, k, top, j, p);
    }
    assert Chained(m', avail'[k], lists'[k], k);
    forall a | a in {o} + Elements(s)
      ensures Writable(c, o, k, a)
    {
      if a == o {
        assert lists'[k][0] == o;
      } else {
        assert a in s;
        ListedOutside(lists, c, o, k, top, k, a);
        AroundAligned(c, o, k, top, k, a, 0);
      }
    }
    PayloadSafe(m, m', c, o, k, top, {o} + Elements(s));
  }

  /** The path to the buddy of a block that is in the hands of `deallocate`. */
  ghost function OtherSide(c: Path): Path
    requires !c.Top?
  {
    if c.InLeft? then InRight(c.up, Used(1)) else InLeft(c.up, Used(1))
  }

  lemma {:induction false} OtherSideMeans(c: Path, o: int, k: nat, top: nat, b: int)
    requires LeadsTo(c, o, k, top) && !c.Top? && c.sib.Free? && b == (if c.InLeft? then o + Pow2(k) else o - Pow2(k))
    ensures LeadsTo(OtherSide(c), b, k, top) && Plug(OtherSide(c), Free) == Plug(c, Used(1))
    ensures forall j, p, n :: IsUsedAround(c, o, k, j, p, n) ==> IsUsedAround(OtherSide(c), b, k, j, p, n)
  {
    assert Plug(c, Used(1)) == Plug(c.up, if c.InLeft? then Split(Used(1), Free) else Split(Free, Used(1)));
  }

  /** The free buddy of the pending block is taken off its list. */
  lemma BuddyTaken(m: Memory, m': Memory, avail: seq<Link>, avail': seq<Link>, lists: seq<seq<int>>,
                   c: Path, o: int, k: nat, top: nat, b: int, i: nat)
    requires Pending(m, avail, lists, c, o, k, top) && !c.Top? && c.sib.Free? && k < LISTS
    requires b == (if c.InLeft? then o + Pow2(k) else o - Pow2(k)) && i < |lists[k]| && lists[k][i] == b
    requires ListOp(m, m', b, lists[k]) && m'.heads[b] == Elem(Nil, Nil, k, 0)
    requires AllChained(m', avail', lists[k := Without(lists[k], i)])
    ensures Pending(m', avail', lists[k := Without(lists[k], i)], OtherSide(c), b, k, top)
    ensures PayloadKept(m, m', c, o, k)
  {
    Pow2Values();
    Pow2Monotone(5, k);
    HandedOut(m, avail, lists, c, o, k, top, 1);
    OtherSideMeans(c, o, k, top, b);
    TakenOff(m, m', avail, avail', lists, Plug(c, Used(1)), OtherSide(c), b, k, top, i);
    PayloadFewer(m, m', OtherSide(c), b, k, c, o, k);
  }

  /** The headers outside the 2^k bytes at `o` are as they were. */
  ghost predicate SameOutside(m: Memory, m': Memory, o: int, k: nat)
  {
    forall p :: p in m.heads && p % 32 == 0 && (p < o || o + Pow2(k) <= p) ==>
                  p in m'.heads && m'.heads[p] == m.heads[p]
  }

  /** Nothing on a list is touched by writing headers inside the pending block. */
  lemma ChainsKept(m: Memory, m': Memory, avail: seq<Link>, lists: seq<seq<int>>, c: Path, o: int, k: nat, top: nat)
    requires AllChained(m, avail, lists) && ListsHoldAround(lists, c, o, k) && LeadsTo(c, o, k, top)
    requires SameOutside(m, m', o, k)
    ensures AllChained(m', avail, lists)
  {
    forall j | 0 <= j < LISTS
      ensures Chained(m', avail[j], lists[j], j)
    {
      forall i | 0 <= i < |lists[j]|
        ensures lists[j][i] in m'.heads && m'.heads[lists[j][i]] == ChainElem(lists[j], i, j)
      {
        assert Chained(m, avail[j], lists[j], j);
        ListedOutside(lists, c, o, k, top, j, lists[j][i]);
      }
    }
  }

  /** Memory with the two headers that a split writes. */
  ghost function WithHalves(m: Memory, o: int, k: nat): Memory
  {
    PutHead(PutHead(m, o, Elem(Nil, Nil, k, 0)), o + Pow2(k), Elem(Nil, Nil, k, 0))
  }

  lemma HalvesPlaced(c: Path, o: int, k: nat, top: nat)
    requires LeadsTo(c, o, k + 1, top) && k >= MIN_KVAL
    ensures 0 <= o && o % 32 == 0 && (o + Pow2(k)) % 32 == 0 && o + Pow2(k) < o + Pow2(k + 1)
  {
    PathAligned(c, o, k + 1, top);
    AlignedHalves(o, k);
    AlignedTo32(o, k);
    AlignedTo32(o + Pow2(k), k);
  }

  lemma HalvesWritten(m: Memory, o: int, k: nat)
    requires o % 32 == 0 && (o + Pow2(k)) % 32 == 0
    ensures var m', q := WithHalves(m, o, k), o + Pow2(k);
            && o in m'.heads && m'.heads[o] == Elem(Nil, Nil, k, 0) && q in m'.heads
            && m'.heads[q] == Elem(Nil, Nil, k, 0)
            && (forall p :: p in m.heads && p % 32 == 0 && p != o && p != q ==>
                              p in m'.heads && m'.heads[p] == m.heads[p])
  {
    var q, h := o + Pow2(k), Elem(Nil, Nil, k, 0);
    PutKeeps(m, o, h);
    PutKeeps(PutHead(m, o, h), q, h);
  }

  lemma HalvesOnly(m: Memory, o: int, k: nat)
    requires o % 32 == 0 && (o + Pow2(k)) % 32 == 0
    ensures OnlyHeads(m, WithHalves(m, o, k), {o, o + Pow2(k)})
  {
    var q, h := o + Pow2(k), Elem(Nil, Nil, k, 0);
    var m1 := PutHead(m, o, h);
    PutOnly(m, o, h);
    PutOnly(m1, q, h);
    OnlyThen(m, m1, WithHalves(m, o, k), {o}, {q}, {o, q});
  }

  lemma HalvesOutside(m: Memory, c: Path, o: int, k: nat, top: nat)
    requires LeadsTo(c, o, k + 1, top) && k >= MIN_KVAL
    ensures SameOutside(m, WithHalves(m, o, k), o, k + 1)
  {
    HalvesPlaced(c, o, k, top);
    HalvesWritten(m, o, k);
  }

  lemma AroundSame(m: Memory, m': Memory, c: Path, o: int, k: nat, top: nat)
    requires WrittenAround(m, c, o, k) && PathSized(c, k) && LeadsTo(c, o, k, top) && SameOutside(m, m', o, k)
    ensures WrittenAround(m', c, o, k)
  {
    WrittenAroundFrame(m, m', c, o, k, top);
  }

  lemma HalvedLists(lists: seq<seq<int>>, c: Path, o: int, k: nat, n: nat)
    requires |lists| == LISTS && ListsHoldAround(lists, c, o, k + 1)
    ensures ListsHoldAround(lists, InRight(c, Used(n)), o + Pow2(k), k)
  {
    forall j, p | 0 <= j < LISTS
      ensures p in lists[j] <==> IsFreeAround(InRight(c, Used(n)), o + Pow2(k), k, j, p)
    {
      assert p in lists[j] <==> IsFreeAround(c, o, k + 1, j, p);
    }
  }

  /** The block at `o` becomes a block in use of half the size, and the other half becomes the pending block. */
  lemma Halved(m: Memory, m': Memory, avail: seq<Link>, lists: seq<seq<int>>, c: Path, o: int, k: nat, top: nat, n: nat)
    requires Pending(m, avail, lists, c, o, k + 1, top) && k >= MIN_KVAL && 0 < n <= Pow2(k) - HEADER
    requires SameOutside(m, m', o, k + 1) && o in m'.heads && m'.heads[o] == Elem(Nil, Nil, k, 0)
    requires o + Pow2(k) in m'.heads && m'.heads[o + Pow2(k)] == Elem(Nil, Nil, k, 0)
    ensures Pending(m', avail, lists, InRight(c, Used(n)), o + Pow2(k), k, top)
  {
    HalvedKept(m, m', avail, lists, c, o, k + 1, top);
    HalvedPending(m', avail, lists, c, o, k, top, n);
  }

  lemma HalvedKept(m: Memory, m': Memory, avail: seq<Link>, lists: seq<seq<int>>, c: Path, o: int, k: nat, top: nat)
    requires Pending(m, avail, lists, c, o, k, top) && SameOutside(m, m', o, k)
    ensures WrittenAround(m', c, o, k) && AllChained(m', avail, lists)
  {
    ChainsKept(m, m', avail, lists, c, o, k, top);
    AroundSame(m, m', c, o, k, top);
  }

  lemma HalvedPending(m: Memory, avail: seq<Link>, lists: seq<seq<int>>, c: Path, o: int, k: nat, top: nat, n: nat)
    requires LeadsTo(c, o, k + 1, top) && PathSized(c, k + 1) && CoalescedAround(c) && WrittenAround(m, c, o, k + 1)
    requires top < LISTS && AllChained(m, avail, lists) && ListsHoldAround(lists, c, o, k + 1)
    requires k >= MIN_KVAL && 0 < n <= Pow2(k) - HEADER && o in m.heads && m.heads[o] == Elem(Nil, Nil, k, 0)
    requires o + Pow2(k) in m.heads && m.heads[o + Pow2(k)] == Elem(Nil, Nil, k, 0)
    ensures Pending(m, avail, lists, InRight(c, Used(n)), o + Pow2(k), k, top)
  {
    HalvedLists(lists, c, o, k, n);
    PathAligned(c, o, k + 1, top);
    assert Written(m, Used(n), o, k);
  }

  lemma HalvedPayload(m: Memory, m': Memory, c: Path, o: int, k: nat, top: nat)
    requires LeadsTo(c, o, k + 1, top) && PathSized(c, k + 1) && k >= MIN_KVAL && OnlyHeads(m, m', {o, o + Pow2(k)})
    ensures PayloadKept(m, m', c, o, k + 1)
  {
    HalvesPlaced(c, o, k, top);
    PathAligned(c, o, k + 1, top);
    PayloadSafe(m, m', c, o, k + 1, top, {o, o + Pow2(k)});
  }

  /** A buddy in use contributes no free block. */
  lemma ListsAbove(lists: seq<seq<int>>, c: Path, o: int, k: nat)
    requires |lists| == LISTS && ListsHoldAround(lists, c, o, k) && !c.Top? && c.sib.Used?
    ensures ListsHoldAround(lists, c.up, if c.InLeft? then o else o - Pow2(k), k + 1)
  {
    var o' := if c.InLeft? then o else o - Pow2(k);
    forall j, p | 0 <= j < LISTS
      ensures p in lists[j] <==> IsFreeAround(c.up, o', k + 1, j, p)
    {
      assert IsFreeAround(c, o, k, j, p) <==> IsFreeAround(c.up, o', k + 1, j, p);
    }
  }

  /** The upper half, at `q`, goes on a list, and the lower half becomes the pending block. */
  lemma {:induction false} UpperListed(m: Memory, m': Memory, avail: seq<Link>, avail': seq<Link>, lists: seq<seq<int>>,
                                       c: Path, o: int, q: int, k: nat, top: nat, n: nat)
    requires q == o + Pow2(k) && Pending(m, avail, lists, InRight(c, Used(n)), q, k, top)
    requires k < LISTS && ListOp(m, m', q, lists[k]) && m'.heads[q].kVal == k && m'.heads[q].tag == 1
    requires AllChained(m', avail', lists[k := [q] + lists[k]])
    ensures Pending(m', avail', lists[k := [q] + lists[k]], InLeft(c, Free), o, k, top)
    ensures PayloadKept(m, m', InRight(c, Used(n)), q, k)
  {
    PushedBack(m, m', avail, avail', lists, InRight(c, Used(n)), q, k, top);
    LowerHalf(c, o, k, top, n);
    PickedUp(m', avail', lists[k := [q] + lists[k]], Plug(InLeft(c, Free), Used(n)), InLeft(c, Free), o, k, top, n);
  }

  lemma LowerHalf(c: Path, o: int, k: nat, top: nat, n: nat)
    requires LeadsTo(InRight(c, Used(n)), o + Pow2(k), k, top)
    ensures LeadsTo(InLeft(c, Free), o, k, top) && Plug(InRight(c, Used(n)), Free) == Plug(InLeft(c, Free), Used(n))
  {
  }

  lemma LowerPlaced(c: Path, o: int, k: nat, top: nat)
    requires LeadsTo(c, o, k, top) && !c.Top?
    ensures var o' := if c.InLeft? then o else o - Pow2(k);
            LeadsTo(c.up, o', k + 1, top) && o' >= 0 && o' % 32 == 0 && o' < o' + Pow2(k + 1)
  {
    var o' := if c.InLeft? then o else o - Pow2(k);
    PathAligned(c.up, o', k + 1, top);
    AlignedTo32(o', k + 1);
  }

  /** Everything is in order but for the block at `o`, which may not have a header yet. */
  ghost predicate Headless(m: Memory, avail: seq<Link>, lists: seq<seq<int>>, c: Path, o: int, k: nat, top: nat)
  {
    && AllChained(m, avail, lists) && ListsHoldAround(lists, c, o, k) && LeadsTo(c, o, k, top) && top < LISTS
    && WrittenAround(m, c, o, k) && PathSized(c, k) && CoalescedAround(c) && o % 32 == 0 && o < o + Pow2(k)
  }

  /** Both halves are in the hands of `deallocate`. */
  lemma {:induction false} Merging(m: Memory, avail: seq<Link>, lists: seq<seq<int>>, c: Path, o: int, k: nat,
                                   top: nat, up: Path, low: int)
    requires Pending(m, avail, lists, c, o, k, top) && !c.Top? && c.sib.Used?
    requires up == c.up && low == if c.InLeft? then o else o - Pow2(k)
    ensures Headless(m, avail, lists, up, low, k + 1, top)
  {
    LowerPlaced(c, o, k, top);
    AroundAbove(m, c, o, k);
    ListsAbove(lists, c, o, k);
  }

  lemma AroundAbove(m: Memory, c: Path, o: int, k: nat)
    requires WrittenAround(m, c, o, k) && PathSized(c, k) && CoalescedAround(c) && !c.Top?
    ensures WrittenAround(m, c.up, if c.InLeft? then o else o - Pow2(k), k + 1) && PathSized(c.up, k + 1)
    ensures CoalescedAround(c.up)
  {
  }

  /** The header that a merge writes. */
  lemma Merged(m: Memory, m': Memory, avail: seq<Link>, lists: seq<seq<int>>, c: Path, o: int, k: nat, top: nat)
    requires Headless(m, avail, lists, c, o, k, top) && m' == PutHead(m, o, Elem(Nil, Nil, k, 0))
    ensures Pending(m', avail, lists, c, o, k, top) && PayloadKept(m, m', c, o, k)
  {
    var h := Elem(Nil, Nil, k, 0);
    PutKeeps(m, o, h);
    ChainsKept(m, m', avail, lists, c, o, k, top);
    AroundPut(m, h, c, o, k, top);
    MergedPayload(m, m', c, o, k, top);
  }

  lemma AroundPut(m: Memory, h: Elem, c: Path, o: int, k: nat, top: nat)
    requires WrittenAround(m, c, o, k) && PathSized(c, k) && LeadsTo(c, o, k, top) && o % 32 == 0
    ensures WrittenAround(PutHead(m, o, h), c, o, k)
  {
    PutKeeps(m, o, h);
    WrittenAroundFrame(m, PutHead(m, o, h), c, o, k, top);
  }

  lemma MergedPayload(m: Memory, m': Memory, c: Path, o: int, k: nat, top: nat)
    requires LeadsTo(c, o, k, top) && PathSized(c, k) && o % 32 == 0 && o < o + Pow2(k)
    requires m' == PutHead(m, o, Elem(Nil, Nil, k, 0))
    ensures PayloadKept(m, m', c, o, k)
  {
    PathAligned(c, o, k, top);
    PutOnly(m, o, Elem(Nil, Nil, k, 0));
    PayloadSafe(m, m', c, o, k, top, {o});
  }

  /** If the lists for size 2^k and up are empty, there is no free block of that size or more. */
  lemma NoListNoBlock(lists: seq<seq<int>>, t: Block, top: nat, k: nat)
    requires |lists| == LISTS && ListsHold(lists, t, 0, top) && top < LISTS
    requires forall j :: k <= j < LISTS ==> lists[j] == []
    ensures !HasFreeBlock(t, 0, top, k)
  {
    if HasFreeBlock(t, 0, top, k) {
      var j, p :| k <= j && IsFree(t, 0, top, j, p);
      BlockInside(t, 0, top, j, p, 0);
      assert false;
    }
  }

  // ---------- payload writes ----------

  /** Headers and bytes outside the payload of a block are as they were. */
  ghost predicate OnlyPayload(m: Memory, m': Memory, o: int, k: nat)
  {
    && (forall p :: p in m.heads && (p + HEADER <= o + HEADER || o + Pow2(k) <= p) ==>
                      p in m'.heads && m'.heads[p] == m.heads[p])
    && (forall i :: i < o + HEADER || o + Pow2(k) <= i ==> SameByte(m, m', i))
  }

  lemma CopyOnly(m: Memory, m1: Memory, to: int, from: int, o: int, k: nat)
    requires OnlyPayload(m, m1, o, k) && o + HEADER <= to < o + Pow2(k)
    ensures OnlyPayload(m, CopyByte(m1, to, from), o, k)
  {
    var m2 := CopyByte(m1, to, from);
    forall i | i < o + HEADER || o + Pow2(k) <= i
      ensures SameByte(m, m2, i)
    {
      assert SameByte(m, m1, i);
    }
    forall p | p in m.heads && (p + HEADER <= o + HEADER || o + Pow2(k) <= p)
      ensures p in m2.heads && m2.heads[p] == m.heads[p]
    {
      assert p in m1.heads;
    }
  }

  /** A copy into the payload of the block at `o`, from elsewhere. */
  lemma {:induction false} CopyMeans(m: Memory, to: int, from: int, count: nat, o: int, k: nat)
    requires o + HEADER <= to && to + count <= o + Pow2(k) && (from + count <= o || o + Pow2(k) <= from)
    ensures OnlyPayload(m, CopyBytes(m, to, from, count), o, k)
    ensures Copied(m, from, CopyBytes(m, to, from, count), to, count)
  {
    if count > 0 {
      var m1 := CopyBytes(m, to, from, count - 1);
      CopyMeans(m, to, from, count - 1, o, k);
      assert SameByte(m, m1, from + (count - 1));
      CopyOne(m, m1, to, from, count - 1);
      CopyOnly(m, m1, to + (count - 1), from + (count - 1), o, k);
      assert CopyBytes(m, to, from, count) == CopyByte(m1, to + (count - 1), from + (count - 1));
    } else {
      assert CopyBytes(m, to, from, count) == m;
    }
  }

  lemma CopyOne(m: Memory, m1: Memory, to: int, from: int, count: nat)
    requires Copied(m, from, m1, to, count) && SameByte(m, m1, from + count)
    ensures Copied(m, from, CopyByte(m1, to + count, from + count), to, count + 1)
  {
    var m2 := CopyByte(m1, to + count, from + count);
    forall i, i' | 0 <= i - from < count + 1 && i' - to == i - from
      ensures SameAt(m, i, m2, i')
    {
      if i < from + count {
        assert SameAt(m, i, m1, i');
      }
    }
  }

  /** Writing the payload of a block in use disturbs neither the blocks nor the lists. */
  lemma PayloadWritten(m: Memory, m': Memory, avail: seq<Link>, lists: seq<seq<int>>, t: Block, top: nat, k: nat,
                       o: int, n: nat)
    requires Whole(m, avail, lists, t, top) && IsUsed(t, 0, top, k, o, n) && OnlyPayload(m, m', o, k)
    ensures Whole(m', avail, lists, t, top)
  {
    NotFree(t, 0, top, k, o, n);
    var c, b := Locate(Top, t, 0, top, top, k, o, n);
    PickedUp(m, avail, lists, t, c, o, k, top, n);
    WrittenPlug(m, c, b, o, k, top);
    PathAligned(c, o, k, top);
    WrittenAroundFrame(m, m', c, o, k, top);
    WrittenPlug(m', c, b, o, k, top);
    forall j | 0 <= j < LISTS
      ensures Chained(m', avail[j], lists[j], j)
    {
      forall i | 0 <= i < |lists[j]|
        ensures lists[j][i] in m'.heads && m'.heads[lists[j][i]] == ChainElem(lists[j], i, j)
      {
        assert Chained(m, avail[j], lists[j], j);
        ListedOutside(lists, c, o, k, top, j, lists[j][i]);
        AroundAligned(c, o, k, top, j, lists[j][i], 0);
      }
    }
  }

  /** The payload of every block in use, but for the one at `except`, is as it was. */
  ghost predicate PayloadSame(m: Memory, m': Memory, t: Block, top: nat, except: int)
  {
    forall j, p, n, i :: IsUsed(t, 0, top, j, p, n) && p != except && p + HEADER <= i < p + Pow2(j) ==>
                           SameByte(m, m', i)
  }

  /** Payloads of distinct blocks in use do not overlap, so writing one keeps the others. */
  lemma OthersKept(m: Memory, m': Memory, t: Block, top: nat, k: nat, o: int, n: nat)
    requires IsUsed(t, 0, top, k, o, n) && OnlyPayload(m, m', o, k)
    ensures PayloadSame(m, m', t, top, o)
  {
    forall j, p, n', i | IsUsed(t, 0, top, j, p, n') && p != o && p + HEADER <= i < p + Pow2(j)
      ensures SameByte(m, m', i)
    {
      UsedDisjoint(t, 0, top, k, o, n, j, p, n');
    }
  }

  lemma PayloadSameThen(m: Memory, m1: Memory, m2: Memory, t: Block, t1: Block, top: nat, except: int, except1: int)
    requires PayloadSame(m, m1, t, top, except) && PayloadSame(m1, m2, t1, top, except1)
    requires forall j, p, n :: IsUsed(t, 0, top, j, p, n) && p != except ==> IsUsed(t1, 0, top, j, p, n) && p != except1
    ensures PayloadSame(m, m2, t, top, except)
  {
    forall j, p, n, i | IsUsed(t, 0, top, j, p, n) && p != except && p + HEADER <= i < p + Pow2(j)
      ensures SameByte(m, m2, i)
    {
      assert SameByte(m, m1, i) && SameByte(m1, m2, i);
    }
  }

  function Min(a: int, b: int): (m: int)
    ensures m <= a && m <= b && (m == a || m == b)
  {
    if a < b then a else b
  }

  lemma CopiedThen(m: Memory, from: int, m1: Memory, to: int, count: int, m2: Memory)
    requires Copied(m, from, m1, to, count) && forall i :: to <= i < to + count ==> SameByte(m1, m2, i)
    ensures Copied(m, from, m2, to, count)
  {
    forall i, i' | 0 <= i - from < count && i' - to == i - from
      ensures SameAt(m, i, m2, i')
    {
      assert SameAt(m, i, m1, i') && SameByte(m1, m2, i');
    }
  }

  lemma CopiedFrom(m: Memory, m1: Memory, from: int, m2: Memory, to: int, count: int)
    requires Copied(m1, from, m2, to, count) && forall i :: from <= i < from + count ==> SameByte(m, m1, i)
    ensures Copied(m, from, m2, to, count)
  {
    forall i, i' | 0 <= i - from < count && i' - to == i - from
      ensures SameAt(m, i, m2, i')
    {
      assert SameAt(m1, i, m2, i') && SameByte(m, m1, i);
    }
  }

  // ---------- which blocks are in use ----------

  /** One more block is in use. */
  ghost predicate BlockAdded(t: Block, t': Block, top: nat, k: nat, o: int, n: nat)
  {
    forall j, p, n' :: IsUsed(t', 0, top, j, p, n') <==> IsUsed(t, 0, top, j, p, n') || (j == k && p == o && n' == n)
  }

  /** One block is no longer in use. */
  ghost predicate BlockGone(t: Block, t': Block, top: nat, k: nat, o: int, n: nat)
  {
    BlockAdded(t', t, top, k, o, n) && !IsUsed(t', 0, top, k, o, n)
  }

  /** A block of size 2^k at o' is in use instead of one of size 2^j at o. */
  ghost predicate BlockMoved(t: Block, t': Block, top: nat, j: nat, o: int, n: nat, k: nat, o': int, n': nat)
  {
    forall i, p, m :: IsUsed(t', 0, top, i, p, m) <==>
                      (IsUsed(t, 0, top, i, p, m) && !(i == j && p == o && m == n)) || (i == k && p == o' && m == n')
  }

  /** Taking back a block undoes its allocation: the pool is divided as before. */
  lemma FreeUndoes(t: Block, t1: Block, t2: Block, top: nat, k: nat, o: int, n: nat)
    requires Sized(t, top) && Coalesced(t) && Sized(t2, top) && Coalesced(t2) && !IsUsed(t, 0, top, k, o, n)
    requires BlockAdded(t, t1, top, k, o, n) && BlockGone(t1, t2, top, k, o, n)
    ensures t2 == t
  {
    forall j, p, n'
      ensures IsUsed(t, 0, top, j, p, n') <==> IsUsed(t2, 0, top, j, p, n')
    {
      assert IsUsed(t1, 0, top, j, p, n') <==> IsUsed(t, 0, top, j, p, n') || (j == k && p == o && n' == n);
      assert IsUsed(t1, 0, top, j, p, n') <==> IsUsed(t2, 0, top, j, p, n') || (j == k && p == o && n' == n);
    }
    UseDetermines(t, t2, 0, top);
  }

  /** A free block at `o` has been carved up, and its start is in use. */
  lemma Carved(m: Memory, m': Memory, c: Path, c': Path, o: int, a: nat, k: nat, top: nat, n: nat)
    requires LeadsTo(c, o, a, top) && LeadsTo(c', o, k, top) && PayloadKept(m, m', c, o, a)
    requires forall j, p, n' :: IsUsedAround(c', o, k, j, p, n') <==> IsUsedAround(c, o, a, j, p, n')
    ensures BlockAdded(Plug(c, Free), Plug(c', Used(n)), top, k, o, n) && Unused(Plug(c, Free), top, k, o)
    ensures PayloadSame(m, m', Plug(c, Free), top, -1)
  {
    var t, t' := Plug(c, Free), Plug(c', Used(n));
    forall j, p, n'
      ensures IsUsed(t', 0, top, j, p, n') <==> IsUsed(t, 0, top, j, p, n') || (j == k && p == o && n' == n)
      ensures IsUsed(t, 0, top, j, p, n') <==> IsUsedAround(c, o, a, j, p, n')
    {
      UsedPlug(c, Free, o, a, top, j, p, n');
      UsedPlug(c', Used(n), o, k, top, j, p, n');
    }
    forall j, p, n' | IsUsed(t, 0, top, j, p, n')
      ensures p + Pow2(j) <= o || o + Pow2(k) <= p
    {
      BlockOutside(c', o, k, top, j, p, n');
    }
  }

  /** The least size class from k on that has a free block. */
  ghost function LeastFree(t: Block, top: nat, k: nat): (a: nat)
    ensures k <= a <= LISTS || k > LISTS
    ensures forall j, p :: k <= j < a ==> !IsFree(t, 0, top, j, p)
    decreases LISTS - k
  {
    if k >= LISTS || exists p :: IsFree(t, 0, top, k, p) then k else LeastFree(t, top, k + 1)
  }

  lemma {:induction false} LeastFreeIs(t: Block, top: nat, k: nat, a: nat, o: int)
    requires k <= a < LISTS && IsFree(t, 0, top, a, o) && forall j, p :: k <= j < a ==> !IsFree(t, 0, top, j, p)
    ensures LeastFree(t, top, k) == a
    decreases a - k
  {
    if k < a {
      LeastFreeIs(t, top, k + 1, a, o);
    }
  }

  /** The place `o` is the start of a free block that holds 2^k bytes, and no smaller free block does. */
  ghost predicate BestFit(t: Block, top: nat, k: nat, o: int)
  {
    IsFree(t, 0, top, LeastFree(t, top, k), o)
  }

  lemma FitsBest(lists: seq<seq<int>>, t: Block, top: nat, k: nat, a: nat, o: int)
    requires |lists| == LISTS && ListsHold(lists, t, 0, top) && k <= a < LISTS && IsFree(t, 0, top, a, o)
    requires forall j :: k <= j < a ==> lists[j] == []
    ensures BestFit(t, top, k, o)
  {
    forall j, p | k <= j < a
      ensures !IsFree(t, 0, top, j, p)
    {
      assert p in lists[j] <==> IsFree(t, 0, top, j, p);
    }
    LeastFreeIs(t, top, k, a, o);
  }

  lemma AddedThenGone(t: Block, t1: Block, t2: Block, top: nat, j: nat, o: int, n: nat, k: nat, o': int, n': nat)
    requires BlockAdded(t, t1, top, k, o', n') && BlockGone(t1, t2, top, j, o, n) && o != o'
    ensures BlockMoved(t, t2, top, j, o, n, k, o', n')
  {
  }

  /** What `reallocate` copied stays in place while the old block is taken back. */
  lemma CopySurvives(m: Memory, m1: Memory, m2: Memory, t: Block, t': Block, top: nat, j: nat, o: int, n: nat, k: nat,
                     o': int, n': nat,
                     count: nat)
    requires IsUsed(t, 0, top, k, o', n') && OnlyPayload(m, m1, o', k) && Copied(m, o + HEADER, m1, o' + HEADER, count)
    requires count <= Pow2(k) - HEADER && o != o' && BlockGone(t, t', top, j, o, n) && PayloadSame(m1, m2, t', top, -1)
    requires IsUsed(t, 0, top, j, o, n)
    ensures Copied(m, o + HEADER, m2, o' + HEADER, count) && PayloadSame(m, m2, t', top, o')
  {
    var to := o' + HEADER;
    assert IsUsed(t', 0, top, k, o', n');
    assert BlockAdded(t', t, top, j, o, n);
    BlockInside(t', 0, top, k, o', n');
    forall i | to <= i < to + count
      ensures SameByte(m1, m2, i)
    {
    }
    CopiedThen(m, o + HEADER, m1, to, count, m2);
    OthersKept(m, m1, t', top, k, o', n');
    PayloadUntouched(m1, m2, t', top, o');
    PayloadSameThen(m, m1, m2, t', t', top, o', o');
  }

  /** Blocks start at non-negative offsets. */
  lemma PayloadUntouched(m: Memory, m': Memory, t: Block, top: nat, except: int)
    requires PayloadSame(m, m', t, top, -1)
    ensures PayloadSame(m, m', t, top, except)
  {
    forall j, p, n, i | IsUsed(t, 0, top, j, p, n) && p != except && p + HEADER <= i < p + Pow2(j)
      ensures SameByte(m, m', i)
    {
      BlockInside(t, 0, top, j, p, n);
    }
  }

  /** `reallocate` as a whole: first a new block, then the copy. */
  lemma MoveMeans(m: Memory, m1: Memory, m2: Memory, t: Block, t1: Block, t2: Block, top: nat, j: nat, o: int, n: nat,
                  k: nat, o': int, n': nat, count: nat)
    requires IsUsed(t, 0, top, j, o, n) && BlockAdded(t, t1, top, k, o', n') && BlockGone(t1, t2, top, j, o, n)
    requires PayloadSame(m, m1, t, top, -1) && PayloadSame(m1, m2, t2, top, o')
    requires Copied(m1, o + HEADER, m2, o' + HEADER, count) && count <= Pow2(j) - HEADER && Unused(t, top, k, o')
    ensures Copied(m, o + HEADER, m2, o' + HEADER, count) && PayloadSame(m, m2, t, top, o)
    ensures BlockMoved(t, t2, top, j, o, n, k, o', n')
  {
    BlockInside(t, 0, top, j, o, n);
    forall i | o + HEADER <= i < o + HEADER + count
      ensures SameByte(m, m1, i)
    {
    }
    CopiedFrom(m, m1, o + HEADER, m2, o' + HEADER, count);
    PayloadUntouched(m, m1, t, top, o);
    AddedThenGone(t, t1, t2, top, j, o, n, k, o', n');
    forall i, p, n'' | IsUsed(t, 0, top, i, p, n'') && p != o
      ensures IsUsed(t2, 0, top, i, p, n'') && p != o'
    {
      assert IsUsed(t1, 0, top, i, p, n'');
    }
    PayloadSameThen(m, m1, m2, t, t2, top, o, o');
  }

  /** No block in use overlaps the 2^k bytes at `o`. */
  ghost predicate Unused(t: Block, top: nat, k: nat, o: int)
  {
    forall j, p, n :: IsUsed(t, 0, top, j, p, n) ==> p + Pow2(j) <= o || o + Pow2(k) <= p
  }

  ghost predicate Apart(j: nat, p: int, k: nat, o: int)
  {
    p + Pow2(j) <= o || o + Pow2(k) <= p
  }
}
