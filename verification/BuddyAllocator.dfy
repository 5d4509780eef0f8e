/** The buddy system.  `BuddyTree` says how blocks divide the pool, `BuddyMemory` what their headers and lists look
    like, and `BuddyStates` what an operation does to them. */
module BuddyAllocators {
  import opened Errors
  import opened PowersOfTwo
  import opened BuddyTree
  import opened BuddyMemory
  import opened BuddyStates

  // ---------- size classes ----------

  /** The state of the binary search of `UWordToKVal`, and its outcome. */
  datatype Search = Searching(min: int, kVal: int, max: int) | Found(kVal: int)

  /** One turn of the loop. */
  function SearchStep(u: nat, s: Search): (s': Search)
    requires s.Searching? ==> 0 <= s.min <= s.kVal <= s.max && s.kVal >= 1
    ensures s'.Searching? ==> 0 <= s'.min <= s'.kVal <= s'.max && s'.kVal >= 1
  {
    if s.Found? then s
    else if u > Pow2(s.kVal) then Searching(s.kVal, s.kVal + (s.max - s.kVal) / 2, s.max)
    else if u > Pow2(s.kVal - 1) then Found(s.kVal)
    else Searching(s.min, s.kVal - (s.kVal - s.min) / 2, s.kVal)
  }

  /** The search interval always holds the answer strictly inside, if there is one. */
  ghost predicate Bracketed(u: nat, s: Search)
  {
    match s
    case Searching(min, kVal, max) => 0 <= min < kVal < max <= LISTS && Pow2(min) < u <= Pow2(max - 1)
    case Found(k) => 1 <= k < LISTS && Pow2(k - 1) < u <= Pow2(k)
  }

  lemma SearchNarrows(u: nat, min: int, kVal: int, max: int)
    requires Bracketed(u, Searching(min, kVal, max))
    ensures var s := SearchStep(u, Searching(min, kVal, max));
            Bracketed(u, s) && (s.Searching? ==> s.max - s.min < max - min)
  {
    if u > Pow2(kVal) {
      Pow2Inverse(kVal, max - 1);
    } else if u <= Pow2(kVal - 1) {
      Pow2Inverse(min, kVal - 1);
    }
  }

  /** The search after n turns. */
  function SearchAfter(u: nat, s: Search, n: nat): Search
    requires s.Searching? ==> 0 <= s.min <= s.kVal <= s.max && s.kVal >= 1
    decreases n
  {
    if n == 0 then s else SearchAfter(u, SearchStep(u, s), n - 1)
  }

  lemma {:induction false} SearchFinds(u: nat, s: Search) returns (n: nat)
    requires Bracketed(u, s)
    ensures SearchAfter(u, s, n).Found?
    decreases if s.Searching? then s.max - s.min else 0
  {
    if s.Found? {
      n := 0;
    } else {
      SearchNarrows(u, s.min, s.kVal, s.max);
      if SearchStep(u, s).Found? {
        n := 1;
        assert SearchAfter(u, s, 1) == SearchAfter(u, SearchStep(u, s), 0);
      } else {
        var n' := SearchFinds(u, SearchStep(u, s));
        n := n' + 1;
      }
    }
  }

  /** The interval closes on one end, and the loop goes round for ever. */
  ghost predicate Hopeless(u: nat, s: Search)
  {
    s.Searching? && 0 <= s.min <= s.kVal <= s.max && 1 <= s.kVal <= 63
    && ((u < 2 && s.min == 0) || (u > Pow2(63) && s.max == LISTS))
  }

  lemma {:induction false} HopelessForEver(u: nat, s: Search, n: nat)
    requires Hopeless(u, s)
    ensures !SearchAfter(u, s, n).Found?
    decreases n
  {
    if n > 0 {
      if u > Pow2(63) {
        Pow2Monotone(s.kVal, 63);
      }
      HopelessForEver(u, SearchStep(u, s), n - 1);
    }
  }

  const FIRST_TURN := Searching(0, 8, LISTS)

  /** The search ends for the arguments from 2 to 2^63, and for no others. */
  lemma SearchEnds(u: nat)
    ensures (exists n: nat :: SearchAfter(u, FIRST_TURN, n).Found?) <==> 2 <= u <= Pow2(63)
  {
    if 2 <= u <= Pow2(63) {
      var n := SearchFinds(u, FIRST_TURN);
    } else {
      forall n: nat
        ensures !SearchAfter(u, FIRST_TURN, n).Found?
      {
        HopelessForEver(u, FIRST_TURN, n);
      }
    }
  }

  // ---------- size classes for 64-bit sums ----------

  /** The class that the search finds in the end, if it ends. */
  ghost predicate Finds(u: nat, k: nat)
  {
    exists n: nat :: SearchAfter(u, FIRST_TURN, n) == Found(k)
  }

  lemma {:induction false} SearchKeeps(u: nat, s: Search, n: nat)
    requires Bracketed(u, s)
    ensures Bracketed(u, SearchAfter(u, s, n))
    decreases n
  {
    if n > 0 {
      if s.Searching? {
        SearchNarrows(u, s.min, s.kVal, s.max);
      }
      SearchKeeps(u, SearchStep(u, s), n - 1);
    }
  }

  lemma FindsOnly(u: nat, k: nat, n: nat)
    requires SearchAfter(u, FIRST_TURN, n) == Found(k)
    ensures Bracketed(u, FIRST_TURN)
  {
    if !(2 <= u <= Pow2(63)) {
      HopelessForEver(u, FIRST_TURN, n);
      assert false;
    }
  }

  lemma FindsMeans(u: nat, k: nat)
    requires Finds(u, k)
    ensures 2 <= u <= Pow2(63) && u <= Pow2(k) < 2 * u
  {
    var n :| SearchAfter(u, FIRST_TURN, n) == Found(k);
    FindsOnly(u, k, n);
    SearchKeeps(u, FIRST_TURN, n);
  }

  lemma FindsSome(u: nat) returns (k: nat)
    requires 2 <= u <= Pow2(63)
    ensures Finds(u, k)
  {
    var n := SearchFinds(u, FIRST_TURN);
    SearchKeeps(u, FIRST_TURN, n);
    k := SearchAfter(u, FIRST_TURN, n).kVal;
  }

  /** The sum with the header, which wraps around at 2^64. */
  function SumWithHeader(n: nat): nat
  {
    (n + HEADER) % (2 * Pow2(63))
  }

  lemma SumMeans(n: nat, h: nat)
    requires HEADER < h && n < 2 * h
    ensures (n + HEADER) % (2 * h) == if n + HEADER < 2 * h then n + HEADER else n + HEADER - 2 * h
  {
    if n + HEADER < 2 * h {
      MultipleMod(0, 2 * h, n + HEADER);
    } else {
      MultipleMod(1, 2 * h, n + HEADER - 2 * h);
    }
  }

  /** A request gets a class of blocks that have room for it and the header if and only if their sum is 2^63 at most.
      For most of the larger ones the search does not end; for the 22 largest it ends, since the sum has wrapped around
      to 2 or more, and finds a class of blocks that are too small. */
  lemma ClassHasRoom(n: nat)
    requires 0 < n < 2 * Pow2(63)
    ensures (exists k :: Finds(SumWithHeader(n), k) && n + HEADER <= Pow2(k)) <==> n + HEADER <= Pow2(63)
    ensures (exists k :: Finds(SumWithHeader(n), k)) <==> n + HEADER <= Pow2(63) || 2 * Pow2(63) <= n + 22
  {
    var u, h := SumWithHeader(n), Pow2(63);
    Pow2Values();
    Pow2Monotone(8, 63);
    SumMeans(n, h);
    if 2 <= u <= h {
      var k := FindsSome(u);
      FindsMeans(u, k);
    }
    forall k | Finds(u, k)
      ensures 2 <= u <= h && u <= Pow2(k) < 2 * u
    {
      FindsMeans(u, k);
    }
  }

  /** The smallest of the 22 gets a class of blocks of two bytes. */
  lemma WrappedClass(n: nat)
    requires n + 22 == 2 * Pow2(63)
    ensures Finds(SumWithHeader(n), 1)
  {
    Pow2Values();
    Pow2Monotone(8, 63);
    SumMeans(n, Pow2(63));
    var k := FindsSome(2);
    FindsMeans(2, k);
    Pow2Inverse(0, k);
    if k > 1 {
      Pow2Monotone(2, k);
      assert false;
    }
  }

  /** There is only one size class for a size. */
  lemma SizeClassUnique(u: nat, k: nat, k': nat)
    requires k >= 1 && k' >= 1 && Pow2(k - 1) < u <= Pow2(k) && Pow2(k' - 1) < u <= Pow2(k')
    ensures k == k'
  {
    if k < k' {
      Pow2Monotone(k, k' - 1);
      assert false;
    } else if k' < k {
      Pow2Monotone(k', k - 1);
      assert false;
    }
  }

  /** Rounds up to the next power of two by binary search. */
  method UWordToKVal(u: nat) returns (kVal: nat)
    requires 2 <= u <= Pow2(63)
    ensures 1 <= kVal < LISTS && Pow2(kVal - 1) < u <= Pow2(kVal)
  {
    var min, k, max := 0, 8, LISTS;
    while true
      invariant Bracketed(u, Searching(min, k, max))
      decreases max - min
    {
      SearchNarrows(u, min, k, max);
      ghost var s := SearchStep(u, Searching(min, k, max));
      if u > Pow2(k) {
        min := k;
        k := k + (max - k) / 2;
        assert s == Searching(min, k, max);
      } else {
        if u > Pow2(k - 1) {
          return k;
        }
        max := k;
        k := k - (k - min) / 2;
        assert s == Searching(min, k, max);
      }
    }
  }

  class BuddyAllocator {
    const poolKVal: nat
    var hasPool: bool
    var memory: Memory
    const availList: array<Link>

    /** The elements of each avail list, and the division of the pool into blocks. */
    ghost var lists: seq<seq<int>>
    ghost var tree: Block

    /** Everything is in order.  The constructor's size decides that the pool can hold a block (`MIN_KVAL`). */
    ghost predicate Valid()
      reads this, availList
    {
      && MIN_KVAL <= poolKVal < LISTS && availList.Length == LISTS
      && (hasPool ==> Whole(memory, availList[..], lists, tree, poolKVal))
      && (!hasPool ==> forall j :: 0 <= j < LISTS && j != poolKVal ==> availList[j] == Nil)
    }

    /** The 2^j bytes at offset p are a block in use, for a request of n bytes. */
    ghost predicate Live(j: nat, p: int, n: nat)
      reads this
    {
      hasPool && IsUsed(tree, 0, poolKVal, j, p, n)
    }

    /** The allocator rounds the size up to a power of two; a pool must have room for a header and a byte. */
    constructor (size: nat)
      requires Pow2(MIN_KVAL - 1) < size <= 0xFFFF_FFFF
      ensures Valid() && !hasPool && fresh(availList) && Pow2(poolKVal - 1) < size <= Pow2(poolKVal)
    {
      Pow2Values();
      Pow2Monotone(32, 63);
      var k := UWordToKVal(size);
      Pow2Inverse(MIN_KVAL - 1, k);
      poolKVal, hasPool := k, false;
      memory, lists, tree := Memory(map[], map[]), seq(LISTS, _ => []), Free;
      availList := new Link[LISTS](_ => Nil);
    }

    // ---------- the avail lists ----------

    ghost predicate Chains()
      reads this, availList
    {
      AllChained(memory, availList[..], lists)
    }

    /** Adds a block at the front of the list for its size. */
    method PushAvailList(e: int)
      requires Chains() && e in memory.heads && e % 32 == 0 && memory.heads[e].tag == 0 && memory.heads[e].kVal < LISTS
      modifies `memory, `lists, availList
      ensures var j := old(memory.heads[e].kVal);
              && Chains() && lists == old(lists)[j := [e] + old(lists)[j]]
              && ListOp(old(memory), memory, e, old(lists)[j])
              && memory.heads[e].kVal == j && memory.heads[e].tag == 1
    {
      ghost var m, avail := memory, availList[..];
      var j := memory.heads[e].kVal;
      ghost var s := lists[j];
      assert Chained(m, avail[j], s, j);
      assert s != [] ==> m.heads[s[0]] == ChainElem(s, 0, j);
      var next := availList[j];
      memory := PutHead(memory, e, Elem(Nil, next, j, 1));
      PutKeeps(m, e, Elem(Nil, next, j, 1));
      PutOnly(m, e, Elem(Nil, next, j, 1));
      if next.To? {
        ghost var m1 := memory;
        memory := PutHead(memory, next.at, memory.heads[next.at].(linkB := To(e)));
        PutKeeps(m1, next.at, m1.heads[next.at].(linkB := To(e)));
        PutOnly(m1, next.at, m1.heads[next.at].(linkB := To(e)));
        OnlyThen(m, m1, memory, {e}, {next.at}, {e} + Elements(s));
      } else {
        OnlyThen(m, m, memory, {}, {e}, {e} + Elements(s));
      }
      availList[j] := To(e);
      lists := lists[j := [e] + s];
      Pushed(m, memory, avail, old(lists), e, j);
      assert availList[..] == avail[j := To(e)];
    }

    /** Takes the first block off the list for a size. */
    method PopAvailList(j: nat) returns (e: Link)
      requires Chains() && j < LISTS
      modifies `memory, `lists, availList
      ensures Chains() && e == LinkAt(old(lists)[j], 0)
      ensures e == Nil ==> memory == old(memory) && lists == old(lists)
      ensures e.To? ==>
                lists == old(lists)[j := Without(old(lists)[j], 0)] && ListOp(old(memory), memory, e.at, old(lists)[j])
      ensures e.To? ==> memory.heads[e.at] == Elem(Nil, Nil, j, 0)
    {
      ghost var m, avail, s := memory, availList[..], lists[j];
      assert Chained(m, avail[j], s, j);
      e := availList[j];
      if e == Nil {
        return;
      }
      var next := memory.heads[e.at].linkF;
      assert m.heads[s[0]] == ChainElem(s, 0, j) && (|s| > 1 ==> m.heads[s[1]] == ChainElem(s, 1, j));
      var empty := memory.heads[e.at].(linkB := Nil, linkF := Nil, tag := 0);
      memory := PutHead(memory, e.at, empty);
      PutKeeps(m, e.at, empty);
      PutOnly(m, e.at, empty);
      ghost var m1 := memory;
      if next.To? {
        memory := PutHead(memory, next.at, memory.heads[next.at].(linkB := Nil));
        PutKeeps(m1, next.at, m1.heads[next.at].(linkB := Nil));
        PutOnly(m1, next.at, m1.heads[next.at].(linkB := Nil));
        availList[j] := next;
        OnlyThen(m, m1, memory, {e.at}, {next.at}, {e.at} + Elements(s));
      } else {
        availList[j] := Nil;
        OnlyThen(m, m1, memory, {e.at}, {}, {e.at} + Elements(s));
      }
      lists := lists[j := Without(s, 0)];
      Unlinked(m, memory, avail, old(lists), 0, j);
      assert availList[..] == avail[j := LinkAt(s, 1)];
    }

    /** Links the neighbours of the i-th element of a list to each other. */
    method Bypass(elem: Elem, ghost head: Link, ghost s: seq<int>, ghost i: nat, ghost j: nat)
      requires Chained(memory, head, s, j) && i < |s| && elem == ChainElem(s, i, j)
      modifies `memory
      ensures Bypassed(old(memory), memory, s, i) && OnlyHeads(old(memory), memory, Elements(s))
      ensures KeptBut(old(memory), memory, s[i])
    {
      ghost var m := memory;
      NeighboursDistinct(m, head, s, i, j);
      if elem.linkB.To? {
        memory := WithLinkF(memory, elem.linkB.at, elem.linkF);
      }
      if elem.linkF.To? {
        memory := WithLinkB(memory, elem.linkF.at, elem.linkB);
      }
      BypassingOnly(m, head, s, i, j);
      BypassingHeads(m, head, s, i, j);
    }

    /** Takes a block, the i-th of its list, off that list. */
    method RemoveFromAvailList(e: int, ghost j: nat, ghost i: nat)
      requires Chains() && j < LISTS && i < |lists[j]| && lists[j][i] == e
      modifies `memory, `lists, availList
      ensures Chains() && lists == old(lists)[j := Without(old(lists)[j], i)]
      ensures ListOp(old(memory), memory, e, old(lists)[j]) && memory.heads[e] == Elem(Nil, Nil, j, 0)
    {
      ghost var m, avail, s := memory, availList[..], lists[j];
      assert Chained(m, avail[j], s, j) && m.heads[e] == ChainElem(s, i, j);
      var elem := memory.heads[e];
      Bypass(elem, avail[j], s, i, j);
      ghost var m1 := memory;
      if elem.linkB == Nil {
        availList[elem.kVal] := elem.linkF;
      }
      memory := PutHead(memory, e, elem.(linkB := Nil, linkF := Nil, tag := 0));
      PutKeeps(m1, e, elem.(linkB := Nil, linkF := Nil, tag := 0));
      PutOnly(m1, e, elem.(linkB := Nil, linkF := Nil, tag := 0));
      OnlyThen(m, m1, memory, Elements(s), {e}, {e} + Elements(s));
      lists := lists[j := Without(s, i)];
      Unlinked(m, memory, avail, old(lists), i, j);
      assert availList[..] == if i == 0 then avail[j := LinkAt(s, 1)] else avail;
    }

    // ---------- allocation ----------

    ghost predicate Holding(c: Path, o: int, k: nat)
      reads this, availList
    {
      Pending(memory, availList[..], lists, c, o, k, poolKVal)
    }

    method Initialize(source: bool) returns (error: Error)
      requires Valid()
      modifies this, availList
      ensures Valid()
      ensures error == if old(hasPool) then InvalidState else if source then Success else OutOfMemory
      ensures error == Success ==> hasPool && tree == Free
      ensures error != Success ==> hasPool == old(hasPool) && memory == old(memory) && tree == old(tree)
    {
      if hasPool || 1 > poolKVal || LISTS <= poolKVal {
        return InvalidState;
      }
      if !source {
        return OutOfMemory;
      }
      memory := PutHead(Memory(map[], map[]), 0, Elem(Nil, Nil, poolKVal, 1));
      availList[poolKVal] := To(0);
      hasPool := true;
      lists := seq(LISTS, j => if j == poolKVal then [0] else []);
      tree := Free;
      error := Success;
    }

    /** The headers of the two halves of the block at `o`. */
    method WriteHalves(ghost c: Path, o: int, k: nat, ghost n: nat)
      requires Holding(c, o, k + 1) && k >= MIN_KVAL && 0 < n <= Pow2(k) - HEADER
      modifies `memory
      ensures Holding(InRight(c, Used(n)), o + Pow2(k), k) && PayloadKept(old(memory), memory, c, o, k + 1)
      ensures (o + Pow2(k)) % 32 == 0
    {
      ghost var m := memory;
      HalvesPlaced(c, o, k, poolKVal);
      HalvesWritten(m, o, k);
      HalvesOnly(m, o, k);
      HalvesOutside(m, c, o, k, poolKVal);
      memory := PutHead(memory, o, memory.heads[o].(kVal := k));
      memory := PutHead(memory, o + Pow2(k), Elem(Nil, Nil, k, 0));
      Halved(m, memory, availList[..], lists, c, o, k, poolKVal, n);
      HalvedPayload(m, memory, c, o, k, poolKVal);
    }

    /** The upper half, at `q`, goes on a list. */
    method ListUpper(q: int, ghost c: Path, ghost o: int, ghost k: nat, ghost n: nat)
      requires q == o + Pow2(k) && Holding(InRight(c, Used(n)), q, k) && q % 32 == 0 && k < LISTS
      modifies `memory, `lists, availList
      ensures Holding(InLeft(c, Free), o, k) && PayloadKept(old(memory), memory, InRight(c, Used(n)), q, k)
    {
      ghost var m, avail, l := memory, availList[..], lists;
      PushAvailList(q);
      UpperListed(m, memory, avail, availList[..], l, c, o, q, k, poolKVal, n);
    }

    /** One turn of the splitting loop of `allocate`. */
    method SplitStep(ghost c: Path, o: int, k: nat, ghost n: nat)
      requires Holding(c, o, k + 1) && k >= MIN_KVAL && 0 < n <= Pow2(k) - HEADER && k < LISTS
      modifies `memory, `lists, availList
      ensures Holding(InLeft(c, Free), o, k) && PayloadKept(old(memory), memory, c, o, k + 1)
    {
      var q := o + Pow2(k);
      WriteHalves(c, o, k, n);
      ghost var m, c' := memory, InRight(c, Used(n));
      ListUpper(q, c, o, k, n);
      PayloadFewer(m, memory, c', q, k, c, o, k + 1);
      PayloadThen(old(memory), m, memory, c, o, k + 1);
    }

    /** The smallest size class for a request of n bytes: the block also holds the header. */
    ghost predicate SizeClass(n: nat, k: nat)
    {
      MIN_KVAL <= k < LISTS && Pow2(k - 1) < n + HEADER <= Pow2(k)
    }

    /** The first block of a list that is not empty. */
    method TakeFirst(a: nat) returns (e: Link, ghost c: Path)
      requires Valid() && hasPool && a < LISTS && availList[a].To?
      modifies `memory, `lists, availList
      ensures e.To? && Holding(c, e.at, a) && Plug(c, Free) == tree && PayloadKept(old(memory), memory, c, e.at, a)
      ensures IsFree(tree, 0, poolKVal, a, e.at)
    {
      ghost var m, avail, l := memory, availList[..], lists;
      assert Chained(m, avail[a], l[a], a);
      ghost var o := l[a][0];
      assert IsFree(tree, 0, poolKVal, a, o);
      ghost var b;
      c, b := Locate(Top, tree, 0, poolKVal, poolKVal, a, o, 0);
      e := PopAvailList(a);
      TakenOff(m, memory, avail, availList[..], l, tree, c, o, a, poolKVal, 0);
    }

    /** The first list, from `k` on, that is not empty. */
    method FindBlock(k: nat) returns (e: Link, a: nat, ghost c: Path)
      requires Valid() && hasPool
      modifies `memory, `lists, availList
      ensures e == Nil <==> !HasFreeBlock(tree, 0, poolKVal, k)
      ensures e == Nil ==> Valid() && memory == old(memory)
      ensures e.To? ==>
                k <= a < LISTS && Holding(c, e.at, a) && Plug(c, Free) == tree
                && PayloadKept(old(memory), memory, c, e.at, a)
      ensures e.To? ==> BestFit(tree, poolKVal, k, e.at)
    {
      c, a := Top, k;
      while a < LISTS
        invariant k <= a && Valid() && memory == old(memory)
        invariant forall j :: k <= j < a && j < LISTS ==> lists[j] == []
      {
        if availList[a].To? {
          ghost var l := lists;
          e, c := TakeFirst(a);
          FitsBest(l, tree, poolKVal, k, a, e.at);
          return;
        }
        assert Chained(memory, availList[..][a], lists[a], a);
        a := a + 1;
      }
      e := Nil;
      NoListNoBlock(lists, tree, poolKVal, k);
    }

    /** Splits the block at `o` until it has the smallest size that holds the request, and hands it out. */
    method Carve(o: int, a: nat, k: nat, ghost c0: Path, n: nat) returns (ghost c: Path)
      requires Holding(c0, o, a) && SizeClass(n, k) && k <= a && n > 0
      modifies `memory, `lists, `tree, availList
      ensures Whole(memory, availList[..], lists, tree, poolKVal) && PayloadKept(old(memory), memory, c0, o, a)
      ensures tree == Plug(c, Used(n)) && LeadsTo(c, o, k, poolKVal)
      ensures forall j, p, n' :: IsUsedAround(c, o, k, j, p, n') <==> IsUsedAround(c0, o, a, j, p, n')
    {
      c := c0;
      var b := a;
      while k < b
        invariant k <= b <= a && Holding(c, o, b) && PayloadKept(old(memory), memory, c0, o, a)
        invariant forall j, p, n' :: IsUsedAround(c, o, b, j, p, n') <==> IsUsedAround(c0, o, a, j, p, n')
      {
        b := b - 1;
        ghost var m := memory;
        RoomInHalf(k, b, n);
        PathAligned(c, o, b + 1, poolKVal);
        SplitStep(c, o, b, n);
        PayloadFewer(m, memory, c, o, b + 1, c0, o, a);
        PayloadThen(old(memory), m, memory, c0, o, a);
        c := InLeft(c, Free);
      }
      HandedOut(memory, availList[..], lists, c, o, k, poolKVal, n);
      tree := Plug(c, Used(n));
    }

    lemma RoomInHalf(k: nat, b: nat, n: nat)
      requires SizeClass(n, k) && k <= b
      ensures n <= Pow2(b) - HEADER
    {
      Pow2Monotone(k, b);
    }

    /** The division of the pool that a request finds. */
    ghost function Found(): Block
      reads this
    {
      if hasPool then tree else Free
    }

    /** Hands out a block for `size` bytes.  `wanted` says whether the caller has a place for the result, and `source`
        whether the source allocator can provide the pool. */
    method Allocate(size: nat, wanted: bool, source: bool) returns (error: Error, block: Link, ghost k: nat)
      requires Valid() && (size > 0 && wanted && (hasPool || source) ==> size + HEADER <= Pow2(63))
      modifies this, availList
      ensures Valid() && (size > 0 && wanted && (old(hasPool) || source) ==> SizeClass(size, k))
      ensures error == if size == 0 then InvalidArgument
                       else if !wanted then NullPointer
                       else if !old(hasPool) && !source then OutOfMemory
                       else if HasFreeRange(old(Found()), 0, poolKVal, k) then Success
                       else OutOfMemory
      ensures error != Success ==>
                (hasPool ==> tree == old(Found())) && (old(hasPool) ==> hasPool && memory == old(memory))
      ensures error == Success ==> block.To? && Live(k, block.at - HEADER, size)
      ensures error == Success ==> BlockAdded(old(Found()), tree, poolKVal, k, block.at - HEADER, size)
      ensures error == Success && old(hasPool) ==> PayloadSame(old(memory), memory, old(tree), poolKVal, -1)
      ensures error == Success ==> Unused(old(Found()), poolKVal, k, block.at - HEADER)
      ensures error == Success ==> BestFit(old(Found()), poolKVal, k, block.at - HEADER)
    {
      k, block := 0, Nil;
      if 0 == size {
        return InvalidArgument, Nil, 0;
      }
      if !wanted {
        return NullPointer, Nil, 0;
      }
      var kVal := 0;
      if hasPool || source {
        kVal := AdjustedKVal(size);
      }
      k := kVal;
      error, block := AllocateClass(size, kVal, source);
    }

    /** `allocate` for a request that is in order. */
    method AllocateClass(size: nat, k: nat, source: bool) returns (error: Error, block: Link)
      requires Valid() && size > 0 && (hasPool || source ==> SizeClass(size, k))
      modifies this, availList
      ensures Valid()
      ensures error == if !old(hasPool) && !source then OutOfMemory
                       else if HasFreeRange(old(Found()), 0, poolKVal, k) then Success
                       else OutOfMemory
      ensures error != Success ==>
                (hasPool ==> tree == old(Found())) && (old(hasPool) ==> hasPool && memory == old(memory))
      ensures error == Success ==> block.To? && Live(k, block.at - HEADER, size)
      ensures error == Success ==> BlockAdded(old(Found()), tree, poolKVal, k, block.at - HEADER, size)
      ensures error == Success && old(hasPool) ==> PayloadSame(old(memory), memory, old(tree), poolKVal, -1)
      ensures error == Success ==> Unused(old(Found()), poolKVal, k, block.at - HEADER)
      ensures error == Success ==> BestFit(old(Found()), poolKVal, k, block.at - HEADER)
    {
      block := Nil;
      error := EnsurePool(source);
      if error == Success {
        error, block := TakeBlock(size, k);
      }
    }

    method EnsurePool(source: bool) returns (error: Error)
      requires Valid()
      modifies this, availList
      ensures Valid() && error == (if hasPool then Success else OutOfMemory) && hasPool == (old(hasPool) || source)
      ensures hasPool ==> tree == old(Found())
      ensures old(hasPool) ==> memory == old(memory)
    {
      error := Success;
      if !hasPool {
        error := Initialize(source);
      }
    }

    /** `allocate` once there is a pool. */
    method TakeBlock(size: nat, kVal: nat) returns (error: Error, block: Link)
      requires Valid() && hasPool && size > 0 && SizeClass(size, kVal)
      modifies `memory, `lists, `tree, availList
      ensures Valid() && error == if HasFreeRange(old(tree), 0, poolKVal, kVal) then Success else OutOfMemory
      ensures error != Success ==> memory == old(memory) && tree == old(tree) && block == Nil
      ensures error == Success ==> block.To? && Live(kVal, block.at - HEADER, size)
      ensures error == Success ==> BlockAdded(old(tree), tree, poolKVal, kVal, block.at - HEADER, size)
      ensures error == Success && old(hasPool) ==> PayloadSame(old(memory), memory, old(tree), poolKVal, -1)
      ensures error == Success ==> Unused(old(tree), poolKVal, kVal, block.at - HEADER)
      ensures error == Success ==> BestFit(old(tree), poolKVal, kVal, block.at - HEADER)
    {
      ghost var m, t := memory, tree;
      ExhaustedMeans(t, 0, poolKVal, kVal);
      var e, a;
      ghost var c, c';
      e, a, c := FindBlock(kVal);
      if e == Nil {
        return OutOfMemory, Nil;
      }
      ghost var m1 := memory;
      c' := Carve(e.at, a, kVal, c, size);
      PayloadThen(m, m1, memory, c, e.at, a);
      Carved(m, memory, c, c', e.at, a, kVal, poolKVal, size);
      error, block := Success, To(e.at + HEADER);
    }

    /** The size class for a request. */
    method AdjustedKVal(n: nat) returns (k: nat)
      requires n > 0 && n + HEADER <= Pow2(63)
      ensures SizeClass(n, k)
    {
      k := UWordToKVal(n + HEADER);
      Pow2Values();
      if k < MIN_KVAL {
        Pow2Monotone(k, 4);
        assert false;
      }
    }

    // ---------- deallocation ----------

    /** Where the free buddy of the pending block is listed. */
    lemma BuddyListed(c: Path, o: int, k: nat, b: int) returns (i: nat)
      requires Holding(c, o, k) && !c.Top? && c.sib.Free? && b == (if c.InLeft? then o + Pow2(k) else o - Pow2(k))
      ensures k < LISTS && i < |lists[k]| && lists[k][i] == b
    {
      PathAligned(c, o, k, poolKVal);
      assert IsFreeAround(c, o, k, k, b);
      assert b in lists[k];
      i :| 0 <= i < |lists[k]| && lists[k][i] == b;
    }

    /** `removeFromAvailList` for the free buddy of the pending block: now the buddy is pending, next to a block in
        use. */
    method TakeBuddy(b: int, ghost c: Path, ghost o: int, ghost k: nat)
      requires Holding(c, o, k) && !c.Top? && c.sib.Free? && b == (if c.InLeft? then o + Pow2(k) else o - Pow2(k))
      modifies `memory, `lists, availList
      ensures Holding(OtherSide(c), b, k)
      ensures PayloadKept(old(memory), memory, c, o, k)
    {
      ghost var i := BuddyListed(c, o, k, b);
      ghost var m, avail, l := memory, availList[..], lists;
      RemoveFromAvailList(b, k, i);
      BuddyTaken(m, memory, avail, availList[..], l, c, o, k, poolKVal, b, i);
    }

    /** One turn of the coalescing loop: the free buddy `b` leaves its list, and the lower half grows. */
    method MergeStep(b: int, low: int, ghost c: Path, ghost o: int, k: nat)
      requires Holding(c, o, k) && !c.Top? && c.sib.Free? && b == (if c.InLeft? then o + Pow2(k) else o - Pow2(k))
      requires low == if c.InLeft? then o else b
      modifies `memory, `lists, availList
      ensures Holding(c.up, low, k + 1) && PayloadKept(old(memory), memory, c.up, low, k + 1)
    {
      TakeBuddy(b, c, o, k);
      ghost var c' := OtherSide(c);
      ghost var m := memory;
      Merging(m, availList[..], lists, c', b, k, poolKVal, c.up, low);
      Grow(low, k, c.up);
      PayloadFewer(old(memory), m, c, o, k, c.up, low, k + 1);
      PayloadThen(old(memory), m, memory, c.up, low, k + 1);
    }

    method Grow(low: int, k: nat, ghost up: Path)
      requires Headless(memory, availList[..], lists, up, low, k + 1, poolKVal)
      requires low in memory.heads && memory.heads[low] == Elem(Nil, Nil, k, 0)
      modifies `memory
      ensures Holding(up, low, k + 1) && PayloadKept(old(memory), memory, up, low, k + 1)
    {
      memory := PutHead(memory, low, memory.heads[low].(kVal := k + 1));
      Merged(old(memory), memory, availList[..], lists, up, low, k + 1, poolKVal);
    }

    /** The pending block goes on the list for its size. */
    method PutAway(elem: int, ghost c: Path, ghost k: nat)
      requires Holding(c, elem, k) && !(!c.Top? && c.sib.Free?)
      modifies `memory, `lists, `tree, availList
      ensures Whole(memory, availList[..], lists, tree, poolKVal) && tree == Plug(c, Free)
      ensures PayloadKept(old(memory), memory, c, elem, k)
    {
      ghost var m, avail, l := memory, availList[..], lists;
      PathAligned(c, elem, k, poolKVal);
      AlignedTo32(elem, k);
      PushAvailList(elem);
      PushedBack(m, memory, avail, availList[..], l, c, elem, k, poolKVal);
      tree := Plug(c, Free);
    }

    /** The coalescing loop of `deallocate`, from the block at `e` on. */
    method Coalesce(e: int, ghost c0: Path, ghost k0: nat)
      requires Holding(c0, e, k0)
      modifies `memory, `lists, `tree, availList
      ensures Whole(memory, availList[..], lists, tree, poolKVal) && PayloadKept(old(memory), memory, c0, e, k0)
      ensures forall j, p, n :: IsUsed(tree, 0, poolKVal, j, p, n) <==> IsUsedAround(c0, e, k0, j, p, n)
    {
      var elem := e;
      ghost var c, k := c0, k0;
      while true
        invariant Holding(c, elem, k) && PayloadKept(old(memory), memory, c0, e, k0)
        invariant forall j, p, n :: IsUsedAround(c, elem, k, j, p, n) <==> IsUsedAround(c0, e, k0, j, p, n)
        decreases poolKVal - k
      {
        var kVal := memory.heads[elem].kVal;
        var low, buddy, ready := elem, elem, false;
        PathAligned(c, elem, k, poolKVal);
        if kVal != poolKVal {
          if elem % Pow2(kVal + 1) == 0 {
            buddy := elem + Pow2(kVal);
          } else {
            buddy := elem - Pow2(kVal);
            low := buddy;
          }
          FirstHead(memory, c.sib, buddy, k);
          assert memory.heads[buddy].kVal <= memory.heads[elem].kVal;
          ready := memory.heads[buddy].tag != 0 && memory.heads[buddy].kVal == kVal;
        }
        ghost var m := memory;
        if !ready {
          PutAway(elem, c, k);
          forall j, p, n
            ensures IsUsed(tree, 0, poolKVal, j, p, n) <==> IsUsedAround(c, elem, k, j, p, n)
          {
            UsedPlug(c, Free, elem, k, poolKVal, j, p, n);
          }
          PayloadFewer(m, memory, c, elem, k, c0, e, k0);
          PayloadThen(old(memory), m, memory, c0, e, k0);
          return;
        }
        MergeStep(buddy, low, c, elem, kVal);
        PayloadFewer(m, memory, c.up, low, k + 1, c0, e, k0);
        PayloadThen(old(memory), m, memory, c0, e, k0);
        elem, c, k := low, c.up, k + 1;
      }
    }

    predicate Owns(block: int)
    {
      0 <= block < Pow2(poolKVal)
    }

    /** Takes back a block. */
    method Deallocate(block: Link, ghost k: nat, ghost n: nat) returns (error: Error)
      requires Valid()
      requires block.To? && hasPool && 0 <= block.at < Pow2(poolKVal) ==> Live(k, block.at - HEADER, n)
      modifies this, availList
      ensures Valid() && hasPool == old(hasPool)
      ensures error == if block == Nil then NullPointer
                       else if !hasPool then InvalidState
                       else if block.at < 0 || Pow2(poolKVal) <= block.at then NotOwner
                       else Success
      ensures block.To? && old(Live(k, block.at - HEADER, n)) ==> error == Success
      ensures error != Success ==> memory == old(memory) && tree == old(tree)
      ensures error == Success ==> BlockGone(old(tree), tree, poolKVal, k, block.at - HEADER, n)
      ensures error == Success ==> PayloadSame(old(memory), memory, tree, poolKVal, -1)
    {
      if block == Nil {
        return NullPointer;
      }
      if !hasPool {
        return InvalidState;
      }
      LiveInside(k, block.at - HEADER, n);
      if !Owns(block.at) {
        return NotOwner;
      }
      var elem := block.at - HEADER;
      ghost var c, b := Locate(Top, tree, 0, poolKVal, poolKVal, k, elem, n);
      ghost var t, m := tree, memory;
      NotFree(t, 0, poolKVal, k, elem, n);
      PickedUp(m, availList[..], lists, t, c, elem, k, poolKVal, n);
      Coalesce(elem, c, k);
      forall j, p, n'
        ensures IsUsed(t, 0, poolKVal, j, p, n')
           <==> IsUsed(tree, 0, poolKVal, j, p, n') || (j == k && p == elem && n' == n)
      {
        UsedPlug(c, Used(n), elem, k, poolKVal, j, p, n');
      }
      if IsUsedAround(c, elem, k, k, elem, n) {
        BlockOutside(c, elem, k, poolKVal, k, elem, n);
      }
      error := Success;
    }

    // ---------- what clients may rely on ----------

    /** A block in use is aligned, lies inside the pool, and its payload has room for the request. */
    lemma LiveBlock(j: nat, p: int, n: nat)
      requires Valid() && Live(j, p, n)
      ensures 0 <= p && p + Pow2(j) <= Pow2(poolKVal) && p % Pow2(j) == 0 && 0 < n <= Pow2(j) - HEADER
      ensures p in memory.heads && memory.heads[p] == Elem(Nil, Nil, j, 0)
    {
      NotFree(tree, 0, poolKVal, j, p, n);
      var c, b := Locate(Top, tree, 0, poolKVal, poolKVal, j, p, n);
      PathAligned(c, p, j, poolKVal);
      SizedPlug(c, b, p, j, poolKVal);
      WrittenPlug(memory, c, b, p, j, poolKVal);
    }

    /** The pointer that a client has for it points into the pool. */
    lemma LiveInside(j: nat, p: int, n: nat)
      requires Valid()
      ensures Live(j, p, n) ==> 0 <= p + HEADER < Pow2(poolKVal)
    {
      if Live(j, p, n) {
        LiveBlock(j, p, n);
      }
    }

    /** Payloads of different blocks in use do not overlap. */
    lemma LiveDisjoint(j: nat, p: int, n: nat, j': nat, p': int, n': nat)
      requires Valid() && Live(j, p, n) && Live(j', p', n')
      ensures (j == j' && p == p' && n == n') || p + Pow2(j) <= p' || p' + Pow2(j') <= p
    {
      UsedDisjoint(tree, 0, poolKVal, j, p, n, j', p', n');
    }

    /** A client writes a byte of its block. */
    method Write(i: int, byte: int, ghost j: nat, ghost p: int, ghost n: nat)
      requires Valid() && Live(j, p, n) && p + HEADER <= i < p + Pow2(j)
      modifies `memory
      ensures Valid() && i in memory.data && memory.data[i] == byte
      ensures forall i' :: i' != i ==> SameByte(old(memory), memory, i')
    {
      ghost var m := memory;
      memory := PutByte(memory, i, byte);
      PayloadWritten(m, memory, availList[..], lists, tree, poolKVal, j, p, n);
    }

    /** The number of payload bytes of a block, or 0 if the block is not from this allocator. */
    method AllocationSize(block: int, ghost j: nat, ghost n: nat) returns (size: nat)
      requires Valid() && hasPool && (0 <= block < Pow2(poolKVal) ==> Live(j, block - HEADER, n))
      ensures size == if 0 <= block < Pow2(poolKVal) then Pow2(j) - HEADER else 0
      ensures Live(j, block - HEADER, n) ==> size == Pow2(j) - HEADER > 0
    {
      LiveInside(j, block - HEADER, n);
      if !Owns(block) {
        return 0;
      }
      LiveBlock(j, block - HEADER, n);
      size := Pow2(memory.heads[block - HEADER].kVal) - HEADER;
    }

    /** Returns the pool to the source allocator, unless a block is in use. */
    method Reset() returns (error: Error)
      requires Valid()
      modifies `hasPool
      ensures Valid()
      ensures error == if !old(hasPool) then InvalidState
                       else if exists j, p, n :: old(Live(j, p, n)) then InUse
                       else Success
      ensures hasPool == (old(hasPool) && error != Success)
    {
      if !hasPool {
        return InvalidState;
      }
      NothingInUse(tree);
      PoolListed();
      if BuddyTree.InUse(tree) {
        var j, p, n := InUseHasBlock(tree, 0, poolKVal);
        assert Live(j, p, n);
      }
      if availList[poolKVal] == Nil {
        return Error.InUse;
      }
      forall j, p, n
        ensures !Live(j, p, n)
      {
        if Live(j, p, n) {
          BlockMeansInUse(tree, 0, poolKVal, j, p, n);
        }
      }
      hasPool := false;
      error := Success;
    }

    lemma FirstElement(s: seq<int>)
      ensures s == [] || s[0] in s
    {
    }

    /** The list for the pool's own size tells whether the whole pool is free, and then the other lists are empty. */
    lemma PoolListed()
      requires Valid() && hasPool
      ensures availList[poolKVal] != Nil <==> tree.Free?
      ensures tree.Free? ==> forall j :: 0 <= j < LISTS && j != poolKVal ==> availList[j] == Nil
    {
      assert forall j :: 0 <= j < LISTS ==> Chained(memory, availList[..][j], lists[j], j);
      if tree.Free? {
        assert IsFree(tree, 0, poolKVal, poolKVal, 0);
        assert 0 in lists[poolKVal];
        forall j | 0 <= j < LISTS && j != poolKVal
          ensures availList[j] == Nil
        {
          FirstElement(lists[j]);
        }
      } else if lists[poolKVal] != [] {
        WholeBlockFree(tree, 0, poolKVal, lists[poolKVal][0]);
      }
    }

    // ---------- reallocation ----------

    /** `memcpy` from one block in use into another. */
    method CopyPayload(to: int, from: int, count: nat, ghost j: nat, ghost p: int, ghost n: nat)
      requires Valid() && Live(j, p, n) && to == p + HEADER && to + count <= p + Pow2(j)
      requires from + count <= p || p + Pow2(j) <= from
      modifies `memory
      ensures Valid() && OnlyPayload(old(memory), memory, p, j)
      ensures Copied(old(memory), from, memory, to, count)
    {
      ghost var m := memory;
      memory := CopyBytes(memory, to, from, count);
      CopyMeans(m, to, from, count, p, j);
      PayloadWritten(m, memory, availList[..], lists, tree, poolKVal, j, p, n);
    }

    /** Copies what fits from an old block to a new one, and takes the old one back. */
    method Move(old': int, originalSize: nat, new': int, size: nat, ghost j: nat, ghost n: nat, ghost k: nat)
      requires Valid() && Live(j, old' - HEADER, n) && Live(k, new' - HEADER, size)
      requires Apart(j, old' - HEADER, k, new' - HEADER)
      requires originalSize == Pow2(j) - HEADER
      modifies this, availList
      ensures Valid() && hasPool && BlockGone(old(tree), tree, poolKVal, j, old' - HEADER, n)
      ensures Copied(old(memory), old', memory, new', Min(size, originalSize))
      ensures PayloadSame(old(memory), memory, tree, poolKVal, new' - HEADER)
    {
      ghost var m, t := memory, tree;
      LiveBlock(j, old' - HEADER, n);
      LiveBlock(k, new' - HEADER, size);
      var count := Min(size, originalSize);
      CopyPayload(new', old', count, k, new' - HEADER, size);
      ghost var m1 := memory;
      var error := Deallocate(To(old'), j, n);
      CopySurvives(m, m1, memory, t, tree, poolKVal, j, old' - HEADER, n, k, new' - HEADER, size, count);
    }

    /** `reallocate` for a block of this allocator. */
    method Replace(old': int, originalSize: nat, size: nat, ghost j: nat, ghost n: nat)
      returns (error: Error, newBlock: Link, ghost k: nat)
      requires Valid() && size > 0 && size + HEADER <= Pow2(63)
      requires Live(j, old' - HEADER, n) && originalSize == Pow2(j) - HEADER
      modifies this, availList
      ensures Valid() && SizeClass(size, k)
      ensures error == if HasFreeRange(old(tree), 0, poolKVal, k) then Success else OutOfMemory
      ensures error != Success ==> memory == old(memory) && tree == old(tree) && hasPool
      ensures error == Success ==> newBlock.To? && Live(k, newBlock.at - HEADER, size)
      ensures error == Success ==> Copied(old(memory), old', memory, newBlock.at, Min(size, originalSize))
      ensures error == Success ==>
                BlockMoved(old(tree), tree, poolKVal, j, old' - HEADER, n, k, newBlock.at - HEADER, size)
      ensures error == Success ==> PayloadSame(old(memory), memory, old(tree), poolKVal, old' - HEADER)
    {
      ghost var m, t := memory, tree;
      assert Found() == t;
      error, newBlock, k := Allocate(size, true, true);
      if error != Success {
        return;
      }
      ghost var m1, t1, o' := memory, tree, newBlock.at - HEADER;
      assert Apart(j, old' - HEADER, k, o');
      Move(old', originalSize, newBlock.at, size, j, n, k);
      MoveMeans(m, m1, memory, t, t1, tree, poolKVal, j, old' - HEADER, n, k, o', size, Min(size, originalSize));
    }

    lemma NoEmptyBlock(block: int, j: nat, n: nat)
      requires Valid() && (hasPool && 0 <= block < Pow2(poolKVal) ==> Live(j, block - HEADER, n))
      ensures hasPool && 0 <= block < Pow2(poolKVal) ==> Pow2(j) - HEADER > 0
    {
      if hasPool && 0 <= block < Pow2(poolKVal) {
        LiveBlock(j, block - HEADER, n);
      }
    }

    /** `reallocate` of a block to a size that is not zero. */
    method Relocate(old': int, size: nat, ghost j: nat, ghost n: nat)
      returns (error: Error, newBlock: Link, ghost k: nat)
      requires Valid() && size > 0
      requires hasPool && 0 <= old' < Pow2(poolKVal) ==> Live(j, old' - HEADER, n) && size + HEADER <= Pow2(63)
      modifies this, availList
      ensures Valid()
      ensures error == if !old(hasPool) then InvalidState
                       else if old' < 0 || Pow2(poolKVal) <= old' then NotOwner
                       else if HasFreeRange(old(tree), 0, poolKVal, k) then Success
                       else OutOfMemory
      ensures old(Live(j, old' - HEADER, n)) ==> error == Success || error == OutOfMemory
      ensures error != Success ==> memory == old(memory) && tree == old(tree) && hasPool == old(hasPool)
      ensures error == Success ==>
                SizeClass(size, k) && newBlock.To? && Live(k, newBlock.at - HEADER, size)
      ensures error == Success ==>
                forall i, i' :: 0 <= i - old' < size && i < old' - HEADER + Pow2(j) && i' - i == newBlock.at - old' ==>
                                  SameAt(old(memory), i, memory, i')
      ensures error == Success ==>
                BlockMoved(old(tree), tree, poolKVal, j, old' - HEADER, n, k, newBlock.at - HEADER, size)
      ensures error == Success ==> PayloadSame(old(memory), memory, old(tree), poolKVal, old' - HEADER)
    {
      LiveInside(j, old' - HEADER, n);
      if !hasPool {
        return InvalidState, Nil, 0;
      }
      var originalSize := AllocationSize(old', j, n);
      if 0 == originalSize {
        NoEmptyBlock(old', j, n);
        return NotOwner, Nil, 0;
      }
      error, newBlock, k := Replace(old', originalSize, size, j, n);
    }

    /** The search for the size class of such a request ends. */
    ghost predicate Searchable(size: nat)
    {
      size + HEADER <= Pow2(63)
    }

    /** Moves a block to a new one, of another size.  `j` and `n` describe the old block. */
    method Reallocate(oldBlock: Link, size: nat, source: bool, ghost j: nat, ghost n: nat)
      returns (error: Error, newBlock: Link, ghost k: nat)
      requires Valid()
      requires oldBlock == Nil && size > 0 && (hasPool || source) ==> Searchable(size)
      requires oldBlock.To? && hasPool && 0 <= oldBlock.at < Pow2(poolKVal) ==>
                 Live(j, oldBlock.at - HEADER, n) && Searchable(size)
      modifies this, availList
      ensures Valid()
      ensures oldBlock == Nil ==>
                var t := old(Found());
                && error == (if size == 0 then InvalidArgument
                             else if !old(hasPool) && !source then OutOfMemory
                             else if HasFreeRange(t, 0, poolKVal, k) then Success
                             else OutOfMemory)
                && (error != Success ==> (hasPool ==> tree == t) && (old(hasPool) ==> hasPool && memory == old(memory)))
                && (error == Success ==>
                      && SizeClass(size, k) && newBlock.To? && Live(k, newBlock.at - HEADER, size)
                      && BlockAdded(t, tree, poolKVal, k, newBlock.at - HEADER, size)
                      && Unused(t, poolKVal, k, newBlock.at - HEADER))
      ensures oldBlock == Nil && error == Success && old(hasPool) ==>
                PayloadSame(old(memory), memory, old(tree), poolKVal, -1)
      ensures oldBlock.To? ==>
                error == if !old(hasPool) then InvalidState
                else if oldBlock.at < 0 || Pow2(poolKVal) <= oldBlock.at then NotOwner
                else if size == 0 || HasFreeRange(old(tree), 0, poolKVal, k) then Success
                else OutOfMemory
      ensures oldBlock.To? && old(Live(j, oldBlock.at - HEADER, n)) ==> error == Success || error == OutOfMemory
      ensures oldBlock.To? && error != Success ==>
                memory == old(memory) && tree == old(tree) && hasPool == old(hasPool)
      ensures oldBlock.To? && size > 0 && error == Success ==>
                && SizeClass(size, k) && newBlock.To? && Live(k, newBlock.at - HEADER, size)
                && BlockMoved(old(tree), tree, poolKVal, j, oldBlock.at - HEADER, n, k, newBlock.at - HEADER, size)
                && PayloadSame(old(memory), memory, old(tree), poolKVal, oldBlock.at - HEADER)
                && forall i, i' :: 0 <= i - oldBlock.at < size && i < oldBlock.at - HEADER + Pow2(j)
                                   && i' - i == newBlock.at - oldBlock.at ==>
                                     SameAt(old(memory), i, memory, i')
      ensures oldBlock.To? && size == 0 && error == Success ==>
                && BlockGone(old(tree), tree, poolKVal, j, oldBlock.at - HEADER, n)
                && PayloadSame(old(memory), memory, tree, poolKVal, -1)
    {
      newBlock, k := Nil, 0;
      if oldBlock == Nil {
        error, newBlock, k := Allocate(size, true, source);
        return;
      }
      if 0 == size {
        error := Deallocate(oldBlock, j, n);
        return;
      }
      error, newBlock, k := Relocate(oldBlock.at, size, j, n);
    }
  }
}
