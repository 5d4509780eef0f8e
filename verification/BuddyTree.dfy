/**
  * The pool of the buddy allocator as a value.  A block of size 2^k at offset o is free, in use, or split into two
  * buddies of size 2^(k-1), at offsets o and o + 2^(k-1): so blocks tile the pool and are aligned by
  construction. */
module BuddyTree {
  import opened PowersOfTwo

  /** The size of an `AvailListElem`, which heads every block, on a 64-bit machine. */
  const HEADER := 24

  /** The smallest block, 2^5 bytes, is the smallest that can hold a header and one byte. */
  const MIN_KVAL := 5

  datatype Block =
    | Free
    | Used(size: nat)
    | Split(left: Block, right: Block)

  /** The way from a block up to the whole pool. */
  datatype Path =
    | Top
    | InLeft(up: Path, sib: Block)
    | InRight(up: Path, sib: Block)

  ghost function Plug(c: Path, t: Block): Block
    decreases c
  {
    match c
    case Top => t
    case InLeft(up, sib) => Plug(up, Split(t, sib))
    case InRight(up, sib) => Plug(up, Split(sib, t))
  }

  /** Whether a path leads to offset `o` and size 2^k in a pool of size 2^top. */
  ghost predicate LeadsTo(c: Path, o: int, k: nat, top: nat)
    decreases c
  {
    k >= MIN_KVAL &&
    match c
    case Top => o == 0 && k == top
    case InLeft(up, _) => k < top && LeadsTo(up, o, k + 1, top)
    case InRight(up, _) => k < top && LeadsTo(up, o - Pow2(k), k + 1, top)
  }

  /** Blocks are not split below the smallest size, and blocks in use hold what was asked for. */
  ghost predicate Sized(t: Block, k: nat)
  {
    k >= MIN_KVAL &&
    match t
    case Free => true
    case Used(n) => 0 < n <= Pow2(k) - HEADER
    case Split(l, r) => k > MIN_KVAL && Sized(l, k - 1) && Sized(r, k - 1)
  }

  ghost predicate PathSized(c: Path, k: nat)
    decreases c
  {
    c.Top? || (Sized(c.sib, k) && PathSized(c.up, k + 1))
  }

  // ---------- which blocks there are ----------

  /** There is a free block of size 2^j at offset p. */
  ghost predicate IsFree(t: Block, o: int, k: nat, j: nat, p: int)
    decreases t
  {
    match t
    case Free => j == k && p == o
    case Used(_) => false
    case Split(l, r) => k > 0 && (IsFree(l, o, k - 1, j, p) || IsFree(r, o + Pow2(k - 1), k - 1, j, p))
  }

  /** A block of size 2^j at offset p is in use, for a request of n bytes. */
  ghost predicate IsUsed(t: Block, o: int, k: nat, j: nat, p: int, n: nat)
    decreases t
  {
    match t
    case Free => false
    case Used(size) => j == k && p == o && n == size
    case Split(l, r) => k > 0 && (IsUsed(l, o, k - 1, j, p, n) || IsUsed(r, o + Pow2(k - 1), k - 1, j, p, n))
  }

  /** The same for the part of the pool around a block. */
  ghost predicate IsFreeAround(c: Path, o: int, k: nat, j: nat, p: int)
    decreases c
  {
    match c
    case Top => false
    case InLeft(up, sib) => IsFree(sib, o + Pow2(k), k, j, p) || IsFreeAround(up, o, k + 1, j, p)
    case InRight(up, sib) => IsFree(sib, o - Pow2(k), k, j, p) || IsFreeAround(up, o - Pow2(k), k + 1, j, p)
  }

  ghost predicate IsUsedAround(c: Path, o: int, k: nat, j: nat, p: int, n: nat)
    decreases c
  {
    match c
    case Top => false
    case InLeft(up, sib) => IsUsed(sib, o + Pow2(k), k, j, p, n) || IsUsedAround(up, o, k + 1, j, p, n)
    case InRight(up, sib) => IsUsed(sib, o - Pow2(k), k, j, p, n) || IsUsedAround(up, o - Pow2(k), k + 1, j, p, n)
  }

  lemma {:induction false} FreePlug(c: Path, t: Block, o: int, k: nat, top: nat, j: nat, p: int)
    requires LeadsTo(c, o, k, top)
    ensures IsFree(Plug(c, t), 0, top, j, p) <==> IsFree(t, o, k, j, p) || IsFreeAround(c, o, k, j, p)
    decreases c
  {
    match c
    case Top =>
    case InLeft(up, sib) => FreePlug(up, Split(t, sib), o, k + 1, top, j, p);
    case InRight(up, sib) => FreePlug(up, Split(sib, t), o - Pow2(k), k + 1, top, j, p);
  }

  lemma {:induction false} UsedPlug(c: Path, t: Block, o: int, k: nat, top: nat, j: nat, p: int, n: nat)
    requires LeadsTo(c, o, k, top)
    ensures IsUsed(Plug(c, t), 0, top, j, p, n) <==> IsUsed(t, o, k, j, p, n) || IsUsedAround(c, o, k, j, p, n)
    decreases c
  {
    match c
    case Top =>
    case InLeft(up, sib) => UsedPlug(up, Split(t, sib), o, k + 1, top, j, p, n);
    case InRight(up, sib) => UsedPlug(up, Split(sib, t), o - Pow2(k), k + 1, top, j, p, n);
  }

  /** Blocks lie inside the block that they are part of. */
  lemma {:induction false} BlockInside(t: Block, o: int, k: nat, j: nat, p: int, n: nat)
    requires IsFree(t, o, k, j, p) || IsUsed(t, o, k, j, p, n)
    ensures j <= k && o <= p && p + Pow2(j) <= o + Pow2(k)
    decreases t
  {
    if t.Split? {
      if IsFree(t.left, o, k - 1, j, p) || IsUsed(t.left, o, k - 1, j, p, n) {
        BlockInside(t.left, o, k - 1, j, p, n);
      } else {
        BlockInside(t.right, o + Pow2(k - 1), k - 1, j, p, n);
      }
    }
  }

  /** Everything around a block lies outside it. */
  lemma {:induction false} BlockOutside(c: Path, o: int, k: nat, top: nat, j: nat, p: int, n: nat)
    requires LeadsTo(c, o, k, top) && (IsFreeAround(c, o, k, j, p) || IsUsedAround(c, o, k, j, p, n))
    ensures p + Pow2(j) <= o || o + Pow2(k) <= p
    decreases c
  {
    match c
    case Top =>
    case InLeft(up, sib) =>
      if IsFree(sib, o + Pow2(k), k, j, p) || IsUsed(sib, o + Pow2(k), k, j, p, n) {
        BlockInside(sib, o + Pow2(k), k, j, p, n);
      } else {
        BlockOutside(up, o, k + 1, top, j, p, n);
      }
    case InRight(up, sib) =>
      if IsFree(sib, o - Pow2(k), k, j, p) || IsUsed(sib, o - Pow2(k), k, j, p, n) {
        BlockInside(sib, o - Pow2(k), k, j, p, n);
      } else {
        BlockOutside(up, o - Pow2(k), k + 1, top, j, p, n);
      }
  }

  /** A path leads to an aligned place inside the pool, and its last step can be read off the offset. */
  lemma {:induction false} PathAligned(c: Path, o: int, k: nat, top: nat)
    requires LeadsTo(c, o, k, top)
    ensures k <= top && 0 <= o && o + Pow2(k) <= Pow2(top) && o % Pow2(k) == 0
    ensures !c.Top? ==> (c.InLeft? <==> o % Pow2(k + 1) == 0)
    ensures c.Top? <==> k == top
    decreases c
  {
    match c
    case Top =>
    case InLeft(up, sib) =>
      PathAligned(up, o, k + 1, top);
      AlignedHalves(o, k);
    case InRight(up, sib) =>
      PathAligned(up, o - Pow2(k), k + 1, top);
      AlignedHalves(o - Pow2(k), k);
  }

  lemma {:induction false} BlockAligned(t: Block, o: int, k: nat, j: nat, p: int, n: nat)
    requires o >= 0 && o % Pow2(k) == 0 && Sized(t, k) && (IsFree(t, o, k, j, p) || IsUsed(t, o, k, j, p, n))
    ensures p >= 0 && p % Pow2(j) == 0 && p % 32 == 0 && j >= MIN_KVAL
    decreases t
  {
    if t.Split? {
      AlignedHalves(o, k - 1);
      if IsFree(t.left, o, k - 1, j, p) || IsUsed(t.left, o, k - 1, j, p, n) {
        BlockAligned(t.left, o, k - 1, j, p, n);
      } else {
        BlockAligned(t.right, o + Pow2(k - 1), k - 1, j, p, n);
      }
    } else {
      AlignedTo32(o, k);
    }
  }

  /** Two blocks in use are the same block, or do not overlap. */
  lemma {:induction false} UsedDisjoint(t: Block, o: int, k: nat, j: nat, p: int, n: nat, j': nat, p': int, n': nat)
    requires IsUsed(t, o, k, j, p, n) && IsUsed(t, o, k, j', p', n')
    ensures (j == j' && p == p' && n == n') || p + Pow2(j) <= p' || p' + Pow2(j') <= p
    decreases t
  {
    if t.Split? {
      var m := o + Pow2(k - 1);
      var a, b := IsUsed(t.left, o, k - 1, j, p, n), IsUsed(t.left, o, k - 1, j', p', n');
      if a && b {
        UsedDisjoint(t.left, o, k - 1, j, p, n, j', p', n');
      } else if !a && !b {
        UsedDisjoint(t.right, m, k - 1, j, p, n, j', p', n');
      } else if a {
        BlockInside(t.left, o, k - 1, j, p, n);
        BlockInside(t.right, m, k - 1, j', p', n');
      } else {
        BlockInside(t.left, o, k - 1, j', p', n');
        BlockInside(t.right, m, k - 1, j, p, n);
      }
    }
  }

  /** A block in use and a free one do not overlap. */
  lemma {:induction false} FreeUsedDisjoint(t: Block, o: int, k: nat, j: nat, p: int, j': nat, p': int, n': nat)
    requires IsFree(t, o, k, j, p) && IsUsed(t, o, k, j', p', n')
    ensures p + Pow2(j) <= p' || p' + Pow2(j') <= p
    decreases t
  {
    if t.Split? {
      var m := o + Pow2(k - 1);
      var a, b := IsFree(t.left, o, k - 1, j, p), IsUsed(t.left, o, k - 1, j', p', n');
      if a && b {
        FreeUsedDisjoint(t.left, o, k - 1, j, p, j', p', n');
      } else if !a && !b {
        FreeUsedDisjoint(t.right, m, k - 1, j, p, j', p', n');
      } else if a {
        BlockInside(t.left, o, k - 1, j, p, 0);
        BlockInside(t.right, m, k - 1, j', p', n');
      } else {
        BlockInside(t.left, o, k - 1, j', p', n');
        BlockInside(t.right, m, k - 1, j, p, 0);
      }
    }
  }

  lemma NotFree(t: Block, o: int, k: nat, j: nat, p: int, n: nat)
    requires IsUsed(t, o, k, j, p, n)
    ensures !IsFree(t, o, k, j, p)
  {
    if IsFree(t, o, k, j, p) {
      FreeUsedDisjoint(t, o, k, j, p, j, p, n);
    }
  }

  // ---------- tiling ----------

  /** There is a block, free or in use, of size 2^j at offset p. */
  ghost predicate IsBlock(t: Block, o: int, k: nat, j: nat, p: int)
    decreases t
  {
    match t
    case Split(l, r) => k > 0 && (IsBlock(l, o, k - 1, j, p) || IsBlock(r, o + Pow2(k - 1), k - 1, j, p))
    case _ => j == k && p == o
  }

  lemma {:induction false} IsBlockInside(t: Block, o: int, k: nat, j: nat, p: int)
    requires IsBlock(t, o, k, j, p)
    ensures o <= p && p + Pow2(j) <= o + Pow2(k)
    decreases t
  {
    if t.Split? {
      if IsBlock(t.left, o, k - 1, j, p) {
        IsBlockInside(t.left, o, k - 1, j, p);
      } else {
        IsBlockInside(t.right, o + Pow2(k - 1), k - 1, j, p);
      }
    }
  }

  /** A block is free or in use (and `NotFree` says that it is not both). */
  lemma {:induction false} FreeOrUsed(t: Block, o: int, k: nat, j: nat, p: int) returns (n: nat)
    requires IsBlock(t, o, k, j, p)
    ensures IsFree(t, o, k, j, p) || IsUsed(t, o, k, j, p, n)
    decreases t
  {
    match t
    case Free => n := 0;
    case Used(size) => n := size;
    case Split(l, r) =>
      if IsBlock(l, o, k - 1, j, p) {
        n := FreeOrUsed(l, o, k - 1, j, p);
      } else {
        n := FreeOrUsed(r, o + Pow2(k - 1), k - 1, j, p);
      }
  }

  lemma {:induction false} BlockOf(t: Block, o: int, k: nat, j: nat, p: int, n: nat)
    requires IsFree(t, o, k, j, p) || IsUsed(t, o, k, j, p, n)
    ensures IsBlock(t, o, k, j, p)
    decreases t
  {
    if t.Split? {
      if IsFree(t.left, o, k - 1, j, p) || IsUsed(t.left, o, k - 1, j, p, n) {
        BlockOf(t.left, o, k - 1, j, p, n);
      } else {
        BlockOf(t.right, o + Pow2(k - 1), k - 1, j, p, n);
      }
    }
  }

  /** Every byte lies in a block ... */
  lemma {:induction false} Tiled(t: Block, o: int, k: nat, i: int) returns (j: nat, p: int)
    requires Sized(t, k) && o <= i < o + Pow2(k)
    ensures IsBlock(t, o, k, j, p) && p <= i < p + Pow2(j)
    decreases t
  {
    if !t.Split? {
      j, p := k, o;
    } else if i < o + Pow2(k - 1) {
      j, p := Tiled(t.left, o, k - 1, i);
    } else {
      j, p := Tiled(t.right, o + Pow2(k - 1), k - 1, i);
    }
  }

  /** ... and in no other. */
  lemma {:induction false} TiledOnce(t: Block, o: int, k: nat, i: int, j: nat, p: int, j': nat, p': int)
    requires IsBlock(t, o, k, j, p) && p <= i < p + Pow2(j) && IsBlock(t, o, k, j', p') && p' <= i < p' + Pow2(j')
    ensures j == j' && p == p'
    decreases t
  {
    if t.Split? {
      var m := o + Pow2(k - 1);
      var a, b := IsBlock(t.left, o, k - 1, j, p), IsBlock(t.left, o, k - 1, j', p');
      if a {
        IsBlockInside(t.left, o, k - 1, j, p);
      } else {
        IsBlockInside(t.right, m, k - 1, j, p);
      }
      if b {
        IsBlockInside(t.left, o, k - 1, j', p');
      } else {
        IsBlockInside(t.right, m, k - 1, j', p');
      }
      if a {
        TiledOnce(t.left, o, k - 1, i, j, p, j', p');
      } else {
        TiledOnce(t.right, m, k - 1, i, j, p, j', p');
      }
    }
  }

  // ---------- maximal coalescing ----------

  /** No two buddies are both free. */
  ghost predicate Coalesced(t: Block)
  {
    t.Split? ==> Coalesced(t.left) && Coalesced(t.right) && !(t.left.Free? && t.right.Free?)
  }

  /** By address: a free block whose buddy lies above it does not have a free buddy of its size. */
  lemma {:induction false} NoFreeBuddies(t: Block, o: nat, k: nat, j: nat, p: nat)
    requires Sized(t, k) && Coalesced(t) && o % Pow2(k) == 0 && p % Pow2(j + 1) == 0
    ensures !(IsFree(t, o, k, j, p) && IsFree(t, o, k, j, p + Pow2(j)))
    decreases t
  {
    if t.Split? && IsFree(t, o, k, j, p) && IsFree(t, o, k, j, p + Pow2(j)) {
      var h, m := k - 1, o + Pow2(k - 1);
      AlignedHalves(o, h);
      if IsFree(t.left, o, h, j, p) {
        BlockInside(t.left, o, h, j, p, 0);
        if IsFree(t.left, o, h, j, p + Pow2(j)) {
          NoFreeBuddies(t.left, o, h, j, p);
        } else {
          BlockInside(t.right, m, h, j, p + Pow2(j), 0);
          if j == h {
            WholeBlockFree(t.left, o, h, p);
            WholeBlockFree(t.right, m, h, p + Pow2(j));
          } else {
            AlignedDown(m, j + 1, h);
            AlignedHalves(p, j);
            assert false;
          }
        }
      } else {
        BlockInside(t.right, m, h, j, p, 0);
        if IsFree(t.left, o, h, j, p + Pow2(j)) {
          BlockInside(t.left, o, h, j, p + Pow2(j), 0);
        } else {
          NoFreeBuddies(t.right, m, h, j, p);
        }
      }
    }
  }

  lemma WholeBlockFree(t: Block, o: int, k: nat, p: int)
    requires IsFree(t, o, k, k, p)
    ensures t.Free?
  {
    if t.Split? {
      if IsFree(t.left, o, k - 1, k, p) {
        BlockInside(t.left, o, k - 1, k, p, 0);
      } else {
        BlockInside(t.right, o + Pow2(k - 1), k - 1, k, p, 0);
      }
    }
  }

  /** The same for everything around a block, whatever the block itself is. */
  ghost predicate CoalescedAround(c: Path)
    decreases c
  {
    c.Top? || (Coalesced(c.sib) && CoalescedAround(c.up))
  }

  lemma {:induction false} CoalescedPlug(c: Path, t: Block)
    ensures Coalesced(Plug(c, t)) <==>
            Coalesced(t) && CoalescedAround(c) && !(t.Free? && !c.Top? && c.sib.Free?)
    decreases c
  {
    match c
    case Top =>
    case InLeft(up, sib) => CoalescedPlug(up, Split(t, sib));
    case InRight(up, sib) => CoalescedPlug(up, Split(sib, t));
  }

  lemma {:induction false} SizedPlug(c: Path, t: Block, o: int, k: nat, top: nat)
    requires LeadsTo(c, o, k, top)
    ensures Sized(Plug(c, t), top) <==> Sized(t, k) && PathSized(c, k)
    decreases c
  {
    match c
    case Top =>
    case InLeft(up, sib) => SizedPlug(up, Split(t, sib), o, k + 1, top);
    case InRight(up, sib) => SizedPlug(up, Split(sib, t), o - Pow2(k), k + 1, top);
  }

  /** Some block is in use. */
  ghost predicate InUse(t: Block)
  {
    t.Used? || (t.Split? && (InUse(t.left) || InUse(t.right)))
  }

  /** Once nothing is in use, maximal coalescing leaves one free block, in whatever order the blocks were freed. */
  lemma {:induction false} NothingInUse(t: Block)
    requires Coalesced(t)
    ensures t.Free? <==> !InUse(t)
  {
    if t.Split? {
      NothingInUse(t.left);
      NothingInUse(t.right);
    }
  }

  lemma {:induction false} InUseHasBlock(t: Block, o: int, k: nat) returns (j: nat, p: int, n: nat)
    requires Sized(t, k) && InUse(t)
    ensures IsUsed(t, o, k, j, p, n)
    decreases t
  {
    if t.Used? {
      j, p, n := k, o, t.size;
    } else if InUse(t.left) {
      j, p, n := InUseHasBlock(t.left, o, k - 1);
    } else {
      j, p, n := InUseHasBlock(t.right, o + Pow2(k - 1), k - 1);
    }
  }

  lemma {:induction false} BlockMeansInUse(t: Block, o: int, k: nat, j: nat, p: int, n: nat)
    requires IsUsed(t, o, k, j, p, n)
    ensures InUse(t)
    decreases t
  {
    if t.Split? {
      if IsUsed(t.left, o, k - 1, j, p, n) {
        BlockMeansInUse(t.left, o, k - 1, j, p, n);
      } else {
        BlockMeansInUse(t.right, o + Pow2(k - 1), k - 1, j, p, n);
      }
    }
  }

  /** Two divisions of the same range have the same blocks in use. */
  ghost predicate SameUse(t: Block, t': Block, o: int, k: nat)
  {
    forall j, p, n :: IsUsed(t, o, k, j, p, n) <==> IsUsed(t', o, k, j, p, n)
  }

  lemma HalvesSameUse(t: Block, t': Block, o: int, k: nat)
    requires t.Split? && t'.Split? && k > 0 && SameUse(t, t', o, k)
    ensures SameUse(t.left, t'.left, o, k - 1) && SameUse(t.right, t'.right, o + Pow2(k - 1), k - 1)
  {
    var h, m := k - 1, o + Pow2(k - 1);
    forall j, p, n
      ensures IsUsed(t.left, o, h, j, p, n) <==> IsUsed(t'.left, o, h, j, p, n)
      ensures IsUsed(t.right, m, h, j, p, n) <==> IsUsed(t'.right, m, h, j, p, n)
    {
      assert IsUsed(t, o, k, j, p, n) <==> IsUsed(t', o, k, j, p, n);
      if IsUsed(t.left, o, h, j, p, n) || IsUsed(t'.left, o, h, j, p, n) {
        BlockInside(if IsUsed(t.left, o, h, j, p, n) then t.left else t'.left, o, h, j, p, n);
      }
      if IsUsed(t.right, m, h, j, p, n) || IsUsed(t'.right, m, h, j, p, n) {
        BlockInside(if IsUsed(t.right, m, h, j, p, n) then t.right else t'.right, m, h, j, p, n);
      }
    }
  }

  lemma WholeBlockUsed(t: Block, o: int, k: nat, p: int, n: nat)
    requires IsUsed(t, o, k, k, p, n)
    ensures t == Used(n)
  {
    if t.Split? {
      if IsUsed(t.left, o, k - 1, k, p, n) {
        BlockInside(t.left, o, k - 1, k, p, n);
      } else {
        BlockInside(t.right, o + Pow2(k - 1), k - 1, k, p, n);
      }
    }
  }

  lemma UsedSame(t: Block, t': Block, o: int, k: nat)
    requires t.Used? && SameUse(t, t', o, k)
    ensures t == t'
  {
    assert IsUsed(t, o, k, k, o, t.size);
    WholeBlockUsed(t', o, k, o, t.size);
  }

  lemma InUseSame(t: Block, t': Block, o: int, k: nat)
    requires Sized(t, k) && InUse(t) && SameUse(t, t', o, k)
    ensures InUse(t')
  {
    var j, p, n := InUseHasBlock(t, o, k);
    BlockMeansInUse(t', o, k, j, p, n);
  }

  /** What is in use determines how the pool is divided: it does not matter in which order blocks came and went. */
  lemma {:induction false} UseDetermines(t: Block, t': Block, o: int, k: nat)
    requires Sized(t, k) && Sized(t', k) && Coalesced(t) && Coalesced(t') && SameUse(t, t', o, k)
    ensures t == t'
    decreases t
  {
    NothingInUse(t);
    NothingInUse(t');
    if InUse(t) {
      InUseSame(t, t', o, k);
    } else if InUse(t') {
      InUseSame(t', t, o, k);
    }
    if t.Used? {
      UsedSame(t, t', o, k);
    } else if t'.Used? {
      UsedSame(t', t, o, k);
    } else if t.Split? {
      HalvesSameUse(t, t', o, k);
      UseDetermines(t.left, t'.left, o, k - 1);
      UseDetermines(t.right, t'.right, o + Pow2(k - 1), k - 1);
    }
  }

  // ---------- completeness of failure ----------

  /** Byte i belongs to a block in use. */
  ghost predicate Occupied(t: Block, o: int, k: nat, i: int)
    decreases t
  {
    match t
    case Free => false
    case Used(_) => o <= i < o + Pow2(k)
    case Split(l, r) => k > 0 && (Occupied(l, o, k - 1, i) || Occupied(r, o + Pow2(k - 1), k - 1, i))
  }

  /** 2^j bytes at offset p form an aligned range, inside the block, that touches no block in use. */
  ghost predicate WhollyFree(t: Block, o: int, k: nat, j: nat, p: int)
  {
    o <= p && p + Pow2(j) <= o + Pow2(k) && p % Pow2(j) == 0 && forall i :: p <= i < p + Pow2(j) ==>
                                                                              !Occupied(t, o, k, i)
  }

  lemma {:induction false} OccupiedInside(t: Block, o: int, k: nat)
    ensures forall i :: Occupied(t, o, k, i) ==> o <= i < o + Pow2(k)
    decreases t
  {
    if t.Split? && k > 0 {
      OccupiedInside(t.left, o, k - 1);
      OccupiedInside(t.right, o + Pow2(k - 1), k - 1);
    }
  }

  /** A block in use occupies some byte. */
  lemma {:induction false} InUseOccupies(t: Block, o: int, k: nat) returns (i: int)
    requires Sized(t, k) && InUse(t)
    ensures Occupied(t, o, k, i) && o <= i < o + Pow2(k)
    decreases t
  {
    if t.Used? {
      i := o;
    } else if InUse(t.left) {
      i := InUseOccupies(t.left, o, k - 1);
    } else {
      i := InUseOccupies(t.right, o + Pow2(k - 1), k - 1);
    }
  }

  /** A range that is smaller than a split block lies in one of its halves. */
  lemma RangeInHalf(t: Block, o: nat, k: nat, j: nat, p: nat)
    requires t.Split? && k > 0 && j < k && o % Pow2(k) == 0 && WhollyFree(t, o, k, j, p)
    ensures if p < o + Pow2(k - 1)
            then WhollyFree(t.left, o, k - 1, j, p) else WhollyFree(t.right, o + Pow2(k - 1), k - 1, j, p)
  {
    AlignedHalves(o, k - 1);
    var h, m := k - 1, o + Pow2(k - 1);
    if p < m {
      AlignedFits(o, h, p, j);
      forall i | p <= i < p + Pow2(j)
        ensures !Occupied(t.left, o, h, i)
      {
        assert !Occupied(t, o, k, i);
      }
    } else {
      forall i | p <= i < p + Pow2(j)
        ensures !Occupied(t.right, m, h, i)
      {
        assert !Occupied(t, o, k, i);
      }
    }
  }

  lemma RangeNoLarger(t: Block, o: nat, k: nat, j: nat, p: nat)
    requires WhollyFree(t, o, k, j, p)
    ensures j <= k && (j == k ==> p == o)
  {
    if k < j {
      Pow2Strict(k, j);
      assert false;
    }
  }

  lemma UsedOrWhole(t: Block, o: nat, k: nat, j: nat, p: nat)
    requires Sized(t, k) && InUse(t) && (t.Used? || j == k) && j <= k && o <= p && p + Pow2(j) <= o + Pow2(k)
    ensures !WhollyFree(t, o, k, j, p)
  {
    if t.Used? {
      assert Occupied(t, o, k, p);
    } else {
      var i := InUseOccupies(t, o, k);
    }
  }

  /** An aligned range that touches no block in use lies inside a single free block. */
  lemma {:induction false} RangeInFreeBlock(t: Block, o: nat, k: nat, j: nat, p: nat) returns (j': nat, p': int)
    requires Sized(t, k) && Coalesced(t) && o % Pow2(k) == 0 && WhollyFree(t, o, k, j, p)
    ensures j <= j' && IsFree(t, o, k, j', p')
    decreases t
  {
    RangeNoLarger(t, o, k, j, p);
    if t.Free? {
      j', p' := k, o;
    } else if t.Used? || j == k {
      NothingInUse(t);
      UsedOrWhole(t, o, k, j, p);
      assert false;
    } else {
      RangeInHalf(t, o, k, j, p);
      AlignedHalves(o, k - 1);
      if p < o + Pow2(k - 1) {
        j', p' := RangeInFreeBlock(t.left, o, k - 1, j, p);
      } else {
        j', p' := RangeInFreeBlock(t.right, o + Pow2(k - 1), k - 1, j, p);
      }
    }
  }

  /** Conversely the start of a free block is such a range. */
  lemma {:induction false} FreeBlockIsRange(t: Block, o: nat, k: nat, j: nat, j': nat, p: int)
    requires Sized(t, k) && o % Pow2(k) == 0 && IsFree(t, o, k, j', p) && j <= j'
    ensures WhollyFree(t, o, k, j, p)
    decreases t
  {
    match t
    case Free =>
      Pow2Monotone(j, k);
      AlignedDown(o, j, k);
    case Split(l, r) =>
      var m := o + Pow2(k - 1);
      AlignedHalves(o, k - 1);
      if IsFree(l, o, k - 1, j', p) {
        FreeBlockIsRange(l, o, k - 1, j, j', p);
        OccupiedInside(r, m, k - 1);
      } else {
        FreeBlockIsRange(r, m, k - 1, j, j', p);
        OccupiedInside(l, o, k - 1);
      }
  }

  /** Some free block has size 2^j or more. */
  ghost predicate HasFreeBlock(t: Block, o: int, k: nat, j: nat)
  {
    exists j', p :: j <= j' && IsFree(t, o, k, j', p)
  }

  ghost predicate HasFreeRange(t: Block, o: int, k: nat, j: nat)
  {
    exists p :: WhollyFree(t, o, k, j, p)
  }

  /** No free block is large enough exactly if every aligned range of that size touches a block in use. */
  lemma ExhaustedMeans(t: Block, o: nat, k: nat, j: nat)
    requires Sized(t, k) && Coalesced(t) && (o == 0 || o % Pow2(k) == 0)
    ensures HasFreeBlock(t, o, k, j) <==> HasFreeRange(t, o, k, j)
  {
    ZeroMod(Pow2(k));
    if HasFreeBlock(t, o, k, j) {
      var j', p :| j <= j' && IsFree(t, o, k, j', p);
      FreeBlockIsRange(t, o, k, j, j', p);
    }
    if HasFreeRange(t, o, k, j) {
      var p :| WhollyFree(t, o, k, j, p);
      var j', p' := RangeInFreeBlock(t, o, k, j, p);
    }
  }
}
