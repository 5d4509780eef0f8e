/** An allocator that hands out pieces of large chunks, and takes all of them back at once. */
module DiscardAllocators {
  import opened Alignments
  import opened Errors
  import opened PowersOfTwo

  /** The size of the header of a chunk on a 64-bit machine, before it is aligned. */
  const CHUNK_HEADER := 32

  const HALF_WORD := 0x8000_0000
  const WORD := 0x1_0000_0000
  const UWORD := 0x1_0000_0000_0000_0000

  type UWord = x: int | 0 <= x < 0x1_0000_0000_0000_0000

  /** The size of a chunk is passed as a signed 32-bit integer.  That and the header make the 32-bit size that is asked
      from the source allocator, ... */
  function Granted(header: nat, size: UWord): nat
  {
    (header + size % WORD) % WORD
  }

  /** ... but what the chunk records is the signed integer again, as an unsigned 64-bit one. */
  function Recorded(size: UWord): UWord
  {
    if Recordable(size) then size % WORD else size % WORD + UWORD - WORD
  }

  lemma RecordedLow(size: UWord)
    requires HALF_WORD <= size < WORD
    ensures Recorded(size) == size + UWORD - WORD
  {
  }

  lemma RemainderSmall(x: nat, m: nat)
    requires x < m
    ensures x % m == x
  {
  }

  /** Whether the signed integer is the size, but for multiples of 4 GB. */
  predicate Recordable(size: UWord)
  {
    size % WORD < HALF_WORD
  }

  /** The memory that a request gets is enough for it. */
  predicate Suffices(header: nat, size: UWord)
  {
    header + size <= Granted(header, size)
  }

  /** The size that is recorded for it is there. */
  predicate Trustworthy(header: nat, size: UWord)
  {
    header + Recorded(size) <= Granted(header, size)
  }

  /** A request is met in full exactly if with its header it stays below 4 GB.  The recorded size is right exactly if
      its low 32 bits stay below 2 GB. */
  lemma SizesMean(header: nat, size: UWord)
    requires header < HALF_WORD
    ensures Suffices(header, size) <==> header + size < WORD
    ensures Trustworthy(header, size) <==> Recordable(size)
    ensures Trustworthy(header, size) ==> Granted(header, size) == header + Recorded(size)
  {
    var low := size % WORD;
    if header + low < WORD {
      assert Granted(header, size) == header + low;
    } else {
      assert Granted(header, size) == header + low - WORD;
    }
  }

  /** 4 GB get no memory beyond the header; 2 GB are met, but recorded as almost 2^64. */
  lemma WrongSizes()
    ensures Granted(CHUNK_HEADER, 0x1_0000_0000) == CHUNK_HEADER && !Suffices(CHUNK_HEADER, 0x1_0000_0000)
    ensures Suffices(CHUNK_HEADER, 0x8000_0000) && Recorded(0x8000_0000) == UWORD - HALF_WORD
    ensures !Trustworthy(CHUNK_HEADER, 0x8000_0000)
  {
    SizesMean(CHUNK_HEADER, 0x1_0000_0000);
    SizesMean(CHUNK_HEADER, 0x8000_0000);
  }

  class Chunk {
    const base: nat
    const granted: nat
    const size: UWord
    const data: nat
    var next: Chunk?
    var idx: UWord

    constructor (base: nat, granted: nat, size: UWord, data: nat)
      ensures this.base == base && this.granted == granted && this.size == size && this.data == data
      ensures next == null && idx == 0
    {
      this.base, this.granted, this.size, this.data := base, granted, size, data;
      next, idx := null, 0;
    }
  }

  /** What the source allocator answers. */
  datatype Grant = Refused | At(base: nat)

  /** A block that has been handed out. */
  datatype Block = Block(chunk: Chunk, at: nat, size: nat)

  function Address(b: Block): nat
  {
    b.chunk.data + b.at
  }

  function First(s: seq<Chunk>): Chunk?
  {
    if s == [] then null else s[0]
  }

  ghost function Bases(s: seq<Chunk>): set<nat>
  {
    set c | c in s :: c.base
  }

  /** The bases in the order of the chunks. */
  function BaseList(s: seq<Chunk>): seq<nat>
  {
    seq(|s|, i requires 0 <= i < |s| => s[i].base)
  }

  /** Following the links from `head` visits exactly `s`. */
  ghost predicate Chain(head: Chunk?, s: seq<Chunk>)
    reads s
  {
    && head == First(s) && (s != [] ==> s[|s| - 1].next == null)
    && forall i, j :: 0 <= i < j < |s| && j == i + 1 ==> s[i].next == s[j]
  }

  /** What the source allocator has handed out does not overlap. */
  ghost predicate Apart(c: Chunk, d: Chunk)
  {
    c != d && c.base != d.base && (c.base + c.granted <= d.base || d.base + d.granted <= c.base)
  }

  ghost predicate AllApart(s: seq<Chunk>)
  {
    forall i, j :: 0 <= i < j < |s| ==> Apart(s[i], s[j])
  }

  /** A new chunk comes first, or behind the head. */
  ghost function Joined(s: seq<Chunk>, c: Chunk, behind: bool): seq<Chunk>
  {
    if behind && s != [] then [s[0]] + ([c] + s[1..]) else [c] + s
  }

  /** One more block has been handed out. */
  ghost predicate Added(was: seq<Block>, blocks: seq<Block>, chunk: Chunk?, size: nat, address: nat)
  {
    |blocks| == |was| + 1 && blocks[..|was|] == was &&
    var b := blocks[|was|];
    b.chunk == chunk && b.size == size && Address(b) == address
  }

  ghost function AllButLast(s: seq<Chunk>): seq<Chunk>
  {
    if s == [] then [] else s[..|s| - 1]
  }

  ghost predicate Once(bases: seq<nat>)
  {
    forall i, j :: 0 <= i < j < |bases| ==> bases[i] != bases[j]
  }

  ghost function Elements(bases: seq<nat>): set<nat>
  {
    set b | b in bases
  }

  /** The bases of the first chunks of a chain are different, and the others are those of the rest. */
  lemma ReturnedOnce(s: seq<Chunk>, n: nat)
    requires AllApart(s) && n <= |s|
    ensures var r := BaseList(s[..n]);
            Once(r) && Elements(r) <= Bases(s) && Bases(s[n..]) == Bases(s) - Elements(r)
  {
    var r := BaseList(s[..n]);
    forall b
      ensures b in Elements(r) ==> b in Bases(s)
      ensures b in Bases(s[n..]) <==> b in Bases(s) - Elements(r)
    {
      if b in Elements(r) {
        var i :| 0 <= i < n && r[i] == b;
        assert s[i] in s;
      }
      if c :| c in s && c.base == b {
        var i :| 0 <= i < |s| && s[i] == c;
        assert if i < n then r[i] == b else s[n..][i - n] == c;
      }
      if c :| c in s[n..] && c.base == b {
        var i :| 0 <= i < |s| - n && s[n..][i] == c;
        assert s[n + i] == c && c in s;
      }
    }
  }

  lemma AllReturned(s: seq<Chunk>)
    requires AllApart(s)
    ensures Once(BaseList(s)) && Elements(BaseList(s)) == Bases(s)
  {
    ReturnedOnce(s, |s|);
    assert s[..|s|] == s && s[|s|..] == [];
    assert Bases(s[|s|..]) == {};
    var r := BaseList(s);
    forall b | b in Bases(s)
      ensures b in Elements(r)
    {
      assert b !in Bases(s) - Elements(r);
    }
  }

  lemma ApartBoth(c: Chunk, d: Chunk)
    requires Apart(c, d)
    ensures Apart(d, c)
  {
  }

  /** A chunk that is apart from all others may come first, ... */
  lemma JoinsFirst(s: seq<Chunk>, c: Chunk)
    requires AllApart(s) && forall x :: x in s ==> Apart(c, x)
    ensures AllApart([c] + s) && Bases([c] + s) == Bases(s) + {c.base}
  {
    var s' := [c] + s;
    forall i, j | 0 <= i < j < |s'|
      ensures Apart(s'[i], s'[j])
    {
      assert s'[j] == s[j - 1];
      if i > 0 {
        assert s'[i] == s[i - 1];
      }
    }
    BasesJoined(c, s);
  }

  /** ... or second. */
  lemma JoinsSecond(s: seq<Chunk>, c: Chunk)
    requires s != [] && AllApart(s) && forall x :: x in s ==> Apart(c, x)
    ensures AllApart([s[0]] + ([c] + s[1..])) && Bases([s[0]] + ([c] + s[1..])) == Bases(s) + {c.base}
  {
    var rest := s[1..];
    forall i, j | 0 <= i < j < |rest|
      ensures Apart(rest[i], rest[j])
    {
      assert rest[i] == s[i + 1] && rest[j] == s[j + 1];
    }
    forall x | x in [c] + rest
      ensures Apart(s[0], x)
    {
      if x == c {
        ApartBoth(c, s[0]);
      } else {
        var i :| 0 <= i < |rest| && rest[i] == x;
        assert x == s[i + 1];
      }
    }
    JoinsFirst(rest, c);
    JoinsFirst([c] + rest, s[0]);
    assert s == [s[0]] + rest;
    BasesJoined(s[0], rest);
  }

  lemma Members(s: seq<Chunk>, c: Chunk)
    requires s != []
    ensures forall x :: x in [s[0]] + ([c] + s[1..]) <==> x in s || x == c
  {
    assert s == [s[0]] + s[1..];
    assert forall x :: x in s <==> x == s[0] || x in s[1..];
  }

  lemma BasesJoined(c: Chunk, s: seq<Chunk>)
    ensures Bases([c] + s) == {c.base} + Bases(s)
  {
    assert forall x :: x in [c] + s <==> x == c || x in s;
    assert c in [c] + s;
  }

  /** The blocks of a chunk lie one behind the other, below the place for the next. */
  ghost predicate Stacked(blocks: seq<Block>)
  {
    forall n, m :: 0 <= n < m < |blocks| && blocks[n].chunk == blocks[m].chunk ==>
                     blocks[n].at + blocks[n].size <= blocks[m].at
  }

  lemma StackedMore(blocks: seq<Block>, b: Block)
    requires Stacked(blocks) && forall n :: 0 <= n < |blocks| && blocks[n].chunk == b.chunk ==>
                                              blocks[n].at + blocks[n].size <= b.at
    ensures Stacked(blocks + [b])
  {
  }

  class DiscardAllocator {
    const alignment: nat
    const multipleOf: nat
    const chunkSize: UWord
    var head: Chunk?

    /** The chunks from the head on, the blocks handed out since the last reset, and the chunks that the source
        allocator has not got back. */
    ghost var chunks: seq<Chunk>
    ghost var blocks: seq<Block>
    ghost var outstanding: set<nat>

    function SizeofChunk(): (n: nat)
      requires 0 < alignment < 0x1_0000
      ensures CHUNK_HEADER <= n < HALF_WORD
    {
      Align(CHUNK_HEADER, alignment)
    }

    ghost predicate Linked()
      reads this, chunks
    {
      Chain(head, chunks) && AllApart(chunks) && outstanding == Bases(chunks)
    }

    /** Chunks start with their header. */
    ghost predicate Headed(c: Chunk)
      requires 0 < alignment < 0x1_0000
    {
      c.data == c.base + SizeofChunk() && c.granted < WORD
    }

    /** What the code needs to go on, whatever has been requested. */
    ghost predicate Usable()
      reads this, chunks
    {
      && 0 < alignment < 0x1_0000 && multipleOf > 0 && chunkSize < WORD && Linked()
      && (forall c :: c in chunks ==> Headed(c))
      && (forall n :: 0 <= n < |blocks| ==> blocks[n].chunk in chunks)
    }

    /** The size that a chunk records is there. */
    ghost predicate Room(c: Chunk)
      requires 0 < alignment < 0x1_0000
    {
      SizeofChunk() + c.size <= c.granted
    }

    /** A chunk is full, or the place for its next block is aligned and its size can be trusted. */
    ghost predicate Placed(c: Chunk)
      requires 0 < alignment < 0x1_0000
      reads c
    {
      c.idx >= c.size || (Aligned(c.idx) && Room(c))
    }

    /** A multiple of the alignment, if that is a power of two, as the code expects. */
    ghost predicate Aligned(n: nat)
      requires 0 < alignment < 0x1_0000
    {
      PowerOfTwo(alignment) ==> n % alignment == 0
    }

    ghost predicate Inside(b: Block)
      requires 0 < alignment < 0x1_0000
      reads b.chunk
    {
      && b.size > 0 && Aligned(b.at) && b.at + b.size <= b.chunk.idx
      && SizeofChunk() + b.at + b.size <= b.chunk.granted
    }

    /** The blocks that have been handed out, and those that can be before the next reset, are in order. */
    ghost predicate Valid()
      reads this, chunks
    {
      && Usable() && Stacked(blocks) && (forall c :: c in chunks ==> Placed(c))
      && (forall n :: 0 <= n < |blocks| ==> Inside(blocks[n]))
    }

    /** All chunks have the room that they record. */
    ghost predicate Trusted()
      reads this, chunks
    {
      Usable() && forall c :: c in chunks ==> Room(c)
    }

    /** The source allocator has handed out aligned memory. */
    ghost predicate AlignedBases()
      requires alignment > 0
      reads this
    {
      forall c :: c in chunks ==> c.base % alignment == 0
    }

    constructor (chunkSize: nat, alignment: nat, multipleOf: nat)
      requires chunkSize < WORD && 0 < alignment < 0x1_0000 && multipleOf > 0
      ensures Valid() && Trusted() && blocks == [] && chunks == [] && outstanding == {}
      ensures this.alignment == alignment && this.multipleOf == multipleOf
      ensures this.chunkSize == Align(if 128 > chunkSize then 128 else chunkSize, alignment) % WORD
    {
      this.alignment, this.multipleOf := alignment, multipleOf;
      this.chunkSize := Align(if 128 > chunkSize then 128 else chunkSize, alignment) % WORD;
      head, chunks, blocks, outstanding := null, [], [], {};
    }

    // ---------- what clients may rely on ----------

    /** Blocks do not overlap; they lie in their chunks behind the headers, and are aligned as well as the chunks
        are. */
    lemma BlocksDisjoint(n: nat, m: nat)
      requires Valid() && n < m < |blocks|
      ensures Address(blocks[n]) + blocks[n].size <= Address(blocks[m])
              || Address(blocks[m]) + blocks[m].size <= Address(blocks[n])
    {
      var b, c := blocks[n], blocks[m];
      if b.chunk != c.chunk {
        var i :| 0 <= i < |chunks| && chunks[i] == b.chunk;
        var j :| 0 <= j < |chunks| && chunks[j] == c.chunk;
        assert Apart(chunks[if i < j then i else j], chunks[if i < j then j else i]);
        assert Headed(b.chunk) && Headed(c.chunk);
      }
    }

    lemma BlockAligned(n: nat)
      requires Valid() && n < |blocks|
      ensures blocks[n].chunk.base + SizeofChunk() <= Address(blocks[n])
      ensures Address(blocks[n]) + blocks[n].size <= blocks[n].chunk.base + blocks[n].chunk.granted
      ensures PowerOfTwo(alignment) && AlignedBases() ==> Address(blocks[n]) % alignment == 0
    {
      var c := blocks[n].chunk;
      assert Headed(c);
      if PowerOfTwo(alignment) && AlignedBases() {
        AlignPower(CHUNK_HEADER, alignment);
        SumAligned(c.base, SizeofChunk(), alignment);
        SumAligned(c.data, blocks[n].at, alignment);
      }
    }

    // ---------- operations ----------

    /** The memory that the source allocator grants is not in use. */
    ghost predicate Fresh(grant: Grant, granted: nat)
      reads this
    {
      grant.At? ==>
        forall c :: c in chunks ==>
                      c.base != grant.base && (c.base + c.granted <= grant.base || grant.base + granted <= c.base)
    }

    /** A new chunk may join the chain. */
    ghost predicate MayJoin(chunk: Chunk)
      requires 0 < alignment < 0x1_0000
      reads this, chunk
    {
      chunk.next == null && Headed(chunk) && forall c :: c in chunks ==> Apart(chunk, c)
    }

    /** What becomes of the request for a chunk. */
    function Answer(size: UWord, grant: Grant): Error
      requires 0 < alignment < 0x1_0000 && multipleOf > 0
    {
      if Granted(SizeofChunk(), size) % multipleOf != 0 then InvalidState
      else if grant.Refused? then OutOfMemory
      else Success
    }

    /** `allocateChunk`. */
    method AllocateChunk(size: UWord, grant: Grant) returns (error: Error, chunk: Chunk?)
      requires Usable() && Fresh(grant, Granted(SizeofChunk(), size))
      ensures error == Answer(size, grant)
      ensures error == InvalidState <==> (SizeofChunk() + size % WORD) % WORD % multipleOf != 0
      ensures error == OutOfMemory ==> grant.Refused?
      ensures error == Success ==>
                && grant.At? && chunk != null && fresh(chunk) && MayJoin(chunk) && MadeFor(chunk, size)
                && chunk.idx == 0
                && chunk.base == grant.base
    {
      var granted := (SizeofChunk() + size % WORD) % WORD;
      if granted % multipleOf != 0 {
        return InvalidState, null;
      }
      if grant.Refused? {
        return OutOfMemory, null;
      }
      chunk := new Chunk(grant.base, granted, Recorded(size), grant.base + SizeofChunk());
      error := Success;
    }

    /** Whether the head has no room for a block. */
    predicate Exhausted(size: nat)
      reads this, head
    {
      head == null || size > (if head.idx > head.size then 0 else head.size - head.idx)
    }

    function ChunkFor(size: UWord): UWord
    {
      if size > chunkSize then size else chunkSize
    }

    /** The size of the new chunk that a request takes, or 0 if it takes none. */
    ghost function NewChunk(size: UWord): UWord
      reads this, head
    {
      if size > chunkSize || Exhausted(size) then ChunkFor(size) else 0
    }

    /** A request is met from the head if it fits into a chunk for small ones and into what is left of the head.
        Otherwise it takes a chunk of its own if it does not fit into one for small ones, and a new one for small ones
        if it does. */
    lemma NewChunkMeans(size: UWord)
      requires size > 0
      ensures NewChunk(size) == 0 <==> size <= chunkSize && head != null && head.idx + size <= head.size
      ensures NewChunk(size) != 0 ==> NewChunk(size) == if size <= chunkSize then chunkSize else size
    {
    }

    predicate Manageable(size: UWord)
      requires 0 < alignment < 0x1_0000
    {
      if size > chunkSize then SizeofChunk() + size < WORD else chunkSize < HALF_WORD
    }

    /** The requests that are met and leave everything in order: a large one needs less than 4 GB together with its
        header, and a chunk for small ones must be smaller than 2 GB. */
    ghost predicate Met(size: UWord)
      requires 0 < alignment < 0x1_0000
      reads this, head
    {
      NewChunk(size) == 0 || Manageable(size)
    }

    /** Hands out a block, for requests of any size. */
    method Allocate(size: UWord, wanted: bool, grant: Grant) returns (error: Error, address: nat)
      requires Usable() && Fresh(grant, Granted(SizeofChunk(), NewChunk(size)))
      modifies this, chunks
      ensures Usable()
      ensures error == if size == 0 then InvalidArgument
                       else if !wanted then NullPointer
                       else if old(NewChunk(size)) == 0 then Success
                       else old(Answer(NewChunk(size), grant))
      ensures error != Success ==> unchanged(this) && unchanged(old(chunks))
      ensures error == Success && old(NewChunk(size)) == 0 ==>
                chunks == old(chunks) && outstanding == old(outstanding)
                && Added(old(blocks), blocks, head, size, address)
      ensures error == Success && old(NewChunk(size)) != 0 ==>
                && grant.At? && outstanding == old(outstanding) + {grant.base}
                && exists c: Chunk ::
                     && c.base == grant.base && fresh(c) && chunks == Joined(old(chunks), c, size > chunkSize)
                     && Added(old(blocks), blocks, c, size, address)
      ensures error == Success && old(Valid()) ==> (Valid() <==> old(Met(size)))
      ensures error == Success && old(Trusted()) ==>
                (Trusted() <==> old(NewChunk(size)) == 0 || Recordable(ChunkFor(size)))
    {
      address := 0;
      if 0 == size {
        return InvalidArgument, 0;
      }
      if !wanted {
        return NullPointer, 0;
      }
      error, address := Provide(size, grant);
    }

    method Provide(size: UWord, grant: Grant) returns (error: Error, address: nat)
      requires Usable() && size > 0 && Fresh(grant, Granted(SizeofChunk(), NewChunk(size)))
      modifies this, chunks
      ensures Usable()
      ensures error == if old(NewChunk(size)) == 0 then Success
                       else old(Answer(NewChunk(size), grant))
      ensures error != Success ==> unchanged(this) && unchanged(old(chunks))
      ensures error == Success && old(NewChunk(size)) == 0 ==>
                chunks == old(chunks) && outstanding == old(outstanding)
                && Added(old(blocks), blocks, head, size, address)
      ensures error == Success && old(NewChunk(size)) != 0 ==>
                && grant.At? && outstanding == old(outstanding) + {grant.base}
                && exists c: Chunk ::
                     && c.base == grant.base && fresh(c) && chunks == Joined(old(chunks), c, size > chunkSize)
                     && Added(old(blocks), blocks, c, size, address)
      ensures error == Success && old(Valid()) ==> (Valid() <==> old(Met(size)))
      ensures error == Success && old(Trusted()) ==>
                (Trusted() <==> old(NewChunk(size)) == 0 || Recordable(ChunkFor(size)))
    {
      if size <= chunkSize && !Exhausted(size) {
        address := Take(size);
        return Success, address;
      }
      address := 0;
      var chunk;
      error, chunk := AllocateChunk(ChunkFor(size), grant);
      if error == Success {
        address := TakeNew(chunk, size);
      }
    }

    /** The first block of a new chunk. */
    method TakeNew(chunk: Chunk, size: UWord) returns (address: nat)
      requires Usable() && 0 < size && MayJoin(chunk) && chunk.idx == 0
      requires MadeFor(chunk, ChunkFor(size))
      modifies this, chunks, chunk
      ensures Usable() && Added(old(blocks), blocks, chunk, size, address)
      ensures chunks == Joined(old(chunks), chunk, size > chunkSize) && outstanding == old(outstanding) + {chunk.base}
      ensures old(Valid()) ==> (Valid() <==> Manageable(size))
      ensures old(Trusted()) ==> (Trusted() <==> Recordable(ChunkFor(size)))
    {
      if size > chunkSize {
        address := TakeWhole(chunk, size);
      } else {
        address := TakeFirst(chunk, size);
        RemainderSmall(chunkSize, WORD);
      }
    }

    method JoinFirst(chunk: Chunk)
      requires Usable() && MayJoin(chunk)
      modifies `head, `chunks, `outstanding, chunk`next
      ensures Usable() && chunks == [chunk] + old(chunks) && head == chunk
      ensures outstanding == old(outstanding) + {chunk.base}
      ensures old(Valid()) && Placed(chunk) ==> Valid()
    {
      ghost var s := chunks;
      chunk.next := head;
      head := chunk;
      JoinsFirst(s, chunk);
      chunks := [chunk] + s;
      outstanding := outstanding + {chunk.base};
      ChainFirst(chunk, s);
    }

    lemma ChainFirst(chunk: Chunk, s: seq<Chunk>)
      requires Chain(chunk.next, s) && chunk !in s
      ensures Chain(chunk, [chunk] + s)
    {
      var s' := [chunk] + s;
      forall i, j | 0 <= i < j < |s'| && j == i + 1
        ensures s'[i].next == s'[j]
      {
        if i > 0 {
          assert s'[i] == s[i - 1] && s'[j] == s[j - 1];
        }
      }
    }

    method JoinSecond(chunk: Chunk)
      requires Usable() && MayJoin(chunk) && head != null
      modifies `chunks, `outstanding, head`next, chunk`next
      ensures Usable() && chunks == [old(chunks)[0]] + ([chunk] + old(chunks)[1..])
      ensures outstanding == old(outstanding) + {chunk.base}
      ensures old(Valid()) && Placed(chunk) ==> Valid()
    {
      ghost var s := chunks;
      LinkSecond(chunk, s);
      JoinsSecond(s, chunk);
      Members(s, chunk);
      chunks := [s[0]] + ([chunk] + s[1..]);
      outstanding := outstanding + {chunk.base};
    }

    method LinkSecond(chunk: Chunk, ghost s: seq<Chunk>)
      requires Chain(head, s) && AllApart(s) && head != null && chunk !in s && chunk.next == null
      modifies head`next, chunk`next
      ensures Chain(head, [s[0]] + ([chunk] + s[1..]))
    {
      assert |s| > 1 ==> s[0].next == s[1];
      chunk.next := head.next;
      head.next := chunk;
      ghost var s' := [s[0]] + ([chunk] + s[1..]);
      forall i, j | 0 <= i < j < |s'| && j == i + 1
        ensures s'[i].next == s'[j]
      {
        if i > 1 {
          assert s'[i] == s[i - 1] && s'[j] == s[j - 1];
        }
      }
    }

    /** The chunk that `allocateChunk` makes for a request. */
    ghost predicate MadeFor(chunk: Chunk, size: UWord)
      requires 0 < alignment < 0x1_0000
    {
      chunk.size == Recorded(size) && chunk.granted == Granted(SizeofChunk(), size)
    }

    lemma RoomMeans(chunk: Chunk, size: UWord)
      requires 0 < alignment < 0x1_0000 && MadeFor(chunk, size)
      ensures Room(chunk) <==> Recordable(size)
    {
      SizesMean(SizeofChunk(), size);
    }

    /** A request that is too large for a chunk gets one of its own, behind the head. */
    method TakeWhole(chunk: Chunk, size: UWord) returns (address: nat)
      requires Usable() && size > 0 && MayJoin(chunk) && MadeFor(chunk, size)
      modifies this, chunks, chunk
      ensures Usable() && Added(old(blocks), blocks, chunk, size, address)
      ensures chunks == Joined(old(chunks), chunk, true) && outstanding == old(outstanding) + {chunk.base}
      ensures old(Valid()) ==> (Valid() <==> SizeofChunk() + size < WORD)
      ensures old(Trusted()) ==> (Trusted() <==> Recordable(size))
    {
      chunk.idx := chunk.size;
      RoomMeans(chunk, size);
      if head != null {
        JoinSecond(chunk);
      } else {
        JoinFirst(chunk);
      }
      assert chunk in chunks;
      address := AddWhole(chunk, size);
    }

    method AddWhole(chunk: Chunk, size: UWord) returns (address: nat)
      requires Usable() && size > 0 && chunk in chunks && chunk.idx == chunk.size == Recorded(size)
      requires chunk.granted == Granted(SizeofChunk(), size) && forall n :: 0 <= n < |blocks| ==>
                                                                              blocks[n].chunk != chunk
      modifies `blocks
      ensures Usable() && Added(old(blocks), blocks, chunk, size, address)
      ensures old(Valid()) ==> (Valid() <==> SizeofChunk() + size < WORD)
    {
      ghost var b := Block(chunk, 0, size);
      ZeroMod(alignment);
      SizesMean(SizeofChunk(), size);
      blocks := blocks + [b];
      address := chunk.data;
      assert Headed(chunk) && address == Address(b);
      assert blocks[|blocks| - 1] == b;
    }

    /** A new head, with nothing in it yet. */
    method JoinEmpty(chunk: Chunk)
      requires Usable() && 0 < chunkSize && MayJoin(chunk) && MadeFor(chunk, chunkSize) && chunk.idx == 0
      modifies `head, `chunks, `outstanding, chunk`next
      ensures Usable() && chunks == [chunk] + old(chunks) && head == chunk && chunk in chunks
      ensures outstanding == old(outstanding) + {chunk.base}
      ensures old(Valid()) && chunkSize < HALF_WORD ==> Valid()
      ensures Room(chunk) <==> chunkSize < HALF_WORD
      ensures chunkSize <= chunk.size
    {
      RemainderSmall(chunkSize, WORD);
      RoomMeans(chunk, chunkSize);
      ZeroMod(alignment);
      JoinFirst(chunk);
      assert chunk == chunks[0];
    }

    /** The first block of a new head. */
    method TakeFirst(chunk: Chunk, size: UWord) returns (address: nat)
      requires Usable() && 0 < size <= chunkSize && MayJoin(chunk) && MadeFor(chunk, chunkSize) && chunk.idx == 0
      modifies this, chunk
      ensures Usable() && Added(old(blocks), blocks, chunk, size, address)
      ensures chunks == [chunk] + old(chunks) && outstanding == old(outstanding) + {chunk.base}
      ensures old(Valid()) ==> (Valid() <==> chunkSize < HALF_WORD)
      ensures old(Trusted()) ==> (Trusted() <==> chunkSize < HALF_WORD)
    {
      JoinEmpty(chunk);
      address := Take(size);
      if chunkSize >= HALF_WORD {
        NotPlaced(chunk, size);
      }
    }

    lemma NotPlaced(c: Chunk, size: UWord)
      requires 0 < alignment < 0x1_0000 && HALF_WORD <= chunkSize < WORD && size <= chunkSize && !Room(c)
      requires c.size == Recorded(chunkSize) && c.idx == (0 + Align(size, alignment)) % UWORD
      ensures !Placed(c)
    {
      RecordedLow(chunkSize);
      var idx := Align(size, alignment);
      assert idx <= chunkSize + 0x1_0000 < UWORD;
      RemainderSmall(idx, UWORD);
    }

    /** The next block of the head. */
    method Take(size: UWord) returns (address: nat)
      requires Usable() && head != null && 0 < size && head.idx <= head.size && size <= head.size - head.idx
      modifies head`idx, `blocks
      ensures Usable() && Added(old(blocks), blocks, head, size, address)
      ensures (old(Valid()) ==> Valid()) && (old(Trusted()) ==> Trusted())
      ensures head.idx == (old(head.idx) + Align(size, alignment)) % UWORD
    {
      ghost var b, before := Block(head, head.idx, size), blocks;
      address := head.data + head.idx;
      assert head in chunks && Headed(head);
      head.idx := (head.idx + Align(size, alignment)) % UWORD;
      blocks := blocks + [b];
      assert address == Address(b);
      if old(Valid()) {
        TakeKeeps(b);
      }
    }

    /** The place for the block behind it is aligned again, and still a 64-bit number. */
    lemma NextAligned(c: Chunk, at: UWord, size: UWord)
      requires 0 < alignment < 0x1_0000 && Headed(c) && Room(c) && Aligned(at) && at + size <= c.size
      ensures var idx := (at + Align(size, alignment)) % UWORD; Aligned(idx) && idx >= at + size
    {
      RemainderSmall(at + Align(size, alignment), UWORD);
      if PowerOfTwo(alignment) {
        AlignPower(size, alignment);
        SumAligned(at, Align(size, alignment), alignment);
      }
    }

    twostate lemma TakeKeeps(b: Block)
      requires old(Valid()) && Usable() && head == old(head) && chunks == old(chunks) && blocks == old(blocks) + [b]
      requires head != null && b == Block(head, old(head.idx), b.size) && 0 < b.size && b.at + b.size <= head.size
      requires head.idx == (b.at + Align(b.size, alignment)) % UWORD
      requires forall c :: c in chunks && c != head ==> c.idx == old(c.idx)
      ensures Valid()
    {
      assert head in old(chunks) && old(Placed(head)) && Headed(head);
      NextAligned(head, b.at, b.size);
      assert forall n :: 0 <= n < |old(blocks)| ==> old(Inside(blocks[n]));
      StackedMore(old(blocks), b);
    }

    /** The source allocator takes back the memory of a chunk, which must be its own.  `before` are those it has taken
        back already. */
    method Return(base: nat, before: seq<nat>) returns (returned: seq<nat>)
      requires base in outstanding
      modifies `outstanding
      ensures outstanding == old(outstanding) - {base} && returned == before + [base]
    {
      outstanding := outstanding - {base};
      returned := before + [base];
    }

    /** Takes back all blocks, and returns all chunks but the last, in their order, to the source allocator. */
    method Reset() returns (returned: seq<nat>)
      requires Usable()
      modifies this, chunks`idx
      ensures Usable() && blocks == []
      ensures returned == BaseList(AllButLast(old(chunks))) && Once(returned)
      ensures outstanding == old(outstanding) - Elements(returned) && Elements(returned) <= old(outstanding)
      ensures chunks == if old(chunks) == [] then [] else [old(chunks)[|old(chunks)| - 1]]
      ensures outstanding == Bases(chunks) && (head != null ==> head.idx == 0)
      ensures Valid() <==> head == null || head.size == 0 || Room(head)
      ensures old(Trusted()) ==> Valid() && Trusted()
    {
      ghost var s := chunks;
      returned := ReturnButLast();
      if head != null {
        assert head in s && Headed(head);
        head.idx := 0;
        ZeroMod(alignment);
        assert head in chunks;
      }
    }

    method ReturnButLast() returns (returned: seq<nat>)
      requires Linked()
      modifies this
      ensures Linked() && blocks == [] && chunks == if old(chunks) == [] then [] else [old(chunks)[|old(chunks)| - 1]]
      ensures returned == BaseList(AllButLast(old(chunks))) && Once(returned)
      ensures outstanding == old(outstanding) - Elements(returned) && Elements(returned) <= old(outstanding)
    {
      ghost var s := chunks;
      var current := head;
      head := null;
      blocks := [];
      returned := [];
      while current != null && current.next != null
        invariant Chain(current, chunks) && AllApart(chunks) && outstanding == Bases(chunks)
        invariant blocks == [] && |returned| <= |s| && chunks == s[|returned|..] && (s != [] ==> chunks != [])
        invariant returned == BaseList(s[..|returned|])
        decreases |chunks|
      {
        var next := current.next;
        DropFirst(chunks);
        Tail(current, chunks);
        OneMoreBase(s, |returned|);
        returned := Return(current.base, returned);
        chunks := chunks[1..];
        current := next;
      }
      OnlyLast(current, chunks);
      assert s != [] ==> chunks == [chunks[0]] && |returned| == |s| - 1;
      ReturnedOnce(s, |returned|);
      head := current;
    }

    lemma OnlyLast(current: Chunk?, s: seq<Chunk>)
      requires Chain(current, s) && (current == null || current.next == null)
      ensures |s| <= 1
    {
      if |s| > 1 {
        Linking(current, s);
        assert false;
      }
    }

    lemma OneMoreBase(s: seq<Chunk>, n: nat)
      requires n < |s|
      ensures BaseList(s[..n + 1]) == BaseList(s[..n]) + [s[n].base]
    {
    }

    lemma Tail(current: Chunk?, s: seq<Chunk>)
      requires Chain(current, s) && current != null
      ensures Chain(current.next, s[1..])
    {
      var s' := s[1..];
      assert |s| > 1 ==> s[0].next == s[1];
      forall i, j | 0 <= i < j < |s'| && j == i + 1
        ensures s'[i].next == s'[j]
      {
        assert s'[i] == s[i + 1] && s'[j] == s[j + 1];
      }
    }

    lemma Linking(current: Chunk?, s: seq<Chunk>)
      requires Chain(current, s) && |s| > 1
      ensures current != null && current.next != null
    {
      assert s[0].next == s[1];
    }

    /** Without its first chunk, a chain has one base less. */
    lemma DropFirst(s: seq<Chunk>)
      requires s != [] && AllApart(s)
      ensures Bases(s[1..]) == Bases(s) - {s[0].base} && s[0].base in Bases(s)
      ensures AllApart(s[1..])
    {
      assert s[0] in s;
      forall c | c in s && c != s[0]
        ensures c in s[1..] && c.base != s[0].base
      {
        var i :| 0 <= i < |s| && s[i] == c;
        assert s[1..][i - 1] == c;
      }
    }

    /** The destructor returns every chunk, each once. */
    method Destroy() returns (returned: seq<nat>)
      requires Usable()
      modifies this
      ensures head == null && outstanding == {}
      ensures returned == BaseList(old(chunks)) && Once(returned) && Elements(returned) == old(outstanding)
    {
      ghost var s := chunks;
      var current := head;
      returned := [];
      while current != null
        invariant Chain(current, chunks) && AllApart(chunks) && outstanding == Bases(chunks)
        invariant |returned| <= |s| && chunks == s[|returned|..] && returned == BaseList(s[..|returned|])
        decreases |chunks|
      {
        var next := current.next;
        DropFirst(chunks);
        Tail(current, chunks);
        OneMoreBase(s, |returned|);
        returned := Return(current.base, returned);
        chunks := chunks[1..];
        current := next;
      }
      assert |returned| == |s| && s[..|s|] == s;
      AllReturned(s);
      head := null;
    }
  }
}
