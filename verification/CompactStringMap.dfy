/** A map from short strings to pointers, in one growable buffer of bytes. */
module CompactStringMaps {
  import opened Errors
  import opened PointerBytes
  import opened CompactRecords

  const WORD := 0x1_0000_0000
  const NULL := 0

  function Max(a: int, b: int): int
  {
    if a < b then b else a
  }

  /** The size of a larger buffer.  The capacity and the sizes of key and buffer are 32-bit words, the size of a pointer
      is a 64-bit one. */
  function Request(capacity: nat, keySize: nat, freeSpace: nat): nat
  {
    Max(capacity * 2 % WORD, ((capacity + keySize) % WORD + POINTER_SIZE + 2 - freeSpace) % ADDRESSES) % WORD
  }

  /** It has room for what is there and for the record exactly if these have an offset in 32 bits. */
  lemma RequestSuffices(capacity: nat, keySize: nat, p: nat)
    requires p <= capacity < WORD && keySize <= 255 && capacity - p <= keySize + POINTER_SIZE + 2
    ensures var needed := p + keySize + POINTER_SIZE + 2;
            && capacity <= needed && (needed <= Request(capacity, keySize, capacity - p) <==> needed < WORD)
  {
    var needed := p + keySize + POINTER_SIZE + 2;
    var a := capacity * 2 % WORD;
    if capacity + keySize < WORD {
      LowWord(needed);
    } else {
      LowWord(needed - WORD);
      assert (capacity + keySize) % WORD == capacity + keySize - WORD;
    }
  }

  /** As long as nothing wraps around, this is twice the capacity, or what the record needs if that is more. */
  lemma RequestDoubles(capacity: nat, keySize: nat, p: nat)
    requires p <= capacity && 2 * capacity < WORD && p + keySize + POINTER_SIZE + 2 < WORD
    requires capacity - p <= keySize + POINTER_SIZE + 2 && keySize <= 255
    ensures Request(capacity, keySize, capacity - p) == if 2 * capacity < p + keySize + POINTER_SIZE + 2
                                                        then p + keySize + POINTER_SIZE + 2 else 2 * capacity
  {
    LowWord(capacity * 2);
    LowWord(p + keySize + POINTER_SIZE + 2);
  }

  /** A record with a key of one byte that would end at the offset 2^32: the larger buffer would be smaller than the old
      one. */
  lemma RequestTooSmall()
    ensures Request(WORD - 1, 1, 10) == WORD - 2
  {
    LowWord(0);
    LowWord(WORD - 2);
  }

  lemma LowWord(x: int)
    requires -WORD <= x < 2 * WORD
    ensures x % ADDRESSES == if x < 0 then x + ADDRESSES else x
    ensures (x % ADDRESSES) % WORD == if x < 0 then x + WORD else if x < WORD then x else x - WORD
  {
    if x < 0 {
      assert x + ADDRESSES == 0xFFFF_FFFF * WORD + (x + WORD);
    }
  }

  /** Writes a record, and the terminator behind it. */
  method WriteRecord(buffer: array<Byte>, p: nat, key: Key, value: nat)
    requires GoodKey(key) && value < ADDRESSES && p + |key| + POINTER_SIZE + 2 <= buffer.Length
    modifies buffer
    ensures buffer[..] == WithRecord(old(buffer[..]), p, Entry(key, value))
  {
    ghost var b := buffer[..];
    WriteHead(buffer, p, key);
    RecordWritten(b, p, Entry(key, value));
    var q := p + 1 + |key|;
    WritePointer(buffer, q, value);
    WriteZero(buffer, q + POINTER_SIZE);
  }

  method WriteZero(buffer: array<Byte>, p: nat)
    requires p < buffer.Length
    modifies buffer
    ensures buffer[..] == old(buffer[..])[p := 0]
  {
    buffer[p] := 0;
  }

  method WriteHead(buffer: array<Byte>, p: nat, key: Key)
    requires GoodKey(key) && p + |key| + 1 <= buffer.Length
    modifies buffer
    ensures buffer[..] == WithHead(old(buffer[..]), p, key)
  {
    ghost var b := buffer[..];
    buffer[p] := |key|;
    forall k | 0 <= k < |key| {
      buffer[p + 1 + k] := key[k];
    }
    InThree(buffer[..], b, p, Head(key));
  }

  class CompactStringMap {
    var buffer: array?<Byte>
    var capacity: nat
    ghost var entries: seq<Entry>

    ghost predicate Valid()
      reads this, buffer
    {
      && 0 < capacity < WORD
      && (buffer == null ==> entries == [])
      && (buffer != null ==> buffer.Length == capacity && Holds(buffer[..], entries))
    }

    ghost function Contents(): map<Key, nat>
      reads this
    {
      AsMap(entries)
    }

    constructor (initialCapacity: nat)
      requires 0 < initialCapacity < WORD
      ensures Valid() && entries == [] && buffer == null
    {
      buffer, capacity, entries := null, initialCapacity, [];
    }

    /** The loop that every operation starts with: walks from record to record until it finds the key or the end. */
    method Seek(key: Key) returns (p: nat, found: bool, ghost i: nat)
      requires Valid() && buffer != null
      ensures i <= |entries| && p == Offset(entries, i) && p < buffer.Length
      ensures found ==> i < |entries| && entries[i].key == key
      ensures !found ==> i == |entries| && buffer[p] == 0
      ensures forall j :: 0 <= j < i ==> entries[j].key != key
    {
      ghost var b := buffer[..];
      p, i := 0, 0;
      while true
        invariant 0 <= i <= |entries| && p == Offset(entries, i)
        invariant forall j :: 0 <= j < i ==> entries[j].key != key
        decreases |entries| - i
      {
        EndAt(b, entries);
        if i < |entries| {
          KeyAt(b, entries, i, key);
        }
        if buffer[p] == 0 {
          return p, false, i;
        }
        var size: nat := buffer[p] as int;
        assert buffer[p + 1..p + 1 + size] == b[p + 1..p + 1 + size];
        if size == |key| && buffer[p + 1..p + 1 + size] == key {
          return p, true, i;
        }
        p := p + 1 + size + POINTER_SIZE;
        i := i + 1;
      }
    }

    /** The pointer for a key, or `NULL`. */
    method Find(key: Key) returns (value: nat)
      requires Valid()
      ensures value == if key in Contents() then Contents()[key] else NULL
    {
      NotInMap(entries, key);
      if buffer == null {
        return NULL;
      }
      var p, found;
      ghost var i;
      p, found, i := Seek(key);
      if !found {
        return NULL;
      }
      value := PointerOf(p, |key|, i);
      MapAt(entries, i);
    }

    method PointerOf(p: nat, size: nat, ghost i: nat) returns (value: nat)
      requires Valid() && buffer != null && i < |entries| && p == Offset(entries, i) && size == |entries[i].key|
      ensures value == entries[i].value
    {
      RecordAt(buffer[..], entries, i);
      var q := p + 1 + size;
      value := ReadPointer(buffer[q..q + POINTER_SIZE]);
      assert buffer[q..q + POINTER_SIZE] == buffer[..][q..q + POINTER_SIZE];
      ReadAfterWrite(entries[i].value);
    }

    /** Overwrites the pointer of the i-th record. */
    method SetPointer(p: nat, size: nat, value: nat, ghost i: nat)
      requires Valid() && buffer != null && i < |entries| && p == Offset(entries, i) && size == |entries[i].key|
      requires value < ADDRESSES
      modifies buffer, `entries
      ensures Valid() && entries == Replaced(old(entries), i, value)
      ensures Contents() == old(Contents())[old(entries)[i].key := value]
    {
      ghost var b, es := buffer[..], entries;
      Overwritten(b, es, i, value);
      ReplacedMap(es, i, value);
      entries := Replaced(es, i, value);
      WritePointer(buffer, p + 1 + size, value);
    }

    /** The pairs in their order, with another value for one key. */
    ghost function Updated(key: Key, value: nat): seq<Entry>
      reads this
    {
      if Index(entries, key) < |entries| then Replaced(entries, Index(entries, key), value) else entries
    }

    /** The pairs in their order, without the one with the key. */
    ghost function Without(key: Key): seq<Entry>
      reads this
    {
      if Index(entries, key) < |entries| then Dropped(entries, Index(entries, key)) else entries
    }

    method Update(key: Key, value: nat) returns (error: Error, was: nat)
      requires Valid() && value < ADDRESSES
      modifies `entries, buffer
      ensures Valid()
      ensures error == if |key| < 1 then Underflow
                       else if |key| > 255 then Overflow
                       else if key in old(Contents()) then Success
                       else CannotFind
      ensures error == Success ==> was == old(Contents())[key] && Contents() == old(Contents())[key := value]
      ensures entries == if error == Success then old(Updated(key, value)) else old(entries)
    {
      was := NULL;
      NotInMap(entries, key);
      if |key| < 1 {
        return Underflow, NULL;
      }
      if |key| > 255 {
        return Overflow, NULL;
      }
      if buffer == null {
        return CannotFind, NULL;
      }
      var p, found;
      ghost var i;
      p, found, i := Seek(key);
      FirstWithKey(entries, key, i);
      if !found {
        return CannotFind, NULL;
      }
      MapAt(entries, i);
      was := PointerOf(p, |key|, i);
      SetPointer(p, |key|, value, i);
      error := Success;
    }

    /** Removes a pair by moving what is behind it. */
    method Remove(key: Key) returns (error: Error)
      requires Valid()
      modifies `entries, buffer
      ensures Valid() && error == if key in old(Contents()) then Success else CannotFind
      ensures Contents() == old(Contents()) - {key}
      ensures entries == if error == Success then old(Without(key)) else old(entries)
    {
      NotInMap(entries, key);
      if buffer == null {
        return CannotFind;
      }
      var p, found;
      ghost var i;
      p, found, i := Seek(key);
      FirstWithKey(entries, key, i);
      if !found {
        return CannotFind;
      }
      MapAt(entries, i);
      DroppedMap(entries, i);
      Promote(p, |key|, i);
      error := Success;
    }

    /** `memmove` over the i-th record. */
    method Promote(p: nat, keySize: nat, ghost i: nat)
      requires Valid() && buffer != null && i < |entries| && p == Offset(entries, i) && keySize == |entries[i].key|
      modifies `entries, buffer
      ensures Valid() && entries == Dropped(old(entries), i)
    {
      ghost var b := buffer[..];
      RecordAt(b, entries, i);
      var nextKey := p + keySize + POINTER_SIZE + 1;
      ghost var es := Dropped(entries, i);
      MovedDown(b, entries, i);
      assert Holds(MovedTo(b, p, nextKey), es);
      entries := es;
      MoveDown(buffer, p, nextKey);
    }

    /** Whether a new key needs a first buffer, or a larger one: the room must exceed what the record takes. */
    ghost predicate NeedsMemory(key: Key)
      requires Valid()
      reads this, buffer
    {
      buffer == null || capacity - Offset(entries, |entries|) <= |key| + POINTER_SIZE + 2
    }

    /** `granted` says whether the system has memory for a larger buffer, or for a first one. */
    method Insert(key: Key, value: nat, updateIfExists: bool, granted: bool) returns (error: Error)
      requires Valid() && value < ADDRESSES
      requires 1 <= |key| <= 255 && key !in Contents() ==> Offset(entries, |entries|) + |key| + POINTER_SIZE + 2 < WORD
      modifies this, buffer
      ensures Valid()
      ensures error == if |key| < 1 then Underflow
                       else if |key| > 255 then Overflow
                       else if key in old(Contents()) then if updateIfExists then Success else UniquenessViolation
                       else if old(NeedsMemory(key)) && !granted then OutOfMemory
                       else Success
      ensures error == Success ==> Contents() == old(Contents())[key := value]
      ensures error == Success ==>
                entries == if key in old(Contents())
                then old(Updated(key, value)) else old(entries) + [Entry(key, value)]
      ensures error != Success ==> entries == old(entries)
    {
      NotInMap(entries, key);
      if |key| < 1 {
        return Underflow;
      }
      if |key| > 255 {
        return Overflow;
      }
      if buffer == null {
        if !granted {
          return OutOfMemory;
        }
        Allocate();
      }
      var p, found;
      ghost var i;
      p, found, i := Seek(key);
      FirstWithKey(entries, key, i);
      if found {
        MapAt(entries, i);
        if !updateIfExists {
          return UniquenessViolation;
        }
        SetPointer(p, |key|, value, i);
        return Success;
      }
      error := Grow(p, |key|, granted);
      if error == Success {
        Append(p, key, value);
      }
    }

    method Allocate()
      requires Valid() && buffer == null
      modifies this
      ensures Valid() && fresh(buffer) && entries == old(entries) && capacity == old(capacity)
    {
      buffer := new Byte[capacity];
      buffer[0] := 0;
      assert buffer[..1] == [0];
    }

    /** Makes sure that there is room for one more record at `p`. */
    method Grow(p: nat, keySize: nat, granted: bool) returns (error: Error)
      requires Valid() && buffer != null && p == Offset(entries, |entries|) && 1 <= keySize <= 255
      requires p + keySize + POINTER_SIZE + 2 < WORD
      modifies this
      ensures Valid() && buffer != null && entries == old(entries)
      ensures buffer == old(buffer) || fresh(buffer)
      ensures error == if old(capacity) - p <= keySize + POINTER_SIZE + 2 && !granted then OutOfMemory else Success
      ensures error == Success ==> p + keySize + POINTER_SIZE + 2 <= capacity
    {
      EndAt(buffer[..], entries);
      var freeSpace := capacity - p;
      if freeSpace <= keySize + POINTER_SIZE + 2 {
        var requestSize := Request(capacity, keySize, freeSpace);
        if !granted {
          return OutOfMemory;
        }
        RequestSuffices(capacity, keySize, p);
        ghost var b := buffer[..];
        var larger := new Byte[requestSize];
        forall k | 0 <= k < capacity {
          larger[k] := buffer[k];
        }
        assert larger[..][..capacity] == b;
        buffer, capacity := larger, requestSize;
      }
      error := Success;
    }

    /** Adds a record at the end. */
    method Append(p: nat, key: Key, value: nat)
      requires Valid() && buffer != null && p == Offset(entries, |entries|) && GoodKey(key) && value < ADDRESSES
      requires p + |key| + POINTER_SIZE + 2 <= capacity && forall j :: 0 <= j < |entries| ==> entries[j].key != key
      modifies buffer, `entries
      ensures Valid() && entries == old(entries) + [Entry(key, value)]
      ensures Contents() == old(Contents())[key := value]
    {
      ghost var b, es, e := buffer[..], entries, Entry(key, value);
      AppendMap(es, e);
      Appended(b, es, e);
      entries := es + [e];
      WriteRecord(buffer, p, key, value);
    }

    method Clear()
      requires Valid()
      modifies `entries, buffer
      ensures Valid() && entries == []
    {
      entries := [];
      if buffer != null {
        buffer[0] := 0;
        assert buffer[..1] == [0];
      }
    }

    // ---------- iteration ----------

    /** A marker is the offset of a record, or of the end. */
    ghost predicate Marks(marker: nat, i: nat)
      requires Valid()
      reads this, buffer
    {
      i <= |entries| && (buffer == null || marker == Offset(entries, i))
    }

    method HasNext(marker: nat, ghost i: nat) returns (more: bool)
      requires Valid() && Marks(marker, i)
      ensures more <==> i < |entries|
    {
      if buffer == null {
        return false;
      }
      EndAt(buffer[..], entries);
      if i < |entries| {
        RecordAt(buffer[..], entries, i);
      }
      more := buffer[marker] != 0;
    }

    /** The pair at a marker, and the marker of the next. */
    method Next(marker: nat, ghost i: nat) returns (error: Error, key: Key, value: nat, marker': nat)
      requires Valid() && Marks(marker, i)
      ensures error == if i < |entries| then Success else CannotFind
      ensures error == Success ==> Entry(key, value) == entries[i] && Marks(marker', i + 1)
    {
      var more := HasNext(marker, i);
      if !more {
        return CannotFind, [], NULL, marker;
      }
      RecordAt(buffer[..], entries, i);
      var size: nat := buffer[marker] as int;
      key := buffer[marker + 1..marker + 1 + size];
      assert key == buffer[..][marker + 1..marker + 1 + size];
      value := PointerOf(marker, size, i);
      marker' := marker + 1 + size + POINTER_SIZE;
      error := Success;
    }

    /** Going from the first marker to the last visits every pair once, in the order in which the keys were inserted. */
    method Visit() returns (visited: seq<Entry>)
      requires Valid()
      ensures visited == entries
    {
      visited := [];
      var marker := 0;
      while true
        invariant |visited| <= |entries| && visited == entries[..|visited|] && Marks(marker, |visited|)
        decreases |entries| - |visited|
      {
        var error, key, value, next := Next(marker, |visited|);
        if error != Success {
          return;
        }
        visited, marker := visited + [Entry(key, value)], next;
      }
    }
  }
}
