/**
 * The replay cache: a ring of timestamped strings kept in one flat character buffer, with expired
 * entries blanked lazily while searching. It answers like a plain log of what was added.
 */
module NonceCache {
  import opened Common

  datatype Entry = Entry(nonce: cstring, time: int)

  /** One ring slot: where its row starts in the buffer, and when it was written. */
  datatype Slot = Slot(nonce: nat, timestamp: int)

  /** What strncmp(row, s, size) == 0 means for a terminated row of `size` characters. */
  predicate SameText(row: seq<char>, s: cstring, size: nat) {
    Text(row) == s || (|Text(row)| >= size && |s| >= size && Text(row)[..size] == s[..size])
  }

  /** What strncpy followed by the explicit terminator leaves in a row. */
  function Padded(s: cstring, size: nat): (row: seq<char>)
    requires size > 0
    ensures |row| == size
  {
    seq(size, k requires 0 <= k < size => if k < |s| && k < size - 1 then s[k] else NUL)
  }

  lemma TextOfPadded(s: cstring, size: nat)
    requires size > 0
    ensures Text(Padded(s, size)) == Clip(s, size) && |Clip(s, size)| < size
  {
    var t := Clip(s, size);
    assert NUL !in t;
    assert Padded(s, size)[..|t|] == t;
    TextOfTerminated(Padded(s, size), t);
  }

  /** Rows of `size` characters lie one after the other below `limit`. */
  ghost predicate LaidOut(es: seq<Slot>, size: nat, limit: nat) {
    && (forall i :: 0 <= i < |es| ==> es[i].nonce + size <= limit)
    && (forall i, j :: 0 <= i < j < |es| ==> es[i].nonce + size <= es[j].nonce)
  }

  /** Points each slot at its own row of the buffer. */
  method LayOut(entries: array<Slot>, size: nat)
    modifies entries
    ensures LaidOut(entries[..], size, entries.Length * size)
  {
    var i, at := 0, 0;
    while i < entries.Length
      invariant 0 <= i <= entries.Length && at == i * size
      invariant LaidOut(entries[..i], size, at)
    {
      entries[i] := Slot(at, 0);
      assert entries[..i + 1] == entries[..i] + [Slot(at, 0)];
      at := at + size;
      assert at == (i + 1) * size;
      i := i + 1;
    }
    assert entries[..] == entries[..i];
  }

  /** A zeroed buffer of `rows` rows, and the slots pointing into it. */
  method Allocate(rows: nat, size: nat) returns (entries: array<Slot>, storage: array<char>)
    ensures fresh(entries) && fresh(storage) && entries.Length == rows && storage.Length == rows * size
    ensures LaidOut(entries[..], size, storage.Length)
    ensures forall k :: 0 <= k < storage.Length ==> storage[k] == NUL
  {
    assert rows * size >= 0;
    entries := new Slot[rows](i => Slot(0, 0));
    storage := new char[rows * size](i => NUL);
    LayOut(entries, size);
  }

  /** The answer a log of additions gives: one of the last `capacity` of them has this text and is young enough. */
  ghost predicate Seen(log: seq<Entry>, capacity: nat, size: nat, ttl: int, n: cstring, now: int)
    requires size > 0
  {
    && n != ""
    && exists j :: 0 <= j < |log| && |log| - capacity <= j && Clip(log[j].nonce, size) == n && now - log[j].time <= ttl
  }

  /** A slot last written `age` additions ago agrees with the log, or has been blanked after expiring. */
  ghost predicate Consistent(log: seq<Entry>, age: nat, clock: Option<int>, ttl: int, row: seq<char>, stamp: int)
    requires |row| > 1 && age > 0
  {
    if age > |log| then row[0] == NUL
    else
      var e := log[|log| - age];
      || (Text(row) == Clip(e.nonce, |row|) && stamp == e.time)
      || (row[0] == NUL && clock.Some? && clock.value - e.time > ttl)
  }

  lemma OlderStaysConsistent(log: seq<Entry>, e: Entry, age: nat, clock: Option<int>, ttl: int, row: seq<char>,
                             stamp: int)
    requires |row| > 1 && age > 0 && Consistent(log, age, clock, ttl, row, stamp)
    ensures Consistent(log + [e], age + 1, clock, ttl, row, stamp)
  {
  }

  lemma YoungestIsConsistent(log: seq<Entry>, n: cstring, now: int, clock: Option<int>, ttl: int, row: seq<char>)
    requires |row| > 1 && Text(row) == Clip(n, |row|)
    ensures Consistent(log + [Entry(n, now)], 1, clock, ttl, row, now)
  {
  }

  lemma LaterStaysConsistent(log: seq<Entry>, age: nat, clock: Option<int>, now: int, ttl: int, row: seq<char>,
                             stamp: int)
    requires |row| > 1 && age > 0 && Consistent(log, age, clock, ttl, row, stamp)
    ensures Consistent(log, age, Some(Later(clock, now)), ttl, row, stamp)
  {
  }

  method Overwrite(a: array<char>, at: nat, row: seq<char>)
    requires at + |row| <= a.Length
    modifies a
    ensures a[at..at + |row|] == row
    ensures forall k :: 0 <= k < a.Length && !(at <= k < at + |row|) ==> a[k] == old(a[k])
  {
    forall k | 0 <= k < |row| { a[at + k] := row[k]; }
  }

  class NonceCache {
    var entries: array<Slot>
    var storage: array<char>
    var capacity: nat
    var size: nat
    var ttl: int
    var nextIndex: nat
    /** Every addition since initialisation or clearing. */
    ghost var log: seq<Entry>
    /** The latest time a check was made at. */
    ghost var clock: Option<int>

    /** The rows lie in the buffer one after the other. */
    ghost predicate Shape()
      reads this, entries
    {
      && capacity > 0 && size > 1 && nextIndex < capacity
      && entries.Length == capacity && storage as object != entries
      && storage.Length == capacity * size && LaidOut(entries[..], size, storage.Length)
    }

    ghost function Row(i: nat): (r: seq<char>)
      reads this, entries, storage
      requires Shape() && i < capacity
      ensures |Row(i)| == size
    {
      storage[entries[i].nonce..entries[i].nonce + size]
    }

    /** How many additions ago slot `i` was last written, were the log long enough. */
    ghost function Age(i: nat): (r: nat)
      reads this
      requires i < capacity
    {
      if i < nextIndex then nextIndex - i else nextIndex + capacity - i
    }

    ghost predicate SlotOk(i: nat)
      reads this, entries, storage
      requires Shape() && i < capacity
    {
      Consistent(log, Age(i), clock, ttl, Row(i), entries[i].timestamp)
    }

    ghost predicate Valid()
      reads this, entries, storage
    {
      Shape() && forall i: nat :: i < capacity ==> SlotOk(i)
    }

    /** A cache with the defaults for the settings that are out of range. */
    constructor (capacity: nat, size: nat, ttl: int)
      ensures Valid() && fresh(storage) && fresh(entries) && log == [] && clock == None
      ensures this.capacity == (if capacity > 0 then capacity else 128)
      ensures this.size == (if size > 1 then size else 32)
      ensures this.ttl == (if ttl >= 0 then ttl else 60)
    {
      var c := if capacity > 0 then capacity else 128;
      var s := if size > 1 then size else 32;
      this.capacity, this.size, this.ttl, nextIndex := c, s, if ttl >= 0 then ttl else 60, 0;
      log, clock := [], None;
      var es, buffer := Allocate(c, s);
      entries, storage := es, buffer;
    }

    /** Blanks everything; the row pointers are written anew. */
    method Clear()
      requires Valid()
      modifies this`nextIndex, this`log, this`clock, storage, entries
      ensures Valid() && log == [] && clock == None
    {
      forall k | 0 <= k < storage.Length { storage[k] := NUL; }
      LayOut(entries, size);
      nextIndex, log, clock := 0, [], None;
    }

    /** Overwrites a row, or its first characters; the other rows keep their text. */
    method WriteRow(i: nat, row: seq<char>)
      requires Shape() && i < capacity && 0 < |row| <= size
      modifies storage
      ensures Row(i) == row + old(Row(i))[|row|..]
      ensures forall s: nat :: s < capacity && s != i ==> Row(s) == old(Row(s))
    {
      var base := entries[i].nonce;
      assert base + size <= storage.Length by { assert entries[..][i] == entries[i]; }
      forall s: nat | s < capacity && s != i
        ensures entries[s].nonce + size <= storage.Length
        ensures entries[s].nonce + size <= base || base + size <= entries[s].nonce
      {
        assert entries[..][s] == entries[s] && entries[..][i] == entries[i];
      }
      Overwrite(storage, base, row);
    }

    method Stamp(i: nat, t: int)
      requires Shape() && i < capacity
      modifies entries
      ensures Shape() && entries[i].timestamp == t
      ensures forall s: nat :: s < capacity ==> Row(s) == old(Row(s))
      ensures forall s: nat :: s < capacity && s != i ==> entries[s].timestamp == old(entries[s].timestamp)
    {
      ghost var before := entries[..];
      entries[i] := entries[i].(timestamp := t);
      assert entries[..] == before[i := before[i].(timestamp := t)];
    }

    method Put(i: nat, row: seq<char>, t: int)
      requires Shape() && i < capacity && 0 < |row| <= size
      modifies storage, entries
      ensures Shape() && Row(i) == row + old(Row(i))[|row|..] && entries[i].timestamp == t
      ensures forall s: nat :: s < capacity && s != i ==>
                Row(s) == old(Row(s)) && entries[s].timestamp == old(entries[s].timestamp)
    {
      WriteRow(i, row);
      Stamp(i, t);
    }

    /**
     * Searches the slots in order, blanking expired ones on the way. The answer is the log's answer
     * whenever check times do not go backwards, and a positive answer is right even when they do.
     */
    method Check(n: cstring, now: int) returns (found: bool)
      requires Valid()
      modifies this`clock, storage, entries
      ensures Valid() && clock == Some(Later(old(clock), now))
      ensures found ==> Seen(log, capacity, size, ttl, n, now)
      ensures old(clock).None? || old(clock).value <= now ==> (found <==> Seen(log, capacity, size, ttl, n, now))
    {
      hide Consistent;
      clock := Some(Later(clock, now));
      forall s: nat | s < capacity ensures SlotOk(s) {
        assert old(SlotOk(s));
        LaterStaysConsistent(log, Age(s), old(clock), now, ttl, Row(s), entries[s].timestamp);
      }
      var i := 0;
      while i < capacity
        invariant 0 <= i <= capacity && Valid() && clock == Some(Later(old(clock), now))
        invariant forall s: nat :: s < i ==> Row(s)[0] == NUL || Text(Row(s)) != n
      {
        found := Probe(i, n, now);
        if found {
          return;
        }
        i := i + 1;
      }
      if clock == Some(now) {
        MissingIsUnseen(n, now);
      }
      return false;
    }

    /** One step of the search: skip a blank slot, blank an expired one, or compare. */
    method Probe(i: nat, n: cstring, now: int) returns (found: bool)
      requires Valid() && i < capacity && clock.Some? && clock.value >= now
      modifies storage, entries
      ensures Valid()
      ensures found ==> Seen(log, capacity, size, ttl, n, now)
      ensures !found ==> Row(i)[0] == NUL || Text(Row(i)) != n
      ensures forall s: nat :: s < capacity && s != i ==> Row(s) == old(Row(s))
    {
      assert SlotOk(i);
      var base := entries[i].nonce;
      if storage[base] == NUL {
        return false;
      }
      if now - entries[i].timestamp > ttl {
        Put(i, [NUL], 0);
        forall s: nat | s < capacity ensures SlotOk(s) {
          assert s != i ==> old(SlotOk(s)) && Row(s) == old(Row(s));
        }
        return false;
      }
      found := SameText(storage[base..base + size], n, size);
      if found {
        FoundIsSeen(i, n, now);
      }
    }

    lemma FoundIsSeen(i: nat, n: cstring, now: int)
      requires Valid() && i < capacity && Row(i)[0] != NUL && SameText(Row(i), n, size)
                 && now - entries[i].timestamp <= ttl
      ensures Seen(log, capacity, size, ttl, n, now)
    {
      assert SlotOk(i);
      assert Text(Row(i)) == n && n[0] == Row(i)[0];
      var j := |log| - Age(i);
      assert Clip(log[j].nonce, size) == n;
    }

    lemma MissingIsUnseen(n: cstring, now: int)
      requires Valid() && clock == Some(now)
      requires forall s: nat :: s < capacity ==> Row(s)[0] == NUL || Text(Row(s)) != n
      ensures !Seen(log, capacity, size, ttl, n, now)
    {
      forall j | 0 <= j < |log| && |log| - capacity <= j && n != "" && Clip(log[j].nonce, size) == n
        ensures now - log[j].time > ttl
      {
        var d := |log| - j;
        var i := if d <= nextIndex then nextIndex - d else nextIndex + capacity - d;
        assert Age(i) == d && SlotOk(i);
      }
    }

    /** Overwrites the oldest slot. */
    method Add(n: cstring, now: int)
      requires Valid()
      modifies this`nextIndex, this`log, storage, entries
      ensures Valid() && log == old(log) + [Entry(n, now)]
    {
      var i := nextIndex;
      TextOfPadded(n, size);
      Put(i, Padded(n, size), now);
      assert Row(i) == Padded(n, size);
      forall s: nat | s < capacity && s != i ensures SlotOk(s) {
        assert old(SlotOk(s));
      }
      Advance(n, now);
    }

    /** The slot just written becomes the youngest; every other slot is one addition older. */
    method Advance(n: cstring, now: int)
      requires Shape() && Row(nextIndex) == Padded(n, size) && entries[nextIndex].timestamp == now
      requires Text(Padded(n, size)) == Clip(n, size)
      requires forall s: nat :: s < capacity && s != nextIndex ==> SlotOk(s)
      modifies this`nextIndex, this`log
      ensures Valid() && log == old(log) + [Entry(n, now)]
    {
      hide Consistent, Padded, Clip, Text;
      var i := nextIndex;
      var next := Successor(nextIndex, capacity);
      nextIndex := next;
      log := log + [Entry(n, now)];
      assert Row(i) == old(Row(i)) && Age(i) == 1;
      YoungestIsConsistent(old(log), n, now, clock, ttl, Row(i));
      forall s: nat | s < capacity && s != i ensures SlotOk(s) {
        assert old(SlotOk(s)) && Age(s) == old(Age(s)) + 1 && Row(s) == old(Row(s));
        OlderStaysConsistent(old(log), Entry(n, now), old(Age(s)), clock, ttl, Row(s), entries[s].timestamp);
      }
    }
  }

  method Successor(i: nat, n: nat) returns (r: nat)
    requires i < n
    ensures r == if i + 1 == n then 0 else i + 1
  {
    r := (i + 1) % n;
  }

  function Later(clock: Option<int>, now: int): (r: int) {
    if clock.Some? && clock.value > now then clock.value else now
  }
}
