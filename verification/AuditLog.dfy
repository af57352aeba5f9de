/** The audit log of kernel/src/audit.rs: a rotating ring buffer over an array. */
module AuditLog {
  import opened Bytes
  import opened Arithmetic

  datatype Record = Record(eventType: U64, timestamp: nat, serial: nat, fields: seq<(string, string)>)

  const LOG_CAPACITY: nat := 4096
  const ROTATE_THRESHOLD: nat := 3584

  /** The last `n` elements. */
  function Last<T>(s: seq<T>, n: nat): (r: seq<T>)
    requires n <= |s|
    ensures |r| == n
  {
    s[|s| - n..]
  }

  /** The slot `i` places after `start` in a ring. */
  function Slot(start: nat, i: nat, capacity: nat): nat
    requires start < capacity && i <= capacity
  {
    if start + i < capacity then start + i else start + i - capacity
  }

  lemma SlotIsModulo(start: nat, i: nat, capacity: nat)
    requires start < capacity && i <= capacity
    ensures (start + i) % capacity == Slot(start, i, capacity) < capacity
  {
    RemainderUnique(start + i, capacity, if start + i < capacity then 0 else 1, Slot(start, i, capacity));
  }

  // ---- How many records a buffer keeps ------------------------------------

  /** The number of live records and of rotations. */
  datatype Tally = Tally(count: nat, rotations: nat)

  /** One write: a full buffer loses its oldest record, and reaching the
      threshold discards a quarter. */
  function AfterWrite(capacity: nat, t: Tally): (r: Tally)
    requires capacity > 0 && t.count <= capacity
    ensures 0 < r.count <= capacity && r.count <= t.count + 1
  {
    var filled := if t.count >= capacity then capacity else t.count + 1;
    if filled >= ROTATE_THRESHOLD then Tally(filled - filled / 4, t.rotations + 1) else Tally(filled, t.rotations)
  }

  /** The tally of a new buffer after `n` writes. */
  function AfterWrites(capacity: nat, n: nat): (r: Tally)
    requires capacity > 0
    ensures r.count <= capacity && r.count <= n
  {
    if n == 0 then Tally(0, 0) else AfterWrite(capacity, AfterWrites(capacity, n - 1))
  }

  /** The closed form. A buffer that reaches the threshold rotates first at 3584
      writes and then after every 896; a smaller one never rotates. */
  lemma {:induction false} TallyClosedForm(capacity: nat, n: nat)
    requires capacity > 0
    ensures var t := AfterWrites(capacity, n);
            if capacity >= ROTATE_THRESHOLD then
              && t.rotations == (if n < 3584 then 0 else (n - 3584) / 896 + 1)
              && t.count == n - 896 * t.rotations
            else
              t.rotations == 0 && t.count == Min(n, capacity)
  {
    if n > 0 {
      TallyClosedForm(capacity, n - 1);
    }
  }

  /** The buffer never holds the threshold's number of records between calls, so
      at capacity 4096 the overwriting branch is dead. */
  lemma {:induction false} NeverFull(n: nat)
    ensures AfterWrites(LOG_CAPACITY, n).count < ROTATE_THRESHOLD < LOG_CAPACITY
  {
    TallyClosedForm(LOG_CAPACITY, n);
  }

  // ---- The buffer ---------------------------------------------------------

  class AuditLogBuffer {
    const entries: array<Record>
    const capacity: nat
    var head: nat
    var tail: nat
    var count: nat
    var totalWritten: nat
    var rotations: nat
    /** Everything ever written. */
    ghost var history: seq<Record>

    ghost predicate Valid()
      reads this, entries
    {
      && entries.Length == capacity > 0
      && head < capacity && count <= capacity
      && tail == Slot(head, count, capacity)
      && count <= |history| == totalWritten
      && Tally(count, rotations) == AfterWrites(capacity, totalWritten)
      && Holds()
    }

    /** The live slots hold the most recent records, oldest first. */
    ghost predicate Holds()
      reads this, entries
      requires entries.Length == capacity && head < capacity && count <= capacity && count <= |history|
    {
      forall i :: 0 <= i < count ==> entries[Slot(head, i, capacity)] == history[|history| - count + i]
    }

    constructor (size: nat)
      requires size > 0
      ensures Valid() && fresh(entries) && capacity == size && history == []
    {
      entries := new Record[size](_ => Record(2000, 0, 0, []));
      capacity := size;
      head, tail, count, totalWritten, rotations, history := 0, 0, 0, 0, 0, [];
    }

    method Write(record: Record)
      requires Valid()
      modifies this, entries
      ensures Valid()
      ensures history == old(history) + [record]
    {
      if count >= capacity {
        Discard(1);
      }
      Append(record);
      if count >= ROTATE_THRESHOLD {
        Rotate();
      }
    }

    /** Stores a record in the free slot at the tail. */
    method Append(record: Record)
      requires entries.Length == capacity && head < capacity && count < capacity && count <= |history| == totalWritten
      requires tail == Slot(head, count, capacity) && Holds()
      modifies this`tail, this`count, this`totalWritten, this`history, entries
      ensures history == old(history) + [record]
      ensures count == old(count) + 1 <= |history| == totalWritten
      ensures tail == Slot(head, count, capacity) && Holds()
    {
      entries[tail] := record;
      SlotIsModulo(tail, 1, capacity);
      tail := (tail + 1) % capacity;
      count := count + 1;
      totalWritten := totalWritten + 1;
      history := history + [record];
    }

    method Rotate()
      requires entries.Length == capacity && head < capacity && count <= capacity && count <= |history|
      requires tail == Slot(head, count, capacity) && Holds()
      modifies this`head, this`count, this`rotations
      ensures head < capacity && count == old(count) - old(count) / 4 && rotations == old(rotations) + 1
      ensures tail == Slot(head, count, capacity) && Holds()
    {
      Discard(count / 4);
      rotations := rotations + 1;
    }

    /** Gives up the oldest `n` records. */
    method Discard(n: nat)
      requires entries.Length == capacity && head < capacity && n <= count <= capacity && count <= |history|
      requires tail == Slot(head, count, capacity) && Holds()
      modifies this`head, this`count
      ensures head < capacity && count == old(count) - n
      ensures tail == Slot(head, count, capacity) && Holds()
    {
      SlotIsModulo(head, n, capacity);
      head := (head + n) % capacity;
      count := count - n;
      assert forall i :: 0 <= i < count ==> Slot(head, i, capacity) == Slot(old(head), n + i, capacity);
    }

    /** The most recent records, oldest first. */
    method ReadLatest(max: nat) returns (r: seq<Record>)
      requires Valid()
      ensures Min(max, count) <= |history|
      ensures r == Last(history, Min(max, count))
    {
      var n := Min(max, count);
      var start := if tail >= n then tail - n else capacity - (n - tail);
      r := [];
      for i := 0 to n
        invariant r == Last(history, n)[..i]
      {
        SlotIsModulo(start, i, capacity);
        assert Slot(start, i, capacity) == Slot(head, count - n + i, capacity);
        r := r + [entries[(start + i) % capacity]];
      }
    }
  }
}
