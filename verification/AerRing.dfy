/** The asynchronous event ring of kernel/src/aer.rs: a single-producer,
    single-consumer ring with free-running 64-bit counters, run without
    interruption as a class and interleaved step by step as a state machine. */
module AerRing {
  import opened Bytes

  const RING_SIZE: nat := 1024
  const WORD: nat := 0x1_0000_0000_0000_0000

  datatype AerEvent = AerEvent(vector: U32, payload: U32, timestampTsc: U64)

  const EMPTY_EVENT := AerEvent(0, 0, 0)

  function WrappingSub(a: U64, b: U64): (d: U64) {
    (a - b) % WORD
  }

  function WrappingInc(a: U64): (d: U64) {
    (a + 1) % WORD
  }

  // ---- Counters and slots -------------------------------------------------

  /** Masking a wrapped counter gives the slot of the true count, because the
      ring size divides the counter range. */
  lemma MaskSurvivesWrap(n: nat)
    ensures n % WORD % RING_SIZE == n % RING_SIZE
  {
    var q := n / WORD;
    assert n == n % WORD + RING_SIZE * (0x40_0000_0000_0000 * q);
    ModAddMultiple(n % WORD, 0x40_0000_0000_0000 * q);
  }

  lemma ModAddMultiple(a: nat, k: nat)
    ensures (a + RING_SIZE * k) % RING_SIZE == a % RING_SIZE
  {
    if k > 0 {
      ModAddMultiple(a, k - 1);
      assert a + RING_SIZE * k == (a + RING_SIZE * (k - 1)) + RING_SIZE;
    }
  }

  /** The wrapped difference of two wrapped counters is the true difference. */
  lemma DifferenceSurvivesWrap(n: nat, m: nat)
    requires m <= n < m + WORD
    ensures WrappingSub(n % WORD, m % WORD) == n - m
  {
    var a, b := n / WORD, m / WORD;
    assert n % WORD - m % WORD == n - m - WORD * (a - b);
    if a != b {
      assert a == b + 1;
    }
  }

  lemma IncSurvivesWrap(n: nat)
    ensures WrappingInc(n % WORD) == (n + 1) % WORD
  {
  }

  lemma SlotsDistinct(k: nat, n: nat)
    requires k < n < k + RING_SIZE
    ensures k % RING_SIZE != n % RING_SIZE
  {
    var a, b := k / RING_SIZE, n / RING_SIZE;
    assert n % RING_SIZE - k % RING_SIZE == n - k - RING_SIZE * (b - a);
  }

  /** `n` events from the slot of counter `tail` on. */
  function Unread(slots: seq<AerEvent>, tail: nat, n: nat): (q: seq<AerEvent>)
    requires |slots| == RING_SIZE
    ensures |q| == n
  {
    seq(n, i requires 0 <= i < n => slots[(tail + i) % RING_SIZE])
  }

  lemma UnreadAppend(slots: seq<AerEvent>, tail: nat, n: nat, event: AerEvent)
    requires |slots| == RING_SIZE && n < RING_SIZE
    ensures Unread(slots[(tail + n) % RING_SIZE := event], tail, n + 1) == Unread(slots, tail, n) + [event]
  {
    var written := slots[(tail + n) % RING_SIZE := event];
    forall i | 0 <= i < n
      ensures Unread(written, tail, n + 1)[i] == Unread(slots, tail, n)[i]
    {
      SlotsDistinct(tail + i, tail + n);
    }
  }

  lemma UnreadRest(slots: seq<AerEvent>, tail: nat, n: nat)
    requires |slots| == RING_SIZE && n > 0
    ensures Unread(slots, (tail + 1) % WORD, n - 1) == Unread(slots, tail, n)[1..]
  {
    var rest := Unread(slots, (tail + 1) % WORD, n - 1);
    forall i | 0 <= i < n - 1
      ensures rest[i] == Unread(slots, tail, n)[1..][i]
    {
      TailSlot(tail + 1, i);
    }
  }

  // ---- Uninterrupted use --------------------------------------------------

  datatype PushResult = Pushed | Overflow
  datatype PopResult = Popped(event: AerEvent) | Empty

  class Ring {
    var head: U64
    var tail: U64
    const events: array<AerEvent>

    ghost predicate Valid()
      reads this, events
    {
      events.Length == RING_SIZE && WrappingSub(head, tail) <= RING_SIZE
    }

    /** The unread events, oldest first. */
    ghost function Contents(): (q: seq<AerEvent>)
      requires Valid()
      reads this, events
    {
      Unread(events[..], tail, WrappingSub(head, tail))
    }

    constructor ()
      ensures Valid() && Contents() == []
    {
      head, tail := 0, 0;
      events := new AerEvent[RING_SIZE](_ => EMPTY_EVENT);
    }

    /** Refuses exactly when 1024 events are unread; otherwise appends. */
    method Push(event: AerEvent) returns (r: PushResult)
      requires Valid()
      modifies this`head, events
      ensures Valid()
      ensures r == if |old(Contents())| == RING_SIZE then Overflow else Pushed
      ensures Contents() == if r == Pushed then old(Contents()) + [event] else old(Contents())
    {
      var h, t := head, tail;
      if WrappingSub(h, t) >= RING_SIZE {
        return Overflow;
      }
      ghost var n := WrappingSub(h, t);
      PushCounters(h, t);
      UnreadAppend(events[..], t, n, event);
      hide WrappingSub, WrappingInc, Unread;
      events[h % RING_SIZE] := event;
      assert events[..] == old(events[..])[(t + n) % RING_SIZE := event];
      head := WrappingInc(h);
      return Pushed;
    }

    /** Empty exactly when nothing is unread; otherwise removes the oldest event. */
    method Pop() returns (r: PopResult)
      requires Valid()
      modifies this`tail
      ensures Valid()
      ensures r == if old(Contents()) == [] then Empty else Popped(old(Contents())[0])
      ensures Contents() == if r.Popped? then old(Contents())[1..] else old(Contents())
    {
      var t, h := tail, head;
      WrappedHead(h, t);
      if t == h {
        return Empty;
      }
      ghost var n := WrappingSub(h, t);
      var event := events[t % RING_SIZE];
      tail := WrappingInc(t);
      DifferenceSurvivesWrap(t + n, t + 1);
      UnreadRest(events[..], t, n);
      return Popped(event);
    }
  }

  lemma PushCounters(h: U64, t: U64)
    requires WrappingSub(h, t) < RING_SIZE
    ensures h % RING_SIZE == (t + WrappingSub(h, t)) % RING_SIZE
    ensures WrappingSub(WrappingInc(h), t) == WrappingSub(h, t) + 1
  {
    hide WrappingSub, WrappingInc;
    var n := WrappingSub(h, t);
    WrappedHead(h, t);
    MaskSurvivesWrap(t + n);
    IncSurvivesWrap(t + n);
    DifferenceSurvivesWrap(t + n + 1, t);
  }

  lemma WrappedHead(h: U64, t: U64)
    ensures (t + WrappingSub(h, t)) % WORD == h
    ensures WrappingSub(h, t) == 0 <==> h == t
  {
    if h >= t {
      assert WrappingSub(h, t) == h - t;
    } else {
      assert WrappingSub(h, t) == h - t + WORD;
    }
  }

  lemma TailSlot(t: nat, i: nat)
    ensures (t % WORD + i) % RING_SIZE == (t + i) % RING_SIZE
  {
    var q := t / WORD;
    assert t + i == t % WORD + i + RING_SIZE * (0x40_0000_0000_0000 * q);
    ModAddMultiple(t % WORD + i, 0x40_0000_0000_0000 * q);
  }
}
