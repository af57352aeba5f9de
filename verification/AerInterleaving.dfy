/** Every interleaving of one ring's producer and consumer. A step is one access
    to shared memory: loads of the own and the other counter, the three fields
    of a slot one by one, and the publishing store. Interrupts on any number of
    CPUs call the dispatcher, which `AER_LOCK` reduces to one producer.

    A load of the other side's counter may return an earlier value of it than
    the current one, but never one older than that side has already seen, as
    acquire loads of a coherent counter allow. */
module AerInterleaving {
  import opened Bytes
  import opened AerRing

  datatype Lock = Free | Dispatching | Registering

  /** Where `dispatch_irq` is, with its locals. */
  datatype Producer =
    | Idle
    | Entered(event: AerEvent)
    | LoadedHead(event: AerEvent, head: U64)
    | Ready(event: AerEvent, head: U64)
    | WroteVector(event: AerEvent, head: U64)
    | WrotePayload(event: AerEvent, head: U64)
    | WroteAll(event: AerEvent, head: U64)
    | Done(ok: bool)

  /** Where `pop` is, with its locals. */
  datatype Consumer =
    | Outside
    | LoadedTail(tail: U64)
    | MayRead(tail: U64)
    | ReadVector(tail: U64, vector: U32)
    | ReadPayload(tail: U64, vector: U32, payload: U32)
    | ReadAll(tail: U64, event: AerEvent)

  /** Shared memory, local states, the two counters of the dispatcher, and the
      history of the run. */
  datatype Sys = Sys(
    head: U64, tail: U64, slots: seq<AerEvent>,
    lock: Lock, producer: Producer, consumer: Consumer,
    pushErrors: nat, dispatches: nat,
    calls: nat, lockDrops: nat, overflows: nat,
    pushed: seq<AerEvent>, popped: seq<AerEvent>,
    seenTail: nat, seenHead: nat)

  datatype Label =
    | Interrupt(event: AerEvent)
    | BeginRegister | EndRegister
    | PushLoadHead | PushLoadTail(observed: nat)
    | PushVector | PushPayload | PushTsc | PushPublish | PushUnlock
    | PopLoadTail | PopLoadHead(observed: nat)
    | PopVector | PopPayload | PopTsc | PopPublish

  function InitSys(): Sys {
    Sys(0, 0, seq(RING_SIZE, _ => EMPTY_EVENT), Free, Idle, Outside, 0, 0, 0, 0, 0, [], [], 0, 0)
  }

  predicate Enabled(s: Sys, l: Label) {
    && |s.slots| == RING_SIZE
    && match l
       case Interrupt(_) => true
       case BeginRegister => s.lock == Free
       case EndRegister => s.lock == Registering
       case PushLoadHead => s.producer.Entered?
       case PushLoadTail(n) => s.producer.LoadedHead? && s.seenTail <= n <= |s.popped|
       case PushVector => s.producer.Ready?
       case PushPayload => s.producer.WroteVector?
       case PushTsc => s.producer.WrotePayload?
       case PushPublish => s.producer.WroteAll?
       case PushUnlock => s.producer.Done?
       case PopLoadTail => s.consumer.Outside?
       case PopLoadHead(n) => s.consumer.LoadedTail? && s.seenHead <= n <= |s.pushed|
       case PopVector => s.consumer.MayRead?
       case PopPayload => s.consumer.ReadVector?
       case PopTsc => s.consumer.ReadPayload?
       case PopPublish => s.consumer.ReadAll?
  }

  function PushStep(s: Sys, l: Label): Sys
    requires Enabled(s, l)
    requires l.PushLoadHead? || l.PushLoadTail? || l.PushVector? || l.PushPayload? || l.PushTsc? || l.PushPublish?
  {
    var p := s.producer;
    match l
    case PushLoadHead => s.(producer := LoadedHead(p.event, s.head))
    case PushLoadTail(n) =>
      if WrappingSub(p.head, n % WORD) >= RING_SIZE
      then s.(producer := Done(false), seenTail := n, overflows := s.overflows + 1)
      else s.(producer := Ready(p.event, p.head), seenTail := n)
    case PushVector =>
      var i := p.head % RING_SIZE;
      s.(slots := s.slots[i := s.slots[i].(vector := p.event.vector)], producer := WroteVector(p.event, p.head))
    case PushPayload =>
      var i := p.head % RING_SIZE;
      s.(slots := s.slots[i := s.slots[i].(payload := p.event.payload)], producer := WrotePayload(p.event, p.head))
    case PushTsc =>
      var i := p.head % RING_SIZE;
      s.(slots := s.slots[i := s.slots[i].(timestampTsc := p.event.timestampTsc)], producer := WroteAll(p.event, p.head))
    case PushPublish =>
      s.(head := WrappingInc(p.head), producer := Done(true), pushed := s.pushed + [p.event])
  }

  function PopStep(s: Sys, l: Label): Sys
    requires Enabled(s, l)
    requires l.PopLoadTail? || l.PopLoadHead? || l.PopVector? || l.PopPayload? || l.PopTsc? || l.PopPublish?
  {
    var c := s.consumer;
    match l
    case PopLoadTail => s.(consumer := LoadedTail(s.tail))
    case PopLoadHead(n) =>
      if c.tail == n % WORD then s.(consumer := Outside, seenHead := n)
      else s.(consumer := MayRead(c.tail), seenHead := n)
    case PopVector => s.(consumer := ReadVector(c.tail, s.slots[c.tail % RING_SIZE].vector))
    case PopPayload => s.(consumer := ReadPayload(c.tail, c.vector, s.slots[c.tail % RING_SIZE].payload))
    case PopTsc =>
      s.(consumer := ReadAll(c.tail, AerEvent(c.vector, c.payload, s.slots[c.tail % RING_SIZE].timestampTsc)))
    case PopPublish => s.(tail := WrappingInc(c.tail), consumer := Outside, popped := s.popped + [c.event])
  }

  /** An interrupt that finds the lock taken drops its event and counts it. */
  function Next(s: Sys, l: Label): Sys
    requires Enabled(s, l)
  {
    match l
    case Interrupt(event) =>
      if s.lock == Free then s.(lock := Dispatching, producer := Entered(event), calls := s.calls + 1)
      else s.(pushErrors := s.pushErrors + 1, calls := s.calls + 1, lockDrops := s.lockDrops + 1)
    case BeginRegister => s.(lock := Registering)
    case EndRegister => s.(lock := Free)
    case PushUnlock =>
      s.(lock := Free, producer := Idle, dispatches := s.dispatches + 1,
         pushErrors := if s.producer.ok then s.pushErrors else s.pushErrors + 1)
    case PushLoadHead => PushStep(s, l)
    case PushLoadTail(_) => PushStep(s, l)
    case PushVector => PushStep(s, l)
    case PushPayload => PushStep(s, l)
    case PushTsc => PushStep(s, l)
    case PushPublish => PushStep(s, l)
    case PopLoadTail => PopStep(s, l)
    case PopLoadHead(_) => PopStep(s, l)
    case PopVector => PopStep(s, l)
    case PopPayload => PopStep(s, l)
    case PopTsc => PopStep(s, l)
    case PopPublish => PopStep(s, l)
  }

  // ---- Invariant ----------------------------------------------------------

  /** Counters are the wrapped lengths of the histories, each side knows a bound
      on the other, and what was popped is what was pushed first. */
  ghost predicate CountersOk(s: Sys) {
    && |s.slots| == RING_SIZE
    && s.head == |s.pushed| % WORD
    && s.tail == |s.popped| % WORD
    && s.seenTail <= |s.popped| <= s.seenHead <= |s.pushed| <= s.seenTail + RING_SIZE
    && s.popped == s.pushed[..|s.popped|]
  }

  /** Every unread event stands whole in its slot. */
  ghost predicate SlotsOk(s: Sys)
    requires |s.slots| == RING_SIZE
  {
    forall k {:trigger s.pushed[k]} :: |s.popped| <= k < |s.pushed| ==> s.slots[k % RING_SIZE] == s.pushed[k]
  }

  ghost predicate ProducerOk(s: Sys)
    requires |s.slots| == RING_SIZE
  {
    var n := |s.pushed|;
    var slot := s.slots[n % RING_SIZE];
    var room := n < s.seenTail + RING_SIZE;
    && (s.lock == Dispatching <==> !s.producer.Idle?)
    && match s.producer
       case LoadedHead(_, h) => h == s.head
       case Ready(_, h) => h == s.head && room
       case WroteVector(e, h) => h == s.head && room && slot.vector == e.vector
       case WrotePayload(e, h) => h == s.head && room && slot.vector == e.vector && slot.payload == e.payload
       case WroteAll(e, h) => h == s.head && room && slot == e
       case _ => true
  }

  ghost predicate ConsumerOk(s: Sys) {
    var m := |s.popped|;
    match s.consumer
    case Outside => true
    case LoadedTail(t) => t == s.tail
    case MayRead(t) => t == s.tail && m < s.seenHead
    case ReadVector(t, v) => t == s.tail && m < s.seenHead <= |s.pushed| && v == s.pushed[m].vector
    case ReadPayload(t, v, p) =>
      t == s.tail && m < s.seenHead <= |s.pushed| && v == s.pushed[m].vector && p == s.pushed[m].payload
    case ReadAll(t, e) => t == s.tail && m < s.seenHead <= |s.pushed| && e == s.pushed[m]
  }

  /** Where every dispatcher call went. */
  ghost predicate AccountsOk(s: Sys) {
    var open := if s.producer.Idle? || s.producer.Done? then 0 else 1;
    var unreported := if s.producer.Done? then 1 else 0;
    var unreportedError := if s.producer.Done? && !s.producer.ok then 1 else 0;
    && s.calls == s.lockDrops + s.overflows + |s.pushed| + open
    && s.pushErrors == s.lockDrops + s.overflows - unreportedError
    && s.dispatches == s.overflows + |s.pushed| - unreported
  }

  ghost predicate Inv(s: Sys) {
    CountersOk(s) && SlotsOk(s) && ProducerOk(s) && ConsumerOk(s) && AccountsOk(s)
  }

  lemma InitInv()
    ensures Inv(InitSys())
  {
  }

  // ---- Every step keeps it ------------------------------------------------

  lemma LoadTailKeeps(s: Sys, n: nat)
    requires Inv(s) && Enabled(s, PushLoadTail(n))
    ensures Inv(Next(s, PushLoadTail(n)))
  {
    DifferenceSurvivesWrap(|s.pushed|, n);
  }

  lemma WriteKeeps(s: Sys, l: Label)
    requires Inv(s) && Enabled(s, l) && (l.PushVector? || l.PushPayload? || l.PushTsc?)
    ensures Inv(Next(s, l))
  {
    var n := |s.pushed|;
    MaskSurvivesWrap(n);
    forall k | |s.popped| <= k < n
      ensures k % RING_SIZE != n % RING_SIZE && s.pushed[k] == s.pushed[k]
    {
      SlotsDistinct(k, n);
    }
  }

  lemma PublishKeeps(s: Sys)
    requires Inv(s) && Enabled(s, PushPublish)
    ensures Inv(Next(s, PushPublish))
  {
    IncSurvivesWrap(|s.pushed|);
  }

  lemma LoadHeadKeeps(s: Sys, n: nat)
    requires Inv(s) && Enabled(s, PopLoadHead(n))
    ensures Inv(Next(s, PopLoadHead(n)))
  {
    DifferenceSurvivesWrap(n, |s.popped|);
  }

  lemma ReadKeeps(s: Sys, l: Label)
    requires Inv(s) && Enabled(s, l) && (l.PopVector? || l.PopPayload? || l.PopTsc?)
    ensures Inv(Next(s, l))
  {
    MaskSurvivesWrap(|s.popped|);
    assert s.slots[|s.popped| % RING_SIZE] == s.pushed[|s.popped|];
  }

  lemma PopPublishKeeps(s: Sys)
    requires Inv(s) && Enabled(s, PopPublish)
    ensures Inv(Next(s, PopPublish))
  {
    IncSurvivesWrap(|s.popped|);
  }

  lemma StepKeeps(s: Sys, l: Label)
    requires Inv(s) && Enabled(s, l)
    ensures Inv(Next(s, l))
  {
    match l
    case PushLoadTail(n) => LoadTailKeeps(s, n);
    case PushVector => WriteKeeps(s, l);
    case PushPayload => WriteKeeps(s, l);
    case PushTsc => WriteKeeps(s, l);
    case PushPublish => PublishKeeps(s);
    case PopLoadHead(n) => LoadHeadKeeps(s, n);
    case PopVector => ReadKeeps(s, l);
    case PopPayload => ReadKeeps(s, l);
    case PopTsc => ReadKeeps(s, l);
    case PopPublish => PopPublishKeeps(s);
    case _ =>
  }

  // ---- Whole runs ---------------------------------------------------------

  predicate IsRun(s: Sys, run: seq<Label>)
    decreases |run|
  {
    run == [] || (Enabled(s, run[0]) && IsRun(Next(s, run[0]), run[1..]))
  }

  function After(s: Sys, run: seq<Label>): Sys
    requires IsRun(s, run)
    decreases |run|
  {
    if run == [] then s else After(Next(s, run[0]), run[1..])
  }

  lemma {:induction false} RunKeeps(s: Sys, run: seq<Label>)
    requires Inv(s) && IsRun(s, run)
    ensures Inv(After(s, run))
    decreases |run|
  {
    if run != [] {
      StepKeeps(s, run[0]);
      RunKeeps(Next(s, run[0]), run[1..]);
    }
  }

  /** In every interleaving the popped events are the first pushed ones in order,
      none lost, duplicated, reordered or torn; at most 1024 are outstanding; and
      every dispatcher call is pushed, counted as an error or still running. */
  lemma FifoInEveryRun(run: seq<Label>)
    requires IsRun(InitSys(), run)
    ensures var s := After(InitSys(), run);
            && s.popped <= s.pushed
            && |s.pushed| - |s.popped| <= RING_SIZE
            && (s.producer.Idle? ==> s.calls == |s.pushed| + s.pushErrors)
            && (s.producer.Idle? ==> s.dispatches == s.calls - s.lockDrops)
  {
    InitInv();
    RunKeeps(InitSys(), run);
  }

  /** No data race on the slots: a slot being written is neither unread nor the
      slot being read, and a slot being read is unread. */
  lemma SlotsNeverRace(run: seq<Label>)
    requires IsRun(InitSys(), run)
    ensures var s := After(InitSys(), run);
            var writing := s.producer.Ready? || s.producer.WroteVector? || s.producer.WrotePayload?;
            var reading := s.consumer.MayRead? || s.consumer.ReadVector? || s.consumer.ReadPayload?;
            && (writing ==> forall k :: |s.popped| <= k < |s.pushed| ==> s.producer.head % RING_SIZE != k % RING_SIZE)
            && (writing && reading ==> s.producer.head % RING_SIZE != s.consumer.tail % RING_SIZE)
            && (reading ==> |s.popped| < |s.pushed| && s.consumer.tail % RING_SIZE == |s.popped| % RING_SIZE)
  {
    InitInv();
    RunKeeps(InitSys(), run);
    var s := After(InitSys(), run);
    MaskSurvivesWrap(|s.pushed|);
    MaskSurvivesWrap(|s.popped|);
    forall k | |s.popped| <= k < |s.pushed| && |s.pushed| < s.seenTail + RING_SIZE
      ensures |s.pushed| % RING_SIZE != k % RING_SIZE
    {
      SlotsDistinct(k, |s.pushed|);
    }
  }

  // ---- Refinement of a bounded FIFO queue ---------------------------------

  function Queue(s: Sys): seq<AerEvent>
    requires |s.popped| <= |s.pushed|
  {
    s.pushed[|s.popped|..]
  }

  /** Publishing the head enqueues the call's event, publishing the tail dequeues
      the oldest event and returns it, and every other step leaves the queue. */
  lemma StepRefinesQueue(s: Sys, l: Label)
    requires Inv(s) && Enabled(s, l)
    ensures |Next(s, l).popped| <= |Next(s, l).pushed|
    ensures match l
            case PushPublish => |Queue(s)| < RING_SIZE && Queue(Next(s, l)) == Queue(s) + [s.producer.event]
            case PopPublish => Queue(s) == [s.consumer.event] + Queue(Next(s, l))
            case _ => Queue(Next(s, l)) == Queue(s)
  {
    hide Inv;
    PublishFacts(s, l);
    if l.PopPublish? {
      var m := |s.popped|;
      assert s.pushed[m..] == [s.pushed[m]] + s.pushed[m + 1..];
    }
  }

  /** What the invariant says about the histories at the publishing steps. */
  lemma PublishFacts(s: Sys, l: Label)
    requires Inv(s) && Enabled(s, l)
    ensures |s.popped| <= |s.pushed|
    ensures l.PushPublish? ==> |s.pushed| - |s.popped| < RING_SIZE
    ensures l.PopPublish? ==> |s.popped| < |s.pushed| && s.consumer.event == s.pushed[|s.popped|]
  {
    hide SlotsOk, AccountsOk;
  }

  /** A push is refused exactly when the consumer's progress it observed leaves
      1024 events unread, and a pop finds nothing exactly when it observed no
      event beyond its own; with a current observation these are the full and
      the empty queue. */
  lemma RefusalsAreExact(s: Sys, n: nat)
    requires Inv(s)
    ensures Enabled(s, PushLoadTail(n)) ==>
              (Next(s, PushLoadTail(n)).producer == Done(false) <==> |s.pushed| - n == RING_SIZE)
    ensures Enabled(s, PushLoadTail(n)) && n == |s.popped| ==>
              (Next(s, PushLoadTail(n)).producer == Done(false) <==> |Queue(s)| == RING_SIZE)
    ensures Enabled(s, PopLoadHead(n)) ==>
              (Next(s, PopLoadHead(n)).consumer == Outside <==> n == |s.popped|)
    ensures Enabled(s, PopLoadHead(n)) && n == |s.pushed| ==>
              (Next(s, PopLoadHead(n)).consumer == Outside <==> Queue(s) == [])
  {
    if Enabled(s, PushLoadTail(n)) {
      DifferenceSurvivesWrap(|s.pushed|, n);
    }
    if Enabled(s, PopLoadHead(n)) {
      DifferenceSurvivesWrap(n, |s.popped|);
    }
  }
}
