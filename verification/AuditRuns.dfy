/** The audit system over whole runs of calls and reconfigurations. */
module AuditRuns {
  import opened Bytes
  import opened Arithmetic
  import opened Wrappers
  import opened AuditLog
  import opened AuditRules
  import opened AuditSystem

  /** A call into the audit system. `Configure` and `ChangeRules` stand for every
      setter and every edit of the rules. */
  datatype Op =
    | Syscall(ctx: SyscallContext, timestamp: nat)
    | Event(eventType: U64, timestamp: nat, fields: seq<(string, string)>)
    | FileAccess(path: string, access: set<Perm>, timestamp: nat, fields: seq<(string, string)>)
    | Configure(config: Config)
    | ChangeRules(rules: RuleEngine)
    | RegisterDaemon
    | UnregisterDaemon
    | Drain

  /** One call; a panic leaves nothing. */
  function Apply(s: State, op: Op): Option<State> {
    match op
    case Syscall(ctx, t) => AfterSyscall(s, ctx, t)
    case Event(e, t, fields) => Some(AfterEvent(s, e, t, fields))
    case FileAccess(path, access, t, fields) => Some(AfterFileAccess(s, path, access, t, fields))
    case Configure(config) => Some(s.(config := config))
    case ChangeRules(rules) => Some(s.(rules := rules))
    case RegisterDaemon => Some(s.(daemon := true))
    case UnregisterDaemon => Some(s.(daemon := false))
    case Drain => Some(s.(pending := []))
  }

  function Run(s: State, ops: seq<Op>): Option<State>
    decreases |ops|
  {
    if ops == [] then Some(s)
    else match Apply(s, ops[0]) case None => None case Some(next) => Run(next, ops[1..])
  }

  // ---- Serial numbers -----------------------------------------------------

  /** Record `i` of the history carries serial `i + 1`. The daemon's queue holds
      serials of logged calls, each once and in order. */
  ghost predicate Inv(s: State) {
    && s.serial == |s.history| + 1
    && (forall i :: 0 <= i < |s.history| ==> s.history[i].serial == i + 1)
    && |s.pending| <= MAX_QUEUE
    && (forall i :: 0 <= i < |s.pending| ==> Queued(s, s.pending[i]))
    && (forall i, j :: 0 <= i < j < |s.pending| ==> s.pending[i] < s.pending[j])
  }

  ghost predicate Queued(s: State, serial: nat) {
    1 <= serial <= |s.history| && s.history[serial - 1].eventType == SYSCALL
  }

  lemma AppendKeeps(s: State, eventType: U64, timestamp: nat, fields: seq<(string, string)>)
    requires Inv(s)
    ensures Inv(Append(s, eventType, timestamp, fields))
  {
    var r := Append(s, eventType, timestamp, fields);
    forall i | 0 <= i < |r.pending|
      ensures Queued(r, r.pending[i])
    {
      assert Queued(s, s.pending[i]);
    }
  }

  lemma EmittedKeeps(s: State, ctx: SyscallContext, timestamp: nat)
    requires Inv(s)
    ensures Inv(Emitted(s, ctx, timestamp))
  {
    var r := Emitted(s, ctx, timestamp);
    forall i | 0 <= i < |r.pending|
      ensures Queued(r, r.pending[i]) && (i < |r.pending| - 1 || !s.daemon ==> Queued(s, r.pending[i]))
    {
      if s.daemon && i == |r.pending| - 1 {
        assert r.pending[i] == s.serial;
      } else {
        var k := if s.daemon && |s.pending| >= MAX_QUEUE then i + 1 else i;
        assert r.pending[i] == s.pending[k] && Queued(s, s.pending[k]);
      }
    }
  }

  lemma ApplyKeeps(s: State, op: Op)
    requires Inv(s)
    ensures Apply(s, op).Some? ==> Inv(Apply(s, op).value)
  {
    hide IsExcluded, Suppressed, Watched, Inv, Emitted;
    match op
    case Syscall(ctx, t) =>
      var counted := CountRate(s, t / 1000);
      InvIgnores(s, counted);
      InvIgnores(s, counted.(lost := s.lost + 1));
      EmittedKeeps(counted, ctx, t);
    case Event(e, t, fields) =>
      AppendKeeps(s, e, t, fields);
    case FileAccess(path, access, t, fields) =>
      AppendKeeps(s, PATH, t, fields);
    case Drain =>
      DrainKeeps(s);
    case _ =>
      InvIgnores(s, Apply(s, op).value);
  }

  lemma DrainKeeps(s: State)
    requires Inv(s)
    ensures Inv(s.(pending := []))
  {
  }

  /** Counters, configuration and rules do not matter. */
  lemma InvIgnores(s: State, t: State)
    requires Inv(s) && t.history == s.history && t.serial == s.serial && t.pending == s.pending
    ensures Inv(t)
  {
    forall i | 0 <= i < |t.pending|
      ensures Queued(t, t.pending[i])
    {
      assert Queued(s, s.pending[i]);
    }
  }

  lemma {:induction false} RunKeeps(s: State, ops: seq<Op>)
    requires Inv(s) && Run(s, ops).Some?
    ensures Inv(Run(s, ops).value)
    decreases |ops|
  {
    if ops != [] {
      ApplyKeeps(s, ops[0]);
      RunKeeps(Apply(s, ops[0]).value, ops[1..]);
    }
  }

  /** In every run from a new system, whatever entry points wrote them, the latest
      `n` records of the log carry consecutive serials ending just below the next
      serial, and the daemon's queue holds serials of logged calls in order. */
  lemma SerialsAreConsecutive(ops: seq<Op>, n: nat)
    requires Run(NewState(), ops).Some?
    ensures var end := Run(NewState(), ops).value;
            && Inv(end)
            && (n <= |end.history| ==>
                forall i :: 0 <= i < n ==> Last(end.history, n)[i].serial == end.serial - n + i)
  {
    hide Run;
    NewStateInv();
    RunKeeps(NewState(), ops);
  }

  lemma NewStateInv()
    ensures Inv(NewState())
  {
  }

  // ---- Accounting ---------------------------------------------------------

  /** How the operations of a run are decided, by the state each one meets. */
  datatype Counts = Counts(calls: nat, skipped: nat, suppressed: nat, recorded: nat)

  function One(b: bool): nat {
    if b then 1 else 0
  }

  function CountOne(s: State, op: Op): Counts {
    match op
    case Syscall(ctx, t) =>
      Counts(1, One(Skips(s)), One(!Skips(s) && Passes(s, t / 1000) && Suppressed(s.rules.exitRules, ctx)), 0)
    case Event(e, _, _) => Counts(0, 0, 0, One(RecordsEvent(s, e)))
    case FileAccess(path, access, _, _) => Counts(0, 0, 0, One(RecordsAccess(s, path, access)))
    case _ => Counts(0, 0, 0, 0)
  }

  function Sum(a: Counts, b: Counts): Counts {
    Counts(a.calls + b.calls, a.skipped + b.skipped, a.suppressed + b.suppressed, a.recorded + b.recorded)
  }

  function CountRun(s: State, ops: seq<Op>): Counts
    decreases |ops|
  {
    if ops == [] || Apply(s, ops[0]).None? then Counts(0, 0, 0, 0)
    else Sum(CountOne(s, ops[0]), CountRun(Apply(s, ops[0]).value, ops[1..]))
  }

  /** Every call that did not panic is skipped, suppressed, logged or lost: the
      backlog grows by the logged calls and the loss counter by the lost ones.
      The log grows by the logged calls and the recorded events. */
  lemma {:induction false} EveryCallIsAccountedFor(s: State, ops: seq<Op>)
    requires Run(s, ops).Some?
    ensures var end, c := Run(s, ops).value, CountRun(s, ops);
            && end.backlog >= s.backlog && end.lost >= s.lost
            && c.calls == c.skipped + c.suppressed + (end.backlog - s.backlog) + (end.lost - s.lost)
            && |end.history| == |s.history| + (end.backlog - s.backlog) + c.recorded
    decreases |ops|
  {
    if ops != [] {
      OneCallIsAccountedFor(s, ops[0]);
      EveryCallIsAccountedFor(Apply(s, ops[0]).value, ops[1..]);
    }
  }

  lemma OneCallIsAccountedFor(s: State, op: Op)
    requires Apply(s, op).Some?
    ensures var end, c := Apply(s, op).value, CountOne(s, op);
            && end.backlog >= s.backlog && end.lost >= s.lost
            && c.calls == c.skipped + c.suppressed + (end.backlog - s.backlog) + (end.lost - s.lost)
            && |end.history| == |s.history| + (end.backlog - s.backlog) + c.recorded
  {
    hide IsExcluded, Suppressed, Watched;
  }

  predicate NeverPanics(ops: seq<Op>) {
    forall i :: 0 <= i < |ops| && ops[i].Configure? ==> ops[i].config.failureMode != Panic
  }

  predicate KeepsBacklogLimit(ops: seq<Op>, limit: nat) {
    forall i :: 0 <= i < |ops| && ops[i].Configure? ==> ops[i].config.backlogLimit == limit
  }

  /** Outside panic mode no run panics. */
  lemma {:induction false} RunsToTheEnd(s: State, ops: seq<Op>)
    requires s.config.failureMode != Panic && NeverPanics(ops)
    ensures Run(s, ops).Some?
    decreases |ops|
  {
    if ops != [] {
      var next := Apply(s, ops[0]);
      hide IsExcluded, Suppressed, Watched;
      assert next.Some? && next.value.config.failureMode != Panic;
      RunsToTheEnd(next.value, ops[1..]);
    }
  }

  /** The backlog never passes a limit that stays fixed. */
  lemma {:induction false} BacklogStaysWithinLimit(s: State, ops: seq<Op>)
    requires s.backlog <= s.config.backlogLimit && KeepsBacklogLimit(ops, s.config.backlogLimit)
    requires Run(s, ops).Some?
    ensures Run(s, ops).value.backlog <= s.config.backlogLimit
    decreases |ops|
  {
    if ops != [] {
      hide IsExcluded, Suppressed, Watched;
      var next := Apply(s, ops[0]).value;
      assert next.config.backlogLimit == s.config.backlogLimit && next.backlog <= s.config.backlogLimit;
      BacklogStaysWithinLimit(next, ops[1..]);
    }
  }

  /** The backlog is never worked off: once it has reached a limit that stays fixed,
      no later call is logged. The log then grows by events alone, and every call
      is skipped, suppressed or lost. */
  lemma {:induction false} FullBacklogIsFinal(s: State, ops: seq<Op>)
    requires s.backlog >= s.config.backlogLimit && KeepsBacklogLimit(ops, s.config.backlogLimit)
    requires Run(s, ops).Some?
    ensures var end, c := Run(s, ops).value, CountRun(s, ops);
            && end.backlog == s.backlog
            && |end.history| == |s.history| + c.recorded
            && c.calls == c.skipped + c.suppressed + (end.lost - s.lost)
    decreases |ops|
  {
    FullBacklogStays(s, ops);
    EveryCallIsAccountedFor(s, ops);
  }

  lemma {:induction false} FullBacklogStays(s: State, ops: seq<Op>)
    requires s.backlog >= s.config.backlogLimit && KeepsBacklogLimit(ops, s.config.backlogLimit)
    requires Run(s, ops).Some?
    ensures Run(s, ops).value.backlog == s.backlog
    decreases |ops|
  {
    if ops != [] {
      hide IsExcluded, Suppressed, Watched;
      var next := Apply(s, ops[0]).value;
      assert next.config.backlogLimit == s.config.backlogLimit && next.backlog == s.backlog;
      FullBacklogStays(next, ops[1..]);
    }
  }

  /** From a new system whose backlog limit is not changed, 8192 calls are the most
      that are ever logged. */
  lemma LoggedCallsAreBounded(ops: seq<Op>)
    requires KeepsBacklogLimit(ops, 8192) && Run(NewState(), ops).Some?
    ensures var c := CountRun(NewState(), ops);
            |Run(NewState(), ops).value.history| <= 8192 + c.recorded
  {
    hide Run, CountRun;
    BacklogStaysWithinLimit(NewState(), ops);
    EveryCallIsAccountedFor(NewState(), ops);
  }

  // ---- What is written ----------------------------------------------------

  /** The call is written down: nothing skips, delays or suppresses it, and the
      backlog has room. */
  predicate IsLogged(s: State, ctx: SyscallContext, timestamp: nat) {
    && !Skips(s) && Passes(s, timestamp / 1000) && !Suppressed(s.rules.exitRules, ctx)
    && s.backlog < s.config.backlogLimit
  }

  /** The record of an operation: its type, time and text under the serial. */
  function RecordOf(s: State, op: Op): seq<Record> {
    match op
    case Syscall(ctx, t) => if IsLogged(s, ctx, t) then [Record(1300, t, s.serial, ctx.rendered)] else []
    case Event(e, t, fields) => if RecordsEvent(s, e) then [Record(e, t, s.serial, fields)] else []
    case FileAccess(path, access, t, fields) =>
      if RecordsAccess(s, path, access) then [Record(1302, t, s.serial, fields)] else []
    case _ => []
  }

  function RecordsOf(s: State, ops: seq<Op>): seq<Record>
    decreases |ops|
  {
    if ops == [] || Apply(s, ops[0]).None? then []
    else RecordOf(s, ops[0]) + RecordsOf(Apply(s, ops[0]).value, ops[1..])
  }

  lemma ApplyWrites(s: State, op: Op)
    requires Apply(s, op).Some?
    ensures Apply(s, op).value.history == s.history + RecordOf(s, op)
  {
    hide IsExcluded, Suppressed, Watched;
  }

  /** Over every run the log is exactly the records of the logged operations, each
      with the time and text it was called with, in order. */
  lemma {:induction false} LogIsWhatWasLogged(s: State, ops: seq<Op>)
    requires Run(s, ops).Some?
    ensures Run(s, ops).value.history == s.history + RecordsOf(s, ops)
    decreases |ops|
  {
    hide Apply, RecordOf;
    if ops != [] {
      ApplyWrites(s, ops[0]);
      LogIsWhatWasLogged(Apply(s, ops[0]).value, ops[1..]);
    }
  }

  /** When nothing is written and nothing else happens: a disabled system ignores
      every operation but reconfiguration, and an enabled one ignores exactly the
      excluded types. */
  lemma IgnoredIff(s: State, op: Op)
    requires Apply(s, op).Some?
    ensures op.Syscall? && (!s.config.enabled || IsExcluded(s.rules.excludeRules, 1300)) ==> Apply(s, op).value == s
    ensures op.Syscall? && s.config.enabled && !IsExcluded(s.rules.excludeRules, 1300) && s.config.rateLimit > 0 ==>
              Apply(s, op).value.rateEpoch == op.timestamp / 1000 && Apply(s, op).value.rateCount > 0
    ensures op.Event? ==>
              (Apply(s, op).value == s <==> !s.config.enabled || IsExcluded(s.rules.excludeRules, op.eventType))
    ensures op.FileAccess? ==>
              (Apply(s, op).value == s <==> !s.config.enabled || !Watched(s.rules.fileWatches, op.path, op.access))
  {
    hide IsExcluded, Suppressed, Watched;
  }

  // ---- The rate limiter ---------------------------------------------------

  /** The calls of the run that reach the limiter, and those it lets through. */
  function Arrivals(s: State, ops: seq<Op>): nat
    decreases |ops|
  {
    if ops == [] || Apply(s, ops[0]).None? then 0
    else One(ops[0].Syscall? && !Skips(s)) + Arrivals(Apply(s, ops[0]).value, ops[1..])
  }

  function LetThrough(s: State, ops: seq<Op>): nat
    decreases |ops|
  {
    if ops == [] || Apply(s, ops[0]).None? then 0
    else
      One(ops[0].Syscall? && !Skips(s) && Passes(s, ops[0].timestamp / 1000))
      + LetThrough(Apply(s, ops[0]).value, ops[1..])
  }

  predicate WithinSecond(ops: seq<Op>, second: nat, limit: nat) {
    && (forall i :: 0 <= i < |ops| && ops[i].Syscall? ==> ops[i].timestamp / 1000 == second)
    && (forall i :: 0 <= i < |ops| && ops[i].Configure? ==> ops[i].config.rateLimit == limit)
  }

  /** Calls counted so far in this second. */
  function Used(s: State, second: nat): nat {
    if s.rateEpoch == second then s.rateCount else 0
  }

  /** Within one second and with a fixed limit, the limiter lets through exactly
      the first calls up to the limit, less those it already counted. */
  lemma {:induction false} LimiterIsExact(s: State, ops: seq<Op>, second: nat)
    requires s.config.rateLimit > 0 && WithinSecond(ops, second, s.config.rateLimit) && Run(s, ops).Some?
    ensures var room := if Used(s, second) < s.config.rateLimit then s.config.rateLimit - Used(s, second) else 0;
            LetThrough(s, ops) == Min(Arrivals(s, ops), room) <= s.config.rateLimit
    decreases |ops|
  {
    if ops != [] {
      var next := Apply(s, ops[0]).value;
      LimiterStep(s, ops[0], second);
      LimiterIsExact(next, ops[1..], second);
    }
  }

  lemma LimiterStep(s: State, op: Op, second: nat)
    requires s.config.rateLimit > 0 && Apply(s, op).Some?
    requires op.Syscall? ==> op.timestamp / 1000 == second
    requires op.Configure? ==> op.config.rateLimit == s.config.rateLimit
    ensures var next := Apply(s, op).value;
            && next.config.rateLimit == s.config.rateLimit
            && Used(next, second) == Used(s, second) + One(op.Syscall? && !Skips(s))
            && (op.Syscall? ==> (Passes(s, second) <==> Used(s, second) < s.config.rateLimit))
  {
    hide IsExcluded, Suppressed, Watched;
  }
}
