/** The audit system of kernel/src/audit.rs: serial numbers, rate limit, backlog
    and loss accounting over the audit log. */
module AuditSystem {
  import opened Bytes
  import opened Wrappers
  import opened Arithmetic
  import opened AuditLog
  import opened AuditRules

  datatype FailureMode = Silent | Printk | Panic

  datatype Config = Config(enabled: bool, backlogLimit: nat, failureMode: FailureMode, rateLimit: nat)

  const SYSCALL: U64 := 1300
  const PATH: U64 := 1302
  const MAX_QUEUE: nat := 1024

  /** The fields of the audit system, with the log as everything written to it
      and the queued messages to the daemon as their sequence numbers. */
  datatype State = State(
    config: Config, rules: RuleEngine, history: seq<Record>,
    serial: nat, backlog: nat, lost: nat, rateCount: nat, rateEpoch: nat,
    daemon: bool, pending: seq<nat>)

  function NewState(): State {
    State(Config(true, 8192, Printk, 0), RuleEngine([], [], []), [], 1, 0, 0, 0, 0, false, [])
  }

  // ---- What each call does ------------------------------------------------

  function CountRate(s: State, now: nat): State {
    if s.config.rateLimit == 0 then s
    else s.(rateEpoch := now, rateCount := if now != s.rateEpoch then 1 else s.rateCount + 1)
  }

  function Send(s: State, seqNo: nat): State {
    if !s.daemon then s
    else s.(pending := (if |s.pending| >= MAX_QUEUE then s.pending[1..] else s.pending) + [seqNo])
  }

  /** A registered daemon's queue keeps the newest 1024 messages. */
  lemma SendKeepsNewest(s: State, seqNo: nat)
    requires s.daemon && |s.pending| <= 1024
    ensures var all := s.pending + [seqNo];
            Min(1024, |all|) <= |all| && Send(s, seqNo).pending == Last(all, Min(1024, |all|))
  {
  }

  /** A record under the next serial number. */
  function Append(s: State, eventType: U64, timestamp: nat, fields: seq<(string, string)>): State {
    s.(serial := s.serial + 1, history := s.history + [Record(eventType, timestamp, s.serial, fields)])
  }

  predicate Skips(s: State) {
    !s.config.enabled || IsExcluded(s.rules.excludeRules, SYSCALL)
  }

  /** The rate limiter lets a call at this second through. */
  predicate Passes(s: State, now: nat) {
    s.config.rateLimit == 0 || CountRate(s, now).rateCount <= s.config.rateLimit
  }

  /** A call's record goes to the daemon's queue and to the log. */
  function Emitted(s: State, ctx: SyscallContext, timestamp: nat): State {
    Append(Send(s, s.serial), SYSCALL, timestamp, ctx.rendered).(backlog := s.backlog + 1)
  }

  /** The state after a logged call, or nothing if the kernel panicked. */
  function AfterSyscall(s: State, ctx: SyscallContext, timestamp: nat): Option<State> {
    if Skips(s) then Some(s)
    else
      var counted := CountRate(s, timestamp / 1000);
      if !Passes(s, timestamp / 1000) then Some(counted.(lost := s.lost + 1))
      else if Suppressed(s.rules.exitRules, ctx) then Some(counted)
      else if s.backlog >= s.config.backlogLimit then
        if s.config.failureMode == Panic then None else Some(counted.(lost := s.lost + 1))
      else
        Some(Emitted(counted, ctx, timestamp))
  }

  predicate RecordsEvent(s: State, eventType: U64) {
    s.config.enabled && !IsExcluded(s.rules.excludeRules, eventType)
  }

  function AfterEvent(s: State, eventType: U64, timestamp: nat, fields: seq<(string, string)>): State
  {
    if RecordsEvent(s, eventType) then Append(s, eventType, timestamp, fields) else s
  }

  predicate RecordsAccess(s: State, path: string, access: set<Perm>) {
    s.config.enabled && Watched(s.rules.fileWatches, path, access)
  }

  function AfterFileAccess(s: State, path: string, access: set<Perm>, timestamp: nat, fields: seq<(string, string)>): State {
    if RecordsAccess(s, path, access) then Append(s, PATH, timestamp, fields) else s
  }

  // ---- In place -----------------------------------------------------------

  class AuditSystem {
    const log: AuditLogBuffer
    var config: Config
    var rules: RuleEngine
    var serial: nat
    var backlog: nat
    var lost: nat
    var rateCount: nat
    var rateEpoch: nat
    var daemon: bool
    var pending: seq<nat>

    ghost predicate Valid()
      reads this, log, log.entries
    {
      log.Valid() && log.capacity == LOG_CAPACITY
    }

    ghost function Abs(): State
      reads this, log
    {
      State(config, rules, log.history, serial, backlog, lost, rateCount, rateEpoch, daemon, pending)
    }

    constructor ()
      ensures Valid() && fresh(log) && fresh(log.entries) && Abs() == NewState()
    {
      log := new AuditLogBuffer(LOG_CAPACITY);
      config, rules := Config(true, 8192, Printk, 0), RuleEngine([], [], []);
      serial, backlog, lost, rateCount, rateEpoch, daemon, pending := 1, 0, 0, 0, 0, false, [];
    }

    method CheckRateLimit(now: nat) returns (ok: bool)
      modifies this`rateCount, this`rateEpoch
      ensures Abs() == CountRate(old(Abs()), now)
      ensures ok == Passes(old(Abs()), now)
    {
      if config.rateLimit == 0 {
        return true;
      }
      if now != rateEpoch {
        rateEpoch, rateCount := now, 0;
      }
      rateCount := rateCount + 1;
      return rateCount <= config.rateLimit;
    }

    method NextSerial() returns (n: nat)
      modifies this`serial
      ensures n == old(serial) && serial == n + 1
    {
      n := serial;
      serial := serial + 1;
    }

    method SendToDaemon(seqNo: nat)
      modifies this`pending
      ensures Abs() == Send(old(Abs()), seqNo)
    {
      if !daemon {
        return;
      }
      if |pending| >= MAX_QUEUE {
        pending := pending[1..];
      }
      pending := pending + [seqNo];
    }

    method LogSyscall(ctx: SyscallContext, timestamp: nat) returns (panicked: bool)
      requires Valid()
      modifies this, log, log.entries
      ensures Valid()
      ensures panicked == AfterSyscall(old(Abs()), ctx, timestamp).None?
      ensures !panicked ==> Abs() == AfterSyscall(old(Abs()), ctx, timestamp).value
    {
      hide IsExcluded, Suppressed, Emitted;
      if !config.enabled {
        return false;
      }
      var excluded := CheckExcluded(rules.excludeRules, SYSCALL);
      if excluded {
        return false;
      }
      var passes := CheckRateLimit(timestamp / 1000);
      if !passes {
        lost := lost + 1;
        return false;
      }
      var action := EvaluateExit(rules.exitRules, ctx);
      if action == Some(Never) {
        return false;
      }
      if backlog >= config.backlogLimit {
        if config.failureMode == Panic {
          return true;
        }
        lost := lost + 1;
        return false;
      }
      Emit(ctx, timestamp);
      return false;
    }

    method Emit(ctx: SyscallContext, timestamp: nat)
      requires Valid()
      modifies this`serial, this`pending, this`backlog, log, log.entries
      ensures Valid()
      ensures Abs() == Emitted(old(Abs()), ctx, timestamp)
    {
      var n := NextSerial();
      SendToDaemon(n);
      log.Write(Record(SYSCALL, timestamp, n, ctx.rendered));
      backlog := backlog + 1;
    }

    method LogEvent(eventType: U64, timestamp: nat, fields: seq<(string, string)>)
      requires Valid()
      modifies this`serial, log, log.entries
      ensures Valid()
      ensures Abs() == AfterEvent(old(Abs()), eventType, timestamp, fields)
    {
      if !config.enabled {
        return;
      }
      var excluded := CheckExcluded(rules.excludeRules, eventType);
      if excluded {
        return;
      }
      var n := NextSerial();
      log.Write(Record(eventType, timestamp, n, fields));
    }

    method LogFileAccess(path: string, access: set<Perm>, timestamp: nat, fields: seq<(string, string)>)
      requires Valid()
      modifies this`serial, log, log.entries
      ensures Valid()
      ensures Abs() == AfterFileAccess(old(Abs()), path, access, timestamp, fields)
    {
      if !config.enabled {
        return;
      }
      var matched := CheckFileWatch(rules.fileWatches, path, access);
      if !matched {
        return;
      }
      var n := NextSerial();
      log.Write(Record(PATH, timestamp, n, fields));
    }
  }
}
