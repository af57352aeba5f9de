/** Game and attestation sessions: the system calls of kernel/src/anticheat.rs. */
module AntiCheat {
  import opened Wrappers
  import opened Arithmetic

  type Pid = nat

  datatype Status = Active | Suspicious | Flagged | Banned | Disconnected

  /** What is recorded about a process. */
  datatype Integrity = Integrity(violations: nat, trusted: bool)

  datatype Game = Game(sessionId: nat, integrity: Integrity, interval: nat, lastHeartbeat: nat, status: Status)

  datatype Session = Session(pid: Pid, expiresAt: nat, answered: bool, verified: bool)

  datatype Manager = Manager(
    games: map<Pid, Game>, processes: map<Pid, Integrity>, sessions: map<nat, Session>,
    nextGame: nat, nextSession: nat)

  const OK: nat := 0
  const ERR_NOT_INITIALIZED: nat := 1
  const ERR_INVALID_SESSION: nat := 2
  const ERR_ALREADY_REGISTERED: nat := 4
  const ERR_NOT_REGISTERED: nat := 5
  const ERR_EXPIRED: nat := 6
  const ERR_BAD_ARGS: nat := 7
  const ERR_PERM: nat := 8
  /** The policy's longest session, in seconds. */
  const MAX_SESSION_SECS: nat := 86400
  const MS_PER_SEC: nat := 1000
  const WORD: nat := 0x1_0000_0000_0000_0000

  /** The calling task and its attestation rights. */
  datatype Caller = Caller(pid: Pid, canRead: bool, canWrite: bool, isDaemon: bool)

  datatype Op = Request | Verify | Register | Unregister | Report | Query | Heartbeat

  /** One system call: the caller, if there is a current task, the arguments, the
      kernel clock in milliseconds, and whether boot chain, kernel and the hashes of
      the process's pages would all be found clean. */
  datatype Call = Call(op: Op, caller: Option<Caller>, args: seq<nat>, now: nat, clean: bool)

  function NewManager(): Manager {
    Manager(map[], map[], map[], 1, 1)
  }

  // ---- What each call does ------------------------------------------------

  /** The capability gate, then the ownership gate; no task means no access. */
  predicate Gate(caller: Option<Caller>, pid: Pid, needWrite: bool) {
    && caller.Some?
    && (if needWrite then caller.value.canWrite else caller.value.canRead)
    && (caller.value.pid == pid || caller.value.isDaemon)
  }

  function Arity(op: Op): nat {
    match op
    case Request => 3
    case Verify => 2
    case Register => 4
    case Unregister => 1
    case Report => 4
    case Query => 1
    case Heartbeat => 2
  }

  function Violated(i: Integrity): Integrity {
    Integrity(i.violations + 1, false)
  }

  function StatusFor(violations: nat): Status {
    if violations <= 2 then Suspicious else if violations <= 5 then Flagged else Banned
  }

  function StatusCode(s: Status): nat {
    match s
    case Active => 0
    case Suspicious => 1
    case Flagged => 2
    case Banned => 3
    case Disconnected => 4
  }

  function Step(m: Manager, c: Call): (Manager, nat) {
    if |c.args| < Arity(c.op) then (m, ERR_BAD_ARGS)
    else if c.op == Verify then VerifyStep(m, c)
    else
      var pid := c.args[0];
      if !Gate(c.caller, pid, c.op != Query) then (m, ERR_PERM)
      else if c.op == Register then RegisterStep(m, c)
      else if pid !in m.games then (m, ERR_NOT_REGISTERED)
      else
        match c.op
        case Request => RequestStep(m, pid, c.now)
        case Unregister => (UnregisterStep(m, pid), OK)
        case Report => (ReportStep(m, pid), OK)
        case Query => (m, StatusCode(m.games[pid].status))
        case Heartbeat => HeartbeatStep(m, pid, c.now)
  }

  function RequestStep(m: Manager, pid: Pid, now: nat): (Manager, nat) {
    (m.(sessions := m.sessions[m.nextSession := Session(pid, now + MAX_SESSION_SECS, false, false)],
        nextSession := m.nextSession + 1),
     m.nextSession)
  }

  function UnregisterStep(m: Manager, pid: Pid): Manager {
    m.(games := m.games - {pid}, processes := m.processes - {pid}, sessions := Without(m.sessions, pid))
  }

  function ReportStep(m: Manager, pid: Pid): Manager
    requires pid in m.games
  {
    var i := Violated(m.games[pid].integrity);
    m.(games := m.games[pid := m.games[pid].(integrity := i, status := StatusFor(i.violations))])
  }

  /** The sessions of all other processes. */
  function Without(sessions: map<nat, Session>, pid: Pid): map<nat, Session> {
    map id | id in sessions && sessions[id].pid != pid :: sessions[id]
  }

  function RegisterStep(m: Manager, c: Call): (Manager, nat)
    requires |c.args| >= 4
  {
    var pid := c.args[0];
    if pid in m.games then (m, ERR_ALREADY_REGISTERED)
    else
      var i := if pid in m.processes then m.processes[pid] else Integrity(0, true);
      (m.(games := m.games[pid := Game(m.nextGame, i, c.args[2], c.now, Active)],
          processes := m.processes[pid := i], nextGame := m.nextGame + 1),
       OK)
  }

  /** The gate is on the process that owns the session. */
  function VerifyStep(m: Manager, c: Call): (Manager, nat)
    requires |c.args| >= 2
  {
    var id := c.args[0];
    if id !in m.sessions then (m, ERR_INVALID_SESSION)
    else if !Gate(c.caller, m.sessions[id].pid, false) then (m, ERR_PERM)
    else if c.now >= m.sessions[id].expiresAt then (m, ERR_EXPIRED)
    else
      var verified := c.clean && m.sessions[id].pid in m.processes;
      (m.(sessions := m.sessions[id := m.sessions[id].(answered := true, verified := verified)]),
       if verified then OK else ERR_INVALID_SESSION)
  }

  /** The last instant for the next heartbeat, in 64-bit arithmetic that wraps. */
  function Deadline(g: Game): nat {
    (g.lastHeartbeat + g.interval * 3 % WORD) % WORD
  }

  /** Only an active game can miss its deadline; a later heartbeat revives it. */
  function HeartbeatStep(m: Manager, pid: Pid, now: nat): (Manager, nat)
    requires pid in m.games
  {
    var g := m.games[pid];
    if now > Deadline(g) && g.status == Active
    then (m.(games := m.games[pid := g.(status := Disconnected)]), ERR_EXPIRED)
    else
      (m.(games := m.games[pid := g.(lastHeartbeat := now, status := if g.status == Disconnected then Active else g.status)]),
       OK)
  }

  function Run(m: Manager, calls: seq<Call>): Manager
    decreases |calls|
  {
    if calls == [] then m else Run(Step(m, calls[0]).0, calls[1..])
  }

  // ---- Over every run -----------------------------------------------------

  /** The status is determined by the violations. */
  predicate Consistent(g: Game) {
    && g.integrity.trusted == (g.integrity.violations == 0)
    && match g.status
       case Active => g.integrity.violations == 0
       case Disconnected => g.integrity.violations == 0
       case Suspicious => 1 <= g.integrity.violations <= 2
       case Flagged => 3 <= g.integrity.violations <= 5
       case Banned => 6 <= g.integrity.violations
  }

  /** Registered games and protected processes are the same. */
  ghost predicate GamesInv(m: Manager) {
    && m.games.Keys == m.processes.Keys
    && (forall p :: p in m.processes ==> m.processes[p] == Integrity(0, true))
    && (forall p :: p in m.games ==> Consistent(m.games[p]) && m.games[p].sessionId < m.nextGame)
  }

  /** Every attestation session has its own old id and a registered game. */
  ghost predicate SessionsInv(m: Manager) {
    forall id :: id in m.sessions ==>
      && id < m.nextSession && m.sessions[id].pid in m.games
      && (m.sessions[id].verified ==> m.sessions[id].answered)
  }

  ghost predicate Inv(m: Manager) {
    GamesInv(m) && SessionsInv(m)
  }

  lemma StepKeeps(m: Manager, c: Call)
    requires Inv(m)
    ensures Inv(Step(m, c).0)
  {
    hide Consistent, StatusFor;
    if |c.args| >= Arity(c.op) {
      if c.op == Verify {
        VerifyKeeps(m, c);
      } else if c.op == Register {
        RegisterKeeps(m, c);
      } else if c.args[0] in m.games {
        GameStepKeeps(m, c.args[0], c.now);
      }
    }
    hide GamesInv, SessionsInv, VerifyStep, RegisterStep, RequestStep, UnregisterStep, ReportStep, HeartbeatStep, Gate;
  }

  lemma VerifyKeeps(m: Manager, c: Call)
    requires Inv(m) && |c.args| >= 2
    ensures Inv(VerifyStep(m, c).0)
  {
    hide Gate, Consistent;
  }

  lemma RegisterKeeps(m: Manager, c: Call)
    requires Inv(m) && |c.args| >= 4
    ensures Inv(RegisterStep(m, c).0)
  {
  }

  lemma GameStepKeeps(m: Manager, pid: Pid, now: nat)
    requires Inv(m) && pid in m.games
    ensures Inv(RequestStep(m, pid, now).0) && Inv(UnregisterStep(m, pid))
    ensures Inv(ReportStep(m, pid)) && Inv(HeartbeatStep(m, pid, now).0)
  {
    hide Inv, RequestStep, UnregisterStep, ReportStep, HeartbeatStep;
    RequestKeeps(m, pid, now);
    UnregisterKeeps(m, pid);
    ReportKeeps(m, pid);
    HeartbeatKeeps(m, pid, now);
  }

  lemma RequestKeeps(m: Manager, pid: Pid, now: nat)
    requires Inv(m) && pid in m.games
    ensures Inv(RequestStep(m, pid, now).0)
  {
    hide Consistent;
  }

  lemma UnregisterKeeps(m: Manager, pid: Pid)
    requires Inv(m)
    ensures Inv(UnregisterStep(m, pid))
  {
    hide Consistent;
    var n := UnregisterStep(m, pid);
    assert n.games.Keys == n.processes.Keys;
    assert forall p :: p in n.games ==> n.games[p] == m.games[p];
    assert forall id :: id in n.sessions ==> n.sessions[id] == m.sessions[id];
  }

  lemma ReportKeeps(m: Manager, pid: Pid)
    requires Inv(m) && pid in m.games
    ensures Inv(ReportStep(m, pid))
  {
    assert Consistent(m.games[pid]);
  }

  lemma HeartbeatKeeps(m: Manager, pid: Pid, now: nat)
    requires Inv(m) && pid in m.games
    ensures Inv(HeartbeatStep(m, pid, now).0)
  {
    assert Consistent(m.games[pid]);
  }

  /** Every run from a new manager keeps registered games and protected processes
      in step, every attestation session with a registered game, and every status
      with its violation count. */
  lemma {:induction false} RunKeeps(m: Manager, calls: seq<Call>)
    requires Inv(m)
    ensures Inv(Run(m, calls))
    decreases |calls|
  {
    if calls != [] {
      StepKeeps(m, calls[0]);
      RunKeeps(Step(m, calls[0]).0, calls[1..]);
    }
  }

  lemma NewManagerInv()
    ensures Inv(NewManager())
  {
  }

  // ---- Session ids --------------------------------------------------------

  /** The call creates an attestation session. */
  predicate Creates(m: Manager, c: Call) {
    c.op == Request && |c.args| >= 3 && Gate(c.caller, c.args[0], true) && c.args[0] in m.games
  }

  /** The ids that the requests of a run return on success. */
  function Issued(m: Manager, calls: seq<Call>): seq<nat>
    decreases |calls|
  {
    if calls == [] then []
    else
      (if Creates(m, calls[0]) then [Step(m, calls[0]).1] else []) + Issued(Step(m, calls[0]).0, calls[1..])
  }

  /** Ids are issued in sequence, so that none is ever reused. */
  lemma {:induction false} IdsAreNeverReused(m: Manager, calls: seq<Call>)
    ensures forall i :: 0 <= i < |Issued(m, calls)| ==> Issued(m, calls)[i] == m.nextSession + i
    ensures Run(m, calls).nextSession == m.nextSession + |Issued(m, calls)|
    decreases |calls|
  {
    if calls != [] {
      var next := Step(m, calls[0]).0;
      assert next.nextSession == m.nextSession + if Creates(m, calls[0]) then 1 else 0;
      IdsAreNeverReused(next, calls[1..]);
    }
  }

  /** A call before or after the manager exists. */
  function Dispatch(g: Option<Manager>, c: Call): (Option<Manager>, nat) {
    if g.Some? then (Some(Step(g.value, c).0), Step(g.value, c).1)
    else if |c.args| < Arity(c.op) then (None, ERR_BAD_ARGS)
    else if c.op != Verify && !Gate(c.caller, c.args[0], c.op != Query) then (None, ERR_PERM)
    else (None, ERR_NOT_INITIALIZED)
  }

  predicate Succeeds(g: Option<Manager>, c: Call) {
    g.Some? && Creates(g.value, c)
  }

  const REQUEST_ERRORS: set<nat> := {ERR_NOT_INITIALIZED, ERR_NOT_REGISTERED, ERR_BAD_ARGS, ERR_PERM}

  /** A result that no failing request ever returns. */
  ghost predicate Clear(result: nat) {
    forall g: Option<Manager>, c: Call {:trigger Succeeds(g, c)} ::
      c.op == Request && !Succeeds(g, c) ==> Dispatch(g, c).1 != result
  }

  lemma ClearIff(result: nat, pid: Pid, caller: Option<Caller>)
    requires Gate(caller, pid, true)
    ensures Clear(result) <==> result !in REQUEST_ERRORS
  {
    FailingRequests(pid, caller);
    forall g: Option<Manager>, c: Call {:trigger Succeeds(g, c)} | c.op == Request && !Succeeds(g, c)
      ensures Dispatch(g, c).1 in REQUEST_ERRORS
    {
    }
  }

  /** In every run from a new manager the k-th successful request returns k. The
      caller can tell it from a failure exactly when k is not 1, 5, 7 or 8. */
  lemma RequestResultIsClearIff(calls: seq<Call>, c: Call)
    requires var m := Run(NewManager(), calls); c.op == Request && Succeeds(Some(m), c)
    ensures var k := |Issued(NewManager(), calls)| + 1;
            var result := Dispatch(Some(Run(NewManager(), calls)), c).1;
            result == k && (Clear(result) <==> k !in {1, 5, 7, 8})
  {
    hide Run, Issued, Clear;
    IdsAreNeverReused(NewManager(), calls);
    ClearIff(|Issued(NewManager(), calls)| + 1, c.args[0], c.caller);
  }

  /** The first session of the first game looks like a manager that is missing. */
  lemma FirstRequestLooksFailed(pid: Pid, caller: Option<Caller>, now: nat)
    requires Gate(caller, pid, true)
    ensures var register := Call(Register, caller, [pid, 0, 0, 0], now, true);
            var request := Call(Request, caller, [pid, 0, 0], now, true);
            var m := Run(NewManager(), [register]);
            && Succeeds(Some(m), request) && Dispatch(Some(m), request).1 == ERR_NOT_INITIALIZED
            && !Succeeds(None, request) && Dispatch(None, request).1 == ERR_NOT_INITIALIZED
  {
    var register := Call(Register, caller, [pid, 0, 0, 0], now, true);
    assert Run(NewManager(), [register]) == Run(Step(NewManager(), register).0, []);
    assert Run(Step(NewManager(), register).0, []) == Step(NewManager(), register).0;
  }

  lemma FailingRequests(pid: Pid, caller: Option<Caller>)
    requires Gate(caller, pid, true)
    ensures var short := Call(Request, caller, [], 0, true); !Succeeds(None, short) && Dispatch(None, short).1 == ERR_BAD_ARGS
    ensures var denied := Call(Request, None, [pid, 0, 0], 0, true); !Succeeds(None, denied) && Dispatch(None, denied).1 == ERR_PERM
    ensures var early := Call(Request, caller, [pid, 0, 0], 0, true);
            && !Succeeds(None, early) && Dispatch(None, early).1 == ERR_NOT_INITIALIZED
            && !Succeeds(Some(NewManager()), early) && Dispatch(Some(NewManager()), early).1 == ERR_NOT_REGISTERED
  {
  }

  // ---- Isolation ----------------------------------------------------------

  /** Everything recorded about one process is the same. */
  ghost predicate SameFor(m: Manager, n: Manager, pid: Pid) {
    && (pid in m.games <==> pid in n.games) && (pid in m.games ==> m.games[pid] == n.games[pid])
    && (pid in m.processes <==> pid in n.processes) && (pid in m.processes ==> m.processes[pid] == n.processes[pid])
    && (forall id :: (id in m.sessions && m.sessions[id].pid == pid) <==> (id in n.sessions && n.sessions[id].pid == pid))
    && (forall id :: id in m.sessions && m.sessions[id].pid == pid ==> n.sessions[id] == m.sessions[id])
  }

  predicate Unprivileged(caller: Option<Caller>, pid: Pid) {
    caller.None? || (caller.value.pid != pid && !caller.value.isDaemon)
  }

  lemma UnprivilegedStep(m: Manager, c: Call, pid: Pid)
    requires SessionsInv(m) && Unprivileged(c.caller, pid)
    ensures SameFor(m, Step(m, c).0, pid)
  {
    if |c.args| >= Arity(c.op) {
      if c.op == Verify {
        VerifyApart(m, c, pid);
      } else if c.args[0] != pid {
        GamesApart(m, c, pid);
      }
    }
    hide VerifyStep, RegisterStep, RequestStep, UnregisterStep, ReportStep, HeartbeatStep;
  }

  lemma VerifyApart(m: Manager, c: Call, pid: Pid)
    requires Unprivileged(c.caller, pid) && |c.args| >= 2
    ensures SameFor(m, VerifyStep(m, c).0, pid)
  {
  }

  lemma GamesApart(m: Manager, c: Call, pid: Pid)
    requires SessionsInv(m) && |c.args| > 0 && c.args[0] != pid
    ensures |c.args| >= 4 ==> SameFor(m, RegisterStep(m, c).0, pid)
    ensures SameFor(m, RequestStep(m, c.args[0], c.now).0, pid)
    ensures SameFor(m, UnregisterStep(m, c.args[0]), pid)
    ensures c.args[0] in m.games ==>
              SameFor(m, ReportStep(m, c.args[0]), pid) && SameFor(m, HeartbeatStep(m, c.args[0], c.now).0, pid)
  {
  }

  lemma {:induction false} IsolatedFrom(m: Manager, calls: seq<Call>, pid: Pid)
    requires Inv(m) && forall i :: 0 <= i < |calls| ==> Unprivileged(calls[i].caller, pid)
    ensures SameFor(m, Run(m, calls), pid)
    decreases |calls|
  {
    if calls != [] {
      var next := Step(m, calls[0]).0;
      UnprivilegedStep(m, calls[0], pid);
      StepKeeps(m, calls[0]);
      IsolatedFrom(next, calls[1..], pid);
    }
  }

  /** In every run from a new manager, no stretch of calls by other tasks without
      the daemon right, or by no task at all, changes anything that is recorded
      about a process. */
  lemma ProcessesAreIsolated(earlier: seq<Call>, calls: seq<Call>, pid: Pid)
    requires forall i :: 0 <= i < |calls| ==> Unprivileged(calls[i].caller, pid)
    ensures SameFor(Run(NewManager(), earlier), Run(Run(NewManager(), earlier), calls), pid)
  {
    NewManagerInv();
    RunKeeps(NewManager(), earlier);
    IsolatedFrom(Run(NewManager(), earlier), calls, pid);
  }

  // ---- Session lifetime ---------------------------------------------------

  lemma SessionStep(m: Manager, c: Call, id: nat)
    requires id < m.nextSession && id in Step(m, c).0.sessions
    ensures id in m.sessions
    ensures Step(m, c).0.sessions[id].pid == m.sessions[id].pid
    ensures Step(m, c).0.sessions[id].expiresAt == m.sessions[id].expiresAt
  {
    hide Gate;
  }

  /** A session that is still there has its first owner and deadline. */
  lemma {:induction false} SessionStays(m: Manager, calls: seq<Call>, id: nat)
    requires id < m.nextSession && id in Run(m, calls).sessions
    ensures id in m.sessions
    ensures Run(m, calls).sessions[id].pid == m.sessions[id].pid
    ensures Run(m, calls).sessions[id].expiresAt == m.sessions[id].expiresAt
    decreases |calls|
  {
    if calls != [] {
      var next := Step(m, calls[0]).0;
      assert next.nextSession >= m.nextSession;
      SessionStays(next, calls[1..], id);
      SessionStep(m, calls[0], id);
    }
  }

  /** The end that the policy promises to a session requested at `t`. */
  function PolicyEnd(t: nat): nat {
    t + MAX_SESSION_SECS * MS_PER_SEC
  }

  /** After any run from a new manager that leaves a session in place, an admitted
      verification succeeds exactly when it is clean and comes within 86400
      milliseconds, because the seconds of the policy are added to a clock in
      milliseconds; in time but not clean it reports an invalid session, and late it
      reports expiry. Code and policy disagree exactly about clean verifications in
      the rest of the promised day. */
  lemma SessionLifetime(earlier: seq<Call>, request: Call, calls: seq<Call>, verify: Call)
    requires var m := Run(NewManager(), earlier);
             && Creates(m, request) && Gate(verify.caller, request.args[0], false)
             && verify.op == Verify && |verify.args| >= 2 && verify.args[0] == m.nextSession
             && m.nextSession in Run(Step(m, request).0, calls).sessions
    ensures var code := Step(Run(Step(Run(NewManager(), earlier), request).0, calls), verify).1;
            && (code == OK <==> verify.clean && verify.now < request.now + 86400)
            && (code == ERR_INVALID_SESSION <==> !verify.clean && verify.now < request.now + 86400)
            && (code == ERR_EXPIRED <==> verify.now >= request.now + 86400)
            && ((code == OK <==> verify.clean && verify.now < PolicyEnd(request.now)) <==>
                !(verify.clean && request.now + 86400 <= verify.now < PolicyEnd(request.now)))
  {
    hide Gate, Run, Consistent;
    var m := Run(NewManager(), earlier);
    NewManagerInv();
    RunKeeps(NewManager(), earlier);
    SessionStays(Step(m, request).0, calls, m.nextSession);
    StepKeeps(m, request);
    RunKeeps(Step(m, request).0, calls);
  }

  /** A task that holds the right, on itself or as a daemon. */
  predicate Admitted(caller: Option<Caller>, pid: Pid, write: bool) {
    match caller
    case None => false
    case Some(c) => (c.pid == pid || c.isDaemon) && ((write && c.canWrite) || (!write && c.canRead))
  }

  /** A verification of the session by an admitted caller, before its deadline. */
  predicate InTime(m: Manager, c: Call, id: nat) {
    && c.op == Verify && |c.args| >= 2 && c.args[0] == id && id in m.sessions
    && Admitted(c.caller, m.sessions[id].pid, false) && c.now < m.sessions[id].expiresAt
  }

  /** Whether the last such verification of a run was clean, if there was one. */
  function LastInTime(m: Manager, calls: seq<Call>, id: nat): Option<bool>
    decreases |calls|
  {
    if calls == [] then None
    else
      var later := LastInTime(Step(m, calls[0]).0, calls[1..], id);
      if later.Some? then later else if InTime(m, calls[0], id) then Some(calls[0].clean) else None
  }

  lemma VerifiedStep(m: Manager, c: Call, id: nat)
    requires Inv(m) && id < m.nextSession && id in Step(m, c).0.sessions
    ensures id in m.sessions
    ensures var s, t := m.sessions[id], Step(m, c).0.sessions[id];
            if InTime(m, c, id) then t.answered && t.verified == c.clean else t.answered == s.answered && t.verified == s.verified
  {
    hide Consistent;
  }

  lemma {:induction false} VerifiedRun(m: Manager, calls: seq<Call>, id: nat)
    requires Inv(m) && id < m.nextSession && id in Run(m, calls).sessions
    ensures id in m.sessions
    ensures var s, t, last := m.sessions[id], Run(m, calls).sessions[id], LastInTime(m, calls, id);
            && t.answered == (s.answered || last.Some?)
            && t.verified == if last.Some? then last.value else s.verified
    decreases |calls|
  {
    hide InTime, Inv;
    if calls != [] {
      var next := Step(m, calls[0]).0;
      StepKeeps(m, calls[0]);
      NextSessionGrows(m, calls[0]);
      hide Step;
      VerifiedRun(next, calls[1..], id);
      VerifiedStep(m, calls[0], id);
    }
  }

  lemma NextSessionGrows(m: Manager, c: Call)
    ensures Step(m, c).0.nextSession >= m.nextSession
  {
    hide Gate, Without;
  }

  /** In every run from a new manager a session is recorded as answered exactly when
      it was verified in time, and as verified exactly when the last such
      verification was clean. */
  lemma VerifiedIffLastClean(earlier: seq<Call>, request: Call, calls: seq<Call>)
    requires var m := Run(NewManager(), earlier);
             Creates(m, request) && m.nextSession in Run(Step(m, request).0, calls).sessions
    ensures var m := Run(NewManager(), earlier);
            var s, last := Run(Step(m, request).0, calls).sessions[m.nextSession], LastInTime(Step(m, request).0, calls, m.nextSession);
            s.answered == last.Some? && s.verified == (last == Some(true))
  {
    hide Run, LastInTime, Consistent, Gate;
    var m := Run(NewManager(), earlier);
    NewManagerInv();
    RunKeeps(NewManager(), earlier);
    StepKeeps(m, request);
    VerifiedRun(Step(m, request).0, calls, m.nextSession);
  }

  /** The code of every verification: of no session, by a caller that is not admitted
      to it, too late, and in time. */
  lemma VerifyResultsAre(m: Manager, c: Call)
    requires Inv(m) && c.op == Verify && |c.args| >= 2
    ensures var code, id := Step(m, c).1, c.args[0];
            code == if id !in m.sessions then 2
                    else if !Admitted(c.caller, m.sessions[id].pid, false) then 8
                    else if c.now >= m.sessions[id].expiresAt then 6
                    else if c.clean then 0 else 2
  {
    hide Consistent;
  }

  /** The code of every admitted call, by what is registered. */
  lemma ResultsAre(m: Manager, c: Call)
    requires |c.args| >= Arity(c.op) && c.op != Verify && Admitted(c.caller, c.args[0], c.op != Query)
    ensures var code, known := Step(m, c).1, c.args[0] in m.games;
            && (c.op == Register ==> code == if known then 4 else 0)
            && (c.op != Register && !known ==> code == 5)
            && ((c.op == Unregister || c.op == Report) && known ==> code == 0)
            && (c.op == Heartbeat && known ==>
                code == if m.games[c.args[0]].status == Active && c.now > Deadline(m.games[c.args[0]]) then 6 else 0)
  {
    hide Without, Deadline;
  }

  /** Callers that are not admitted get exactly the permission error, and change
      nothing; admitted ones never do, unless it is the id of their new session. */
  lemma DeniedIff(m: Manager, c: Call)
    requires |c.args| >= Arity(c.op) && c.op != Verify
    ensures !Admitted(c.caller, c.args[0], c.op != Query) ==> Step(m, c) == (m, 8)
    ensures Admitted(c.caller, c.args[0], c.op != Query) && !Creates(m, c) ==> Step(m, c).1 != 8
  {
    hide Without, Deadline;
  }

  /** A minute and a half into the promised day the session is gone. */
  lemma SessionEndsEarly(caller: Option<Caller>, pid: Pid, t: nat)
    requires Gate(caller, pid, true) && Gate(caller, pid, false)
    ensures var register := Call(Register, caller, [pid, 0, 0, 0], t, true);
            var request := Call(Request, caller, [pid, 0, 0], t, true);
            var verify := Call(Verify, caller, [1, 0], t + 90 * MS_PER_SEC, true);
            && verify.now < PolicyEnd(t)
            && Step(Step(Step(NewManager(), register).0, request).0, verify).1 == ERR_EXPIRED
  {
  }

  // ---- Violations ---------------------------------------------------------

  /** The call records a violation of the process. */
  predicate Reports(m: Manager, c: Call, pid: Pid) {
    c.op == Report && |c.args| >= 4 && c.args[0] == pid && Gate(c.caller, pid, true) && pid in m.games
  }

  /** The call takes the process out of protection. */
  predicate Unregisters(m: Manager, c: Call, pid: Pid) {
    c.op == Unregister && |c.args| >= 1 && c.args[0] == pid && Gate(c.caller, pid, true) && pid in m.games
  }

  /** The violations reported since the last time the game was unregistered, `n` of
      them before the run. */
  function ReportedSince(m: Manager, calls: seq<Call>, pid: Pid, n: nat): nat
    decreases |calls|
  {
    if calls == [] then n
    else
      var c := calls[0];
      ReportedSince(Step(m, c).0, calls[1..], pid, if Unregisters(m, c, pid) then 0 else if Reports(m, c, pid) then n + 1 else n)
  }

  /** The violations on record; a process that is not registered has none. */
  function Violations(m: Manager, pid: Pid): nat {
    if pid in m.games then m.games[pid].integrity.violations else 0
  }

  lemma {:induction false} ViolationsAccumulate(m: Manager, calls: seq<Call>, pid: Pid)
    requires Inv(m)
    ensures Violations(Run(m, calls), pid) == ReportedSince(m, calls, pid, Violations(m, pid))
    decreases |calls|
  {
    if calls != [] {
      StepKeeps(m, calls[0]);
      ViolationStep(m, calls[0], pid);
      ViolationsAccumulate(Step(m, calls[0]).0, calls[1..], pid);
    }
  }

  lemma ViolationStep(m: Manager, c: Call, pid: Pid)
    requires GamesInv(m)
    ensures Violations(Step(m, c).0, pid) ==
            if Unregisters(m, c, pid) then 0
            else if Reports(m, c, pid) then Violations(m, pid) + 1
            else Violations(m, pid)
  {
    hide Consistent;
  }

  /** Every run from a new manager: the status of a registered game is determined
      by the violations reported since it was last unregistered. */
  lemma StatusTellsReports(calls: seq<Call>, pid: Pid)
    ensures Inv(Run(NewManager(), calls))
    ensures pid in Run(NewManager(), calls).games ==>
              var g, n := Run(NewManager(), calls).games[pid], ReportedSince(NewManager(), calls, pid, 0);
              && g.integrity.violations == n && Consistent(g)
              && (n == 0 <==> g.status in {Active, Disconnected})
              && (n > 0 ==> g.status == StatusFor(n))
  {
    hide Run, ReportedSince;
    NewManagerInv();
    RunKeeps(NewManager(), calls);
    ViolationsAccumulate(NewManager(), calls, pid);
  }

  /** The call is a query that is answered. */
  predicate Answers(g: Option<Manager>, c: Call) {
    g.Some? && c.op == Query && |c.args| >= 1 && Gate(c.caller, c.args[0], false) && c.args[0] in g.value.games
  }

  /** A result that no refused query ever returns. */
  ghost predicate ClearAnswer(result: nat) {
    forall g: Option<Manager>, c: Call {:trigger Answers(g, c)} ::
      c.op == Query && !Answers(g, c) ==> Dispatch(g, c).1 != result
  }

  lemma ClearAnswerIff(result: nat, pid: Pid, caller: Option<Caller>)
    requires Gate(caller, pid, false)
    ensures ClearAnswer(result) <==> result !in REQUEST_ERRORS
  {
    forall g: Option<Manager>, c: Call {:trigger Answers(g, c)} | c.op == Query && !Answers(g, c)
      ensures Dispatch(g, c).1 in REQUEST_ERRORS
    {
    }
    var short, denied := Call(Query, caller, [], 0, true), Call(Query, None, [pid], 0, true);
    var early := Call(Query, caller, [pid], 0, true);
    assert !Answers(None, short) && Dispatch(None, short).1 == ERR_BAD_ARGS;
    assert !Answers(None, denied) && Dispatch(None, denied).1 == ERR_PERM;
    assert !Answers(None, early) && Dispatch(None, early).1 == ERR_NOT_INITIALIZED;
    assert !Answers(Some(NewManager()), early) && Dispatch(Some(NewManager()), early).1 == ERR_NOT_REGISTERED;
  }

  /** In every run from a new manager the answer about a game can be told from a
      refusal exactly when it is not suspicious, that is, unless one or two
      violations were reported since it was last unregistered. */
  lemma QueryResultIsClearIff(calls: seq<Call>, c: Call)
    requires Answers(Some(Run(NewManager(), calls)), c)
    ensures var g := Some(Run(NewManager(), calls));
            ClearAnswer(Dispatch(g, c).1) <==> !(1 <= ReportedSince(NewManager(), calls, c.args[0], 0) <= 2)
  {
    hide Run, ReportedSince, ClearAnswer;
    var m := Run(NewManager(), calls);
    StatusTellsReports(calls, c.args[0]);
    ClearAnswerIff(StatusCode(m.games[c.args[0]].status), c.args[0], c.caller);
  }

  /** A banned game with the write right clears its own record: it unregisters and
      registers again, and is active without a violation. */
  lemma BannedStartsOver(m: Manager, pid: Pid, caller: Caller, now: nat)
    requires Inv(m) && pid in m.games && m.games[pid].status == Banned && caller.pid == pid && caller.canWrite
    ensures var leave := Call(Unregister, Some(caller), [pid], now, true);
            var back := Call(Register, Some(caller), [pid, 0, 0, 0], now, true);
            var n := Step(Step(m, leave).0, back).0;
            pid in n.games && n.games[pid].status == Active && n.games[pid].integrity == Integrity(0, true)
  {
    hide Consistent;
  }

  /** Verification does not look at the record: whatever is reported about a game,
      a verification gives the code that it would have given before. */
  lemma VerificationIgnoresReports(m: Manager, pid: Pid, verify: Call)
    requires pid in m.games && verify.op == Verify
    ensures Step(ReportStep(m, pid), verify).1 == Step(m, verify).1
  {
  }

  /** What a query answers, from the reports since the game was last unregistered:
      0 or 4 for none, then 1, 2 and 3 at one, three and six violations. */
  lemma QueryTells(calls: seq<Call>, c: Call)
    requires Answers(Some(Run(NewManager(), calls)), c)
    ensures var m, n := Run(NewManager(), calls), ReportedSince(NewManager(), calls, c.args[0], 0);
            var code := Step(m, c).1;
            && (n == 0 ==> code == if m.games[c.args[0]].status == Disconnected then 4 else 0)
            && (n > 0 ==> code == if n <= 2 then 1 else if n <= 5 then 2 else 3)
  {
    hide Run, ReportedSince;
    StatusTellsReports(calls, c.args[0]);
  }

  // ---- Heartbeats ---------------------------------------------------------

  /** A heartbeat at `now` disconnects the game. */
  predicate Disconnects(m: Manager, pid: Pid, now: nat)
    requires pid in m.games
  {
    m.games[pid].status == Active && HeartbeatStep(m, pid, now).0.games[pid].status == Disconnected
  }

  /** An accepted heartbeat brings a disconnected game back and changes no other
      status; a late one disconnects an active game. */
  lemma HeartbeatStatus(m: Manager, c: Call)
    requires c.op == Heartbeat && |c.args| >= 2 && Admitted(c.caller, c.args[0], true) && c.args[0] in m.games
    ensures var before, g := m.games[c.args[0]].status, Step(m, c).0.games;
            && c.args[0] in g
            && g[c.args[0]].status ==
               if Step(m, c).1 == 6 then Disconnected else if before == Disconnected then Active else before
  {
    hide Deadline;
  }

  /** The call registers the process, or is a heartbeat of it that is accepted. */
  predicate Contacts(m: Manager, c: Call, pid: Pid) {
    && (c.op == Register || c.op == Heartbeat) && |c.args| >= Arity(c.op) && c.args[0] == pid
    && Step(m, c).1 == 0
  }

  /** The time of the last such call, `t` if there is none. */
  function LastContact(m: Manager, calls: seq<Call>, pid: Pid, t: nat): nat
    decreases |calls|
  {
    if calls == [] then t
    else LastContact(Step(m, calls[0]).0, calls[1..], pid, if Contacts(m, calls[0], pid) then calls[0].now else t)
  }

  lemma ContactStep(m: Manager, c: Call, pid: Pid)
    requires pid in Step(m, c).0.games
    ensures pid !in m.games ==> Contacts(m, c, pid) && Step(m, c).0.games[pid].interval == c.args[2]
    ensures Step(m, c).0.games[pid].lastHeartbeat == if Contacts(m, c, pid) then c.now else m.games[pid].lastHeartbeat
    ensures pid in m.games ==> Step(m, c).0.games[pid].interval == m.games[pid].interval
  {
    hide Consistent, Deadline;
  }

  /** In every run the deadline of a registered game counts from its registration or
      its last accepted heartbeat, whichever is later. */
  lemma {:induction false} HeartbeatsAreKept(m: Manager, calls: seq<Call>, pid: Pid, t: nat)
    requires pid in m.games ==> m.games[pid].lastHeartbeat == t
    requires pid in Run(m, calls).games
    ensures Run(m, calls).games[pid].lastHeartbeat == LastContact(m, calls, pid, t)
    decreases |calls|
  {
    hide Contacts;
    if calls != [] {
      var next := Step(m, calls[0]).0;
      if pid in next.games {
        ContactStep(m, calls[0], pid);
      }
      hide Step;
      HeartbeatsAreKept(next, calls[1..], pid, if Contacts(m, calls[0], pid) then calls[0].now else t);
    }
  }

  /** At every time of the 64-bit clock an active game is disconnected by exactly
      the heartbeats more than three intervals late, if and only if that deadline
      fits into 64 bits or wraps to the last instant. */
  lemma DeadlineIsThreeIntervalsIff(m: Manager, pid: Pid)
    requires pid in m.games && m.games[pid].status == Active
    ensures var g := m.games[pid];
            var due := g.lastHeartbeat + 3 * g.interval;
            (forall now: nat {:trigger Disconnects(m, pid, now)} :: now < WORD ==> (Disconnects(m, pid, now) <==> now > due))
            <==> due < WORD || due % WORD == WORD - 1
  {
    var g := m.games[pid];
    DeadlineWraps(g);
    assert forall now: nat {:trigger Disconnects(m, pid, now)} :: Disconnects(m, pid, now) <==> now > Deadline(g);
    assert Disconnects(m, pid, WORD - 1) <==> WORD - 1 > Deadline(g);
  }

  /** An interval of a third of the clock's range disconnects a game whose heartbeat
      comes three milliseconds after it registered. */
  lemma HugeIntervalDisconnects(caller: Option<Caller>, pid: Pid, t: nat)
    requires Gate(caller, pid, true) && t + 3 < WORD
    ensures var register := Call(Register, caller, [pid, 0, WORD / 3 + 1, 0], t, true);
            var beat := Call(Heartbeat, caller, [pid, 0], t + 3, true);
            var m := Step(NewManager(), register).0;
            && Step(m, beat).1 == ERR_EXPIRED && pid in Step(m, beat).0.games
            && Step(m, beat).0.games[pid].status == Disconnected
  {
    hide Gate;
    var register := Call(Register, caller, [pid, 0, WORD / 3 + 1, 0], t, true);
    var m := Step(NewManager(), register).0;
    assert m.games[pid] == Game(1, Integrity(0, true), WORD / 3 + 1, t, Active);
    assert (WORD / 3 + 1) * 3 % WORD == 2;
    assert Deadline(m.games[pid]) == t + 2;
  }

  lemma DeadlineWraps(g: Game)
    ensures Deadline(g) == (g.lastHeartbeat + 3 * g.interval) % WORD < WORD
  {
    var p := g.interval * 3;
    var s := g.lastHeartbeat + p % WORD;
    assert g.lastHeartbeat + p == (p / WORD + s / WORD) * WORD + s % WORD;
    RemainderUnique(g.lastHeartbeat + p, WORD, p / WORD + s / WORD, s % WORD);
  }

  // ---- In place -----------------------------------------------------------

  class AntiCheatManager {
    var games: map<Pid, Game>
    var processes: map<Pid, Integrity>
    var sessions: map<nat, Session>
    var nextGame: nat
    var nextSession: nat

    ghost function State(): Manager
      reads this
    {
      Manager(games, processes, sessions, nextGame, nextSession)
    }

    constructor ()
      ensures State() == NewManager()
    {
      games, processes, sessions, nextGame, nextSession := map[], map[], map[], 1, 1;
    }

    method RequestAttestation(caller: Option<Caller>, args: seq<nat>, now: nat) returns (code: nat)
      modifies this
      ensures State() == Step(old(State()), Call(Request, caller, args, now, true)).0
      ensures code == Step(old(State()), Call(Request, caller, args, now, true)).1
    {
      if |args| < 3 {
        return ERR_BAD_ARGS;
      }
      if !Gate(caller, args[0], true) {
        return ERR_PERM;
      }
      if args[0] !in games {
        return ERR_NOT_REGISTERED;
      }
      code := nextSession;
      nextSession := nextSession + 1;
      sessions := sessions[code := Session(args[0], now + MAX_SESSION_SECS, false, false)];
    }

    method VerifyAttestation(caller: Option<Caller>, args: seq<nat>, now: nat, clean: bool) returns (code: nat)
      modifies this
      ensures State() == Step(old(State()), Call(Verify, caller, args, now, clean)).0
      ensures code == Step(old(State()), Call(Verify, caller, args, now, clean)).1
    {
      if |args| < 2 {
        return ERR_BAD_ARGS;
      }
      var id := args[0];
      if id !in sessions {
        return ERR_INVALID_SESSION;
      }
      if !Gate(caller, sessions[id].pid, false) {
        return ERR_PERM;
      }
      if now >= sessions[id].expiresAt {
        return ERR_EXPIRED;
      }
      var verified := clean && sessions[id].pid in processes;
      sessions := sessions[id := sessions[id].(answered := true, verified := verified)];
      return if verified then OK else ERR_INVALID_SESSION;
    }

    method RegisterGame(caller: Option<Caller>, args: seq<nat>, now: nat) returns (code: nat)
      modifies this
      ensures State() == Step(old(State()), Call(Register, caller, args, now, true)).0
      ensures code == Step(old(State()), Call(Register, caller, args, now, true)).1
    {
      if |args| < 4 {
        return ERR_BAD_ARGS;
      }
      var pid := args[0];
      if !Gate(caller, pid, true) {
        return ERR_PERM;
      }
      if pid in games {
        return ERR_ALREADY_REGISTERED;
      }
      var id := nextGame;
      nextGame := nextGame + 1;
      if pid !in processes {
        processes := processes[pid := Integrity(0, true)];
      }
      assert processes == processes[pid := processes[pid]];
      games := games[pid := Game(id, processes[pid], args[2], now, Active)];
      return OK;
    }

    method UnregisterGame(caller: Option<Caller>, args: seq<nat>) returns (code: nat)
      modifies this
      ensures State() == Step(old(State()), Call(Unregister, caller, args, 0, true)).0
      ensures code == Step(old(State()), Call(Unregister, caller, args, 0, true)).1
    {
      if |args| < 1 {
        return ERR_BAD_ARGS;
      }
      var pid := args[0];
      if !Gate(caller, pid, true) {
        return ERR_PERM;
      }
      if pid !in games {
        return ERR_NOT_REGISTERED;
      }
      games := games - {pid};
      processes := processes - {pid};
      RemoveSessions(pid);
      return OK;
    }

    /** Collects the ids of the process's sessions, then removes each. */
    method RemoveSessions(pid: Pid)
      modifies this`sessions
      ensures sessions == Without(old(sessions), pid)
    {
      var pending := set id | id in sessions && sessions[id].pid == pid;
      ghost var all := pending;
      while pending != {}
        invariant pending <= all
        invariant sessions == map id | id in old(sessions) && (id in all ==> id in pending) :: old(sessions)[id]
        decreases pending
      {
        var id :| id in pending;
        sessions := sessions - {id};
        pending := pending - {id};
      }
    }

    method ReportViolation(caller: Option<Caller>, args: seq<nat>) returns (code: nat)
      modifies this
      ensures State() == Step(old(State()), Call(Report, caller, args, 0, true)).0
      ensures code == Step(old(State()), Call(Report, caller, args, 0, true)).1
    {
      if |args| < 4 {
        return ERR_BAD_ARGS;
      }
      var pid := args[0];
      if !Gate(caller, pid, true) {
        return ERR_PERM;
      }
      if pid !in games {
        return ERR_NOT_REGISTERED;
      }
      var i := Violated(games[pid].integrity);
      games := games[pid := games[pid].(integrity := i, status := StatusFor(i.violations))];
      return OK;
    }

    method QueryStatus(caller: Option<Caller>, args: seq<nat>) returns (code: nat)
      ensures code == Step(State(), Call(Query, caller, args, 0, true)).1
    {
      if |args| < 1 {
        return ERR_BAD_ARGS;
      }
      if !Gate(caller, args[0], false) {
        return ERR_PERM;
      }
      if args[0] !in games {
        return ERR_NOT_REGISTERED;
      }
      return StatusCode(games[args[0]].status);
    }

    method SendHeartbeat(caller: Option<Caller>, args: seq<nat>, now: nat) returns (code: nat)
      modifies this
      ensures State() == Step(old(State()), Call(Heartbeat, caller, args, now, true)).0
      ensures code == Step(old(State()), Call(Heartbeat, caller, args, now, true)).1
    {
      if |args| < 2 {
        return ERR_BAD_ARGS;
      }
      var pid := args[0];
      if !Gate(caller, pid, true) {
        return ERR_PERM;
      }
      if pid !in games {
        return ERR_NOT_REGISTERED;
      }
      var g := games[pid];
      if now > Deadline(g) && g.status == Active {
        games := games[pid := g.(status := Disconnected)];
        return ERR_EXPIRED;
      }
      g := g.(lastHeartbeat := now);
      if g.status == Disconnected {
        g := g.(status := Active);
      }
      games := games[pid := g];
      return OK;
    }
  }
}
