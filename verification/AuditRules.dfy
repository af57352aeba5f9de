/** Audit rules of kernel/src/audit.rs and how they select system calls. */
module AuditRules {
  import opened Bytes
  import opened Wrappers

  /** `Unset` stands for the other fields that a system call has no value for. */
  datatype Field = Pid | Uid | Gid | LoginUid | SessionId | Exit | Success | A0 | A1 | A2 | A3 | Arch | MsgType | Unset(code: nat)

  datatype Operator = Equal | NotEqual | GreaterThan | LessThan | GreaterThanOrEqual | LessThanOrEqual | BitMask | BitTest

  datatype Condition = Condition(field: Field, operator: Operator, value: U64)

  datatype Action = Never | Always

  const SYSCALL_BITS: nat := 512

  /** The eight mask words are the set of system calls whose bit is set. */
  datatype Rule = Rule(action: Action, conditions: seq<Condition>, syscalls: set<nat>)

  datatype Perm = Read | Write | Execute | Attr

  datatype FileWatch = FileWatch(path: string, perm: set<Perm>)

  /** The lists that logging consults. */
  datatype RuleEngine = RuleEngine(exitRules: seq<Rule>, excludeRules: seq<Rule>, fileWatches: seq<FileWatch>)

  /** The parts of a system call that rules can look at, as 64-bit words, and the
      text of the record that it would produce. */
  datatype SyscallContext = SyscallContext(
    nr: nat, arch: U64, a0: U64, a1: U64, a2: U64, a3: U64, exitCode: U64, success: bool,
    pid: U64, uid: U64, gid: U64, ses: U64, auid: U64, rendered: seq<(string, string)>)

  /** The bitwise conjunction. */
  function And(x: nat, y: nat): nat
    decreases x
  {
    if x == 0 || y == 0 then 0 else (if x % 2 == 1 && y % 2 == 1 then 1 else 0) + 2 * And(x / 2, y / 2)
  }

  predicate Evaluate(op: Operator, fieldValue: U64, ruleValue: U64) {
    match op
    case Equal => fieldValue == ruleValue
    case NotEqual => fieldValue != ruleValue
    case GreaterThan => fieldValue > ruleValue
    case LessThan => fieldValue < ruleValue
    case GreaterThanOrEqual => fieldValue >= ruleValue
    case LessThanOrEqual => fieldValue <= ruleValue
    case BitMask => And(fieldValue, ruleValue) != 0
    case BitTest => And(fieldValue, ruleValue) == ruleValue
  }

  function FieldValue(ctx: SyscallContext, field: Field): U64 {
    match field
    case Pid => ctx.pid
    case Uid => ctx.uid
    case Gid => ctx.gid
    case LoginUid => ctx.auid
    case SessionId => ctx.ses
    case Exit => ctx.exitCode
    case Success => if ctx.success then 1 else 0
    case A0 => ctx.a0
    case A1 => ctx.a1
    case A2 => ctx.a2
    case A3 => ctx.a3
    case Arch => ctx.arch
    case MsgType => 0
    case Unset(_) => 0
  }

  predicate MatchesSyscall(rule: Rule, nr: nat) {
    nr < SYSCALL_BITS && nr in rule.syscalls
  }

  predicate Satisfies(ctx: SyscallContext, c: Condition) {
    Evaluate(c.operator, FieldValue(ctx, c.field), c.value)
  }

  /** All conditions must hold, and an empty list holds. */
  predicate Matches(rule: Rule, ctx: SyscallContext) {
    && MatchesSyscall(rule, ctx.nr)
    && forall i :: 0 <= i < |rule.conditions| ==> Satisfies(ctx, rule.conditions[i])
  }

  /** Rule `i` decides: it is the first that matches. */
  predicate FirstMatch(rules: seq<Rule>, ctx: SyscallContext, i: nat) {
    && i < |rules|
    && Matches(rules[i], ctx)
    && forall j :: 0 <= j < i ==> !Matches(rules[j], ctx)
  }

  /** The call is suppressed: the first matching rule says never. */
  predicate Suppressed(rules: seq<Rule>, ctx: SyscallContext) {
    exists i :: 0 <= i < |rules| && FirstMatch(rules, ctx, i) && rules[i].action == Never
  }

  predicate Excludes(rule: Rule, eventType: U64) {
    exists i :: 0 <= i < |rule.conditions| && rule.conditions[i] == Condition(MsgType, Equal, eventType)
  }

  predicate IsExcluded(rules: seq<Rule>, eventType: U64) {
    exists i :: 0 <= i < |rules| && Excludes(rules[i], eventType)
  }

  predicate Watched(watches: seq<FileWatch>, path: string, access: set<Perm>) {
    exists i :: 0 <= i < |watches| && watches[i].path == path && watches[i].perm * access != {}
  }

  // ---- What conditions mean -----------------------------------------------

  /** Bit `i` of a word. */
  predicate Bit(v: nat, i: nat) {
    if i == 0 then v % 2 == 1 else Bit(v / 2, i - 1)
  }

  lemma {:induction false} ZeroHasNoBit(i: nat)
    ensures !Bit(0, i)
  {
    if i > 0 {
      ZeroHasNoBit(i - 1);
    }
  }

  /** A bit is in the conjunction exactly when it is in both words. */
  lemma {:induction false} AndBit(x: nat, y: nat, i: nat)
    ensures Bit(And(x, y), i) <==> Bit(x, i) && Bit(y, i)
    decreases x
  {
    if x == 0 || y == 0 {
      ZeroHasNoBit(i);
    } else if i > 0 {
      AndBit(x / 2, y / 2, i - 1);
      assert And(x, y) / 2 == And(x / 2, y / 2);
    }
  }

  lemma {:induction false} NonzeroHasBit(v: nat) returns (i: nat)
    requires v != 0
    ensures Bit(v, i)
    decreases v
  {
    if v % 2 == 1 {
      i := 0;
    } else {
      var j := NonzeroHasBit(v / 2);
      i := j + 1;
    }
  }

  lemma {:induction false} DifferHaveBit(x: nat, y: nat) returns (i: nat)
    requires x != y
    ensures Bit(x, i) != Bit(y, i)
    decreases x + y
  {
    if x % 2 != y % 2 {
      i := 0;
    } else {
      var j := DifferHaveBit(x / 2, y / 2);
      i := j + 1;
    }
  }

  /** The two bit operators, bit by bit: BitTest asks for every bit of the rule's
      value, BitMask for some common bit. */
  lemma BitOperatorsMean(field: U64, rule: U64)
    ensures Evaluate(BitTest, field, rule) <==> forall i: nat :: Bit(rule, i) ==> Bit(field, i)
    ensures Evaluate(BitMask, field, rule) <==> exists i: nat :: Bit(rule, i) && Bit(field, i)
  {
    hide And, Bit;
    BitTestMeans(field, rule);
    BitMaskMeans(field, rule);
  }

  lemma BitTestMeans(field: U64, rule: U64)
    ensures And(field, rule) == rule <==> forall i: nat :: Bit(rule, i) ==> Bit(field, i)
  {
    hide And, Bit;
    var both := And(field, rule);
    if both != rule {
      var i := DifferHaveBit(both, rule);
      AndBit(field, rule, i);
      assert Bit(rule, i) && !Bit(field, i);
    } else {
      forall i: nat | Bit(rule, i)
        ensures Bit(field, i)
      {
        AndBit(field, rule, i);
      }
    }
  }

  lemma BitMaskMeans(field: U64, rule: U64)
    ensures And(field, rule) != 0 <==> exists i: nat :: Bit(rule, i) && Bit(field, i)
  {
    hide And, Bit;
    var both := And(field, rule);
    if both != 0 {
      var i := NonzeroHasBit(both);
      AndBit(field, rule, i);
      assert Bit(rule, i) && Bit(field, i);
    } else {
      forall i: nat
        ensures !(Bit(rule, i) && Bit(field, i))
      {
        AndBit(field, rule, i);
        ZeroHasNoBit(i);
      }
    }
  }

  /** The comparisons: exactly one of LessThan, Equal and GreaterThan holds, the one
      that the order of the words says, and the other three are their negations. */
  lemma ComparisonsMean(field: U64, rule: U64)
    ensures field < rule ==> Evaluate(LessThan, field, rule) && !Evaluate(Equal, field, rule) && !Evaluate(GreaterThan, field, rule)
    ensures field == rule ==> !Evaluate(LessThan, field, rule) && Evaluate(Equal, field, rule) && !Evaluate(GreaterThan, field, rule)
    ensures field > rule ==> !Evaluate(LessThan, field, rule) && !Evaluate(Equal, field, rule) && Evaluate(GreaterThan, field, rule)
    ensures Evaluate(NotEqual, field, rule) != Evaluate(Equal, field, rule)
    ensures Evaluate(GreaterThanOrEqual, field, rule) != Evaluate(LessThan, field, rule)
    ensures Evaluate(LessThanOrEqual, field, rule) != Evaluate(GreaterThan, field, rule)
  {
  }

  /** A rule for one value of one field. */
  function OnlyFor(field: Field, value: U64, syscalls: set<nat>): Rule {
    Rule(Never, [Condition(field, Equal, value)], syscalls)
  }

  /** A rule whose only condition is that a field equals a value matches exactly the
      covered calls that have that value there. Numbers from 512 on are covered by
      no rule, and a field without a value is zero. */
  lemma EqualRuleMatches(ctx: SyscallContext, v: U64, calls: set<nat>)
    ensures var covered := ctx.nr < SYSCALL_BITS && ctx.nr in calls;
            && (Matches(OnlyFor(Pid, v, calls), ctx) <==> covered && ctx.pid == v)
            && (Matches(OnlyFor(Uid, v, calls), ctx) <==> covered && ctx.uid == v)
            && (Matches(OnlyFor(Gid, v, calls), ctx) <==> covered && ctx.gid == v)
            && (Matches(OnlyFor(LoginUid, v, calls), ctx) <==> covered && ctx.auid == v)
            && (Matches(OnlyFor(SessionId, v, calls), ctx) <==> covered && ctx.ses == v)
            && (Matches(OnlyFor(Exit, v, calls), ctx) <==> covered && ctx.exitCode == v)
            && (Matches(OnlyFor(Success, v, calls), ctx) <==> covered && v == if ctx.success then 1 else 0)
            && (Matches(OnlyFor(A0, v, calls), ctx) <==> covered && ctx.a0 == v)
            && (Matches(OnlyFor(A1, v, calls), ctx) <==> covered && ctx.a1 == v)
            && (Matches(OnlyFor(A2, v, calls), ctx) <==> covered && ctx.a2 == v)
            && (Matches(OnlyFor(A3, v, calls), ctx) <==> covered && ctx.a3 == v)
            && (Matches(OnlyFor(Arch, v, calls), ctx) <==> covered && ctx.arch == v)
            && (Matches(OnlyFor(MsgType, v, calls), ctx) <==> covered && v == 0)
  {
    hide Matches;
    OnlyForMatches(ctx, Pid, v, calls);
    OnlyForMatches(ctx, Uid, v, calls);
    OnlyForMatches(ctx, Gid, v, calls);
    OnlyForMatches(ctx, LoginUid, v, calls);
    OnlyForMatches(ctx, SessionId, v, calls);
    OnlyForMatches(ctx, Exit, v, calls);
    OnlyForMatches(ctx, Success, v, calls);
    OnlyForMatches(ctx, A0, v, calls);
    OnlyForMatches(ctx, A1, v, calls);
    OnlyForMatches(ctx, A2, v, calls);
    OnlyForMatches(ctx, A3, v, calls);
    OnlyForMatches(ctx, Arch, v, calls);
    OnlyForMatches(ctx, MsgType, v, calls);
  }

  lemma OnlyForMatches(ctx: SyscallContext, field: Field, v: U64, calls: set<nat>)
    ensures Matches(OnlyFor(field, v, calls), ctx) <==>
            ctx.nr < SYSCALL_BITS && ctx.nr in calls && FieldValue(ctx, field) == v
  {
    hide FieldValue;
    var rule := OnlyFor(field, v, calls);
    assert rule.conditions[0] == Condition(field, Equal, v);
  }

  /** The first rule decides if it matches, and otherwise the rest do. */
  lemma FirstRuleDecides(rule: Rule, rest: seq<Rule>, ctx: SyscallContext)
    ensures Suppressed([rule] + rest, ctx) <==> if Matches(rule, ctx) then rule.action == Never else Suppressed(rest, ctx)
    ensures !Suppressed([], ctx)
  {
    hide Matches, FirstMatch;
    var rules := [rule] + rest;
    if Matches(rule, ctx) {
      MatchAtOnce(rule, rest, ctx);
      assert rules[0] == rule;
    } else {
      if Suppressed(rest, ctx) {
        var i :| 0 <= i < |rest| && FirstMatch(rest, ctx, i) && rest[i].action == Never;
        MatchLater(rule, rest, ctx, i);
        assert rules[i + 1] == rest[i];
      }
      if Suppressed(rules, ctx) {
        var i :| 0 <= i < |rules| && FirstMatch(rules, ctx, i) && rules[i].action == Never;
        NotAtOnce(rule, rest, ctx);
        MatchLater(rule, rest, ctx, i - 1);
        assert rules[i] == rest[i - 1];
      }
    }
  }

  lemma MatchAtOnce(rule: Rule, rest: seq<Rule>, ctx: SyscallContext)
    requires Matches(rule, ctx)
    ensures forall i :: 0 <= i < |rest| + 1 ==> (FirstMatch([rule] + rest, ctx, i) <==> i == 0)
  {
    hide Matches;
    assert ([rule] + rest)[0] == rule;
  }

  lemma NotAtOnce(rule: Rule, rest: seq<Rule>, ctx: SyscallContext)
    requires !Matches(rule, ctx)
    ensures !FirstMatch([rule] + rest, ctx, 0)
  {
    hide Matches;
    assert ([rule] + rest)[0] == rule;
  }

  lemma MatchLater(rule: Rule, rest: seq<Rule>, ctx: SyscallContext, i: nat)
    requires !Matches(rule, ctx) && i < |rest|
    ensures FirstMatch(rest, ctx, i) <==> FirstMatch([rule] + rest, ctx, i + 1)
  {
    hide Matches;
    var rules := [rule] + rest;
    assert rules[0] == rule && rules[i + 1] == rest[i];
    if FirstMatch(rest, ctx, i) {
      forall j | 0 <= j < i + 1
        ensures !Matches(rules[j], ctx)
      {
        assert j > 0 ==> rules[j] == rest[j - 1];
      }
    }
    if FirstMatch(rules, ctx, i + 1) {
      forall j | 0 <= j < i
        ensures !Matches(rest[j], ctx)
      {
        assert rules[j + 1] == rest[j];
      }
    }
  }

  /** An exclude rule with one condition excludes exactly the named type, and only
      by equality of the message type. */
  lemma ExcludeRuleMeans(action: Action, c: Condition, calls: set<nat>, eventType: U64)
    ensures IsExcluded([Rule(action, [c], calls)], eventType) <==>
            c.field == MsgType && c.operator == Equal && c.value == eventType
  {
    var rule := Rule(action, [c], calls);
    if IsExcluded([rule], eventType) {
      assert Excludes([rule][0], eventType);
    }
    if c == Condition(MsgType, Equal, eventType) {
      assert rule.conditions[0] == c;
      assert Excludes([rule][0], eventType);
    }
  }

  /** A watch covers exactly its own path, for accesses that share a permission. */
  lemma WatchMeans(watch: FileWatch, path: string, access: set<Perm>)
    ensures Watched([watch], path, access) <==> path == watch.path && exists p :: p in watch.perm && p in access
  {
    if path == watch.path && watch.perm * access != {} {
      var p :| p in watch.perm * access;
      assert [watch][0] == watch;
    }
    if path == watch.path && exists p :: p in watch.perm && p in access {
      var p :| p in watch.perm && p in access;
      assert p in watch.perm * access && [watch][0] == watch;
    }
  }

  /** More rules only add to what is excluded. */
  lemma ListsAddUp(a: seq<Rule>, b: seq<Rule>, eventType: U64)
    ensures IsExcluded(a + b, eventType) <==> IsExcluded(a, eventType) || IsExcluded(b, eventType)
  {
    hide Excludes;
    if IsExcluded(a, eventType) {
      var i :| 0 <= i < |a| && Excludes(a[i], eventType);
      assert (a + b)[i] == a[i];
    }
    if IsExcluded(b, eventType) {
      var i :| 0 <= i < |b| && Excludes(b[i], eventType);
      assert (a + b)[|a| + i] == b[i];
    }
  }

  // ---- The loops ----------------------------------------------------------

  method AllConditionsHold(conditions: seq<Condition>, ctx: SyscallContext) returns (all: bool)
    ensures all <==> forall i :: 0 <= i < |conditions| ==> Satisfies(ctx, conditions[i])
  {
    for i := 0 to |conditions|
      invariant forall j :: 0 <= j < i ==> Satisfies(ctx, conditions[j])
    {
      if !Evaluate(conditions[i].operator, FieldValue(ctx, conditions[i].field), conditions[i].value) {
        assert !Satisfies(ctx, conditions[i]);
        return false;
      }
    }
    return true;
  }

  /** The action of the first matching rule, if any rule matches. */
  method EvaluateExit(rules: seq<Rule>, ctx: SyscallContext) returns (r: Option<Action>)
    ensures r.Some? ==> exists i :: 0 <= i < |rules| && FirstMatch(rules, ctx, i) && rules[i].action == r.value
    ensures r.None? ==> forall i :: 0 <= i < |rules| ==> !Matches(rules[i], ctx)
    ensures r == Some(Never) <==> Suppressed(rules, ctx)
  {
    for i := 0 to |rules|
      invariant forall j :: 0 <= j < i ==> !Matches(rules[j], ctx)
    {
      if !MatchesSyscall(rules[i], ctx.nr) {
        continue;
      }
      var all := AllConditionsHold(rules[i].conditions, ctx);
      if all {
        assert FirstMatch(rules, ctx, i);
        return Some(rules[i].action);
      }
    }
    return None;
  }

  method CheckExcluded(rules: seq<Rule>, eventType: U64) returns (r: bool)
    ensures r <==> IsExcluded(rules, eventType)
  {
    for i := 0 to |rules|
      invariant forall j :: 0 <= j < i ==> !Excludes(rules[j], eventType)
    {
      for k := 0 to |rules[i].conditions|
        invariant forall j :: 0 <= j < k ==> rules[i].conditions[j] != Condition(MsgType, Equal, eventType)
      {
        var c := rules[i].conditions[k];
        if c.field == MsgType && c.operator == Equal && c.value == eventType {
          assert Excludes(rules[i], eventType);
          return true;
        }
      }
    }
    return false;
  }

  method CheckFileWatch(watches: seq<FileWatch>, path: string, access: set<Perm>) returns (found: bool)
    ensures found <==> Watched(watches, path, access)
  {
    for i := 0 to |watches|
      invariant forall j :: 0 <= j < i ==> !(watches[j].path == path && watches[j].perm * access != {})
    {
      if watches[i].path == path && watches[i].perm * access != {} {
        return true;
      }
    }
    return false;
  }
}
