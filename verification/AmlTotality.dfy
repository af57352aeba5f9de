/** Parsing arbitrary bytes: totality, progress, balance, and the amortised cost. */
module AmlTotality {
  import opened Arithmetic
  import opened Bytes
  import opened AmlNamespace
  import opened AmlLexer
  import opened AmlParser

  /** Parsing only extends the namespace, and leaves scope stack and depth alone. */
  ghost predicate Keeps(before: Interp, after: Interp) {
    && Extends(after.ns, before.ns)
    && after.depth == before.depth
    && after.budget <= before.budget
  }

  /** The outcome of one term at `pos`: no error, a position behind the first
      byte, and at most one unit of budget per further byte of the term. */
  ghost predicate TermOutcome(st: Interp, aml: seq<Byte>, pos: nat, out: (Interp, Result<nat>)) {
    && out.1.Ok?
    && out.1.value > pos
    && Keeps(st, out.0)
    && st.budget - out.0.budget <= Min(out.1.value, |aml|) - pos - 1
  }

  lemma {:induction false} InScopeOutcome(st: Interp, name: Text, body: seq<Byte>)
    requires WellFormed(st.ns)
    ensures Keeps(st, InScope(st, name, body))
    ensures st.budget - InScope(st, name, body).budget <= |body|
    decreases |body|, 6
  {
    var entered := st.(ns := PushScope(st.ns, name));
    PushScopeWellFormed(st.ns, name);
    TermListOutcome(entered, body, 0);
    PushPopBalanced(st.ns, name, TermList(entered, body, 0).0.ns);
  }

  lemma DeclareKeeps(st: Interp, name: Text, value: AmlValue)
    requires WellFormed(st.ns)
    ensures Keeps(st, Declare(st, name, value))
  {
    InsertExtends(st.ns, name, value);
  }

  lemma {:induction false} DeclareInScopeOutcome(st: Interp, name: Text, value: AmlValue, body: seq<Byte>)
    requires WellFormed(st.ns)
    ensures Keeps(st, Declare(st, name, value))
    ensures Keeps(st, InScope(Declare(st, name, value), name, body))
    ensures st.budget - InScope(Declare(st, name, value), name, body).budget <= |body|
    decreases |body|, 7
  {
    DeclareKeeps(st, name, value);
    InScopeOutcome(Declare(st, name, value), name, body);
  }

  lemma {:induction false} PackageBodyOutcome(
    st: Interp, aml: seq<Byte>, kind: PackageKind, name: Text, p: nat, end: nat)
    requires WellFormed(st.ns) && 0 < p && end <= |aml|
    ensures Keeps(st, PackageBody(st, aml, kind, name, p, end))
    ensures st.budget - PackageBody(st, aml, kind, name, p, end).budget <= if p <= end then end - p else 0
    decreases |aml|, 0
  {
    match kind
    case ScopeKind =>
      if p <= end {
        InScopeOutcome(st, name, aml[p..end]);
      }
    case MethodKind =>
      if p < end {
        DeclareKeeps(st, name, MethodValue(aml[p], aml[p + 1..end]));
      }
    case DeviceKind =>
      if p <= end {
        DeclareInScopeOutcome(st, name, Device(name), aml[p..end]);
      } else {
        DeclareKeeps(st, name, Device(name));
        PushPopRestoresIff(Declare(st, name, Device(name)).ns, name);
      }
    case ProcessorKind =>
      if p + 5 < |aml| {
        var value := Processor(aml[p], Le32(aml[p + 1..p + 5]), aml[p + 5]);
        if p + 6 <= end {
          DeclareInScopeOutcome(st, name, value, aml[p + 6..end]);
        } else {
          DeclareKeeps(st, name, value);
        }
      }
    case PowerResourceKind =>
      if p + 3 <= |aml| {
        var value := PowerResource(aml[p], Le16(aml[p + 1..p + 3]));
        if p + 3 <= end {
          DeclareInScopeOutcome(st, name, value, aml[p + 3..end]);
        } else {
          DeclareKeeps(st, name, value);
        }
      }
    case ThermalZoneKind =>
      if p <= end {
        DeclareInScopeOutcome(st, name, ThermalZone(name), aml[p..end]);
      } else {
        DeclareKeeps(st, name, ThermalZone(name));
      }
  }

  lemma {:induction false} PackageOutcome(st: Interp, aml: seq<Byte>, pos: nat, kind: PackageKind)
    requires WellFormed(st.ns) && pos + kind.OperatorSize() <= |aml|
    ensures TermOutcome(st, aml, pos, PackageTerm(st, aml, pos, kind))
    decreases |aml|, 1
  {
    match StartPackage(aml, pos, kind.OperatorSize())
    case NoLength(_) =>
    case Named(name, p, end) =>
      PackageBodyOutcome(st, aml, kind, name, p, end);
  }

  lemma NamedBodyOutcome(st: Interp, aml: seq<Byte>, pos: nat, kind: NamedKind, name: Text, p: nat)
    requires WellFormed(st.ns) && pos < p && pos < |aml|
    ensures TermOutcome(st, aml, pos, NamedBody(st, aml, kind, name, p))
  {
    match kind
    case NameKind =>
      DeclareKeeps(st, name, ParseDataObject(aml, p).0);
    case OpRegionKind =>
      if p < |aml| {
        var (offset, lengthPos) := ParseInteger(aml, p + 1);
        DeclareKeeps(st, name, OpRegion(aml[p], offset, ParseInteger(aml, lengthPos).0));
      }
    case MutexKind =>
      if p < |aml| {
        DeclareKeeps(st, name, Mutex(aml[p] % 16));
      }
    case EventKind =>
      DeclareKeeps(st, name, Event);
  }

  lemma NamedOutcome(st: Interp, aml: seq<Byte>, pos: nat, kind: NamedKind)
    requires WellFormed(st.ns) && pos < |aml|
    ensures TermOutcome(st, aml, pos, NamedTerm(st, aml, pos, kind))
  {
    var (name, p) := ParseNameString(aml, pos + kind.OperatorSize());
    NamedBodyOutcome(st, aml, pos, kind, name, p);
  }

  /** For every byte string and in-range position a term never fails, strictly
      advances, keeps the scope stack and depth, only adds to a well-formed
      namespace, and spends less budget than it has bytes. */
  lemma {:induction false} TermNeverFails(st: Interp, aml: seq<Byte>, pos: nat)
    requires WellFormed(st.ns) && pos < |aml|
    ensures TermOutcome(st, aml, pos, Term(st, aml, pos))
    decreases |aml|, 3
  {
    if aml[pos] == 0x08 {
      NamedOutcome(st, aml, pos, NameKind);
    } else if aml[pos] == 0x10 {
      PackageOutcome(st, aml, pos, ScopeKind);
    } else if aml[pos] == 0x14 {
      PackageOutcome(st, aml, pos, MethodKind);
    } else if aml[pos] == 0x5B && pos + 1 < |aml| {
      ExtendedTermNeverFails(st, aml, pos);
    }
  }

  lemma {:induction false} ExtendedTermNeverFails(st: Interp, aml: seq<Byte>, pos: nat)
    requires WellFormed(st.ns) && pos + 1 < |aml| && aml[pos] == 0x5B
    ensures TermOutcome(st, aml, pos, ExtendedTerm(st, aml, pos))
    decreases |aml|, 2
  {
    var op := aml[pos + 1];
    if op == 0x80 {
      NamedOutcome(st, aml, pos, OpRegionKind);
    } else if op == 0x82 {
      PackageOutcome(st, aml, pos, DeviceKind);
    } else if op == 0x83 {
      PackageOutcome(st, aml, pos, ProcessorKind);
    } else if op == 0x84 {
      PackageOutcome(st, aml, pos, PowerResourceKind);
    } else if op == 0x85 {
      PackageOutcome(st, aml, pos, ThermalZoneKind);
    } else if op == 0x01 {
      NamedOutcome(st, aml, pos, MutexKind);
    } else if op == 0x02 {
      NamedOutcome(st, aml, pos, EventKind);
    }
  }

  /** What a term list can end with: each unit of budget is charged to a
      different byte, so only an initially short budget runs out, and the
      "stuck" error does not occur. */
  ghost predicate ListOutcome(st: Interp, cost: nat, out: (Interp, Result<()>)) {
    && st.budget - out.0.budget <= cost
    && (out.1.Err? ==> out.1.error == BudgetExhausted && out.0.budget == 0 && st.budget < cost)
  }

  lemma {:induction false} TermLoopOutcome(st: Interp, aml: seq<Byte>, pos: nat)
    requires WellFormed(st.ns)
    ensures Keeps(st.(depth := st.depth - 1), TermLoop(st, aml, pos).0)
    ensures ListOutcome(st, if pos <= |aml| then |aml| - pos else 0, TermLoop(st, aml, pos))
    decreases |aml|, 4, |aml| - pos
  {
    if pos < |aml| && st.budget > 0 {
      var charged := st.(budget := st.budget - 1);
      TermNeverFails(charged, aml, pos);
      var (after, r) := Term(charged, aml, pos);
      TermLoopOutcome(after, aml, r.value);
    }
  }

  lemma {:induction false} TermListOutcome(st: Interp, aml: seq<Byte>, pos: nat)
    requires WellFormed(st.ns) && pos <= |aml|
    ensures Keeps(st, TermList(st, aml, pos).0)
    ensures st.depth < MAX_RECURSION ==> ListOutcome(st, |aml| - pos, TermList(st, aml, pos))
    ensures st.depth >= MAX_RECURSION ==> TermList(st, aml, pos) == (st, Err(RecursionDepthExceeded))
    decreases |aml|, 5
  {
    if st.depth < MAX_RECURSION {
      TermLoopOutcome(st.(depth := st.depth + 1), aml, pos);
    }
  }

  // ---- Tables -------------------------------------------------------------

  /** Loading any table of any content from a well-formed interpreter succeeds
      whenever the remaining budget covers the body bytes. */
  lemma LoadTableSucceeds(st: Interp, table: seq<Byte>)
    requires WellFormed(st.ns) && st.depth < MAX_RECURSION
    requires |table| >= SDT_HEADER_SIZE
    requires |table| - SDT_HEADER_SIZE <= st.budget
    ensures LoadTable(st, table).1.Ok?
    ensures Keeps(st, LoadTable(st, table).0)
    ensures st.budget - LoadTable(st, table).0.budget <= |table| - SDT_HEADER_SIZE
  {
    TermListOutcome(st, table[SDT_HEADER_SIZE..], 0);
  }

  function BodyBytes(tables: seq<seq<Byte>>): nat
    requires forall i :: 0 <= i < |tables| ==> |tables[i]| >= SDT_HEADER_SIZE
  {
    if tables == [] then 0 else |tables[0]| - SDT_HEADER_SIZE + BodyBytes(tables[1..])
  }

  /** Load the tables in order; the flag tells whether every load succeeded. */
  function LoadTables(st: Interp, tables: seq<seq<Byte>>): (Interp, bool)
    decreases |tables|
  {
    if tables == [] then (st, true)
    else
      var (after, r) := LoadTable(st, tables[0]);
      var (last, rest) := LoadTables(after, tables[1..]);
      (last, r.Ok? && rest)
  }

  lemma {:induction false} LoadTablesSucceed(st: Interp, tables: seq<seq<Byte>>)
    requires WellFormed(st.ns) && st.depth < MAX_RECURSION
    requires forall i :: 0 <= i < |tables| ==> |tables[i]| >= SDT_HEADER_SIZE
    requires BodyBytes(tables) <= st.budget
    ensures LoadTables(st, tables).1
    ensures Keeps(st, LoadTables(st, tables).0)
    decreases |tables|
  {
    if tables != [] {
      LoadTableSucceeds(st, tables[0]);
      LoadTablesSucceed(LoadTable(st, tables[0]).0, tables[1..]);
    }
  }

  /** A fresh interpreter loads any sequence of tables whose bodies total at
      most 200,000 bytes, whatever those bytes are. */
  lemma FreshInterpreterLoads(tables: seq<seq<Byte>>)
    requires forall i :: 0 <= i < |tables| ==> |tables[i]| >= SDT_HEADER_SIZE
    requires BodyBytes(tables) <= AML_MAX_OPS
    ensures LoadTables(NewInterp(), tables).1
    ensures Keeps(NewInterp(), LoadTables(NewInterp(), tables).0)
  {
    NewNamespaceWellFormed();
    LoadTablesSucceed(NewInterp(), tables);
  }

  // ---- The bound is tight -------------------------------------------------

  lemma {:induction false} ZeroBytesCostOneEach(st: Interp, aml: seq<Byte>, pos: nat)
    requires pos <= |aml| && forall i :: 0 <= i < |aml| ==> aml[i] == 0
    ensures TermLoop(st, aml, pos).1.Ok? <==> |aml| - pos <= st.budget
    decreases |aml| - pos
  {
    if pos < |aml| && st.budget > 0 {
      assert Term(st.(budget := st.budget - 1), aml, pos) == (st.(budget := st.budget - 1), Ok(pos + 1));
      ZeroBytesCostOneEach(st.(budget := st.budget - 1), aml, pos + 1);
    }
  }

  /** No larger bound holds: a body of `n` zero bytes loads exactly when the
      budget is at least `n`. */
  lemma BudgetBoundIsTight(st: Interp, header: seq<Byte>, n: nat)
    requires |header| == SDT_HEADER_SIZE && st.depth < MAX_RECURSION
    ensures LoadTable(st, header + seq(n, _ => 0)).1.Ok? <==> n <= st.budget
  {
    var body: seq<Byte> := seq(n, _ => 0);
    assert (header + body)[SDT_HEADER_SIZE..] == body;
    ZeroBytesCostOneEach(st.(depth := st.depth + 1), body, 0);
  }
}
