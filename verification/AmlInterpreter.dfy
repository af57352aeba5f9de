/** The AML interpreter of kernel/src/acpi_full.rs, updating its namespace,
    scope stack, budget and depth in place. Every method is proved against the
    functions of `AmlParser`, so the results of `AmlTotality` and `AmlEncoding`
    are about these methods. */
module AmlInterpreter {
  import opened Arithmetic
  import opened Bytes
  import opened AmlNamespace
  import opened AmlLexer
  import opened AmlParser
  import opened AmlTotality

  class Interpreter {
    var nodes: map<Text, Node>
    var scopes: seq<Text>
    var budget: nat
    var depth: int

    ghost function State(): Interp
      reads this
    {
      Interp(Namespace(nodes, scopes), budget, depth)
    }

    constructor ()
      ensures State() == NewInterp()
      ensures WellFormed(State().ns)
    {
      nodes := map s | s in ROOT_SCOPES :: Node(s, s, Uninitialized, []);
      scopes := [[BACKSLASH]];
      budget := AML_MAX_OPS;
      depth := 0;
      new;
      NewNamespaceWellFormed();
    }

    // ---- Namespace updates ------------------------------------------------

    method EnterScope(name: Text)
      modifies this`scopes
      ensures State().ns == PushScope(old(State().ns), name)
    {
      var current := if scopes == [] then [BACKSLASH] else scopes[|scopes| - 1];
      scopes := scopes + [Resolve(current, name)];
    }

    method LeaveScope()
      modifies this`scopes
      ensures State().ns == PopScope(old(State().ns))
    {
      if |scopes| > 1 {
        scopes := scopes[..|scopes| - 1];
      }
    }

    method InsertNode(name: Text, value: AmlValue)
      modifies this`nodes
      ensures State() == Declare(old(State()), name, value)
    {
      var parent := if scopes == [] then [BACKSLASH] else scopes[|scopes| - 1];
      var full := Resolve(parent, name);
      if parent in nodes {
        nodes := nodes[parent := nodes[parent].(children := nodes[parent].children + [full])];
      }
      nodes := nodes[full := Node(name, full, value, [])];
    }

    // ---- Readers with loops -----------------------------------------------

    method ReadPrefix(aml: seq<Byte>, pos: nat) returns (p: nat)
      requires pos < |aml|
      ensures p == PrefixEnd(aml, pos)
    {
      p := pos;
      if aml[p] == BACKSLASH {
        p := p + 1;
      }
      ghost var first := p;
      while p < |aml| && aml[p] == CARET
        invariant first <= p <= |aml|
        invariant CaretRun(aml, first) == p - first + CaretRun(aml, p)
      {
        p := p + 1;
      }
    }

    method ReadSegments(aml: seq<Byte>, start: nat, count: nat) returns (s: Text, p: nat)
      requires start <= |aml|
      ensures p == start + 4 * SegmentsThatFit(aml, start, count)
      ensures s == SegmentList(aml, start, SegmentsThatFit(aml, start, count))
    {
      s, p := [], start;
      ghost var fit := SegmentsThatFit(aml, start, count);
      var i := 0;
      while i < count && p + 4 <= |aml|
        invariant 0 <= i <= count
        invariant p == start + 4 * i && p <= |aml|
        invariant i <= fit
        invariant s == SegmentList(aml, start, i)
      {
        var separator := if i > 0 then [DOT] else [];
        SegmentListExtends(aml, start, i);
        s := s + separator + TrimmedSegment(aml, p);
        p := p + 4;
        i := i + 1;
      }
      assert i == fit;
    }

    method ReadNamePath(aml: seq<Byte>, p: nat) returns (path: Text, next: nat)
      requires p < |aml|
      ensures path == NamePath(aml, p).0 && next == NamePath(aml, p).1
    {
      var lead := aml[p];
      if lead == 0x2F && p + 1 < |aml| {
        path, next := ReadSegments(aml, p + 2, aml[p + 1]);
      } else if LeadNameChar(lead) && p + 4 > |aml| {
        next := p;
        while next < |aml| && NameChar(aml[next])
          invariant p <= next <= |aml|
          invariant NameCharRun(aml, p) == next - p + NameCharRun(aml, next)
        {
          next := next + 1;
        }
        path := aml[p..next];
      } else {
        var r := NamePath(aml, p);
        path, next := r.0, r.1;
      }
    }

    method ReadNameString(aml: seq<Byte>, pos: nat) returns (name: Text, next: nat)
      ensures name == ParseNameString(aml, pos).0 && next == ParseNameString(aml, pos).1
    {
      if pos >= |aml| {
        return [], pos;
      }
      var p := ReadPrefix(aml, pos);
      if p >= |aml| {
        return aml[pos..p], p;
      }
      var path;
      path, next := ReadNamePath(aml, p);
      name := aml[pos..p] + path;
    }

    method ReadPkgLength(aml: seq<Byte>, pos: nat) returns (r: Result<(nat, nat)>)
      ensures r == ParsePkgLength(aml, pos)
    {
      if pos >= |aml| {
        return Err(UnexpectedEnd);
      }
      var lead := aml[pos];
      var more := lead / 0x40;
      if more == 0 {
        return Ok((lead % 0x40, pos + 1));
      }
      if pos + 1 + more > |aml| {
        return Err(TruncatedPkgLength);
      }
      var length: nat, weight: nat := lead % 0x10, 0x10;
      var i := 0;
      while i < more
        invariant 0 <= i <= more
        invariant length + WeightedBytes(aml, pos + 1 + i, more - i, weight)
               == lead % 0x10 + WeightedBytes(aml, pos + 1, more, 0x10)
      {
        length := length + weight * (aml[pos + 1 + i] as nat);
        weight := weight * 0x100;
        i := i + 1;
      }
      return Ok((length, pos + 1 + more));
    }

    // ---- Terms ------------------------------------------------------------

    method ParseNamedBody(aml: seq<Byte>, kind: NamedKind, name: Text, p: nat) returns (r: Result<nat>)
      modifies this`nodes
      ensures (State(), r) == NamedBody(old(State()), aml, kind, name, p)
    {
      match kind
      case NameKind =>
        var (value, next) := ParseDataObject(aml, p);
        InsertNode(name, value);
        return Ok(next);
      case OpRegionKind =>
        if p >= |aml| {
          return Ok(|aml|);
        }
        var (offset, lengthPos) := ParseInteger(aml, p + 1);
        var (length, next) := ParseInteger(aml, lengthPos);
        InsertNode(name, OpRegion(aml[p], offset, length));
        return Ok(next);
      case MutexKind =>
        if p >= |aml| {
          return Ok(|aml|);
        }
        InsertNode(name, Mutex(aml[p] % 16));
        return Ok(p + 1);
      case EventKind =>
        InsertNode(name, Event);
        return Ok(p);
    }

    method ParseNamed(aml: seq<Byte>, pos: nat, kind: NamedKind) returns (r: Result<nat>)
      modifies this`nodes
      ensures (State(), r) == NamedTerm(old(State()), aml, pos, kind)
    {
      hide NamedBody, ParseNameString;
      var name, p := ReadNameString(aml, pos + kind.OperatorSize());
      r := ParseNamedBody(aml, kind, name, p);
    }

    method ParseInScope(name: Text, body: seq<Byte>)
      modifies this
      ensures State() == InScope(old(State()), name, body)
      decreases |body|, 6
    {
      EnterScope(name);
      var _ := ParseTermList(body, 0);
      LeaveScope();
    }

    method ParsePackageBody(aml: seq<Byte>, kind: PackageKind, name: Text, p: nat, end: nat)
      requires 0 < p && end <= |aml|
      modifies this
      ensures State() == PackageBody(old(State()), aml, kind, name, p, end)
      decreases |aml|, 0
    {
      match kind
      case ScopeKind =>
        if p <= end {
          ParseInScope(name, aml[p..end]);
        }
      case MethodKind =>
        if p < end {
          InsertNode(name, MethodValue(aml[p], aml[p + 1..end]));
        }
      case DeviceKind =>
        InsertNode(name, Device(name));
        if p <= end {
          ParseInScope(name, aml[p..end]);
        } else {
          EnterScope(name);
          LeaveScope();
        }
      case ProcessorKind =>
        if p + 5 < |aml| {
          InsertNode(name, Processor(aml[p], Le32(aml[p + 1..p + 5]), aml[p + 5]));
          if p + 6 <= end {
            ParseInScope(name, aml[p + 6..end]);
          }
        }
      case PowerResourceKind =>
        if p + 3 <= |aml| {
          InsertNode(name, PowerResource(aml[p], Le16(aml[p + 1..p + 3])));
          if p + 3 <= end {
            ParseInScope(name, aml[p + 3..end]);
          }
        }
      case ThermalZoneKind =>
        InsertNode(name, ThermalZone(name));
        if p <= end {
          ParseInScope(name, aml[p..end]);
        }
    }

    method ReadPackageStart(aml: seq<Byte>, pos: nat, header: nat) returns (r: PackageStart)
      requires pos + header <= |aml|
      ensures r == StartPackage(aml, pos, header)
    {
      var pkg := ReadPkgLength(aml, pos + header);
      if pkg.Err? {
        return NoLength(pos + header);
      }
      var (len, nameStart) := pkg.value;
      var name, next := ReadNameString(aml, nameStart);
      return Named(name, next, Min(pos + header + len, |aml|));
    }

    method ParsePackage(aml: seq<Byte>, pos: nat, kind: PackageKind) returns (r: Result<nat>)
      requires pos + kind.OperatorSize() <= |aml|
      modifies this
      ensures (State(), r) == PackageTerm(old(State()), aml, pos, kind)
      decreases |aml|, 1
    {
      var start := ReadPackageStart(aml, pos, kind.OperatorSize());
      match start
      case NoLength(next) =>
        return Ok(next);
      case Named(name, p, end) =>
        ParsePackageBody(aml, kind, name, p, end);
        return Ok(end);
    }

    method ParseExtendedTerm(aml: seq<Byte>, pos: nat) returns (r: Result<nat>)
      requires pos + 1 < |aml| && aml[pos] == 0x5B
      modifies this
      ensures (State(), r) == ExtendedTerm(old(State()), aml, pos)
      decreases |aml|, 2
    {
      var op := aml[pos + 1];
      if op == 0x80 {
        r := ParseNamed(aml, pos, OpRegionKind);
      } else if op == 0x82 {
        r := ParsePackage(aml, pos, DeviceKind);
      } else if op == 0x83 {
        r := ParsePackage(aml, pos, ProcessorKind);
      } else if op == 0x84 {
        r := ParsePackage(aml, pos, PowerResourceKind);
      } else if op == 0x85 {
        r := ParsePackage(aml, pos, ThermalZoneKind);
      } else if op == 0x01 {
        r := ParseNamed(aml, pos, MutexKind);
      } else if op == 0x02 {
        r := ParseNamed(aml, pos, EventKind);
      } else {
        r := Ok(SkipTerm(aml, pos));
      }
    }

    method ParseTerm(aml: seq<Byte>, pos: nat) returns (r: Result<nat>)
      modifies this
      ensures (State(), r) == Term(old(State()), aml, pos)
      decreases |aml|, 3
    {
      if pos >= |aml| {
        return Ok(pos);
      }
      if aml[pos] == 0x08 {
        r := ParseNamed(aml, pos, NameKind);
      } else if aml[pos] == 0x10 {
        r := ParsePackage(aml, pos, ScopeKind);
      } else if aml[pos] == 0x14 {
        r := ParsePackage(aml, pos, MethodKind);
      } else if aml[pos] == 0x5B && pos + 1 < |aml| {
        r := ParseExtendedTerm(aml, pos);
      } else {
        r := Ok(SkipTerm(aml, pos));
      }
    }

    method ParseTermList(aml: seq<Byte>, start: nat) returns (r: Result<()>)
      modifies this
      ensures (State(), r) == TermList(old(State()), aml, start)
      decreases |aml|, 5
    {
      depth := depth + 1;
      if depth > MAX_RECURSION {
        depth := depth - 1;
        return Err(RecursionDepthExceeded);
      }
      var pos := start;
      ghost var goal := TermLoop(State(), aml, pos);
      while pos < |aml|
        invariant TermLoop(State(), aml, pos) == goal
        decreases |aml| - pos
      {
        if budget == 0 {
          depth := depth - 1;
          return Err(BudgetExhausted);
        }
        budget := budget - 1;
        var next :- ParseTerm(aml, pos);
        if next <= pos {
          depth := depth - 1;
          return Err(Stuck(next, if next < |aml| then aml[next] else 0xFF));
        }
        pos := next;
      }
      depth := depth - 1;
      return Ok(());
    }

    /** Loading keeps a well-formed interpreter well-formed, restores stack and
        depth whether it succeeds or not, never drops a key, and fails only for
        a short table, an exhausted budget or a call from the recursion limit. */
    method Load(table: seq<Byte>) returns (r: Result<()>)
      modifies this
      ensures (State(), r) == LoadTable(old(State()), table)
      ensures old(WellFormed(State().ns)) ==> Keeps(old(State()), State())
      ensures old(WellFormed(State().ns)) && r.Err? ==>
                || (r.error == TableTooShort && |table| < SDT_HEADER_SIZE)
                || (r.error == RecursionDepthExceeded && old(depth) >= MAX_RECURSION)
                || (r.error == BudgetExhausted && budget == 0 && old(budget) < |table| - SDT_HEADER_SIZE)
    {
      ghost var before := State();
      if |table| < SDT_HEADER_SIZE {
        return Err(TableTooShort);
      }
      r := ParseTermList(table[SDT_HEADER_SIZE..], 0);
      if WellFormed(before.ns) {
        TermListOutcome(before, table[SDT_HEADER_SIZE..], 0);
      }
    }
  }
}
