/** What the AML term parser does to the interpreter, as functions on values.
    `AmlInterpreter` implements them in place; the lemmas here are about every
    byte string. */
module AmlParser {
  import opened Arithmetic
  import opened Bytes
  import opened AmlNamespace
  import opened AmlLexer

  /** The part of the interpreter that parsing reads or writes. */
  datatype Interp = Interp(ns: Namespace, budget: nat, depth: int)

  const AML_MAX_OPS: nat := 200_000
  const MAX_RECURSION: int := 32
  const SDT_HEADER_SIZE: nat := 36

  function NewInterp(): Interp {
    Interp(NewNamespace(), AML_MAX_OPS, 0)
  }

  // ---- Terms that only move the position ----------------------------------

  /** Number of term arguments skipped after a one-byte operator, for the
      operators that are followed by nothing else. */
  function PlainArity(op: Byte): (n: nat)
    ensures n <= 4
  {
    if op == 0x78 then 4                                              // Divide
    else if op in {0x72, 0x73, 0x74, 0x77, 0x79, 0x7A, 0x7B, 0x7C, 0x7D, 0x7E, 0x7F,
                   0x84, 0x85, 0x88, 0x9C, 0x9E} then 3               // arithmetic, Index, ToString, Mid
    else if op in {0x70, 0x86, 0x90, 0x91, 0x93, 0x94, 0x95, 0x96, 0x97, 0x98, 0x99, 0x9D} then 2
                                                                      // Store, Notify, comparisons, conversions
    else if op in {0x71, 0x75, 0x76, 0x80, 0x81, 0x82, 0x83, 0x87, 0x8E, 0x92, 0xA4} then 1
                                                                      // unary operators, Return
    else 0
  }

  /** Buffer, Package, VarPackage, If, Else, While: skipped as a whole. */
  predicate SkippedPackage(op: Byte) {
    op in {0x11, 0x12, 0x13, 0xA0, 0xA1, 0xA2}
  }

  function SkipPackage(aml: seq<Byte>, pos: nat, header: nat): nat {
    match ParsePkgLength(aml, pos + header)
    case Err(_) => Min(pos + header, |aml|)
    case Ok((len, _)) => Min(pos + header + len, |aml|)
  }

  /** Extended operators (after 0x5B) without an effect on the namespace. */
  function SkipExtended(aml: seq<Byte>, pos: nat, op: Byte): (next: nat)
    requires pos + 1 < |aml|
    ensures next > pos
  {
    if op in {0x81, 0x86, 0x87} then SkipPackage(aml, pos, 2)         // Field, IndexField, BankField
    else if op in {0x21, 0x22, 0x23, 0x24, 0x26, 0x27} then SkipTermArg(aml, pos + 2)
                                                                      // Sleep, Stall, Acquire, Signal, Reset, Release
    else if op in {0x12, 0x25} then SkipTermArgs(aml, pos + 2, 2)     // CondRefOf, Wait
    else if op == 0x13 then ParseNameString(aml, SkipTermArgs(aml, pos + 2, 3)).1 // CreateField
    else if op == 0x32 then                                           // Fatal
      if pos + 7 < |aml| then SkipTermArg(aml, pos + 7) else |aml|
    else pos + 2
  }

  /** The arguments of Match, two of which are preceded by a comparison byte. */
  function SkipMatch(aml: seq<Byte>, pos: nat): (next: nat)
    ensures next >= pos
  {
    var a := SkipTermArg(aml, pos);
    var b := SkipTermArg(aml, a + 1);
    var c := SkipTermArg(aml, b + 1);
    SkipTermArg(aml, c)
  }

  /** Every term that is only skipped ends behind its first byte. */
  function SkipTerm(aml: seq<Byte>, pos: nat): (next: nat)
    requires pos < |aml|
    ensures next > pos
  {
    var op := aml[pos];
    if op == 0x0A then pos + 2
    else if op == 0x0B then pos + 3
    else if op == 0x0C then pos + 5
    else if op == 0x0E then pos + 9
    else if op == 0x0D then Min(FindZero(aml, pos + 1) + 1, |aml|)
    else if SkippedPackage(op) then SkipPackage(aml, pos, 1)
    else if op == 0x06 then ParseNameString(aml, ParseNameString(aml, pos + 1).1).1 // Alias
    else if op == 0x89 then SkipMatch(aml, pos + 1)
    else if op in {0x8A, 0x8B, 0x8C, 0x8D, 0x8F} then                 // Create*Field
      ParseNameString(aml, SkipTermArgs(aml, pos + 1, 2)).1
    else if op == 0x15 then                                           // External
      var next := ParseNameString(aml, pos + 1).1;
      if next + 2 <= |aml| then next + 2 else |aml|
    else if op == 0x5B then
      if pos + 1 >= |aml| then pos + 1 else SkipExtended(aml, pos, aml[pos + 1])
    else if op == 0x2E then pos + 9                                   // DualNamePath
    else if op == 0x2F then                                           // MultiNamePath
      if pos + 1 < |aml| then pos + 2 + 4 * (aml[pos + 1] as nat) else |aml|
    else if LeadNameChar(op) then ParseNameString(aml, pos).1
    else SkipTermArgs(aml, pos + 1, PlainArity(op))
  }

  // ---- Terms that change the namespace ------------------------------------

  /** The PkgLength and NameString that start every package-shaped term whose
      operator is `header` bytes long. */
  datatype PackageStart =
    | NoLength(skipTo: nat)
    | Named(name: Text, next: nat, end: nat)

  function StartPackage(aml: seq<Byte>, pos: nat, header: nat): (r: PackageStart)
    requires pos + header <= |aml|
    ensures r.NoLength? ==> r.skipTo == pos + header
    ensures r.Named? ==> pos + header < r.next <= |aml| && pos + header <= r.end <= |aml|
  {
    match ParsePkgLength(aml, pos + header)
    case Err(_) => NoLength(pos + header)
    case Ok((len, nameStart)) =>
      var (name, next) := ParseNameString(aml, nameStart);
      Named(name, next, Min(pos + header + len, |aml|))
  }

  function Declare(st: Interp, name: Text, value: AmlValue): Interp {
    st.(ns := Insert(st.ns, name, value))
  }

  datatype NamedKind = NameKind | OpRegionKind | MutexKind | EventKind {
    /** Name has a one-byte operator, the others follow 0x5B. */
    function OperatorSize(): nat {
      if NameKind? then 1 else 2
    }
  }

  /** What a term that starts with a name does from behind the name. */
  function NamedBody(st: Interp, aml: seq<Byte>, kind: NamedKind, name: Text, p: nat): (Interp, Result<nat>) {
    match kind
    case NameKind =>
      var (value, next) := ParseDataObject(aml, p);
      (Declare(st, name, value), Ok(next))
    case OpRegionKind =>
      if p >= |aml| then (st, Ok(|aml|))
      else
        var (offset, lengthPos) := ParseInteger(aml, p + 1);
        var (length, next) := ParseInteger(aml, lengthPos);
        (Declare(st, name, OpRegion(aml[p], offset, length)), Ok(next))
    case MutexKind =>
      if p < |aml| then (Declare(st, name, Mutex(aml[p] % 16)), Ok(p + 1)) else (st, Ok(|aml|))
    case EventKind => (Declare(st, name, Event), Ok(p))
  }

  function NamedTerm(st: Interp, aml: seq<Byte>, pos: nat, kind: NamedKind): (Interp, Result<nat>) {
    var (name, p) := ParseNameString(aml, pos + kind.OperatorSize());
    NamedBody(st, aml, kind, name, p)
  }

  // ---- Package-shaped terms -----------------------------------------------

  datatype PackageKind = ScopeKind | MethodKind | DeviceKind | ProcessorKind | PowerResourceKind | ThermalZoneKind {
    /** Scope and Method have one-byte operators, the others follow 0x5B. */
    function OperatorSize(): nat {
      if ScopeKind? || MethodKind? then 1 else 2
    }
  }

  /** Parse `body` inside the scope `name`; the outcome of the list is dropped. */
  function InScope(st: Interp, name: Text, body: seq<Byte>): Interp
    decreases |body|, 6
  {
    var inner := TermList(st.(ns := PushScope(st.ns, name)), body, 0).0;
    inner.(ns := PopScope(inner.ns))
  }

  function MethodValue(flags: Byte, body: seq<Byte>): AmlValue {
    Method(flags % 8, flags / 8 % 2 != 0, flags / 16, body)
  }

  /** What a package-shaped term does once its name is read; the term then ends
      at `end` whatever happened inside. */
  function PackageBody(st: Interp, aml: seq<Byte>, kind: PackageKind, name: Text, p: nat, end: nat): Interp
    requires 0 < p && end <= |aml|
    decreases |aml|, 0
  {
    match kind
    case ScopeKind =>
      if p > end then st else InScope(st, name, aml[p..end])
    case MethodKind =>
      if p < end then Declare(st, name, MethodValue(aml[p], aml[p + 1..end])) else st
    case DeviceKind =>
      var listed := Declare(st, name, Device(name));
      if p <= end then InScope(listed, name, aml[p..end])
      else listed.(ns := PopScope(PushScope(listed.ns, name)))
    case ProcessorKind =>
      if p + 5 < |aml| then
        var listed := Declare(st, name, Processor(aml[p], Le32(aml[p + 1..p + 5]), aml[p + 5]));
        if p + 6 <= end then InScope(listed, name, aml[p + 6..end]) else listed
      else st
    case PowerResourceKind =>
      if p + 3 <= |aml| then
        var listed := Declare(st, name, PowerResource(aml[p], Le16(aml[p + 1..p + 3])));
        if p + 3 <= end then InScope(listed, name, aml[p + 3..end]) else listed
      else st
    case ThermalZoneKind =>
      var listed := Declare(st, name, ThermalZone(name));
      if p <= end then InScope(listed, name, aml[p..end]) else listed
  }

  function PackageTerm(st: Interp, aml: seq<Byte>, pos: nat, kind: PackageKind): (Interp, Result<nat>)
    requires pos + kind.OperatorSize() <= |aml|
    decreases |aml|, 1
  {
    match StartPackage(aml, pos, kind.OperatorSize())
    case NoLength(next) => (st, Ok(next))
    case Named(name, p, end) => (PackageBody(st, aml, kind, name, p, end), Ok(end))
  }

  // ---- Terms and term lists -----------------------------------------------

  function Term(st: Interp, aml: seq<Byte>, pos: nat): (Interp, Result<nat>)
    decreases |aml|, 3
  {
    if pos >= |aml| then (st, Ok(pos))
    else if aml[pos] == 0x08 then NamedTerm(st, aml, pos, NameKind)
    else if aml[pos] == 0x10 then PackageTerm(st, aml, pos, ScopeKind)
    else if aml[pos] == 0x14 then PackageTerm(st, aml, pos, MethodKind)
    else if aml[pos] == 0x5B && pos + 1 < |aml| then ExtendedTerm(st, aml, pos)
    else (st, Ok(SkipTerm(aml, pos)))
  }

  function ExtendedTerm(st: Interp, aml: seq<Byte>, pos: nat): (Interp, Result<nat>)
    requires pos + 1 < |aml|
    requires aml[pos] == 0x5B
    decreases |aml|, 2
  {
    var op := aml[pos + 1];
    if op == 0x80 then NamedTerm(st, aml, pos, OpRegionKind)
    else if op == 0x82 then PackageTerm(st, aml, pos, DeviceKind)
    else if op == 0x83 then PackageTerm(st, aml, pos, ProcessorKind)
    else if op == 0x84 then PackageTerm(st, aml, pos, PowerResourceKind)
    else if op == 0x85 then PackageTerm(st, aml, pos, ThermalZoneKind)
    else if op == 0x01 then NamedTerm(st, aml, pos, MutexKind)
    else if op == 0x02 then NamedTerm(st, aml, pos, EventKind)
    else (st, Ok(SkipTerm(aml, pos)))
  }

  /** The loop of a term list: every term costs one unit of the shared budget. */
  function TermLoop(st: Interp, aml: seq<Byte>, pos: nat): (Interp, Result<()>)
    decreases |aml|, 4, |aml| - pos
  {
    if pos >= |aml| then (st.(depth := st.depth - 1), Ok(()))
    else if st.budget == 0 then (st.(depth := st.depth - 1), Err(BudgetExhausted))
    else
      match Term(st.(budget := st.budget - 1), aml, pos)
      case (after, Err(e)) => (after, Err(e))
      case (after, Ok(next)) =>
        if next <= pos then
          (after.(depth := after.depth - 1), Err(Stuck(next, if next < |aml| then aml[next] else 0xFF)))
        else TermLoop(after, aml, next)
  }

  function TermList(st: Interp, aml: seq<Byte>, pos: nat): (Interp, Result<()>)
    decreases |aml|, 5
  {
    if st.depth + 1 > MAX_RECURSION then (st, Err(RecursionDepthExceeded))
    else TermLoop(st.(depth := st.depth + 1), aml, pos)
  }

  function LoadTable(st: Interp, table: seq<Byte>): (Interp, Result<()>) {
    if |table| < SDT_HEADER_SIZE then (st, Err(TableTooShort))
    else TermList(st, table[SDT_HEADER_SIZE..], 0)
  }
}
