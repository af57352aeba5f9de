/** The parts of the AML parser that only read the byte stream: NameString,
    PkgLength, data objects, integers and skipped term arguments. Positions may
    run past the end of the stream, as they do in the original. */
module AmlLexer {
  import opened Arithmetic
  import opened Bytes
  import opened AmlNamespace

  datatype AmlError =
    | TableTooShort
    | RecursionDepthExceeded
    | BudgetExhausted
    | Stuck(at: nat, op: Byte)
    | UnexpectedEnd
    | TruncatedPkgLength

  datatype Result<+T> = Ok(value: T) | Err(error: AmlError) {
    predicate IsFailure() {
      Err?
    }
    function PropagateFailure<U>(): Result<U>
      requires Err?
    {
      Err(error)
    }
    function Extract(): T
      requires Ok?
    {
      value
    }
  }

  // ---- NameString ---------------------------------------------------------

  const QUESTION_MARKS: seq<Byte> := [0x3F, 0x3F, 0x3F, 0x3F]

  function SegmentText(raw: seq<Byte>): (s: Text)
    requires |raw| == 4
    ensures |s| == 4
  {
    if ValidUtf8(raw) then raw else QUESTION_MARKS
  }

  function TrimUnderscores(s: Text): (t: Text)
    ensures t <= s
    ensures t != [] ==> t[|t| - 1] != UNDERSCORE
    ensures forall i :: |t| <= i < |s| ==> s[i] == UNDERSCORE
  {
    if s != [] && s[|s| - 1] == UNDERSCORE then TrimUnderscores(s[..|s| - 1]) else s
  }

  function TrimmedSegment(aml: seq<Byte>, pos: nat): Text
    requires pos + 4 <= |aml|
  {
    TrimUnderscores(SegmentText(aml[pos..pos + 4]))
  }

  /** Number of consecutive carets from `pos`. */
  function CaretRun(aml: seq<Byte>, pos: nat): (n: nat)
    ensures pos <= |aml| ==> pos + n <= |aml|
    ensures forall i :: pos <= i < pos + n && i < |aml| ==> aml[i] == CARET
    ensures pos > |aml| ==> n == 0
    ensures pos + n < |aml| ==> aml[pos + n] != CARET
    decreases |aml| - pos
  {
    if pos < |aml| && aml[pos] == CARET then 1 + CaretRun(aml, pos + 1) else 0
  }

  predicate NameChar(b: Byte) {
    0x30 <= b <= 0x39 || 0x41 <= b <= 0x5A || 0x61 <= b <= 0x7A || b == UNDERSCORE
  }

  predicate LeadNameChar(b: Byte) {
    0x41 <= b <= 0x5A || b == UNDERSCORE
  }

  /** Number of consecutive name characters from `pos`. */
  function NameCharRun(aml: seq<Byte>, pos: nat): (n: nat)
    ensures pos <= |aml| ==> pos + n <= |aml|
    decreases |aml| - pos
  {
    if pos < |aml| && NameChar(aml[pos]) then 1 + NameCharRun(aml, pos + 1) else 0
  }

  /** How many of `count` four-byte segments fit from `pos`. */
  function SegmentsThatFit(aml: seq<Byte>, pos: nat, count: nat): (k: nat)
    requires pos <= |aml|
    ensures k <= count && pos + 4 * k <= |aml|
    ensures k == count || pos + 4 * k + 4 > |aml|
  {
    Min(count, (|aml| - pos) / 4)
  }

  /** `count` trimmed segments from `pos`. */
  function TrimmedSegments(aml: seq<Byte>, pos: nat, count: nat): (parts: seq<Text>)
    requires pos + 4 * count <= |aml|
    ensures |parts| == count
    ensures forall i {:trigger parts[i]} :: 0 <= i < count ==> parts[i] == TrimmedSegment(aml, pos + 4 * i)
  {
    seq(count, i requires 0 <= i < count => TrimmedSegment(aml, pos + 4 * i))
  }

  function SegmentList(aml: seq<Byte>, pos: nat, count: nat): Text
    requires pos + 4 * count <= |aml|
  {
    JoinDots(TrimmedSegments(aml, pos, count))
  }

  /** Segments are appended one by one, each but the first after a dot. */
  lemma SegmentListExtends(aml: seq<Byte>, pos: nat, count: nat)
    requires pos + 4 * (count + 1) <= |aml|
    ensures SegmentList(aml, pos, count + 1) ==
            SegmentList(aml, pos, count) + (if count > 0 then [DOT] else []) + TrimmedSegment(aml, pos + 4 * count)
  {
    var parts, last := TrimmedSegments(aml, pos, count), TrimmedSegment(aml, pos + 4 * count);
    assert TrimmedSegments(aml, pos, count + 1) == parts + [last];
    if count == 0 {
      assert [] + [] + last == last;
    } else {
      JoinDotsSnoc(parts, last);
    }
  }

  /** As many of `count` segments as the stream still holds. */
  function CountedSegments(aml: seq<Byte>, pos: nat, count: nat): (r: (Text, nat))
    requires pos <= |aml|
    ensures pos <= r.1 <= |aml|
  {
    var k := SegmentsThatFit(aml, pos, count);
    (SegmentList(aml, pos, k), pos + 4 * k)
  }

  lemma AllSegmentsFit(aml: seq<Byte>, pos: nat, count: nat)
    requires pos + 4 * count <= |aml|
    ensures CountedSegments(aml, pos, count) == (SegmentList(aml, pos, count), pos + 4 * count)
  {
    assert SegmentsThatFit(aml, pos, count) == count;
  }

  /** The NamePath after any prefix: its text and the position behind it. */
  function NamePath(aml: seq<Byte>, p: nat): (r: (Text, nat))
    requires p < |aml|
    ensures p <= r.1 <= |aml|
    ensures LeadNameChar(aml[p]) ==> r.1 > p
  {
    var lead := aml[p];
    if lead == 0x00 then ([], p + 1)
    else if lead == 0x2E then
      if p + 9 <= |aml| then (SegmentList(aml, p + 1, 2), p + 9) else ([], p + 1)
    else if lead == 0x2F then
      if p + 1 < |aml| then CountedSegments(aml, p + 2, aml[p + 1]) else ([], p + 1)
    else if LeadNameChar(lead) then
      if p + 4 <= |aml| then (TrimmedSegment(aml, p), p + 4)
      else (aml[p..p + NameCharRun(aml, p)], p + NameCharRun(aml, p))
    else ([], p)
  }

  /** End of an optional backslash and any carets after it. */
  function PrefixEnd(aml: seq<Byte>, pos: nat): (p: nat)
    requires pos < |aml|
    ensures pos <= p <= |aml|
  {
    var start := if aml[pos] == BACKSLASH then pos + 1 else pos;
    start + CaretRun(aml, start)
  }

  /** Like the other readers below except PkgLength, this one has no error path
      in the original either, so its result is a plain pair. */
  function ParseNameString(aml: seq<Byte>, pos: nat): (r: (Text, nat))
    ensures pos <= r.1
    ensures pos <= |aml| ==> r.1 <= |aml|
    ensures pos < |aml| && LeadNameChar(aml[pos]) ==> r.1 > pos
  {
    if pos >= |aml| then ([], pos)
    else
      var p := PrefixEnd(aml, pos);
      if p >= |aml| then (aml[pos..p], p)
      else
        var (path, next) := NamePath(aml, p);
        (aml[pos..p] + path, next)
  }

  // ---- PkgLength ----------------------------------------------------------

  /** Value of `n` bytes from `pos`, the first of which has the given weight. */
  function WeightedBytes(aml: seq<Byte>, pos: nat, n: nat, weight: nat): nat
    requires pos + n <= |aml|
    decreases n
  {
    if n == 0 then 0 else weight * (aml[pos] as nat) + WeightedBytes(aml, pos + 1, n - 1, weight * 0x100)
  }

  /** The two high bits of the lead byte give the number of further bytes, which
      hold the length above the low four bits. The bytes that the original
      combines with `or` occupy disjoint bits, so the combination is a sum. */
  function ParsePkgLength(aml: seq<Byte>, pos: nat): (r: Result<(nat, nat)>)
    ensures r.Ok? <==> pos < |aml| && pos + 1 + aml[pos] / 0x40 <= |aml|
    ensures r.Ok? ==> pos < r.value.1 <= |aml| && r.value.1 <= pos + 4
  {
    if pos >= |aml| then Err(UnexpectedEnd)
    else
      var lead := aml[pos];
      var more := lead / 0x40;
      if more == 0 then Ok((lead % 0x40, pos + 1))
      else if pos + 1 + more > |aml| then Err(TruncatedPkgLength)
      else Ok((lead % 0x10 + WeightedBytes(aml, pos + 1, more, 0x10), pos + 1 + more))
  }

  // ---- Data ---------------------------------------------------------------

  /** Position of the first zero byte at or after `pos`, or the end. */
  function FindZero(aml: seq<Byte>, pos: nat): (p: nat)
    requires pos <= |aml|
    ensures pos <= p <= |aml|
    ensures p < |aml| ==> aml[p] == 0
    ensures forall i :: pos <= i < p ==> aml[i] != 0
    decreases |aml| - pos
  {
    if pos == |aml| || aml[pos] == 0 then pos else FindZero(aml, pos + 1)
  }

  const U64_MAX: U64 := 0xFFFF_FFFF_FFFF_FFFF

  /** The prefixed integers that fit the stream, which both readers share. */
  function PrefixedInteger(aml: seq<Byte>, pos: nat): (r: (bool, U64, nat))
    requires pos < |aml|
    ensures r.0 ==> r.2 > pos
  {
    var op := aml[pos];
    if op == 0x00 then (true, 0, pos + 1)
    else if op == 0x01 then (true, 1, pos + 1)
    else if op == 0xFF then (true, U64_MAX, pos + 1)
    else if op == 0x0A && pos + 1 < |aml| then (true, aml[pos + 1], pos + 2)
    else if op == 0x0B && pos + 2 < |aml| then (true, Le16(aml[pos + 1..pos + 3]), pos + 3)
    else if op == 0x0C && pos + 4 < |aml| then (true, Le32(aml[pos + 1..pos + 5]), pos + 5)
    else if op == 0x0E && pos + 8 < |aml| then (true, Le64(aml[pos + 1..pos + 9]), pos + 9)
    else (false, 0, pos)
  }

  function ParseDataObject(aml: seq<Byte>, pos: nat): (r: (AmlValue, nat))
    ensures r.1 >= pos
  {
    if pos >= |aml| then (Uninitialized, pos)
    else
      var (isInt, n, next) := PrefixedInteger(aml, pos);
      if isInt then (Integer(n), next)
      else if aml[pos] == 0x0D then
        var end := FindZero(aml, pos + 1);
        var raw := aml[pos + 1..end];
        (Str(if ValidUtf8(raw) then raw else []), end + 1)
      else if aml[pos] == 0x11 then
        (match ParsePkgLength(aml, pos + 1)
         case Err(_) => (Uninitialized, |aml|)
         case Ok((len, _)) =>
           var end := Min(pos + 1 + len, |aml|);
           (Buffer(aml[pos + 1..end]), end))
      else if aml[pos] == 0x12 || aml[pos] == 0x13 then
        (match ParsePkgLength(aml, pos + 1)
         case Err(_) => (Uninitialized, |aml|)
         case Ok((len, _)) => (Package, Min(pos + 1 + len, |aml|)))
      else (Uninitialized, pos + 1)
  }

  function ParseInteger(aml: seq<Byte>, pos: nat): (r: (U64, nat))
    ensures r.1 >= pos
  {
    if pos >= |aml| then (0, pos)
    else
      var (isInt, n, next) := PrefixedInteger(aml, pos);
      if isInt then (n, next) else (aml[pos], pos + 1)
  }

  // ---- Skipped arguments --------------------------------------------------

  function SkipTermArg(aml: seq<Byte>, pos: nat): (next: nat)
    ensures next >= pos
  {
    if pos >= |aml| then pos
    else
      var op := aml[pos];
      if op == 0x0A then pos + 2
      else if op == 0x0B then pos + 3
      else if op == 0x0C then pos + 5
      else if op == 0x0E then pos + 9
      else if op == 0x0D then FindZero(aml, pos + 1) + 1
      else if LeadNameChar(op) || op == BACKSLASH || op == CARET then ParseNameString(aml, pos).1
      else pos + 1
  }

  function SkipTermArgs(aml: seq<Byte>, pos: nat, count: nat): (next: nat)
    ensures next >= pos
    decreases count
  {
    if count == 0 then pos else SkipTermArgs(aml, SkipTermArg(aml, pos), count - 1)
  }
}
