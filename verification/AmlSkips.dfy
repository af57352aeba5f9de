/** Terms that the parser only skips: where it continues behind an encoded operator
    and its operands (sections 20.2.3 and 20.2.5 of the ACPI specification). */
module AmlSkips {
  import opened Bytes
  import opened AmlNamespace
  import opened AmlLexer
  import opened AmlParser
  import opened AmlNames
  import opened AmlEncoding
  import opened AmlTrees

  /** An operand without operators of its own. */
  datatype Operand = IntOperand(n: U64) | StrOperand(text: Text) | NameOperand(name: NameTree)

  predicate ValidOperand(o: Operand) {
    o.StrOperand? ==> forall i :: 0 <= i < |o.text| ==> o.text[i] != 0
  }

  function EncodeOperand(o: Operand): seq<Byte> {
    match o
    case IntOperand(n) => EncodeInteger(n)
    case StrOperand(text) => [0x0D] + (text + [0x00])
    case NameOperand(name) => EncodeName(name)
  }

  /** A name of two or more segments without a root or caret before it. */
  predicate BarePath(o: Operand) {
    o.NameOperand? && o.name.prefix == Carets(0) && |o.name.segments| >= 2
  }

  lemma IntegerSkipped(aml: seq<Byte>, pos: nat, n: U64)
    requires At(aml, pos, EncodeInteger(n))
    ensures SkipTermArg(aml, pos) == pos + |EncodeInteger(n)|
  {
    hide At, ParseNameString, FindZero;
    AtByte(aml, pos, EncodeInteger(n), 0);
  }

  lemma StringSkipped(aml: seq<Byte>, pos: nat, text: Text)
    requires At(aml, pos, [0x0D] + (text + [0x00])) && forall i :: 0 <= i < |text| ==> text[i] != 0
    ensures SkipTermArg(aml, pos) == pos + |text| + 2
  {
    hide At, ParseNameString, FindZero;
    ByteThenAt(aml, pos, 0x0D, text + [0x00]);
    FindZeroAt(aml, pos + 1, text);
  }

  lemma NameSkipped(aml: seq<Byte>, pos: nat, name: NameTree)
    requires At(aml, pos, EncodeName(name))
    ensures SkipTermArg(aml, pos) == pos + |EncodeName(name)| <==> !BarePath(NameOperand(name))
  {
    hide At, ParseNameString, FindZero, EncodePath;
    NameRoundTrip(aml, pos, name);
    NameStart(name);
    AtByte(aml, pos, EncodeName(name), 0);
  }

  /** The first byte of an encoded name, and when nothing follows it. */
  lemma NameStart(name: NameTree)
    ensures var b := EncodeName(name);
            && b != []
            && (BarePath(NameOperand(name)) ==> b[0] in {0x2E, 0x2F} && |b| > 1)
            && (!BarePath(NameOperand(name)) ==>
                LeadNameChar(b[0]) || b[0] == BACKSLASH || b[0] == CARET || (b[0] == 0x00 && |b| == 1))
  {
    var prefix, path := PrefixText(name.prefix), EncodePath(name.segments);
    if name.prefix == Carets(0) {
      assert EncodeName(name) == path;
      FlattenLength(name.segments);
    }
  }

  /** Skipping an operand ends behind its encoding exactly when it is not a bare
      path of several segments, of which only the first byte is skipped. */
  lemma SkipsOperandIff(aml: seq<Byte>, pos: nat, o: Operand)
    requires ValidOperand(o) && At(aml, pos, EncodeOperand(o))
    ensures SkipTermArg(aml, pos) == pos + |EncodeOperand(o)| <==> !BarePath(o)
  {
    hide SkipTermArg, EncodeInteger, EncodeName, At;
    match o
    case IntOperand(n) => IntegerSkipped(aml, pos, n);
    case StrOperand(text) => StringSkipped(aml, pos, text);
    case NameOperand(name) => NameSkipped(aml, pos, name);
  }

  function EncodeOperands(operands: seq<Operand>): seq<Byte> {
    if operands == [] then [] else EncodeOperand(operands[0]) + EncodeOperands(operands[1..])
  }

  lemma {:induction false} SkipsOperands(aml: seq<Byte>, pos: nat, operands: seq<Operand>)
    requires forall i :: 0 <= i < |operands| ==> ValidOperand(operands[i]) && !BarePath(operands[i])
    requires At(aml, pos, EncodeOperands(operands))
    ensures SkipTermArgs(aml, pos, |operands|) == pos + |EncodeOperands(operands)|
    decreases |operands|
  {
    hide SkipTermArg, EncodeOperand, At, ValidOperand, BarePath;
    if operands != [] {
      AtConcat(aml, pos, EncodeOperand(operands[0]), EncodeOperands(operands[1..]));
      SkipsOperandIff(aml, pos, operands[0]);
      SkipsOperands(aml, pos + |EncodeOperand(operands[0])|, operands[1..]);
    }
  }

  /** Operators that are followed by operands alone. */
  predicate IsOperator(op: Byte) {
    0x70 <= op <= 0x88 || op == 0x8E || 0x90 <= op <= 0x99 || 0x9C <= op <= 0x9E || op == 0xA4
  }

  /** The number of their operands, targets included, by section 20.2.5.4 of the
      ACPI specification. */
  function Operands(op: Byte): nat
    requires IsOperator(op)
  {
    if op == 0x78 || op == 0x9E then 4                                  // Divide, Mid
    else if 0x72 <= op <= 0x74 || op == 0x77 || 0x79 <= op <= 0x7F then 3
                                                                        // Add to Multiply, shifts, bitwise
    else if op == 0x84 || op == 0x85 || op == 0x88 || op == 0x9C then 3 // ConcatRes, Mod, Index, ToString
    else if op == 0x71 || op == 0x75 || op == 0x76 || op == 0x83 then 1 // RefOf, Increment, Decrement, DerefOf
    else if op == 0x87 || op == 0x8E || op == 0x92 || op == 0xA4 then 1 // SizeOf, ObjectType, LNot, Return
    else 2                                                              // Store, Not, FindSet*, Notify, logic, conversions
  }

  /** Not, FindSetLeftBit, FindSetRightBit and Mid. */
  predicate Miscounted(op: Byte) {
    0x80 <= op <= 0x82 || op == 0x9E
  }

  /** The parser counts the operands as the grammar does, except that it forgets the
      target of Not, FindSetLeftBit and FindSetRightBit and one operand of Mid. */
  lemma ArityAgrees(op: Byte)
    requires IsOperator(op)
    ensures PlainArity(op) == Operands(op) - if Miscounted(op) then 1 else 0
  {
  }

  /** A skipped operator with its operands is left behind as a whole. */
  lemma OperatorSkipped(aml: seq<Byte>, pos: nat, op: Byte, operands: seq<Operand>)
    requires IsOperator(op) && !Miscounted(op) && |operands| == Operands(op)
    requires forall i :: 0 <= i < |operands| ==> ValidOperand(operands[i]) && !BarePath(operands[i])
    requires At(aml, pos, [op] + EncodeOperands(operands))
    ensures pos < |aml| && SkipTerm(aml, pos) == pos + 1 + |EncodeOperands(operands)|
  {
    hide At, EncodeOperands, ValidOperand, BarePath, SkipTermArgs, ParseNameString, FindZero;
    ByteThenAt(aml, pos, op, EncodeOperands(operands));
    SkipsOperands(aml, pos + 1, operands);
    ArityAgrees(op);
    OperatorIsPlain(aml, pos);
  }

  lemma OperatorIsPlain(aml: seq<Byte>, pos: nat)
    requires pos < |aml| && IsOperator(aml[pos])
    ensures SkipTerm(aml, pos) == SkipTermArgs(aml, pos + 1, PlainArity(aml[pos]))
  {
    hide SkipTermArgs, ParseNameString, FindZero, PlainArity;
  }

  // ---- The other skipped terms --------------------------------------------

  predicate Simple(o: Operand) {
    ValidOperand(o) && !BarePath(o)
  }

  predicate AllSimple(operands: seq<Operand>) {
    forall i :: 0 <= i < |operands| ==> ValidOperand(operands[i]) && !BarePath(operands[i])
  }

  /** One operand, and what stands behind it. */
  lemma OperandThenAt(aml: seq<Byte>, pos: nat, o: Operand, rest: seq<Byte>)
    requires Simple(o) && At(aml, pos, EncodeOperand(o) + rest)
    ensures SkipTermArg(aml, pos) == pos + |EncodeOperand(o)| && At(aml, pos + |EncodeOperand(o)|, rest)
  {
    hide At, SkipTermArg, EncodeOperand, ValidOperand, BarePath;
    AtConcat(aml, pos, EncodeOperand(o), rest);
    SkipsOperandIff(aml, pos, o);
  }

  /** Integers and strings that stand as terms. */
  lemma DataTermSkipped(aml: seq<Byte>, pos: nat, o: Operand)
    requires ValidOperand(o) && !o.NameOperand? && At(aml, pos, EncodeOperand(o))
    ensures pos < |aml| && SkipTerm(aml, pos) == pos + |EncodeOperand(o)|
  {
    hide At, FindZero, ParseNameString, SkipTermArgs, SkipPackage, SkipMatch;
    match o
    case IntOperand(n) =>
      AtByte(aml, pos, EncodeInteger(n), 0);
      NoArguments(aml, pos + 1);
    case StrOperand(text) =>
      ByteThenAt(aml, pos, 0x0D, text + [0x00]);
      FindZeroAt(aml, pos + 1, text);
      AtFits(aml, pos + 1, text + [0x00]);
  }

  /** Alias: the source name and the new name. */
  lemma AliasSkipped(aml: seq<Byte>, pos: nat, source: NameTree, alias: NameTree)
    requires At(aml, pos, [0x06] + (EncodeName(source) + EncodeName(alias)))
    ensures pos < |aml| && SkipTerm(aml, pos) == pos + 1 + |EncodeName(source)| + |EncodeName(alias)|
  {
    hide At, EncodeName, DecodedName, ParseNameString, SkipTermArgs, SkipPackage, SkipMatch, FindZero;
    ByteThenAt(aml, pos, 0x06, EncodeName(source) + EncodeName(alias));
    NameThenAt(aml, pos + 1, source, EncodeName(alias));
    NameRoundTrip(aml, pos + 1 + |EncodeName(source)|, alias);
  }

  /** External: a name, an object type and an argument count. */
  lemma ExternalSkipped(aml: seq<Byte>, pos: nat, name: NameTree, kind: Byte, args: Byte)
    requires At(aml, pos, [0x15] + (EncodeName(name) + [kind, args]))
    ensures pos < |aml| && SkipTerm(aml, pos) == pos + 1 + |EncodeName(name)| + 2
  {
    hide At, EncodeName, DecodedName, ParseNameString, SkipTermArgs, SkipPackage, SkipMatch, FindZero;
    ByteThenAt(aml, pos, 0x15, EncodeName(name) + [kind, args]);
    NameThenAt(aml, pos + 1, name, [kind, args]);
    AtFits(aml, pos + 1 + |EncodeName(name)|, [kind, args]);
  }

  /** The fields over a buffer: two operands and a name. */
  lemma CreateFieldSkipped(aml: seq<Byte>, pos: nat, op: Byte, operands: seq<Operand>, name: NameTree)
    requires op in {0x8A, 0x8B, 0x8C, 0x8D, 0x8F} && |operands| == 2 && AllSimple(operands)
    requires At(aml, pos, [op] + (EncodeOperands(operands) + EncodeName(name)))
    ensures pos < |aml| && SkipTerm(aml, pos) == pos + 1 + |EncodeOperands(operands)| + |EncodeName(name)|
  {
    hide At, EncodeName, DecodedName, ParseNameString, SkipTermArgs, SkipPackage, SkipMatch, FindZero, EncodeOperands;
    ByteThenAt(aml, pos, op, EncodeOperands(operands) + EncodeName(name));
    AtConcat(aml, pos + 1, EncodeOperands(operands), EncodeName(name));
    SkipsOperands(aml, pos + 1, operands);
    NameRoundTrip(aml, pos + 1 + |EncodeOperands(operands)|, name);
  }

  /** Match: a package, two comparisons with an operand each, and a start index. */
  lemma MatchSkipped(aml: seq<Byte>, pos: nat, list: Operand, c1: Byte, a: Operand, c2: Byte, b: Operand, start: Operand)
    requires Simple(list) && Simple(a) && Simple(b) && Simple(start)
    requires At(aml, pos, [0x89] + (EncodeOperand(list) + ([c1] + (EncodeOperand(a) + ([c2] + (EncodeOperand(b) + EncodeOperand(start)))))))
    ensures pos < |aml|
    ensures SkipTerm(aml, pos) ==
            pos + 1 + |EncodeOperand(list)| + 1 + |EncodeOperand(a)| + 1 + |EncodeOperand(b)| + |EncodeOperand(start)|
  {
    hide At, EncodeOperand, SkipTermArg, SkipTermArgs, SkipPackage, ParseNameString, FindZero, Simple;
    var tail3 := EncodeOperand(b) + EncodeOperand(start);
    var tail2 := EncodeOperand(a) + ([c2] + tail3);
    ByteThenAt(aml, pos, 0x89, EncodeOperand(list) + ([c1] + tail2));
    OperandThenAt(aml, pos + 1, list, [c1] + tail2);
    var p := pos + 1 + |EncodeOperand(list)|;
    ByteThenAt(aml, p, c1, tail2);
    OperandThenAt(aml, p + 1, a, [c2] + tail3);
    var q := p + 1 + |EncodeOperand(a)|;
    ByteThenAt(aml, q, c2, tail3);
    OperandThenAt(aml, q + 1, b, EncodeOperand(start));
    var r := q + 1 + |EncodeOperand(b)|;
    assert EncodeOperand(start) + [] == EncodeOperand(start);
    OperandThenAt(aml, r, start, []);
  }

  /** The operands of the extended operators: Sleep, Stall, Signal, Reset and Release
      have one, CondRefOf and Wait two. Of Acquire only the mutex is skipped and not
      the timeout behind it. */
  lemma ExtendedSkipped(aml: seq<Byte>, pos: nat, op: Byte, operands: seq<Operand>)
    requires op in {0x12, 0x21, 0x22, 0x23, 0x24, 0x25, 0x26, 0x27} && AllSimple(operands)
    requires |operands| == if op == 0x12 || op == 0x25 then 2 else 1
    requires At(aml, pos, [0x5B, op] + EncodeOperands(operands))
    ensures pos < |aml| && SkipTerm(aml, pos) == pos + 2 + |EncodeOperands(operands)|
  {
    hide At, EncodeOperands, SkipTermArgs, SkipTermArg, SkipPackage, SkipMatch, ParseNameString, FindZero;
    OpThenAt(aml, pos, op, EncodeOperands(operands));
    SkipsOperands(aml, pos + 2, operands);
    OneArgument(aml, pos + 2);
  }

  lemma OneArgument(aml: seq<Byte>, pos: nat)
    ensures SkipTermArgs(aml, pos, 1) == SkipTermArg(aml, pos)
  {
    hide SkipTermArg;
    assert SkipTermArgs(aml, SkipTermArg(aml, pos), 0) == SkipTermArg(aml, pos);
  }

  /** CreateField: three operands and a name. */
  lemma ExtendedFieldSkipped(aml: seq<Byte>, pos: nat, operands: seq<Operand>, name: NameTree)
    requires |operands| == 3 && AllSimple(operands)
    requires At(aml, pos, [0x5B, 0x13] + (EncodeOperands(operands) + EncodeName(name)))
    ensures pos < |aml| && SkipTerm(aml, pos) == pos + 2 + |EncodeOperands(operands)| + |EncodeName(name)|
  {
    hide At, EncodeName, DecodedName, ParseNameString, SkipTermArgs, SkipTermArg, SkipPackage, SkipMatch, FindZero, EncodeOperands;
    OpThenAt(aml, pos, 0x13, EncodeOperands(operands) + EncodeName(name));
    AtConcat(aml, pos + 2, EncodeOperands(operands), EncodeName(name));
    SkipsOperands(aml, pos + 2, operands);
    NameRoundTrip(aml, pos + 2 + |EncodeOperands(operands)|, name);
  }

  /** Fatal: a type byte, a four-byte code and an operand. */
  lemma FatalSkipped(aml: seq<Byte>, pos: nat, fixed: seq<Byte>, arg: Operand)
    requires |fixed| == 5 && Simple(arg) && At(aml, pos, [0x5B, 0x32] + (fixed + EncodeOperand(arg)))
    ensures pos < |aml| && SkipTerm(aml, pos) == pos + 7 + |EncodeOperand(arg)|
  {
    hide At, EncodeOperand, SkipTermArg, SkipTermArgs, SkipPackage, SkipMatch, ParseNameString, FindZero, ValidOperand, BarePath;
    OpThenAt(aml, pos, 0x32, fixed + EncodeOperand(arg));
    AtConcat(aml, pos + 2, fixed, EncodeOperand(arg));
    SkipsOperandIff(aml, pos + 7, arg);
    OperandNonempty(arg);
    AtFits(aml, pos + 7, EncodeOperand(arg));
  }

  lemma OperandNonempty(o: Operand)
    ensures EncodeOperand(o) != []
  {
    if o.NameOperand? {
      NameStart(o.name);
    }
  }

  /** Field, IndexField and BankField are skipped as a whole. */
  lemma FieldListSkipped(aml: seq<Byte>, pos: nat, op: Byte, content: seq<Byte>)
    requires op in {0x81, 0x86, 0x87} && |content| < MAX_PACKAGE
    requires At(aml, pos, [0x5B, op] + EncodePackage(content))
    ensures pos < |aml| && SkipTerm(aml, pos) == pos + 2 + |EncodePackage(content)|
  {
    hide At, EncodePackage, ParsePkgLength, SkipTermArgs, SkipTermArg, SkipMatch, ParseNameString, FindZero;
    OpThenAt(aml, pos, op, EncodePackage(content));
    PackageAt(aml, pos + 2, content);
  }

  /** A name that stands as a term is left behind as a whole exactly when it has no
      root or caret before its segments; of others only the first byte is. */
  lemma NameTermSkippedIff(aml: seq<Byte>, pos: nat, name: NameTree)
    requires At(aml, pos, EncodeName(name))
    ensures pos < |aml|
    ensures SkipTerm(aml, pos) == pos + |EncodeName(name)| <==> name.prefix == Carets(0)
  {
    hide At, ParseNameString, SkipTerm, EncodePath;
    NameRoundTrip(aml, pos, name);
    NameBytes(name);
    AtByte(aml, pos, EncodeName(name), 0);
    if name.prefix == Carets(0) && |name.segments| > 2 {
      AtByte(aml, pos, EncodeName(name), 1);
    }
    SkipNameByte(aml, pos);
  }

  /** What the first bytes of an encoded name say about its length. */
  lemma NameBytes(name: NameTree)
    ensures var b, n := EncodeName(name), |name.segments|;
            && b != []
            && (name.prefix != Carets(0) ==> (b[0] == BACKSLASH || b[0] == CARET) && |b| > 1)
            && (name.prefix == Carets(0) ==>
                if n == 0 then b[0] == 0x00 && |b| == 1
                else if n == 1 then LeadNameChar(b[0])
                else if n == 2 then b[0] == 0x2E && |b| == 9
                else b[0] == 0x2F && |b| == 2 + 4 * n && b[1] == n)
  {
    FlattenLength(name.segments);
    if name.prefix == Carets(0) {
      assert EncodeName(name) == EncodePath(name.segments);
    }
  }

  lemma SkipNameByte(aml: seq<Byte>, pos: nat)
    requires pos < |aml|
    ensures aml[pos] == 0x2E ==> SkipTerm(aml, pos) == pos + 9
    ensures aml[pos] == 0x2F && pos + 1 < |aml| ==> SkipTerm(aml, pos) == pos + 2 + 4 * (aml[pos + 1] as nat)
    ensures LeadNameChar(aml[pos]) ==> SkipTerm(aml, pos) == ParseNameString(aml, pos).1
    ensures aml[pos] == BACKSLASH || aml[pos] == CARET || aml[pos] == 0x00 ==> SkipTerm(aml, pos) == pos + 1
  {
    hide ParseNameString, FindZero, SkipTermArgs, SkipPackage, SkipMatch, SkipExtended;
    NoArguments(aml, pos + 1);
  }

  lemma NoArguments(aml: seq<Byte>, pos: nat)
    ensures SkipTermArgs(aml, pos, 0) == pos
  {
  }

  /** The flag byte of a method is its argument count, its serialisation bit and its
      synchronisation level. */
  lemma MethodFlags(flags: Byte, body: seq<Byte>)
    ensures var v := MethodValue(flags, body);
            && v.Method? && v.body == body
            && v.argCount < 8 && v.syncLevel < 16
            && flags == v.argCount + (if v.serialized then 8 else 0) + 16 * v.syncLevel
  {
  }

  // ---- Cut names and data -------------------------------------------------

  /** Names at the end of the bytes: a cut dual path is only its marker; a multi-name
      path gives the whole segments that are left; a cut single segment gives its
      name characters, untrimmed; and a byte that starts no name is not consumed. */
  lemma CutNames(aml: seq<Byte>, pos: nat)
    requires pos < |aml| && aml[pos] != BACKSLASH && aml[pos] != CARET
    ensures var lead, r, left := aml[pos], ParseNameString(aml, pos), |aml| - pos;
            && (lead == 0x2E && left < 9 ==> r.0 == [] && r.1 == pos + 1)
            && (lead == 0x2F && left == 1 ==> r.0 == [] && r.1 == pos + 1)
            && (lead == 0x2F && left > 1 && left < 2 + 4 * (aml[pos + 1] as nat) ==> r.1 == pos + 2 + (left - 2) / 4 * 4)
            && (LeadNameChar(lead) && left < 4 ==>
                && pos < r.1 <= |aml| && r.0 == aml[pos..r.1]
                && (forall i :: pos <= i < r.1 ==> NameChar(aml[i]))
                && (r.1 < |aml| ==> !NameChar(aml[r.1])))
            && (lead != 0x00 && lead != 0x2E && lead != 0x2F && !LeadNameChar(lead) ==> r.0 == [] && r.1 == pos)
  {
    hide SegmentList, JoinDots;
    assert aml[pos..pos] == [];
    RunIsMaximal(aml, pos);
  }

  lemma {:induction false} RunIsMaximal(aml: seq<Byte>, pos: nat)
    requires pos <= |aml|
    ensures var end := pos + NameCharRun(aml, pos);
            end <= |aml| && (forall i :: pos <= i < end ==> NameChar(aml[i])) && (end < |aml| ==> !NameChar(aml[end]))
    decreases |aml| - pos
  {
    if pos < |aml| && NameChar(aml[pos]) {
      RunIsMaximal(aml, pos + 1);
    }
  }

  /** Data at the end of the bytes: a cut integer is nothing of one byte; a string
      without its end runs to the end of the bytes, and one that is not UTF-8 is
      empty; a buffer or package with a cut length uses everything up. */
  lemma CutData(aml: seq<Byte>, pos: nat)
    requires pos < |aml|
    ensures var lead, r, left := aml[pos], ParseDataObject(aml, pos), |aml| - pos;
            && ((lead == 0x0A && left < 2) || (lead == 0x0B && left < 3) || (lead == 0x0C && left < 5) || (lead == 0x0E && left < 9) ==>
                r.0 == Uninitialized && r.1 == pos + 1)
            && (lead == 0x0D && (forall i :: pos < i < |aml| ==> aml[i] != 0) ==>
                r.1 == |aml| + 1 && r.0 == Str(if ValidUtf8(aml[pos + 1..]) then aml[pos + 1..] else []))
            && (lead in {0x11, 0x12, 0x13} && ParsePkgLength(aml, pos + 1).Err? ==> r.0 == Uninitialized && r.1 == |aml|)
  {
    hide ValidUtf8, ParsePkgLength;
    if aml[pos] == 0x0D && forall i :: pos < i < |aml| ==> aml[i] != 0 {
      assert FindZero(aml, pos + 1) == |aml|;
      assert aml[pos + 1..|aml|] == aml[pos + 1..];
    }
  }
}
