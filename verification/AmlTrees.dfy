/** AML declarations as trees. The parser, given the encoding of a tree list,
    changes the namespace exactly as the trees denote, whatever the contents. */
module AmlTrees {
  import opened Arithmetic
  import opened Bytes
  import opened AmlNamespace
  import opened AmlLexer
  import opened AmlParser
  import opened AmlNames
  import opened AmlEncoding

  type NameTree = n: Name | ValidName(n) witness Name(Root, [])

  /** Block-shaped declarations and the fixed fields behind their names. */
  datatype Block =
    | ScopeBlock
    | DeviceBlock
    | ProcessorBlock(id: Byte, addr: U32, len: Byte)
    | PowerBlock(level: Byte, order: nat)
    | ThermalBlock

  datatype Item =
    | NameItem(name: NameTree, data: Data)
    | MethodItem(name: NameTree, flags: Byte, code: seq<Byte>)
    | RegionItem(name: NameTree, space: Byte, offset: U64, length: U64)
    | MutexItem(name: NameTree, flags: Byte)
    | EventItem(name: NameTree)
    | BlockItem(block: Block, name: NameTree, body: seq<Item>)
    | SkippedItem(op: Byte, content: seq<Byte>)

  // ---- Encoding -----------------------------------------------------------

  function Kind(block: Block): (k: PackageKind)
    ensures !k.MethodKind?
  {
    match block
    case ScopeBlock => ScopeKind
    case DeviceBlock => DeviceKind
    case ProcessorBlock(_, _, _) => ProcessorKind
    case PowerBlock(_, _) => PowerResourceKind
    case ThermalBlock => ThermalZoneKind
  }

  function BlockOperator(block: Block): (b: seq<Byte>)
    ensures |b| == Kind(block).OperatorSize()
  {
    match block
    case ScopeBlock => [0x10]
    case DeviceBlock => [0x5B, 0x82]
    case ProcessorBlock(_, _, _) => [0x5B, 0x83]
    case PowerBlock(_, _) => [0x5B, 0x84]
    case ThermalBlock => [0x5B, 0x85]
  }

  function FixedFields(block: Block): seq<Byte> {
    match block
    case ProcessorBlock(id, addr, len) => [id] + ToLe32(addr) + [len]
    case PowerBlock(level, order) => [level] + (if order < 0x1_0000 then ToLe16(order) else [0, 0])
    case _ => []
  }

  function Encode(item: Item): seq<Byte>
    decreases item, 0
  {
    match item
    case NameItem(name, data) => [0x08] + (EncodeName(name) + EncodeData(data))
    case MethodItem(name, flags, code) => [0x14] + EncodePackage(EncodeName(name) + ([flags] + code))
    case RegionItem(name, space, offset, length) =>
      [0x5B, 0x80] + (EncodeName(name) + ([space] + (EncodeInteger(offset) + EncodeInteger(length))))
    case MutexItem(name, flags) => [0x5B, 0x01] + (EncodeName(name) + [flags])
    case EventItem(name) => [0x5B, 0x02] + EncodeName(name)
    case BlockItem(block, name, body) =>
      BlockOperator(block) + EncodePackage(EncodeName(name) + (FixedFields(block) + EncodeAll(body)))
    case SkippedItem(op, content) => [op] + EncodePackage(content)
  }

  function EncodeAll(items: seq<Item>): seq<Byte>
    decreases items, 1
  {
    if items == [] then [] else Encode(items[0]) + EncodeAll(items[1..])
  }

  predicate Valid(item: Item)
    decreases item, 0
  {
    match item
    case NameItem(_, data) => ValidData(data)
    case MethodItem(name, _, code) => |EncodeName(name) + ([item.flags] + code)| < MAX_PACKAGE
    case BlockItem(block, name, body) =>
      && (block.PowerBlock? ==> block.order < 0x1_0000)
      && |EncodeName(name) + (FixedFields(block) + EncodeAll(body))| < MAX_PACKAGE
      && AllValid(body)
    case SkippedItem(op, content) => SkippedPackage(op) && |content| < MAX_PACKAGE
    case _ => true
  }

  predicate AllValid(items: seq<Item>)
    decreases items, 1
  {
    items == [] || (Valid(items[0]) && AllValid(items[1..]))
  }

  // ---- Meaning ------------------------------------------------------------

  function BlockValue(block: Block, name: Text): AmlValue {
    match block
    case ScopeBlock => Uninitialized
    case DeviceBlock => Device(name)
    case ProcessorBlock(id, addr, len) => Processor(id, addr, len)
    case PowerBlock(level, order) => PowerResource(level, order)
    case ThermalBlock => ThermalZone(name)
  }

  /** A block declares its object, unless it is a Scope, and then its body below
      it; everything else declares one object or nothing. */
  function Denote(ns: Namespace, item: Item): Namespace
    decreases item, 0
  {
    match item
    case NameItem(name, data) => Insert(ns, DecodedName(name), DataValue(data))
    case MethodItem(name, flags, code) => Insert(ns, DecodedName(name), MethodValue(flags, code))
    case RegionItem(name, space, offset, length) =>
      Insert(ns, DecodedName(name), OpRegion(space, offset, length))
    case MutexItem(name, flags) => Insert(ns, DecodedName(name), Mutex(flags % 16))
    case EventItem(name) => Insert(ns, DecodedName(name), Event)
    case BlockItem(block, name, body) =>
      var text := DecodedName(name);
      var listed := if block.ScopeBlock? then ns else Insert(ns, text, BlockValue(block, text));
      PopScope(DenoteAll(PushScope(listed, text), body))
    case SkippedItem(_, _) => ns
  }

  function DenoteAll(ns: Namespace, items: seq<Item>): Namespace
    decreases items, 1
  {
    if items == [] then ns else DenoteAll(Denote(ns, items[0]), items[1..])
  }

  /** Number of terms, nested ones included. */
  function Terms(item: Item): (n: nat)
    ensures n >= 1
    decreases item, 0
  {
    if item.BlockItem? then 1 + TermsAll(item.body) else 1
  }

  function TermsAll(items: seq<Item>): nat
    decreases items, 1
  {
    if items == [] then 0 else Terms(items[0]) + TermsAll(items[1..])
  }

  /** Number of nested term lists an item needs; an empty body needs none. */
  function Levels(item: Item): nat
    decreases item, 0
  {
    if item.BlockItem? && item.body != [] then 1 + LevelsAll(item.body) else 0
  }

  function LevelsAll(items: seq<Item>): nat
    decreases items, 1
  {
    if items == [] then 0
    else if Levels(items[0]) > LevelsAll(items[1..]) then Levels(items[0])
    else LevelsAll(items[1..])
  }

  // ---- What the limits leave ----------------------------------------------

  /** The items with every body dropped that lies more than `below` lists deep. */
  function CutItem(item: Item, below: nat): Item
    decreases item, 0
  {
    if !item.BlockItem? then item
    else if below == 0 then item.(body := [])
    else item.(body := Cut(item.body, below - 1))
  }

  function Cut(items: seq<Item>, below: nat): (r: seq<Item>)
    ensures |r| == |items|
    decreases items, 1
  {
    if items == [] then [] else [CutItem(items[0], below)] + Cut(items[1..], below)
  }

  /** What a budget pays for, in the order of the terms. A list stops at its first
      item that finds nothing left. */
  function AffordItem(item: Item, budget: nat): (r: Item)
    requires budget > 0
    ensures Terms(r) == Min(budget, Terms(item))
    decreases item, 0
  {
    if item.BlockItem? then item.(body := Afford(item.body, budget - 1)) else item
  }

  function Afford(items: seq<Item>, budget: nat): (r: seq<Item>)
    ensures |r| <= |items| && TermsAll(r) == Min(budget, TermsAll(items))
    decreases items, 1
  {
    if items == [] || budget == 0 then []
    else
      var first := AffordItem(items[0], budget);
      var rest := Afford(items[1..], budget - Terms(first));
      assert ([first] + rest)[1..] == rest;
      [first] + rest
  }

  /** A list is gone through to its end exactly when the budget exceeds the terms
      of all its items but the last. */
  lemma {:induction false} AffordReachesEnd(items: seq<Item>, budget: nat)
    ensures |Afford(items, budget)| == |items| <==> items == [] || budget > TermsAll(items[..|items| - 1])
    decreases |items|
  {
    if items != [] && budget > 0 {
      var first, rest := AffordItem(items[0], budget), items[1..];
      AffordReachesEnd(rest, budget - Terms(first));
      if rest != [] {
        var init := items[..|items| - 1];
        assert init[0] == items[0] && init[1..] == rest[..|rest| - 1];
      }
    }
  }

  lemma {:induction false} AffordsAllIff(items: seq<Item>, budget: nat)
    ensures Afford(items, budget) == items <==> TermsAll(items) <= budget
    decreases items, 1
  {
    if items != [] && budget > 0 {
      var first, rest := AffordItem(items[0], budget), items[1..];
      AffordsItemIff(items[0], budget);
      AffordsAllIff(rest, budget - Terms(first));
      assert items == [items[0]] + rest;
    }
  }

  lemma {:induction false} AffordsItemIff(item: Item, budget: nat)
    requires budget > 0
    ensures AffordItem(item, budget) == item <==> Terms(item) <= budget
    decreases item, 0
  {
    if item.BlockItem? {
      AffordsAllIff(item.body, budget - 1);
    }
  }

  lemma {:induction false} CutNothingIff(items: seq<Item>, below: nat)
    ensures Cut(items, below) == items <==> LevelsAll(items) <= below
    decreases items, 1
  {
    if items != [] {
      CutNothingItemIff(items[0], below);
      CutNothingIff(items[1..], below);
      assert items == [items[0]] + items[1..];
    }
  }

  lemma {:induction false} CutNothingItemIff(item: Item, below: nat)
    ensures CutItem(item, below) == item <==> Levels(item) <= below
    decreases item, 0
  {
    if item.BlockItem? && below > 0 {
      CutNothingIff(item.body, below - 1);
    }
  }

  // ---- Terms, once their parts are read -----------------------------------

  lemma NameTermIs(st: Interp, aml: seq<Byte>, pos: nat, name: Text, p: nat, value: AmlValue, next: nat)
    requires pos < |aml| && aml[pos] == 0x08
    requires ParseNameString(aml, pos + 1).0 == name && ParseNameString(aml, pos + 1).1 == p
    requires ParseDataObject(aml, p).0 == value && ParseDataObject(aml, p).1 == next
    ensures Term(st, aml, pos).0 == Declare(st, name, value)
    ensures Term(st, aml, pos).1 == Ok(next)
  {
    hide ParseNameString, ParseDataObject, Declare, ExtendedTerm, PackageTerm;
  }

  lemma ExtendedIs(st: Interp, aml: seq<Byte>, pos: nat)
    requires pos + 1 < |aml| && aml[pos] == 0x5B
    ensures Term(st, aml, pos).0 == ExtendedTerm(st, aml, pos).0
    ensures Term(st, aml, pos).1 == ExtendedTerm(st, aml, pos).1
  {
    hide ExtendedTerm;
  }

  lemma ExtendedNamedIs(st: Interp, aml: seq<Byte>, pos: nat, kind: NamedKind, name: Text, p: nat)
    requires pos + 1 < |aml| && aml[pos] == 0x5B && !kind.NameKind?
    requires aml[pos + 1] == (if kind.OpRegionKind? then 0x80 else if kind.MutexKind? then 0x01 else 0x02)
    requires ParseNameString(aml, pos + 2).0 == name && ParseNameString(aml, pos + 2).1 == p
    ensures Term(st, aml, pos).0 == NamedBody(st, aml, kind, name, p).0
    ensures Term(st, aml, pos).1 == NamedBody(st, aml, kind, name, p).1
  {
    hide Term, NamedTerm, NamedBody, PackageTerm, ParseNameString;
    ExtendedIs(st, aml, pos);
    NamedTermIs(st, aml, pos, kind, name, p);
  }

  lemma NamedTermIs(st: Interp, aml: seq<Byte>, pos: nat, kind: NamedKind, name: Text, p: nat)
    requires ParseNameString(aml, pos + kind.OperatorSize()).0 == name
    requires ParseNameString(aml, pos + kind.OperatorSize()).1 == p
    ensures NamedTerm(st, aml, pos, kind).0 == NamedBody(st, aml, kind, name, p).0
    ensures NamedTerm(st, aml, pos, kind).1 == NamedBody(st, aml, kind, name, p).1
  {
    hide NamedBody, ParseNameString;
  }

  lemma RegionTermIs(
    st: Interp, aml: seq<Byte>, pos: nat, name: Text, p: nat, offset: U64, q: nat, length: U64, next: nat)
    requires pos + 1 < |aml| && aml[pos] == 0x5B && aml[pos + 1] == 0x80
    requires ParseNameString(aml, pos + 2).0 == name && ParseNameString(aml, pos + 2).1 == p < |aml|
    requires ParseInteger(aml, p + 1).0 == offset && ParseInteger(aml, p + 1).1 == q
    requires ParseInteger(aml, q).0 == length && ParseInteger(aml, q).1 == next
    ensures Term(st, aml, pos).0 == Declare(st, name, OpRegion(aml[p], offset, length))
    ensures Term(st, aml, pos).1 == Ok(next)
  {
    hide Term, ParseNameString, ParseInteger, Declare;
    ExtendedNamedIs(st, aml, pos, OpRegionKind, name, p);
  }

  lemma MutexTermIs(st: Interp, aml: seq<Byte>, pos: nat, name: Text, p: nat)
    requires pos + 1 < |aml| && aml[pos] == 0x5B && aml[pos + 1] == 0x01
    requires ParseNameString(aml, pos + 2).0 == name && ParseNameString(aml, pos + 2).1 == p < |aml|
    ensures Term(st, aml, pos).0 == Declare(st, name, Mutex(aml[p] % 16))
    ensures Term(st, aml, pos).1 == Ok(p + 1)
  {
    hide Term, ParseNameString, Declare;
    ExtendedNamedIs(st, aml, pos, MutexKind, name, p);
  }

  lemma EventTermIs(st: Interp, aml: seq<Byte>, pos: nat, name: Text, p: nat)
    requires pos + 1 < |aml| && aml[pos] == 0x5B && aml[pos + 1] == 0x02
    requires ParseNameString(aml, pos + 2).0 == name && ParseNameString(aml, pos + 2).1 == p
    ensures Term(st, aml, pos).0 == Declare(st, name, Event)
    ensures Term(st, aml, pos).1 == Ok(p)
  {
    hide Term, ParseNameString, Declare;
    ExtendedNamedIs(st, aml, pos, EventKind, name, p);
  }

  lemma SkippedTermIs(st: Interp, aml: seq<Byte>, pos: nat, len: nat)
    requires pos < |aml| && SkippedPackage(aml[pos])
    requires ParsePkgLength(aml, pos + 1).Ok? && ParsePkgLength(aml, pos + 1).value.0 == len
    requires pos + 1 + len <= |aml|
    ensures Term(st, aml, pos).0 == st
    ensures Term(st, aml, pos).1 == Ok(pos + 1 + len)
  {
    hide ParsePkgLength, ParseNameString, ExtendedTerm, PackageTerm, NamedTerm;
  }

  predicate KindOperator(aml: seq<Byte>, pos: nat, kind: PackageKind) {
    match kind
    case ScopeKind => pos < |aml| && aml[pos] == 0x10
    case MethodKind => pos < |aml| && aml[pos] == 0x14
    case DeviceKind => pos + 1 < |aml| && aml[pos] == 0x5B && aml[pos + 1] == 0x82
    case ProcessorKind => pos + 1 < |aml| && aml[pos] == 0x5B && aml[pos + 1] == 0x83
    case PowerResourceKind => pos + 1 < |aml| && aml[pos] == 0x5B && aml[pos + 1] == 0x84
    case ThermalZoneKind => pos + 1 < |aml| && aml[pos] == 0x5B && aml[pos + 1] == 0x85
  }

  lemma PackageTermDispatch(st: Interp, aml: seq<Byte>, pos: nat, kind: PackageKind)
    requires KindOperator(aml, pos, kind)
    ensures Term(st, aml, pos).0 == PackageTerm(st, aml, pos, kind).0
    ensures Term(st, aml, pos).1 == PackageTerm(st, aml, pos, kind).1
  {
    if kind.OperatorSize() == 2 {
      ExtendedIs(st, aml, pos);
    }
  }

  lemma PackageTermIs(
    st: Interp, aml: seq<Byte>, pos: nat, kind: PackageKind, len: nat, nameStart: nat, name: Text, p: nat)
    requires KindOperator(aml, pos, kind)
    requires var r := ParsePkgLength(aml, pos + kind.OperatorSize());
             r.Ok? && r.value.0 == len && r.value.1 == nameStart
    requires ParseNameString(aml, nameStart).0 == name && ParseNameString(aml, nameStart).1 == p
    requires pos + kind.OperatorSize() + len <= |aml| && 0 < p
    ensures Term(st, aml, pos).0 == PackageBody(st, aml, kind, name, p, pos + kind.OperatorSize() + len)
    ensures Term(st, aml, pos).1 == Ok(pos + kind.OperatorSize() + len)
  {
    hide Term, PackageBody, ParseNameString, ParsePkgLength;
    PackageTermDispatch(st, aml, pos, kind);
  }

  // ---- Malformed packages -------------------------------------------------

  /** A package whose length field is cut off declares nothing, and only its
      operator is skipped. */
  lemma CutPackageIsSkipped(st: Interp, aml: seq<Byte>, pos: nat, kind: PackageKind)
    requires KindOperator(aml, pos, kind) && ParsePkgLength(aml, pos + kind.OperatorSize()).Err?
    ensures Term(st, aml, pos).0 == st && Term(st, aml, pos).1 == Ok(pos + kind.OperatorSize())
  {
    hide Term, PackageBody, ParseNameString, ParsePkgLength;
    PackageTermDispatch(st, aml, pos, kind);
  }

  /** The same for packages that are skipped as a whole. */
  lemma CutSkippedPackage(aml: seq<Byte>, pos: nat)
    requires pos < |aml| && SkippedPackage(aml[pos]) && ParsePkgLength(aml, pos + 1).Err?
    ensures SkipTerm(aml, pos) == pos + 1
  {
    hide ParsePkgLength, ParseNameString, FindZero, SkipTermArgs;
  }

  /** An operation region or mutex whose name ends the bytes declares nothing. */
  lemma CutObjectIsDropped(st: Interp, aml: seq<Byte>, pos: nat, kind: NamedKind)
    requires pos + 1 < |aml| && aml[pos] == 0x5B
    requires (kind.OpRegionKind? && aml[pos + 1] == 0x80) || (kind.MutexKind? && aml[pos + 1] == 0x01)
    requires ParseNameString(aml, pos + 2).1 >= |aml|
    ensures Term(st, aml, pos).0 == st && Term(st, aml, pos).1 == Ok(|aml|)
  {
    hide Term, ParseNameString, ParseInteger, Declare;
    var (name, p) := ParseNameString(aml, pos + 2);
    ExtendedNamedIs(st, aml, pos, kind, name, p);
  }

  /** A package that ends inside its own name has no body. Scopes and methods then
      declare nothing, devices and thermal zones only themselves, and processors and
      power resources still read their fields from the bytes that follow. */
  lemma NameOverrunsPackage(st: Interp, aml: seq<Byte>, kind: PackageKind, name: Text, p: nat, end: nat)
    requires 0 < p && end <= |aml| && end < p
    ensures PackageBody(st, aml, kind, name, p, end).ns ==
            match kind
            case ScopeKind => st.ns
            case MethodKind => st.ns
            case DeviceKind => PopScope(PushScope(Insert(st.ns, name, Device(name)), name))
            case ThermalZoneKind => Insert(st.ns, name, ThermalZone(name))
            case ProcessorKind =>
              if p + 6 <= |aml| then Insert(st.ns, name, Processor(aml[p], Le32(aml[p + 1..p + 5]), aml[p + 5])) else st.ns
            case PowerResourceKind =>
              if p + 3 <= |aml| then Insert(st.ns, name, PowerResource(aml[p], Le16(aml[p + 1..p + 3]))) else st.ns
    ensures PackageBody(st, aml, kind, name, p, end).budget == st.budget
  {
    hide Insert, PushScope, PopScope, Le32, Le16;
  }

  // ---- Encoded items are read back ----------------------------------------

  lemma NameThenAt(aml: seq<Byte>, pos: nat, name: NameTree, rest: seq<Byte>)
    requires At(aml, pos, EncodeName(name) + rest)
    ensures At(aml, pos + |EncodeName(name)|, rest)
    ensures ParseNameString(aml, pos).0 == DecodedName(name)
    ensures ParseNameString(aml, pos).1 == pos + |EncodeName(name)|
  {
    hide At, EncodeName, DecodedName, ParseNameString;
    AtConcat(aml, pos, EncodeName(name), rest);
    NameRoundTrip(aml, pos, name);
  }

  lemma ByteThenAt(aml: seq<Byte>, pos: nat, b: Byte, rest: seq<Byte>)
    requires At(aml, pos, [b] + rest)
    ensures pos < |aml| && aml[pos] == b
    ensures At(aml, pos + 1, rest)
  {
    AtConcat(aml, pos, [b], rest);
    AtByte(aml, pos, [b], 0);
  }

  lemma OpThenAt(aml: seq<Byte>, pos: nat, op: Byte, rest: seq<Byte>)
    requires At(aml, pos, [0x5B, op] + rest)
    ensures pos + 1 < |aml| && aml[pos] == 0x5B && aml[pos + 1] == op
    ensures At(aml, pos + 2, rest)
  {
    AtConcat(aml, pos, [0x5B, op], rest);
    AtByte(aml, pos, [0x5B, op], 0);
    AtByte(aml, pos, [0x5B, op], 1);
  }

  lemma IntegersAt(aml: seq<Byte>, pos: nat, a: U64, b: U64)
    requires At(aml, pos, EncodeInteger(a) + EncodeInteger(b))
    ensures ParseInteger(aml, pos).0 == a
    ensures ParseInteger(aml, pos).1 == pos + |EncodeInteger(a)|
    ensures ParseInteger(aml, pos + |EncodeInteger(a)|).0 == b
    ensures ParseInteger(aml, pos + |EncodeInteger(a)|).1 == pos + |EncodeInteger(a)| + |EncodeInteger(b)|
  {
    AtConcat(aml, pos, EncodeInteger(a), EncodeInteger(b));
    IntegerRoundTrip(aml, pos, a);
    IntegerRoundTrip(aml, pos + |EncodeInteger(a)|, b);
  }

  lemma NameItemParses(st: Interp, aml: seq<Byte>, pos: nat, name: NameTree, data: Data)
    requires ValidData(data) && At(aml, pos, [0x08] + (EncodeName(name) + EncodeData(data)))
    ensures Term(st, aml, pos).0 == Declare(st, DecodedName(name), DataValue(data))
    ensures Term(st, aml, pos).1 == Ok(pos + 1 + |EncodeName(name)| + |EncodeData(data)|)
  {
    hide At, Term, Declare, ParseNameString, ParseInteger, ParseDataObject, DecodedName, EncodeName, EncodeInteger, EncodeData, EncodePackage;
    ByteThenAt(aml, pos, 0x08, EncodeName(name) + EncodeData(data));
    NameThenAt(aml, pos + 1, name, EncodeData(data));
    var p := pos + 1 + |EncodeName(name)|;
    DataRoundTrip(aml, p, data);
    NameTermIs(st, aml, pos, DecodedName(name), p, DataValue(data), p + |EncodeData(data)|);
  }

  lemma RegionItemParses(
    st: Interp, aml: seq<Byte>, pos: nat, name: NameTree, space: Byte, offset: U64, length: U64)
    requires At(aml, pos, [0x5B, 0x80] + (EncodeName(name) + ([space] + (EncodeInteger(offset) + EncodeInteger(length)))))
    ensures Term(st, aml, pos).0 == Declare(st, DecodedName(name), OpRegion(space, offset, length))
    ensures Term(st, aml, pos).1 ==
            Ok(pos + 2 + |EncodeName(name)| + 1 + |EncodeInteger(offset)| + |EncodeInteger(length)|)
  {
    hide At, Term, Declare, ParseNameString, ParseInteger, ParseDataObject, DecodedName, EncodeName, EncodeInteger, EncodeData, EncodePackage;
    var ints := EncodeInteger(offset) + EncodeInteger(length);
    OpThenAt(aml, pos, 0x80, EncodeName(name) + ([space] + ints));
    NameThenAt(aml, pos + 2, name, [space] + ints);
    var p := pos + 2 + |EncodeName(name)|;
    ByteThenAt(aml, p, space, ints);
    IntegersAt(aml, p + 1, offset, length);
    var q := p + 1 + |EncodeInteger(offset)|;
    RegionTermIs(st, aml, pos, DecodedName(name), p, offset, q, length, q + |EncodeInteger(length)|);
  }

  lemma MutexItemParses(st: Interp, aml: seq<Byte>, pos: nat, name: NameTree, flags: Byte)
    requires At(aml, pos, [0x5B, 0x01] + (EncodeName(name) + [flags]))
    ensures Term(st, aml, pos).0 == Declare(st, DecodedName(name), Mutex(flags % 16))
    ensures Term(st, aml, pos).1 == Ok(pos + 2 + |EncodeName(name)| + 1)
  {
    hide At, Term, Declare, ParseNameString, ParseInteger, ParseDataObject, DecodedName, EncodeName, EncodeInteger, EncodeData, EncodePackage;
    OpThenAt(aml, pos, 0x01, EncodeName(name) + [flags]);
    NameThenAt(aml, pos + 2, name, [flags]);
    var p := pos + 2 + |EncodeName(name)|;
    AtByte(aml, p, [flags], 0);
    MutexTermIs(st, aml, pos, DecodedName(name), p);
  }

  lemma EventItemParses(st: Interp, aml: seq<Byte>, pos: nat, name: NameTree)
    requires At(aml, pos, [0x5B, 0x02] + EncodeName(name))
    ensures Term(st, aml, pos).0 == Declare(st, DecodedName(name), Event)
    ensures Term(st, aml, pos).1 == Ok(pos + 2 + |EncodeName(name)|)
  {
    hide At, Term, Declare, ParseNameString, ParseInteger, ParseDataObject, DecodedName, EncodeName, EncodeInteger, EncodeData, EncodePackage;
    OpThenAt(aml, pos, 0x02, EncodeName(name));
    NameRoundTrip(aml, pos + 2, name);
    EventTermIs(st, aml, pos, DecodedName(name), pos + 2 + |EncodeName(name)|);
  }

  lemma SkippedItemParses(st: Interp, aml: seq<Byte>, pos: nat, op: Byte, content: seq<Byte>)
    requires SkippedPackage(op) && |content| < MAX_PACKAGE
    requires At(aml, pos, [op] + EncodePackage(content))
    ensures Term(st, aml, pos).0 == st
    ensures Term(st, aml, pos).1 == Ok(pos + 1 + |EncodePackage(content)|)
  {
    hide At, Term, Declare, ParseNameString, ParseInteger, ParseDataObject, DecodedName, EncodeName, EncodeInteger, EncodeData, EncodePackage;
    ByteThenAt(aml, pos, op, EncodePackage(content));
    PackageAt(aml, pos + 1, content);
    SkippedTermIs(st, aml, pos, |EncodePackage(content)|);
  }

  /** A package-shaped item: the name is read, the rest of the content stands
      behind it, and the term ends where the package does. */
  lemma PackageParses(
    st: Interp, aml: seq<Byte>, pos: nat, kind: PackageKind, name: NameTree, rest: seq<Byte>, size: nat)
    requires |EncodeName(name) + rest| < MAX_PACKAGE && KindOperator(aml, pos, kind)
    requires At(aml, pos + kind.OperatorSize(), EncodePackage(EncodeName(name) + rest))
    requires size == |EncodePackage(EncodeName(name) + rest)|
    ensures var end := pos + kind.OperatorSize() + size;
            && 0 < end - |rest| && end <= |aml| && At(aml, end - |rest|, rest)
            && Term(st, aml, pos).0 == PackageBody(st, aml, kind, DecodedName(name), end - |rest|, end)
            && Term(st, aml, pos).1 == Ok(end)
  {
    hide At, Term, Declare, ParseNameString, ParseInteger, ParseDataObject, DecodedName, EncodeName, EncodeInteger, EncodeData, EncodePackage;
    var start := pos + kind.OperatorSize();
    PackageAt(aml, start, EncodeName(name) + rest);
    var nameStart := start + size - |EncodeName(name) + rest|;
    NameThenAt(aml, nameStart, name, rest);
    PackageTermIs(st, aml, pos, kind, size, nameStart, DecodedName(name), start + size - |rest|);
  }

  lemma MethodItemParses(st: Interp, aml: seq<Byte>, pos: nat, name: NameTree, flags: Byte, code: seq<Byte>)
    requires |EncodeName(name) + ([flags] + code)| < MAX_PACKAGE
    requires At(aml, pos, [0x14] + EncodePackage(EncodeName(name) + ([flags] + code)))
    ensures Term(st, aml, pos).0 == Declare(st, DecodedName(name), MethodValue(flags, code))
    ensures Term(st, aml, pos).1 == Ok(pos + 1 + |EncodePackage(EncodeName(name) + ([flags] + code))|)
  {
    hide At, Term, Declare, ParseNameString, ParseInteger, ParseDataObject, DecodedName, EncodeName, EncodeInteger, EncodeData, EncodePackage;
    var rest := [flags] + code;
    var size := |EncodePackage(EncodeName(name) + rest)|;
    ByteThenAt(aml, pos, 0x14, EncodePackage(EncodeName(name) + rest));
    PackageParses(st, aml, pos, MethodKind, name, rest, size);
    var end := pos + 1 + size;
    ByteThenAt(aml, end - |rest|, flags, code);
    AtSlice(aml, end - |code|, code);
    MethodBodyIs(st, aml, DecodedName(name), end - |rest|, end, flags, code);
  }

  lemma MethodBodyIs(st: Interp, aml: seq<Byte>, name: Text, p: nat, end: nat, flags: Byte, code: seq<Byte>)
    requires 0 < p < end <= |aml| && aml[p] == flags && aml[p + 1..end] == code
    ensures PackageBody(st, aml, MethodKind, name, p, end) == Declare(st, name, MethodValue(flags, code))
  {
  }

  lemma BlockOperatorAt(aml: seq<Byte>, pos: nat, block: Block)
    requires At(aml, pos, BlockOperator(block))
    ensures KindOperator(aml, pos, Kind(block))
  {
    AtByte(aml, pos, BlockOperator(block), 0);
    if !block.ScopeBlock? {
      AtByte(aml, pos, BlockOperator(block), 1);
    }
  }

  lemma ProcessorFieldsAt(aml: seq<Byte>, p: nat, id: Byte, addr: U32, len: Byte)
    requires At(aml, p, [id] + ToLe32(addr) + [len])
    ensures p + 6 <= |aml| && aml[p] == id && aml[p + 1..p + 5] == ToLe32(addr) && aml[p + 5] == len
  {
    AtConcat(aml, p, [id] + ToLe32(addr), [len]);
    ByteThenAt(aml, p, id, ToLe32(addr));
    AtSlice(aml, p + 1, ToLe32(addr));
    AtByte(aml, p + 5, [len], 0);
  }

  lemma PowerFieldsAt(aml: seq<Byte>, p: nat, level: Byte, order: nat)
    requires order < 0x1_0000 && At(aml, p, [level] + ToLe16(order))
    ensures p + 3 <= |aml| && aml[p] == level && aml[p + 1..p + 3] == ToLe16(order)
  {
    ByteThenAt(aml, p, level, ToLe16(order));
    AtSlice(aml, p + 1, ToLe16(order));
  }

  /** The fixed fields are read back, and what is left is parsed in the block's scope. */
  lemma FixedFieldsParse(
    st: Interp, aml: seq<Byte>, block: Block, text: Text, p: nat, end: nat, body: seq<Byte>)
    requires 0 < p && end == p + |FixedFields(block) + body| <= |aml|
    requires At(aml, p, FixedFields(block) + body)
    requires block.PowerBlock? ==> block.order < 0x1_0000
    ensures PackageBody(st, aml, Kind(block), text, p, end) ==
            InScope(if block.ScopeBlock? then st else Declare(st, text, BlockValue(block, text)), text, body)
  {
    hide Declare, InScope;
    var fixed := FixedFields(block);
    AtConcat(aml, p, fixed, body);
    AtSlice(aml, p + |fixed|, body);
    match block {
      case ProcessorBlock(id, addr, len) =>
        ProcessorFieldsAt(aml, p, id, addr, len);
      case PowerBlock(level, order) =>
        PowerFieldsAt(aml, p, level, order);
      case _ =>
    }
  }

  // ---- The parser computes the meaning ------------------------------------

  /** The part of an item that is parsed when its first unit of budget is already
      paid: `st` is the state inside the list that the item stands in. */
  function Kept(st: Interp, item: Item): Item {
    AffordItem(CutItem(item, RoomBelow(st)), st.budget + 1)
  }

  /** How many lists can still be opened inside the current one. */
  function RoomBelow(st: Interp): nat {
    if st.depth < MAX_RECURSION then MAX_RECURSION - st.depth else 0
  }

  function Parsed(st: Interp, item: Item): Interp {
    Interp(Denote(st.ns, Kept(st, item)), st.budget + 1 - Terms(Kept(st, item)), st.depth)
  }

  /** One encoded item, whatever the limits: the parser declares what the kept part
      denotes, spends one unit of budget per term of it, and always reports success
      and stops behind the encoding. */
  lemma {:induction false} ItemParses(st: Interp, aml: seq<Byte>, pos: nat, item: Item)
    requires Valid(item) && At(aml, pos, Encode(item))
    ensures Term(st, aml, pos).0 == Parsed(st, item)
    ensures Term(st, aml, pos).1 == Ok(pos + |Encode(item)|)
    decreases item, 0
  {
    hide Term, Insert, DecodedName, EncodeName, EncodePackage, EncodeData, EncodeInteger, DataValue;
    match item
    case NameItem(name, data) =>
      NameItemParses(st, aml, pos, name, data);
    case MethodItem(name, flags, code) =>
      MethodItemParses(st, aml, pos, name, flags, code);
    case RegionItem(name, space, offset, length) =>
      RegionItemParses(st, aml, pos, name, space, offset, length);
    case MutexItem(name, flags) =>
      MutexItemParses(st, aml, pos, name, flags);
    case EventItem(name) =>
      EventItemParses(st, aml, pos, name);
    case SkippedItem(op, content) =>
      SkippedItemParses(st, aml, pos, op, content);
    case BlockItem(block, name, body) =>
      BlockItemParses(st, aml, pos, block, name, body);
  }

  lemma BlockOpens(st: Interp, aml: seq<Byte>, pos: nat, block: Block, name: NameTree, body: seq<Byte>)
    requires |EncodeName(name) + (FixedFields(block) + body)| < MAX_PACKAGE
    requires block.PowerBlock? ==> block.order < 0x1_0000
    requires At(aml, pos, BlockOperator(block) + EncodePackage(EncodeName(name) + (FixedFields(block) + body)))
    ensures Term(st, aml, pos).0 ==
            InScope(if block.ScopeBlock? then st else Declare(st, DecodedName(name), BlockValue(block, DecodedName(name))),
                    DecodedName(name), body)
    ensures Term(st, aml, pos).1 ==
            Ok(pos + |BlockOperator(block)| + |EncodePackage(EncodeName(name) + (FixedFields(block) + body))|)
  {
    hide Term, Declare, DecodedName, EncodeName, InScope, EncodePackage, BlockValue;
    var rest := FixedFields(block) + body;
    var size := |EncodePackage(EncodeName(name) + rest)|;
    AtConcat(aml, pos, BlockOperator(block), EncodePackage(EncodeName(name) + rest));
    BlockOperatorAt(aml, pos, block);
    PackageParses(st, aml, pos, Kind(block), name, rest, size);
    var end := pos + |BlockOperator(block)| + size;
    FixedFieldsParse(st, aml, block, DecodedName(name), end - |rest|, end, body);
  }

  lemma {:induction false} BlockItemParses(
    st: Interp, aml: seq<Byte>, pos: nat, block: Block, name: NameTree, body: seq<Item>)
    requires Valid(BlockItem(block, name, body)) && At(aml, pos, Encode(BlockItem(block, name, body)))
    ensures Term(st, aml, pos).0 == Parsed(st, BlockItem(block, name, body))
    ensures Term(st, aml, pos).1 == Ok(pos + |Encode(BlockItem(block, name, body))|)
    decreases body, 3
  {
    hide Term, Insert, DecodedName, EncodeName, EncodePackage, TermList, EncodeAll, FixedFields, Cut, Afford;
    BlockOpens(st, aml, pos, block, name, EncodeAll(body));
    var text := DecodedName(name);
    var listed := if block.ScopeBlock? then st else Declare(st, text, BlockValue(block, text));
    var inner := listed.(ns := PushScope(listed.ns, text));
    if st.depth < MAX_RECURSION {
      ListParses(inner, body);
    } else {
      ListRefused(inner, EncodeAll(body));
    }
    BlockParsed(st, block, name, body);
  }

  lemma ListRefused(st: Interp, aml: seq<Byte>)
    requires st.depth >= MAX_RECURSION
    ensures TermList(st, aml, 0) == (st, Err(RecursionDepthExceeded))
  {
  }

  /** The part of a body that is parsed, from a list that holds its block. */
  function KeptBody(st: Interp, body: seq<Item>): seq<Item> {
    if st.depth < MAX_RECURSION then Afford(Cut(body, RoomBelow(st) - 1), st.budget) else []
  }

  lemma BlockParsed(st: Interp, block: Block, name: NameTree, body: seq<Item>)
    ensures var text := DecodedName(name);
            var listed := if block.ScopeBlock? then st.ns else Insert(st.ns, text, BlockValue(block, text));
            var kept := KeptBody(st, body);
            && Parsed(st, BlockItem(block, name, body)).ns == PopScope(DenoteAll(PushScope(listed, text), kept))
            && TermsAll(kept) <= st.budget
            && Parsed(st, BlockItem(block, name, body)).budget == st.budget - TermsAll(kept)
            && Parsed(st, BlockItem(block, name, body)).depth == st.depth
  {
    hide Insert, DecodedName, BlockValue, PopScope, PushScope, DenoteAll, Cut;
  }

  /** The list result: success exactly when the list was gone through. */
  function ListResult(items: seq<Item>, kept: seq<Item>): Result<()> {
    if |kept| == |items| then Ok(()) else Err(BudgetExhausted)
  }

  lemma {:induction false} ListParses(st: Interp, items: seq<Item>)
    requires AllValid(items) && st.depth < MAX_RECURSION
    ensures var kept := Afford(Cut(items, RoomBelow(st) - 1), st.budget);
            && TermsAll(kept) <= st.budget
            && TermList(st, EncodeAll(items), 0).0 == Interp(DenoteAll(st.ns, kept), st.budget - TermsAll(kept), st.depth)
            && TermList(st, EncodeAll(items), 0).1 == ListResult(items, kept)
    decreases items, 2
  {
    hide TermLoop, EncodeAll, DenoteAll, Afford, Cut;
    AtSlice(EncodeAll(items), 0, EncodeAll(items));
    assert EncodeAll(items)[0..|EncodeAll(items)|] == EncodeAll(items);
    LoopParses(st.(depth := st.depth + 1), EncodeAll(items), 0, items);
  }

  lemma {:induction false} LoopParses(st: Interp, aml: seq<Byte>, pos: nat, items: seq<Item>)
    requires AllValid(items) && st.depth <= MAX_RECURSION
    requires At(aml, pos, EncodeAll(items)) && pos + |EncodeAll(items)| == |aml|
    ensures var kept := Afford(Cut(items, RoomBelow(st)), st.budget);
            && TermsAll(kept) <= st.budget
            && TermLoop(st, aml, pos).0 == Interp(DenoteAll(st.ns, kept), st.budget - TermsAll(kept), st.depth - 1)
            && TermLoop(st, aml, pos).1 == ListResult(items, kept)
    decreases items, 1
  {
    hide At, Term, Encode, Denote, AffordItem, CutItem, Afford, Cut, TermsAll, Terms;
    if items == [] {
      NothingAfforded(items, RoomBelow(st), st.budget);
    } else {
      var item := items[0];
      AtConcat(aml, pos, Encode(item), EncodeAll(items[1..]));
      EncodeNonempty(item);
      if st.budget == 0 {
        NothingAfforded(items, RoomBelow(st), st.budget);
      } else {
        var charged := st.(budget := st.budget - 1);
        ItemParses(charged, aml, pos, item);
        AffordCut(items, RoomBelow(st), st.budget);
        var after := Parsed(charged, item);
        LoopParses(after, aml, pos + |Encode(item)|, items[1..]);
        DenoteCons(st.ns, Kept(charged, item), Afford(Cut(items[1..], RoomBelow(st)), after.budget));
      }
    }
  }

  /** The kept part of a list, one item at a time. */
  lemma AffordCut(items: seq<Item>, below: nat, budget: nat)
    requires items != [] && budget > 0
    ensures var first := AffordItem(CutItem(items[0], below), budget);
            && Terms(first) <= budget
            && Afford(Cut(items, below), budget) == [first] + Afford(Cut(items[1..], below), budget - Terms(first))
  {
    hide CutItem, Terms, TermsAll;
    assert Cut(items, below)[1..] == Cut(items[1..], below);
  }

  lemma NothingAfforded(items: seq<Item>, below: nat, budget: nat)
    requires items == [] || budget == 0
    ensures Afford(Cut(items, below), budget) == [] && TermsAll([]) == 0
  {
  }

  lemma DenoteCons(ns: Namespace, first: Item, rest: seq<Item>)
    ensures DenoteAll(ns, [first] + rest) == DenoteAll(Denote(ns, first), rest)
    ensures TermsAll([first] + rest) == Terms(first) + TermsAll(rest)
  {
    hide Denote, Terms;
    assert ([first] + rest)[1..] == rest;
  }

  lemma EncodeNonempty(item: Item)
    ensures |Encode(item)| > 0
  {
  }

  /** Loading the encoding of any valid declarations, under any limits, leaves
      exactly the namespace that the affordable part of the cut tree denotes. */
  lemma LoadTableDenotes(st: Interp, header: seq<Byte>, items: seq<Item>)
    requires |header| == SDT_HEADER_SIZE && AllValid(items) && st.depth < MAX_RECURSION
    ensures var kept := Afford(Cut(items, RoomBelow(st) - 1), st.budget);
            && TermsAll(kept) <= st.budget
            && LoadTable(st, header + EncodeAll(items)).0 ==
               Interp(DenoteAll(st.ns, kept), st.budget - TermsAll(kept), st.depth)
            && LoadTable(st, header + EncodeAll(items)).1 == ListResult(items, kept)
  {
    hide TermList, EncodeAll, DenoteAll, Afford, Cut;
    assert (header + EncodeAll(items))[SDT_HEADER_SIZE..] == EncodeAll(items);
    ListParses(st, items);
  }

  /** A load succeeds exactly when the budget exceeds what precedes the last
      declaration; everything is parsed exactly when also the rest is paid for and
      no body lies too deep. */
  lemma LoadOutcomeIff(st: Interp, header: seq<Byte>, items: seq<Item>)
    requires |header| == SDT_HEADER_SIZE && AllValid(items) && st.depth < MAX_RECURSION
    ensures LoadTable(st, header + EncodeAll(items)).1.Ok? <==>
            items == [] || st.budget > TermsAll(Cut(items[..|items| - 1], RoomBelow(st) - 1))
    ensures Afford(Cut(items, RoomBelow(st) - 1), st.budget) == items <==>
            TermsAll(items) <= st.budget && LevelsAll(items) < MAX_RECURSION - st.depth
  {
    hide LoadTable, EncodeAll, Afford, Cut, TermsAll, LevelsAll, AllValid;
    LoadTableDenotes(st, header, items);
    ReachesEndIff(items, RoomBelow(st) - 1, st.budget);
    KeepsAllIff(items, RoomBelow(st) - 1, st.budget);
  }

  lemma ReachesEndIff(items: seq<Item>, below: nat, budget: nat)
    ensures |Afford(Cut(items, below), budget)| == |items| <==>
            items == [] || budget > TermsAll(Cut(items[..|items| - 1], below))
  {
    hide Afford, Cut, TermsAll;
    AffordReachesEnd(Cut(items, below), budget);
    if items != [] {
      CutPrefix(items, below, |items| - 1);
    }
  }

  lemma KeepsAllIff(items: seq<Item>, below: nat, budget: nat)
    ensures Afford(Cut(items, below), budget) == items <==> TermsAll(items) <= budget && LevelsAll(items) <= below
  {
    hide Afford, Cut, TermsAll, LevelsAll;
    AffordsAllIff(Cut(items, below), budget);
    CutNothingIff(items, below);
    CutTerms(items, below);
  }

  lemma {:induction false} CutTerms(items: seq<Item>, below: nat)
    ensures TermsAll(Cut(items, below)) <= TermsAll(items)
    decreases items, 1
  {
    if items != [] {
      CutItemTerms(items[0], below);
      CutTerms(items[1..], below);
    }
  }

  lemma {:induction false} CutItemTerms(item: Item, below: nat)
    ensures Terms(CutItem(item, below)) <= Terms(item)
    decreases item, 0
  {
    if item.BlockItem? && below > 0 {
      CutTerms(item.body, below - 1);
    }
  }

  lemma {:induction false} CutPrefix(items: seq<Item>, below: nat, n: nat)
    requires n <= |items|
    ensures Cut(items, below)[..n] == Cut(items[..n], below)
    decreases n
  {
    if n > 0 {
      CutPrefix(items[1..], below, n - 1);
      assert items[..n][1..] == items[1..][..n - 1];
    }
  }

  /** One unit of budget loads a Scope around an event with success, but without
      the event: the nested list's error is dropped. */
  lemma OkWithoutTheBody(st: Interp, header: seq<Byte>, scope: NameTree, name: NameTree)
    requires |header| == SDT_HEADER_SIZE && st.depth + 1 < MAX_RECURSION && st.budget == 1
    requires Valid(BlockItem(ScopeBlock, scope, [EventItem(name)]))
    ensures var table := header + EncodeAll([BlockItem(ScopeBlock, scope, [EventItem(name)])]);
            && LoadTable(st, table).1 == Ok(())
            && LoadTable(st, table).0 == Interp(DenoteAll(st.ns, [BlockItem(ScopeBlock, scope, [])]), 0, st.depth)
  {
    hide LoadTable, EncodeAll, EncodeName, DenoteAll;
    var event := EventItem(name);
    var item := BlockItem(ScopeBlock, scope, [event]);
    assert AllValid([item]);
    LoadTableDenotes(st, header, [item]);
    var below := RoomBelow(st) - 1;
    assert Cut([event], below - 1) == [event];
    assert CutItem(item, below) == item;
    assert Cut([item], below) == [item];
    assert Afford([event], 0) == [];
    assert AffordItem(item, 1) == BlockItem(ScopeBlock, scope, []);
    assert Afford([item], 1) == [BlockItem(ScopeBlock, scope, [])];
  }
}
