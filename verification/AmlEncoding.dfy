/** The byte encodings of AML package lengths, integers and data objects, which the
    readers invert. */
module AmlEncoding {
  import opened Bytes
  import opened AmlNamespace
  import opened AmlLexer

  // ---- PkgLength (section 20.2.4 of the ACPI specification) ---------------

  const MAX_PACKAGE: nat := 0x1000_0000 - 4

  /** `k` bytes of `v`, the least significant first. */
  function LeBytes(v: nat, k: nat): (b: seq<Byte>)
    ensures |b| == k
    decreases k
  {
    if k == 0 then [] else [v % 0x100] + LeBytes(v / 0x100, k - 1)
  }

  function Capacity(k: nat): nat {
    if k == 0 then 1 else 0x100 * Capacity(k - 1)
  }

  /** A lead byte with the count of further bytes and the low four bits, then
      the rest of the length `m`. */
  function LongLength(m: nat, k: nat): seq<Byte>
    requires k < 4
  {
    [0x40 * k + m % 0x10] + LeBytes(m / 0x10, k)
  }

  /** The shortest PkgLength for `n` following bytes; it counts itself. */
  function EncodePkgLength(n: nat): (b: seq<Byte>)
    requires n < MAX_PACKAGE
    ensures 1 <= |b| <= 4
  {
    if n + 1 < 0x40 then [n + 1]
    else if n + 2 < 0x1000 then LongLength(n + 2, 1)
    else if n + 3 < 0x10_0000 then LongLength(n + 3, 2)
    else LongLength(n + 4, 3)
  }

  /** Content behind its length; nothing at all when it is too long for one. */
  function EncodePackage(content: seq<Byte>): seq<Byte> {
    if |content| < MAX_PACKAGE then EncodePkgLength(|content|) + content else []
  }

  lemma WeightSplits(w: nat, v: nat)
    ensures w * (v % 0x100) + w * 0x100 * (v / 0x100) == w * v
  {
    var q, r := v / 0x100, v % 0x100;
    assert v == 0x100 * q + r;
    assert w * (0x100 * q + r) == w * 0x100 * q + w * r;
  }

  lemma {:induction false} WeightedAt(aml: seq<Byte>, pos: nat, v: nat, k: nat, w: nat)
    requires v < Capacity(k) && At(aml, pos, LeBytes(v, k))
    ensures WeightedBytes(aml, pos, k, w) == w * v
    decreases k
  {
    if k > 0 {
      AtByte(aml, pos, LeBytes(v, k), 0);
      AtConcat(aml, pos, [v % 0x100], LeBytes(v / 0x100, k - 1));
      WeightedAt(aml, pos + 1, v / 0x100, k - 1, w * 0x100);
      WeightSplits(w, v);
    }
  }

  lemma LongLengthAt(aml: seq<Byte>, pos: nat, m: nat, k: nat)
    requires 0 < k < 4 && m / 0x10 < Capacity(k) && At(aml, pos, LongLength(m, k))
    ensures ParsePkgLength(aml, pos).Ok?
    ensures ParsePkgLength(aml, pos).value.0 == m && ParsePkgLength(aml, pos).value.1 == pos + 1 + k
  {
    var lead := 0x40 * k + m % 0x10;
    AtByte(aml, pos, LongLength(m, k), 0);
    AtConcat(aml, pos, [lead], LeBytes(m / 0x10, k));
    assert lead / 0x40 == k && lead % 0x10 == m % 0x10;
    WeightedAt(aml, pos + 1, m / 0x10, k, 0x10);
  }

  /** The length reader inverts the length encoding. */
  lemma PkgLengthRoundTrip(aml: seq<Byte>, pos: nat, n: nat)
    requires n < MAX_PACKAGE && At(aml, pos, EncodePkgLength(n))
    ensures ParsePkgLength(aml, pos).Ok?
    ensures ParsePkgLength(aml, pos).value.0 == n + |EncodePkgLength(n)|
    ensures ParsePkgLength(aml, pos).value.1 == pos + |EncodePkgLength(n)|
  {
    assert Capacity(1) == 0x100 && Capacity(2) == 0x1_0000 && Capacity(3) == 0x100_0000;
    if n + 1 < 0x40 {
      AtByte(aml, pos, EncodePkgLength(n), 0);
    } else if n + 2 < 0x1000 {
      LongLengthAt(aml, pos, n + 2, 1);
    } else if n + 3 < 0x10_0000 {
      LongLengthAt(aml, pos, n + 3, 2);
    } else {
      LongLengthAt(aml, pos, n + 4, 3);
    }
  }

  /** The length for any lead byte, its reserved bits included: one byte gives six
      bits; otherwise the low four bits are continued by one to three bytes. */
  lemma PkgLengthValue(aml: seq<Byte>, pos: nat)
    requires ParsePkgLength(aml, pos).Ok?
    ensures var n, more := ParsePkgLength(aml, pos).value.0, aml[pos] / 64;
            var b := (i: nat) => if pos + i < |aml| then aml[pos + i] as nat else 0;
            && ParsePkgLength(aml, pos).value.1 == pos + 1 + more
            && (more == 0 ==> n == aml[pos] % 64)
            && (more == 1 ==> n == aml[pos] % 16 + 16 * b(1))
            && (more == 2 ==> n == aml[pos] % 16 + 16 * b(1) + 0x1000 * b(2))
            && (more == 3 ==> n == aml[pos] % 16 + 16 * b(1) + 0x1000 * b(2) + 0x10_0000 * b(3))
  {
    var more := aml[pos] / 64;
    if more >= 1 {
      assert WeightedBytes(aml, pos + 1, more, 0x10) ==
             0x10 * (aml[pos + 1] as nat) + WeightedBytes(aml, pos + 2, more - 1, 0x1000);
    }
    if more >= 2 {
      assert WeightedBytes(aml, pos + 2, more - 1, 0x1000) ==
             0x1000 * (aml[pos + 2] as nat) + WeightedBytes(aml, pos + 3, more - 2, 0x10_0000);
    }
  }

  lemma PackageAt(aml: seq<Byte>, pos: nat, content: seq<Byte>)
    requires |content| < MAX_PACKAGE && At(aml, pos, EncodePackage(content))
    ensures ParsePkgLength(aml, pos).Ok?
    ensures ParsePkgLength(aml, pos).value.0 == |EncodePackage(content)|
    ensures ParsePkgLength(aml, pos).value.1 == pos + |EncodePackage(content)| - |content|
    ensures At(aml, pos + |EncodePackage(content)| - |content|, content)
    ensures pos + |EncodePackage(content)| <= |aml|
  {
    hide At, ParsePkgLength, EncodePkgLength;
    AtFits(aml, pos, EncodePackage(content));
    AtConcat(aml, pos, EncodePkgLength(|content|), content);
    PkgLengthRoundTrip(aml, pos, |content|);
  }

  // ---- Data objects -------------------------------------------------------

  function EncodeInteger(n: U64): (b: seq<Byte>)
    ensures b != []
  {
    if n == 0 then [0x00]
    else if n == 1 then [0x01]
    else if n == U64_MAX then [0xFF]
    else if n < 0x100 then [0x0A, n]
    else if n < 0x1_0000 then [0x0B] + ToLe16(n)
    else if n < 0x1_0000_0000 then [0x0C] + ToLe32(n)
    else [0x0E] + ToLe64(n)
  }

  lemma IntegerRoundTrip(aml: seq<Byte>, pos: nat, n: U64)
    requires At(aml, pos, EncodeInteger(n))
    ensures pos < |aml| && PrefixedInteger(aml, pos).0
    ensures PrefixedInteger(aml, pos).1 == n
    ensures PrefixedInteger(aml, pos).2 == pos + |EncodeInteger(n)|
  {
    hide At, ToLe16, ToLe32, ToLe64, Le16, Le32, Le64;
    var b := EncodeInteger(n);
    AtByte(aml, pos, b, 0);
    AtFits(aml, pos, b);
    if b[0] == 0x0A {
      AtByte(aml, pos, b, 1);
    } else if b[0] == 0x0B {
      AtConcat(aml, pos, [0x0B], ToLe16(n));
      AtSlice(aml, pos + 1, ToLe16(n));
    } else if b[0] == 0x0C {
      AtConcat(aml, pos, [0x0C], ToLe32(n));
      AtSlice(aml, pos + 1, ToLe32(n));
    } else if b[0] == 0x0E {
      AtConcat(aml, pos, [0x0E], ToLe64(n));
      AtSlice(aml, pos + 1, ToLe64(n));
    }
  }

  datatype Data = IntData(n: U64) | StrData(text: Text) | BufferData(content: seq<Byte>) | PackageData(content: seq<Byte>)

  predicate ValidData(data: Data) {
    match data
    case IntData(_) => true
    case StrData(text) => ValidUtf8(text) && forall i :: 0 <= i < |text| ==> text[i] != 0
    case BufferData(content) => |content| < MAX_PACKAGE
    case PackageData(content) => |content| < MAX_PACKAGE
  }

  function EncodeData(data: Data): seq<Byte> {
    match data
    case IntData(n) => EncodeInteger(n)
    case StrData(text) => [0x0D] + (text + [0x00])
    case BufferData(content) => [0x11] + EncodePackage(content)
    case PackageData(content) => [0x12] + EncodePackage(content)
  }

  /** The stored value. A buffer keeps its own PkgLength bytes, and the elements
      of a package are not kept. */
  function DataValue(data: Data): AmlValue {
    match data
    case IntData(n) => Integer(n)
    case StrData(text) => Str(text)
    case BufferData(content) => Buffer(EncodePackage(content))
    case PackageData(_) => Package
  }

  lemma FindZeroAt(aml: seq<Byte>, pos: nat, text: Text)
    requires At(aml, pos, text + [0x00]) && forall i :: 0 <= i < |text| ==> text[i] != 0
    ensures FindZero(aml, pos) == pos + |text|
    ensures aml[pos..pos + |text|] == text
  {
    AtConcat(aml, pos, text, [0x00]);
    AtSlice(aml, pos, text);
    AtByte(aml, pos + |text|, [0x00], 0);
    var p := FindZero(aml, pos);
    if p < pos + |text| {
      AtByte(aml, pos, text, p - pos);
    }
  }

  lemma OtherDataIsNoInteger(aml: seq<Byte>, pos: nat)
    requires pos < |aml| && aml[pos] in {0x0D, 0x11, 0x12}
    ensures !PrefixedInteger(aml, pos).0
  {
  }

  lemma StrIs(aml: seq<Byte>, pos: nat, end: nat)
    requires pos < |aml| && aml[pos] == 0x0D && pos + 1 <= end <= |aml| && FindZero(aml, pos + 1) == end
    ensures var raw := aml[pos + 1..end];
            && ParseDataObject(aml, pos).0 == Str(if ValidUtf8(raw) then raw else [])
            && ParseDataObject(aml, pos).1 == end + 1
  {
    hide ValidUtf8, FindZero, PrefixedInteger, ParsePkgLength;
    OtherDataIsNoInteger(aml, pos);
  }

  lemma StrAt(aml: seq<Byte>, pos: nat, text: Text)
    requires ValidData(StrData(text)) && At(aml, pos, EncodeData(StrData(text)))
    ensures ParseDataObject(aml, pos).0 == Str(text)
    ensures ParseDataObject(aml, pos).1 == pos + |text| + 2
  {
    hide At, ValidUtf8, FindZero, ParseDataObject;
    AtConcat(aml, pos, [0x0D], text + [0x00]);
    AtByte(aml, pos, [0x0D], 0);
    AtFits(aml, pos + 1, text + [0x00]);
    FindZeroAt(aml, pos + 1, text);
    StrIs(aml, pos, pos + 1 + |text|);
  }

  lemma BufferAt(aml: seq<Byte>, pos: nat, content: seq<Byte>)
    requires |content| < MAX_PACKAGE && At(aml, pos, [0x11] + EncodePackage(content))
    ensures ParseDataObject(aml, pos).0 == Buffer(EncodePackage(content))
    ensures ParseDataObject(aml, pos).1 == pos + 1 + |EncodePackage(content)|
  {
    hide At, EncodePackage, PrefixedInteger, ParsePkgLength;
    AtConcat(aml, pos, [0x11], EncodePackage(content));
    AtByte(aml, pos, [0x11], 0);
    OtherDataIsNoInteger(aml, pos);
    PackageAt(aml, pos + 1, content);
    AtSlice(aml, pos + 1, EncodePackage(content));
  }

  lemma PackageDataAt(aml: seq<Byte>, pos: nat, content: seq<Byte>)
    requires |content| < MAX_PACKAGE && At(aml, pos, [0x12] + EncodePackage(content))
    ensures ParseDataObject(aml, pos).0 == Package
    ensures ParseDataObject(aml, pos).1 == pos + 1 + |EncodePackage(content)|
  {
    hide At, EncodePackage, PrefixedInteger, ParsePkgLength;
    AtConcat(aml, pos, [0x12], EncodePackage(content));
    AtByte(aml, pos, [0x12], 0);
    OtherDataIsNoInteger(aml, pos);
    PackageAt(aml, pos + 1, content);
  }

  /** Reading an encoded data object gives its value and consumes the encoding. */
  lemma DataRoundTrip(aml: seq<Byte>, pos: nat, data: Data)
    requires ValidData(data) && At(aml, pos, EncodeData(data))
    ensures ParseDataObject(aml, pos).0 == DataValue(data)
    ensures ParseDataObject(aml, pos).1 == pos + |EncodeData(data)|
  {
    match data
    case IntData(n) =>
      IntegerRoundTrip(aml, pos, n);
    case StrData(text) =>
      StrAt(aml, pos, text);
    case BufferData(content) =>
      BufferAt(aml, pos, content);
    case PackageData(content) =>
      PackageDataAt(aml, pos, content);
  }
}
