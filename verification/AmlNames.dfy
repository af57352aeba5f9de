/** NameStrings as section 20.2.2 of the ACPI specification encodes them, what
    the decoder makes of them, and how `normalize_path` undoes the trimming. */
module AmlNames {
  import opened Bytes
  import opened AmlNamespace
  import opened AmlLexer

  predicate ValidSegment(s: Text) {
    && |s| == 4
    && LeadNameChar(s[0])
    && forall i :: 1 <= i < 4 ==> LeadNameChar(s[i]) || 0x30 <= s[i] <= 0x39
  }

  datatype Prefix = Root | Carets(n: nat)

  datatype Name = Name(prefix: Prefix, segments: seq<Text>)

  predicate ValidName(name: Name) {
    && |name.segments| <= 255
    && forall i :: 0 <= i < |name.segments| ==> ValidSegment(name.segments[i])
  }

  // ---- Encoding -----------------------------------------------------------

  function PrefixText(prefix: Prefix): Text {
    match prefix
    case Root => [BACKSLASH]
    case Carets(n) => seq(n, _ => CARET)
  }

  function Flatten(segments: seq<Text>): seq<Byte> {
    if segments == [] then [] else Flatten(segments[..|segments| - 1]) + segments[|segments| - 1]
  }

  function EncodePath(segments: seq<Text>): (b: seq<Byte>)
    requires |segments| <= 255
  {
    if segments == [] then [0x00]
    else if |segments| == 1 then segments[0]
    else if |segments| == 2 then [0x2E] + Flatten(segments)
    else [0x2F, |segments|] + Flatten(segments)
  }

  function EncodeName(name: Name): seq<Byte>
    requires ValidName(name)
  {
    PrefixText(name.prefix) + EncodePath(name.segments)
  }

  // ---- Decoded and full-width forms ---------------------------------------

  function Trimmed(segments: seq<Text>): (t: seq<Text>)
    ensures |t| == |segments|
    ensures forall i {:trigger t[i]} :: 0 <= i < |t| ==> t[i] == TrimUnderscores(segments[i])
  {
    seq(|segments|, i requires 0 <= i < |segments| => TrimUnderscores(segments[i]))
  }

  /** What the decoder returns: prefix and dotted segments without padding. */
  function DecodedName(name: Name): Text {
    PrefixText(name.prefix) + JoinDots(Trimmed(name.segments))
  }

  /** The name as written: prefix and dotted four-character segments. */
  function FullName(name: Name): Text {
    PrefixText(name.prefix) + JoinDots(name.segments)
  }

  // ---- Decoding inverts encoding ------------------------------------------

  lemma SegmentAt(aml: seq<Byte>, pos: nat, s: Text)
    requires ValidSegment(s) && At(aml, pos, s)
    ensures pos + 4 <= |aml|
    ensures TrimmedSegment(aml, pos) == TrimUnderscores(s)
  {
    AtSlice(aml, pos, s);
    AsciiIsUtf8(s);
  }

  lemma {:induction false} FlattenLength(segments: seq<Text>)
    requires forall i :: 0 <= i < |segments| ==> |segments[i]| == 4
    ensures |Flatten(segments)| == 4 * |segments|
  {
    if segments != [] {
      FlattenLength(segments[..|segments| - 1]);
    }
  }

  lemma {:induction false} FlattenAt(aml: seq<Byte>, pos: nat, segments: seq<Text>, i: nat)
    requires forall k :: 0 <= k < |segments| ==> |segments[k]| == 4
    requires i < |segments| && At(aml, pos, Flatten(segments))
    ensures At(aml, pos + 4 * i, segments[i])
    decreases |segments|
  {
    var n := |segments| - 1;
    AtConcat(aml, pos, Flatten(segments[..n]), segments[n]);
    FlattenLength(segments[..n]);
    if i < n {
      FlattenAt(aml, pos, segments[..n], i);
    }
  }

  lemma JoinSameTexts(a: seq<Text>, b: seq<Text>)
    requires |a| == |b| && forall i :: 0 <= i < |a| ==> a[i] == b[i]
    ensures JoinDots(a) == JoinDots(b)
  {
    assert a == b;
  }

  lemma TrimmedAt(aml: seq<Byte>, pos: nat, segments: seq<Text>, i: nat)
    requires i < |segments| && forall k :: 0 <= k < |segments| ==> ValidSegment(segments[k])
    requires At(aml, pos, Flatten(segments))
    ensures pos + 4 * i + 4 <= |aml|
    ensures TrimmedSegment(aml, pos + 4 * i) == TrimUnderscores(segments[i])
  {
    hide At, Flatten, TrimmedSegment, TrimUnderscores;
    FlattenAt(aml, pos, segments, i);
    SegmentAt(aml, pos + 4 * i, segments[i]);
  }

  lemma SegmentListAt(aml: seq<Byte>, pos: nat, segments: seq<Text>)
    requires forall i :: 0 <= i < |segments| ==> ValidSegment(segments[i])
    requires At(aml, pos, Flatten(segments))
    ensures pos + 4 * |segments| <= |aml|
    ensures SegmentList(aml, pos, |segments|) == JoinDots(Trimmed(segments))
  {
    FlattenLength(segments);
    var a, b := TrimmedSegments(aml, pos, |segments|), Trimmed(segments);
    forall i | 0 <= i < |segments|
      ensures a[i] == b[i]
    {
      TrimmedAt(aml, pos, segments, i);
    }
    JoinSameTexts(a, b);
  }

  lemma SinglePathAt(aml: seq<Byte>, pos: nat, s: Text)
    requires ValidSegment(s) && At(aml, pos, s)
    ensures pos < |aml|
    ensures NamePath(aml, pos).0 == TrimUnderscores(s)
    ensures NamePath(aml, pos).1 == pos + 4
  {
    SegmentAt(aml, pos, s);
    AtByte(aml, pos, s, 0);
  }

  lemma DualPathAt(aml: seq<Byte>, pos: nat, segments: seq<Text>)
    requires |segments| == 2 && ValidSegment(segments[0]) && ValidSegment(segments[1])
    requires At(aml, pos, [0x2E] + Flatten(segments))
    ensures pos < |aml|
    ensures NamePath(aml, pos).0 == JoinDots(Trimmed(segments))
    ensures NamePath(aml, pos).1 == pos + 9
  {
    AtConcat(aml, pos, [0x2E], Flatten(segments));
    AtByte(aml, pos, [0x2E], 0);
    SegmentListAt(aml, pos + 1, segments);
  }

  lemma CountedSegmentsAt(aml: seq<Byte>, pos: nat, segments: seq<Text>)
    requires forall i :: 0 <= i < |segments| ==> ValidSegment(segments[i])
    requires At(aml, pos, Flatten(segments))
    ensures pos <= |aml|
    ensures CountedSegments(aml, pos, |segments|).0 == JoinDots(Trimmed(segments))
    ensures CountedSegments(aml, pos, |segments|).1 == pos + 4 * |segments|
  {
    FlattenLength(segments);
    AllSegmentsFit(aml, pos, |segments|);
    SegmentListAt(aml, pos, segments);
  }

  lemma MultiPathAt(aml: seq<Byte>, pos: nat, segments: seq<Text>)
    requires |segments| <= 255 && forall i :: 0 <= i < |segments| ==> ValidSegment(segments[i])
    requires At(aml, pos, [0x2F, |segments|] + Flatten(segments))
    ensures pos < |aml|
    ensures NamePath(aml, pos).0 == JoinDots(Trimmed(segments))
    ensures NamePath(aml, pos).1 == pos + 2 + 4 * |segments|
  {
    hide At, Flatten, ValidSegment, Trimmed, JoinDots, CountedSegments;
    var lead := [0x2F, |segments|];
    AtConcat(aml, pos, lead, Flatten(segments));
    AtByte(aml, pos, lead, 0);
    AtByte(aml, pos, lead, 1);
    CountedSegmentsAt(aml, pos + 2, segments);
  }

  lemma PathAt(aml: seq<Byte>, pos: nat, segments: seq<Text>)
    requires |segments| <= 255
    requires forall i :: 0 <= i < |segments| ==> ValidSegment(segments[i])
    requires At(aml, pos, EncodePath(segments))
    ensures pos < |aml| && aml[pos] != CARET && aml[pos] != BACKSLASH
    ensures NamePath(aml, pos).0 == JoinDots(Trimmed(segments))
    ensures NamePath(aml, pos).1 == pos + |EncodePath(segments)|
  {
    AtByte(aml, pos, EncodePath(segments), 0);
    FlattenLength(segments);
    if |segments| == 1 {
      SinglePathAt(aml, pos, segments[0]);
    } else if |segments| == 2 {
      DualPathAt(aml, pos, segments);
    } else if |segments| > 2 {
      MultiPathAt(aml, pos, segments);
    }
  }

  lemma {:induction false} CaretRunAt(aml: seq<Byte>, pos: nat, n: nat)
    requires At(aml, pos, seq(n, _ => CARET))
    requires pos + n < |aml| && aml[pos + n] != CARET
    ensures CaretRun(aml, pos) == n
    decreases n
  {
    if n > 0 {
      assert seq(n, _ => CARET) == [CARET] + seq(n - 1, _ => CARET);
      AtConcat(aml, pos, [CARET], seq(n - 1, _ => CARET));
      AtByte(aml, pos, [CARET], 0);
      CaretRunAt(aml, pos + 1, n - 1);
    }
  }

  lemma PrefixAt(aml: seq<Byte>, pos: nat, prefix: Prefix)
    requires At(aml, pos, PrefixText(prefix))
    requires var p := pos + |PrefixText(prefix)|; p < |aml| && aml[p] != CARET && aml[p] != BACKSLASH
    ensures PrefixEnd(aml, pos) == pos + |PrefixText(prefix)|
  {
    match prefix {
      case Root =>
        AtByte(aml, pos, PrefixText(prefix), 0);
      case Carets(n) =>
        CaretRunAt(aml, pos, n);
        if n > 0 {
          AtByte(aml, pos, PrefixText(prefix), 0);
        }
    }
  }

  /** Wherever the encoding of a name stands, the decoder consumes exactly that
      encoding and returns the trimmed dotted name. */
  lemma NameRoundTrip(aml: seq<Byte>, pos: nat, name: Name)
    requires ValidName(name) && At(aml, pos, EncodeName(name))
    ensures ParseNameString(aml, pos).0 == DecodedName(name)
    ensures ParseNameString(aml, pos).1 == pos + |EncodeName(name)|
  {
    hide At, EncodePath, NamePath, PrefixEnd, Trimmed, JoinDots, ValidSegment;
    var prefix := PrefixText(name.prefix);
    AtConcat(aml, pos, prefix, EncodePath(name.segments));
    AtFits(aml, pos, prefix);
    PathAt(aml, pos + |prefix|, name.segments);
    PrefixAt(aml, pos, name.prefix);
    AtSlice(aml, pos, prefix);
  }

  // ---- Normalisation ------------------------------------------------------

  function Pad(part: Text): Text {
    if |part| < 4 then part + seq(4 - |part|, _ => UNDERSCORE) else part
  }

  function Padded(parts: seq<Text>): (t: seq<Text>)
    ensures |t| == |parts|
    ensures forall i {:trigger t[i]} :: 0 <= i < |t| ==> t[i] == Pad(parts[i])
  {
    seq(|parts|, i requires 0 <= i < |parts| => Pad(parts[i]))
  }

  function Normalize(path: Text): Text {
    if path == [BACKSLASH] then path
    else if Absolute(path) then [BACKSLASH] + JoinDots(Padded(SplitDots(path[1..])))
    else JoinDots(Padded(SplitDots(path)))
  }

  method PadPart(part: Text) returns (s: Text)
    ensures s == Pad(part)
  {
    s := part;
    while |s| < 4
      invariant Pad(s) == Pad(part)
      decreases 4 - |s|
    {
      s := s + [UNDERSCORE];
    }
  }

  /** The loop of `normalize_path`. */
  method NormalizePath(path: Text) returns (out: Text)
    ensures out == Normalize(path)
  {
    hide SplitDots, Pad;
    if path == [BACKSLASH] {
      return path;
    }
    var root, stripped := [], path;
    if Absolute(path) {
      root, stripped := [BACKSLASH], path[1..];
    }
    var parts := SplitDots(stripped);
    out := root;
    for i := 0 to |parts|
      invariant out == root + JoinDots(Padded(parts[..i]))
    {
      if i > 0 {
        JoinDotsSnoc(Padded(parts[..i]), Pad(parts[i]));
        out := out + [DOT];
      }
      assert Padded(parts[..i + 1]) == Padded(parts[..i]) + [Pad(parts[i])];
      var s := PadPart(parts[i]);
      out := out + s;
    }
    assert parts[..|parts|] == parts;
  }

  /** A name's dotted components, its carets belonging to the first one. */
  function Components(prefix: Prefix, segments: seq<Text>): (parts: seq<Text>)
    ensures parts != []
  {
    var carets := if prefix.Carets? then PrefixText(prefix) else [];
    if segments == [] then [carets] else [carets + segments[0]] + segments[1..]
  }

  function RootText(prefix: Prefix): Text {
    if prefix.Root? then [BACKSLASH] else []
  }

  lemma ComponentsJoin(prefix: Prefix, segments: seq<Text>)
    ensures PrefixText(prefix) + JoinDots(segments) == RootText(prefix) + JoinDots(Components(prefix, segments))
  {
    var parts := Components(prefix, segments);
    if |segments| > 1 {
      assert parts[1..] == segments[1..];
      assert PrefixText(prefix) + (segments[0] + [DOT] + JoinDots(segments[1..]))
          == RootText(prefix) + (parts[0] + [DOT] + JoinDots(parts[1..]));
    }
  }

  /** When normalising a decoded name restores the name as written: a caller can
      read it off the prefix and the first segment. */
  predicate Restorable(name: Name) {
    match name.prefix
    case Root => name.segments != [[UNDERSCORE, UNDERSCORE, UNDERSCORE, UNDERSCORE]]
    case Carets(n) =>
      if n == 0 then name.segments != []
      else if name.segments == [] then n >= 4
      else |name.segments[0]| == 4 && name.segments[0][3] != UNDERSCORE
  }

  lemma PadUndoesTrim(s: Text)
    requires |s| == 4
    ensures Pad(TrimUnderscores(s)) == s
    ensures TrimUnderscores(s) == [] <==> s == [UNDERSCORE, UNDERSCORE, UNDERSCORE, UNDERSCORE]
    ensures TrimUnderscores(s) == s <==> s[3] != UNDERSCORE
  {
    var t := TrimUnderscores(s);
    assert Pad(t) == s;
    if t == [] {
      assert s == [UNDERSCORE, UNDERSCORE, UNDERSCORE, UNDERSCORE];
    }
  }

  lemma ComponentsDotFree(prefix: Prefix, segments: seq<Text>)
    requires forall i :: 0 <= i < |segments| ==> DotFree(segments[i])
    ensures forall i :: 0 <= i < |Components(prefix, segments)| ==> DotFree(Components(prefix, segments)[i])
  {
  }

  /** Joining dot-free components loses nothing. */
  lemma JoinInjective(a: seq<Text>, b: seq<Text>)
    requires a != [] && b != []
    requires forall i :: 0 <= i < |a| ==> DotFree(a[i])
    requires forall i :: 0 <= i < |b| ==> DotFree(b[i])
    ensures JoinDots(a) == JoinDots(b) <==> a == b
  {
    SplitJoin(a);
    SplitJoin(b);
  }

  /** Padding the trimmed components gives back the written ones exactly when the
      first one allows it; the later ones always do. */
  lemma PaddedComponents(name: Name)
    requires ValidName(name)
    ensures var full, cut := Components(name.prefix, name.segments), Components(name.prefix, Trimmed(name.segments));
            Padded(cut) == full <==>
            (match name.prefix
             case Root => name.segments != []
             case Carets(_) => Restorable(name))
  {
    hide TrimUnderscores, Pad, Components, ValidSegment;
    OnlyFirstMatters(name);
    FirstOf(name.prefix, name.segments);
    FirstOf(name.prefix, Trimmed(name.segments));
    if name.segments != [] {
      SegmentWidth(name);
      FirstComponent(name.prefix, name.segments[0]);
    } else {
      NoSegments(name.prefix);
    }
  }

  lemma SegmentWidth(name: Name)
    requires ValidName(name)
    ensures forall i :: 0 <= i < |name.segments| ==> |name.segments[i]| == 4
  {
  }

  lemma FirstOf(prefix: Prefix, segments: seq<Text>)
    ensures var carets := if prefix.Carets? then PrefixText(prefix) else [];
            Components(prefix, segments)[0] == if segments == [] then carets else carets + segments[0]
  {
  }

  lemma OnlyFirstMatters(name: Name)
    requires ValidName(name)
    ensures var full, cut := Components(name.prefix, name.segments), Components(name.prefix, Trimmed(name.segments));
            Padded(cut) == full <==> Pad(cut[0]) == full[0]
  {
    hide TrimUnderscores, Pad;
    SegmentWidth(name);
    var full, cut := Components(name.prefix, name.segments), Components(name.prefix, Trimmed(name.segments));
    forall i | 0 <= i < |name.segments|
      ensures Pad(Trimmed(name.segments)[i]) == name.segments[i]
    {
      PadUndoesTrim(name.segments[i]);
    }
    assert forall i :: 1 <= i < |full| ==> Padded(cut)[i] == full[i];
  }

  lemma NoSegments(prefix: Prefix)
    ensures var carets := if prefix.Carets? then PrefixText(prefix) else [];
            Pad(carets) == carets <==> prefix.Carets? && prefix.n >= 4
  {
    var carets := if prefix.Carets? then PrefixText(prefix) else [];
    assert |Pad(carets)| >= 4;
    assert prefix.Carets? ==> |carets| == prefix.n;
  }

  lemma FirstComponent(prefix: Prefix, s: Text)
    requires |s| == 4
    ensures var carets := if prefix.Carets? then PrefixText(prefix) else [];
            Pad(carets + TrimUnderscores(s)) == carets + s <==>
            prefix.Root? || prefix.n == 0 || s[3] != UNDERSCORE
  {
    PadUndoesTrim(s);
    var carets := if prefix.Carets? then PrefixText(prefix) else [];
    var t := TrimUnderscores(s);
    if carets == [] {
      assert carets + t == t && carets + s == s;
    } else if t != s {
      assert |t| < 4;
      assert |Pad(carets + t)| < |carets + s|;
    }
  }

  /** The relative case: without a root, normalising pads the components. */
  lemma RelativeCase(name: Name, cut: seq<Text>, full: seq<Text>)
    requires ValidName(name) && name.prefix.Carets?
    requires cut == Components(name.prefix, Trimmed(name.segments)) && full == Components(name.prefix, name.segments)
    requires SplitDots(JoinDots(cut)) == cut
    requires JoinDots(Padded(cut)) == JoinDots(full) <==> Restorable(name)
    requires DecodedName(name) == [] + JoinDots(cut)
    requires FullName(name) == [] + JoinDots(full)
    ensures Normalize(DecodedName(name)) == FullName(name) <==> Restorable(name)
  {
    assert DecodedName(name) == JoinDots(cut) && FullName(name) == JoinDots(full);
    if name.segments != [] && name.prefix.n == 0 {
      assert cut[0] == TrimUnderscores(name.segments[0]);
      assert cut[0] != [] ==> cut[0][0] == name.segments[0][0];
    }
    assert !Absolute(JoinDots(cut));
  }

  lemma RootCase(name: Name, cut: seq<Text>, full: seq<Text>)
    requires ValidName(name) && name.prefix.Root?
    requires cut == Components(Root, Trimmed(name.segments)) && full == Components(Root, name.segments)
    requires SplitDots(JoinDots(cut)) == cut
    requires JoinDots(Padded(cut)) == JoinDots(full) <==> name.segments != []
    requires DecodedName(name) == [BACKSLASH] + JoinDots(cut)
    requires FullName(name) == [BACKSLASH] + JoinDots(full)
    ensures Normalize(DecodedName(name)) == FullName(name) <==> Restorable(name)
  {
    var path := DecodedName(name);
    assert path[1..] == JoinDots(cut);
    if name.segments == [] {
      assert path == [BACKSLASH];
    } else {
      PadUndoesTrim(name.segments[0]);
      if |name.segments| == 1 {
        assert [] + TrimUnderscores(name.segments[0]) == cut[0];
        assert path == [BACKSLASH] <==> cut[0] == [];
      } else {
        assert |JoinDots(cut)| > 0;
        assert path != [BACKSLASH];
      }
      assert ([BACKSLASH] + JoinDots(full))[1..] == JoinDots(full);
      assert ([BACKSLASH] + JoinDots(Padded(cut)))[1..] == JoinDots(Padded(cut));
    }
  }

  lemma NamesDotFree(name: Name)
    requires ValidName(name)
    ensures forall i :: 0 <= i < |name.segments| ==> DotFree(name.segments[i]) && DotFree(Trimmed(name.segments)[i])
  {
  }

  lemma PaddedDotFree(parts: seq<Text>)
    requires forall i :: 0 <= i < |parts| ==> DotFree(parts[i])
    ensures forall i :: 0 <= i < |parts| ==> DotFree(Padded(parts)[i])
  {
  }

  /** `normalize_path` restores a decoded name exactly when it is `Restorable`:
      always without carets, except for the bare empty name and for the root
      with the single all-underscore segment. */
  lemma NormalizeRoundTrip(name: Name)
    requires ValidName(name)
    ensures Normalize(DecodedName(name)) == FullName(name) <==> Restorable(name)
  {
    var cut, full := Components(name.prefix, Trimmed(name.segments)), Components(name.prefix, name.segments);
    assert SplitDots(JoinDots(cut)) == cut && (JoinDots(Padded(cut)) == JoinDots(full) <==> Padded(cut) == full) by {
      NamesDotFree(name);
      ComponentsDotFree(name.prefix, Trimmed(name.segments));
      ComponentsDotFree(name.prefix, name.segments);
      PaddedDotFree(cut);
      SplitJoin(cut);
      JoinInjective(Padded(cut), full);
    }
    ComponentsJoin(name.prefix, Trimmed(name.segments));
    ComponentsJoin(name.prefix, name.segments);
    PaddedComponents(name);
    if name.prefix.Root? {
      RootCase(name, cut, full);
    } else {
      RelativeCase(name, cut, full);
    }
  }

  /** The root's all-underscore child trims to nothing, and normalising leaves the
      bare root. */
  lemma UnderscoresAreLost()
    ensures var name := Name(Root, [[UNDERSCORE, UNDERSCORE, UNDERSCORE, UNDERSCORE]]);
            Normalize(DecodedName(name)) == [BACKSLASH] && FullName(name) == [BACKSLASH] + name.segments[0]
  {
    var segment := [UNDERSCORE, UNDERSCORE, UNDERSCORE, UNDERSCORE];
    PadUndoesTrim(segment);
    var trimmed := Trimmed([segment]);
    assert trimmed == [[]];
  }
}
