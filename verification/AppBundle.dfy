/** Application bundle manifests: the wire format and its parser
    (kernel/src/app_bundle.rs). */
module AppBundle {
  import opened Bytes

  datatype Dep = Dep(name: Text, version: U32, sha256: seq<Byte>)

  datatype Manifest = Manifest(name: Text, appVersion: U32, deps: seq<Dep>)

  datatype Error = Truncated | BadMagic | BadVersion | TooLarge | BadUtf8

  datatype Result<+T> = Ok(value: T) | Err(error: Error)

  const MAGIC: U32 := 0x52454250
  const FORMAT: U32 := 1
  const MAX_NAME: nat := 256
  const MAX_DEPS: nat := 512
  const MAX_DEP_NAME: nat := 128

  predicate ValidDep(d: Dep) {
    |d.name| <= MAX_DEP_NAME && ValidUtf8(d.name) && |d.sha256| == 32
  }

  predicate ValidManifest(m: Manifest) {
    && |m.name| <= MAX_NAME && ValidUtf8(m.name)
    && |m.deps| <= MAX_DEPS && forall i :: 0 <= i < |m.deps| ==> ValidDep(m.deps[i])
  }

  // ---- The documented format ----------------------------------------------

  function EncodeDep(d: Dep): seq<Byte>
    requires ValidDep(d)
  {
    ToLe32(|d.name|) + (ToLe32(d.version) + (d.sha256 + d.name))
  }

  function EncodeDeps(deps: seq<Dep>): seq<Byte>
    requires forall i :: 0 <= i < |deps| ==> ValidDep(deps[i])
  {
    if deps == [] then [] else EncodeDep(deps[0]) + EncodeDeps(deps[1..])
  }

  function Encode(m: Manifest): seq<Byte>
    requires ValidManifest(m)
  {
    ToLe32(MAGIC) + (ToLe32(FORMAT) + (ToLe32(|m.name|) + (ToLe32(m.appVersion) + (ToLe32(|m.deps|)
    + (m.name + EncodeDeps(m.deps))))))
  }

  // ---- The parser ---------------------------------------------------------

  function Word(b: seq<Byte>, pos: nat): U32
    requires pos + 4 <= |b|
  {
    Le32(b[pos..pos + 4])
  }

  /** One dependency at `pos`. */
  function ParseDep(b: seq<Byte>, pos: nat): Result<Dep> {
    if pos + 40 > |b| then Err(Truncated)
    else
      var n := Word(b, pos);
      if n > MAX_DEP_NAME then Err(TooLarge)
      else if pos + 40 + n > |b| then Err(Truncated)
      else if !ValidUtf8(b[pos + 40..pos + 40 + n]) then Err(BadUtf8)
      else Ok(Dep(b[pos + 40..pos + 40 + n], Word(b, pos + 4), b[pos + 8..pos + 40]))
  }

  function ParseDeps(b: seq<Byte>, pos: nat, n: nat): Result<seq<Dep>>
    decreases n
  {
    if n == 0 then Ok([])
    else
      match ParseDep(b, pos)
      case Err(e) => Err(e)
      case Ok(d) =>
        match ParseDeps(b, pos + 40 + |d.name|, n - 1)
        case Err(e) => Err(e)
        case Ok(rest) => Ok([d] + rest)
  }

  function Parse(b: seq<Byte>): Result<Manifest> {
    if |b| < 20 then Err(Truncated)
    else if Word(b, 0) != MAGIC then Err(BadMagic)
    else if Word(b, 4) != FORMAT then Err(BadVersion)
    else if Word(b, 8) > MAX_NAME then Err(TooLarge)
    else if Word(b, 16) > MAX_DEPS then Err(TooLarge)
    else if |b| < 20 + Word(b, 8) then Err(Truncated)
    else if !ValidUtf8(b[20..20 + Word(b, 8)]) then Err(BadUtf8)
    else
      match ParseDeps(b, 20 + Word(b, 8), Word(b, 16))
      case Err(e) => Err(e)
      case Ok(deps) => Ok(Manifest(b[20..20 + Word(b, 8)], Word(b, 12), deps))
  }

  /** The loop over the dependencies, with its cursor. */
  method ParseManifest(b: seq<Byte>) returns (r: Result<Manifest>)
    ensures r == Parse(b)
  {
    hide ValidUtf8, ParseDep, Word;
    if |b| < 20 {
      return Err(Truncated);
    }
    var nameLen, depCount := Word(b, 8), Word(b, 16);
    if Word(b, 0) != MAGIC {
      return Err(BadMagic);
    }
    if Word(b, 4) != FORMAT {
      return Err(BadVersion);
    }
    if nameLen > MAX_NAME || depCount > MAX_DEPS {
      return Err(TooLarge);
    }
    if |b| < 20 + nameLen {
      return Err(Truncated);
    }
    var name := b[20..20 + nameLen];
    if !ValidUtf8(name) {
      return Err(BadUtf8);
    }
    var cursor: nat, deps: seq<Dep> := 20 + nameLen, [];
    ghost var all := ParseDeps(b, cursor, depCount);
    assert all.Ok? ==> deps + all.value == all.value;
    for i := 0 to depCount
      invariant all ==
                match ParseDeps(b, cursor, depCount - i) case Err(e) => Err(e) case Ok(rest) => Ok(deps + rest)
    {
      var d := ParseDep(b, cursor);
      if d.Err? {
        return Err(d.error);
      }
      ghost var rest := ParseDeps(b, cursor + 40 + |d.value.name|, depCount - i - 1);
      assert rest.Ok? ==> deps + ([d.value] + rest.value) == deps + [d.value] + rest.value;
      deps := deps + [d.value];
      cursor := cursor + 40 + |d.value.name|;
    }
    assert deps + [] == deps;
    return Ok(Manifest(name, Word(b, 12), deps));
  }

  // ---- Parser and format agree --------------------------------------------

  lemma WordAt(b: seq<Byte>, pos: nat, n: U32)
    ensures At(b, pos, ToLe32(n)) <==> pos + 4 <= |b| && Word(b, pos) == n
  {
    hide ToLe32, Le32;
    if pos + 4 <= |b| {
      AtSlice(b, pos, ToLe32(n));
      Le32Injective(b[pos..pos + 4]);
    }
  }

  lemma DepAt(b: seq<Byte>, pos: nat, d: Dep)
    requires ValidDep(d)
    ensures At(b, pos, EncodeDep(d)) <==>
            && pos + 40 + |d.name| <= |b|
            && Word(b, pos) == |d.name| && Word(b, pos + 4) == d.version
            && b[pos + 8..pos + 40] == d.sha256 && b[pos + 40..pos + 40 + |d.name|] == d.name
    ensures |EncodeDep(d)| == 40 + |d.name|
  {
    hide At, ToLe32, Word, ValidUtf8;
    AtConcat(b, pos, ToLe32(|d.name|), ToLe32(d.version) + (d.sha256 + d.name));
    AtConcat(b, pos + 4, ToLe32(d.version), d.sha256 + d.name);
    AtConcat(b, pos + 8, d.sha256, d.name);
    WordAt(b, pos, |d.name|);
    WordAt(b, pos + 4, d.version);
    if At(b, pos + 40, d.name) {
      AtFits(b, pos + 40, d.name);
    }
    if pos + 40 + |d.name| <= |b| {
      AtSlice(b, pos + 8, d.sha256);
      AtSlice(b, pos + 40, d.name);
    }
  }

  /** What a manifest's encoding says about the bytes it starts. */
  predicate HeaderSays(b: seq<Byte>, m: Manifest) {
    && 20 + |m.name| <= |b|
    && Word(b, 0) == MAGIC && Word(b, 4) == FORMAT && Word(b, 8) == |m.name|
    && Word(b, 12) == m.appVersion && Word(b, 16) == |m.deps|
    && b[20..20 + |m.name|] == m.name
  }

  lemma ManifestAt(b: seq<Byte>, m: Manifest)
    requires ValidManifest(m)
    ensures At(b, 0, Encode(m)) <==> HeaderSays(b, m) && At(b, 20 + |m.name|, EncodeDeps(m.deps))
  {
    hide At, ToLe32, Word, ValidUtf8, EncodeDeps;
    var deps := EncodeDeps(m.deps);
    var tail4 := m.name + deps;
    var tail3 := ToLe32(|m.deps|) + tail4;
    var tail2 := ToLe32(m.appVersion) + tail3;
    var tail1 := ToLe32(|m.name|) + tail2;
    AtConcat(b, 0, ToLe32(MAGIC), ToLe32(FORMAT) + tail1);
    AtConcat(b, 4, ToLe32(FORMAT), tail1);
    AtConcat(b, 8, ToLe32(|m.name|), tail2);
    AtConcat(b, 12, ToLe32(m.appVersion), tail3);
    AtConcat(b, 16, ToLe32(|m.deps|), tail4);
    AtConcat(b, 20, m.name, deps);
    WordAt(b, 0, MAGIC);
    WordAt(b, 4, FORMAT);
    WordAt(b, 8, |m.name|);
    WordAt(b, 12, m.appVersion);
    WordAt(b, 16, |m.deps|);
    if At(b, 20, m.name) {
      AtFits(b, 20, m.name);
    }
    if 20 + |m.name| <= |b| {
      AtSlice(b, 20, m.name);
    }
  }

  lemma ParseDepIff(b: seq<Byte>, pos: nat, d: Dep)
    ensures ParseDep(b, pos) == Ok(d) <==> ValidDep(d) && At(b, pos, EncodeDep(d))
  {
    hide At, Word, EncodeDep, ValidUtf8;
    if ValidDep(d) {
      DepAt(b, pos, d);
    }
  }

  lemma {:induction false} ParseDepsIff(b: seq<Byte>, pos: nat, n: nat, deps: seq<Dep>)
    requires pos <= |b|
    ensures ParseDeps(b, pos, n) == Ok(deps) <==>
            |deps| == n && (forall i :: 0 <= i < |deps| ==> ValidDep(deps[i])) && At(b, pos, EncodeDeps(deps))
    decreases n
  {
    hide At, ValidDep, ParseDep, EncodeDep;
    if n == 0 || deps == [] {
      EmptyAt(b, pos);
    } else {
      var d, rest := deps[0], deps[1..];
      assert deps == [d] + rest;
      ParseDepIff(b, pos, d);
      if ParseDep(b, pos) == Ok(d) {
        DepAt(b, pos, d);
        var next := pos + 40 + |d.name|;
        ParseDepsIff(b, next, n - 1, rest);
        if forall i :: 0 <= i < |rest| ==> ValidDep(rest[i]) {
          assert forall i :: 0 <= i < |deps| ==> ValidDep(deps[i]);
          AtConcat(b, pos, EncodeDep(d), EncodeDeps(rest));
        } else {
          assert !(forall i :: 0 <= i < |deps| ==> ValidDep(deps[i]));
        }
      } else if forall i :: 0 <= i < |deps| ==> ValidDep(deps[i]) {
        AtConcat(b, pos, EncodeDep(d), EncodeDeps(rest));
      }
    }
  }

  lemma EmptyAt(b: seq<Byte>, pos: nat)
    requires pos <= |b|
    ensures At(b, pos, [])
  {
  }

  /** The parser returns a manifest exactly when it is within the limits, its
      names are UTF-8, and its documented encoding is a prefix of the input. */
  lemma ParseIff(b: seq<Byte>, m: Manifest)
    ensures Parse(b) == Ok(m) <==> ValidManifest(m) && At(b, 0, Encode(m))
  {
    hide At, Word, EncodeDeps, ValidUtf8, ParseDeps, ValidDep, Encode;
    if Parse(b) == Ok(m) {
      ParseDepsIff(b, 20 + |m.name|, Word(b, 16), m.deps);
      ManifestAt(b, m);
    }
    if ValidManifest(m) && At(b, 0, Encode(m)) {
      ManifestAt(b, m);
      ParseDepsIff(b, 20 + |m.name|, Word(b, 16), m.deps);
    }
  }

  /** Parsing inverts encoding, whatever follows the encoding. */
  lemma EncodeParses(m: Manifest, more: seq<Byte>)
    requires ValidManifest(m)
    ensures Parse(Encode(m) + more) == Ok(m)
  {
    hide Encode, Parse;
    AtSlice(Encode(m) + more, 0, Encode(m));
    ParseIff(Encode(m) + more, m);
  }

  // ---- Errors -------------------------------------------------------------

  /** Why one dependency is refused. */
  lemma DepErrorsIff(b: seq<Byte>, pos: nat)
    ensures var fixed := pos + 40 <= |b|;
            var named := fixed && Word(b, pos) <= 128;
            && (ParseDep(b, pos) == Err(Truncated) <==> !fixed || (named && pos + 40 + Word(b, pos) > |b|))
            && (ParseDep(b, pos) == Err(TooLarge) <==> fixed && Word(b, pos) > 128)
            && (ParseDep(b, pos) == Err(BadUtf8) <==>
                named && pos + 40 + Word(b, pos) <= |b| && !ValidUtf8(b[pos + 40..pos + 40 + Word(b, pos)]))
            && ParseDep(b, pos) !in {Err(BadMagic), Err(BadVersion)}
  {
    hide Word, ValidUtf8;
  }

  /** The dependencies fail with the error of the first one that is refused, behind
      the encoding of those before it. */
  lemma {:induction false} DepsErrorIff(b: seq<Byte>, pos: nat, n: nat, e: Error)
    requires pos <= |b|
    ensures ParseDeps(b, pos, n) == Err(e) <==> exists ds: seq<Dep> :: RefusedAfter(b, pos, n, ds, e)
    decreases n
  {
    hide ParseDep, At, EncodeDep, ValidDep;
    if n > 0 {
      match ParseDep(b, pos)
      case Err(first) =>
        assert RefusedAfter(b, pos, n, [], first);
        forall ds: seq<Dep> | RefusedAfter(b, pos, n, ds, e)
          ensures e == first
        {
          FirstParses(b, pos, ds);
        }
      case Ok(d) =>
        ParseDepIff(b, pos, d);
        DepAt(b, pos, d);
        var next := pos + 40 + |d.name|;
        DepsErrorIff(b, next, n - 1, e);
        if ParseDeps(b, pos, n) == Err(e) {
          var ds: seq<Dep> :| RefusedAfter(b, next, n - 1, ds, e);
          RefusedCons(b, pos, n, d, ds, e);
        }
        forall ds: seq<Dep> | RefusedAfter(b, pos, n, ds, e)
          ensures RefusedAfter(b, next, n - 1, ds[1..], e)
        {
          RefusedRest(b, pos, n, d, ds, e);
        }
    }
  }

  /** The dependencies `ds` parse from `pos` on, and the one behind them does not. */
  predicate RefusedAfter(b: seq<Byte>, pos: nat, n: nat, ds: seq<Dep>, e: Error) {
    |ds| < n && ParseDeps(b, pos, |ds|) == Ok(ds) && ParseDep(b, pos + Size(ds)) == Err(e)
  }

  /** The encoded size of dependencies. */
  function Size(ds: seq<Dep>): nat {
    if ds == [] then 0 else 40 + |ds[0].name| + Size(ds[1..])
  }

  lemma FirstParses(b: seq<Byte>, pos: nat, ds: seq<Dep>)
    requires ParseDeps(b, pos, |ds|) == Ok(ds)
    ensures ds != [] ==> ParseDep(b, pos) == Ok(ds[0]) && ParseDeps(b, pos + 40 + |ds[0].name|, |ds| - 1) == Ok(ds[1..])
  {
    hide ParseDep;
  }

  lemma RefusedCons(b: seq<Byte>, pos: nat, n: nat, d: Dep, ds: seq<Dep>, e: Error)
    requires n > 0 && ParseDep(b, pos) == Ok(d) && RefusedAfter(b, pos + 40 + |d.name|, n - 1, ds, e)
    ensures RefusedAfter(b, pos, n, [d] + ds, e)
  {
    hide ParseDep;
    assert ([d] + ds)[1..] == ds;
  }

  lemma RefusedRest(b: seq<Byte>, pos: nat, n: nat, d: Dep, ds: seq<Dep>, e: Error)
    requires n > 0 && ParseDep(b, pos) == Ok(d) && RefusedAfter(b, pos, n, ds, e)
    ensures ds != [] && RefusedAfter(b, pos + 40 + |d.name|, n - 1, ds[1..], e)
  {
    hide ParseDep;
    FirstParses(b, pos, ds);
  }

  /** Why a manifest is refused, in the order of the tests. */
  lemma HeaderErrorsIff(b: seq<Byte>)
    ensures var known := |b| >= 20 && Word(b, 0) == 0x52454250 && Word(b, 4) == 1;
            var small := known && Word(b, 8) <= 256 && Word(b, 16) <= 512;
            var named := small && 20 + Word(b, 8) <= |b|;
            var utf8 := named && ValidUtf8(b[20..20 + Word(b, 8)]);
            && (Parse(b) == Err(BadMagic) <==> |b| >= 20 && Word(b, 0) != 0x52454250)
            && (Parse(b) == Err(BadVersion) <==> |b| >= 20 && Word(b, 0) == 0x52454250 && Word(b, 4) != 1)
            && (Parse(b) == Err(TooLarge) <==>
                (known && !small) || (utf8 && ParseDeps(b, 20 + Word(b, 8), Word(b, 16)) == Err(TooLarge)))
            && (Parse(b) == Err(BadUtf8) <==>
                (named && !utf8) || (utf8 && ParseDeps(b, 20 + Word(b, 8), Word(b, 16)) == Err(BadUtf8)))
            && (Parse(b) == Err(Truncated) <==>
                |b| < 20 || (small && !named) || (utf8 && ParseDeps(b, 20 + Word(b, 8), Word(b, 16)) == Err(Truncated)))
  {
    hide Word, ValidUtf8, ParseDeps;
    if |b| >= 20 {
      DepsKeepHeaderErrors(b, 20 + Word(b, 8), Word(b, 16));
    }
  }

  lemma {:induction false} DepsKeepHeaderErrors(b: seq<Byte>, pos: nat, n: nat)
    ensures ParseDeps(b, pos, n) !in {Err(BadMagic), Err(BadVersion)}
    decreases n
  {
    hide ParseDep;
    if n > 0 {
      DepErrorsIff(b, pos);
      if ParseDep(b, pos).Ok? {
        DepsKeepHeaderErrors(b, pos + 40 + |ParseDep(b, pos).value.name|, n - 1);
      }
    }
  }
}
