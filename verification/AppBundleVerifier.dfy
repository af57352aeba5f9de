/** The registry of installed components and the verification system call
    (kernel/src/app_bundle.rs). */
module AppBundleVerifier {
  import opened Wrappers
  import opened Bytes
  import opened AppBundle

  /** Hashes by name, then by version. */
  type Components = map<Text, map<U32, seq<Byte>>>

  function Lookup(c: Components, name: Text, version: U32): Option<seq<Byte>> {
    if name in c && version in c[name] then Some(c[name][version]) else None
  }

  function Register(c: Components, name: Text, version: U32, sha256: seq<Byte>): Components {
    var versions: map<U32, seq<Byte>> := if name in c then c[name] else map[];
    c[name := versions[version := sha256]]
  }

  /** Registering changes what one name and version resolve to, and nothing else;
      in particular other versions of the same name stay installed. */
  lemma RegisterLookup(c: Components, name: Text, version: U32, sha256: seq<Byte>, n: Text, v: U32)
    ensures Lookup(Register(c, name, version, sha256), n, v) ==
            if n == name && v == version then Some(sha256) else Lookup(c, n, v)
  {
  }

  /** The dependency is installed at the requested hash. */
  predicate Satisfied(c: Components, d: Dep) {
    Lookup(c, d.name, d.version) == Some(d.sha256)
  }

  /** After a registration, a dependency on that name and version is satisfied
      exactly by the registered hash, and every other one as before; with nothing
      registered none is. */
  lemma SatisfiedBy(c: Components, name: Text, version: U32, sha256: seq<Byte>, d: Dep)
    ensures Satisfied(Register(c, name, version, sha256), d) <==>
            if d.name == name && d.version == version then d.sha256 == sha256 else Satisfied(c, d)
    ensures !Satisfied(map[], d)
  {
    RegisterLookup(c, name, version, sha256, d.name, d.version);
  }

  /** The names of the dependencies that are not, in order. */
  function Unsatisfied(c: Components, deps: seq<Dep>): (r: seq<Text>)
    ensures |r| <= |deps|
  {
    if deps == [] then []
    else
      var last := deps[|deps| - 1];
      Unsatisfied(c, deps[..|deps| - 1]) + (if Satisfied(c, last) then [] else [last.name])
  }

  /** The list has one name for each dependency that is not satisfied, in order. */
  lemma {:induction false} UnsatisfiedInOrder(c: Components, a: seq<Dep>, b: seq<Dep>, d: Dep)
    ensures Unsatisfied(c, a + b) == Unsatisfied(c, a) + Unsatisfied(c, b)
    ensures Unsatisfied(c, [d]) == if Satisfied(c, d) then [] else [d.name]
    decreases |b|
  {
    hide Satisfied;
    assert [d][..0] == [] && Unsatisfied(c, []) == [];
    if b == [] {
      assert a + b == a;
    } else {
      assert (a + b)[..|a + b| - 1] == a + b[..|b| - 1] && (a + b)[|a + b| - 1] == b[|b| - 1];
      UnsatisfiedInOrder(c, a, b[..|b| - 1], d);
    }
  }

  lemma {:induction false} NoneUnsatisfiedIff(c: Components, deps: seq<Dep>)
    ensures Unsatisfied(c, deps) == [] <==> forall i :: 0 <= i < |deps| ==> Satisfied(c, deps[i])
    decreases |deps|
  {
    if deps != [] {
      NoneUnsatisfiedIff(c, deps[..|deps| - 1]);
      assert forall i :: 0 <= i < |deps| - 1 ==> deps[..|deps| - 1][i] == deps[i];
    }
  }

  /** Installing a component can only be undone for the name and version that it
      replaces: every other satisfied dependency stays satisfied. */
  lemma {:induction false} RegisterKeepsSatisfied(c: Components, name: Text, version: U32, sha256: seq<Byte>, deps: seq<Dep>)
    requires Lookup(c, name, version) in {None, Some(sha256)}
    ensures |Unsatisfied(Register(c, name, version, sha256), deps)| <= |Unsatisfied(c, deps)|
    decreases |deps|
  {
    if deps != [] {
      var last := deps[|deps| - 1];
      RegisterLookup(c, name, version, sha256, last.name, last.version);
      RegisterKeepsSatisfied(c, name, version, sha256, deps[..|deps| - 1]);
    }
  }

  // ---- The result word ----------------------------------------------------

  function Code(r: Result<Manifest>): nat {
    match r
    case Ok(_) => 0
    case Err(Truncated) => 1
    case Err(BadMagic) => 2
    case Err(BadVersion) => 3
    case Err(TooLarge) => 4
    case Err(BadUtf8) => 5
  }

  /** Every error has a code of its own, and none is the code of success. */
  lemma CodesAreDistinct(a: Error, b: Error)
    ensures 1 <= Code(Err(a)) <= 5 && (Code(Err(a)) == Code(Err(b)) <==> a == b)
  {
  }

  function Pack(ok: U32, bad: U32, err: nat): U64
    requires err < 0x100
  {
    ok % 0x1_0000 + 0x1_0000 * (bad % 0x1_0000) + 0x1_0000_0000 * err
  }

  function OkField(word: U64): nat {
    word % 0x1_0000
  }

  function BadField(word: U64): nat {
    word / 0x1_0000 % 0x1_0000
  }

  function ErrorField(word: U64): nat {
    word / 0x1_0000_0000 % 0x100
  }

  lemma PackIsLossless(ok: U32, bad: U32, err: nat)
    requires ok < 0x1_0000 && bad < 0x1_0000 && err < 0x100
    ensures var w := Pack(ok, bad, err);
            OkField(w) == ok && BadField(w) == bad && ErrorField(w) == err
  {
    var w: int := Pack(ok, bad, err);
    assert w == ok + 0x1_0000 * (bad + 0x1_0000 * err);
    assert w / 0x1_0000 == bad + 0x1_0000 * err;
    assert w / 0x1_0000_0000 == err;
  }

  const MAX_MANIFEST_BYTES: nat := 65536

  // ---- The registry -------------------------------------------------------

  /** The global registry, which is empty until it is initialised. */
  class Registry {
    var initialised: bool
    var components: Components
    var verifications: nat
    var passed: nat

    constructor ()
      ensures !initialised && components == map[] && verifications == passed == 0
    {
      initialised, components, verifications, passed := false, map[], 0, 0;
    }

    method Init(seeded: Components)
      modifies this
      ensures initialised && components == seeded && verifications == passed == 0
    {
      initialised, components, verifications, passed := true, seeded, 0, 0;
    }

    /** The registration system call: the name and digest ranges are checked, then
        the digest is copied, which can still fail. */
    method RegisterComponent(nameReadable: bool, shaReadable: bool, name: Text, version: nat, sha256: Option<seq<Byte>>)
      returns (ok: bool)
      modifies this`components
      ensures ok <==> nameReadable && shaReadable && sha256.Some? && |sha256.value| == 32 && initialised
      ensures components ==
              if ok then Register(old(components), name, version % 0x1_0000_0000, sha256.value) else old(components)
    {
      if !nameReadable || !shaReadable {
        return false;
      }
      if sha256.None? || |sha256.value| != 32 {
        return false;
      }
      if !initialised {
        return false;
      }
      components := Register(components, name, version % 0x1_0000_0000, sha256.value);
      return true;
    }

    method Verify(m: Manifest) returns (ok: nat, bad: nat, badNames: seq<Text>)
      modifies this`verifications, this`passed
      ensures ok + bad == |m.deps|
      ensures initialised ==> badNames == Unsatisfied(components, m.deps) && bad == |badNames|
      ensures initialised ==> (bad == 0 <==> forall i :: 0 <= i < |m.deps| ==> Satisfied(components, m.deps[i]))
      ensures !initialised ==> ok == 0 && badNames == []
      ensures verifications == old(verifications) + if initialised then 1 else 0
      ensures passed == old(passed) + if initialised && bad == 0 then 1 else 0
    {
      if !initialised {
        return 0, |m.deps|, [];
      }
      verifications := verifications + 1;
      ok, bad, badNames := 0, 0, [];
      for i := 0 to |m.deps|
        invariant ok + bad == i && badNames == Unsatisfied(components, m.deps[..i]) && bad == |badNames|
      {
        var d := m.deps[i];
        assert m.deps[..i + 1][..i] == m.deps[..i];
        if Lookup(components, d.name, d.version) == Some(d.sha256) {
          ok := ok + 1;
        } else {
          bad := bad + 1;
          badNames := badNames + [d.name];
        }
      }
      assert m.deps[..|m.deps|] == m.deps;
      NoneUnsatisfiedIff(components, m.deps);
      if bad == 0 {
        passed := passed + 1;
      }
    }

    /** The verification system call. `bytes` is what the user copy gave. The
        result word tells the parse error, or how many dependencies are installed
        at the requested hashes and how many are not. */
    method SysVerify(len: nat, readable: bool, bytes: seq<Byte>) returns (word: U64)
      modifies this`verifications, this`passed
      ensures ErrorField(word) == 0 <==> 0 < len <= 65536 && readable && Parse(bytes).Ok?
      ensures len == 0 || len > MAX_MANIFEST_BYTES ==> word == Pack(0, 0, 4)
      ensures 0 < len <= MAX_MANIFEST_BYTES && !readable ==> word == Pack(0, 0, 1)
      ensures 0 < len <= MAX_MANIFEST_BYTES && readable ==>
                match Parse(bytes)
                case Err(_) => word == Pack(0, 0, Code(Parse(bytes)))
                case Ok(m) =>
                  && ErrorField(word) == 0
                  && OkField(word) + BadField(word) == |m.deps|
                  && (initialised ==> BadField(word) == |Unsatisfied(components, m.deps)|)
                  && (initialised ==>
                      (BadField(word) == 0 <==> forall i :: 0 <= i < |m.deps| ==> Satisfied(components, m.deps[i])))
                  && (!initialised ==> OkField(word) == 0)
    {
      hide Parse, ParseDeps, Unsatisfied, OkField, BadField, ErrorField, Pack;
      PackIsLossless(0, 0, 4);
      PackIsLossless(0, 0, 1);
      if len == 0 || len > MAX_MANIFEST_BYTES {
        return Pack(0, 0, 4);
      }
      if !readable {
        return Pack(0, 0, 1);
      }
      var r := ParseManifest(bytes);
      if r.Err? {
        CodesAreDistinct(r.error, r.error);
        PackIsLossless(0, 0, Code(r));
        return Pack(0, 0, Code(r));
      }
      ParseIff(bytes, r.value);
      var ok, bad, names := Verify(r.value);
      PackIsLossless(ok, bad, 0);
      return Pack(ok, bad, 0);
    }
  }
}
