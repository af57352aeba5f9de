/** The path-keyed AML namespace with its scope stack (kernel/src/acpi_full.rs). */
module AmlNamespace {
  import opened Bytes

  const BACKSLASH: Byte := 0x5C
  const CARET: Byte := 0x5E
  const DOT: Byte := 0x2E
  const UNDERSCORE: Byte := 0x5F

  /** The values the parser stores. */
  datatype AmlValue =
    | Integer(n: U64)
    | Str(text: Text)
    | Buffer(bytes: seq<Byte>)
    | Package
    | Method(argCount: nat, serialized: bool, syncLevel: nat, body: seq<Byte>)
    | OpRegion(space: Byte, offset: U64, length: U64)
    | Device(deviceName: Text)
    | Processor(id: Byte, pblkAddr: U32, pblkLen: Byte)
    | PowerResource(systemLevel: Byte, resourceOrder: nat)
    | ThermalZone(zoneName: Text)
    | Mutex(mutexLevel: nat)
    | Event
    | Uninitialized

  datatype Node = Node(name: Text, fullPath: Text, value: AmlValue, children: seq<Text>)

  datatype Namespace = Namespace(nodes: map<Text, Node>, scopes: seq<Text>)

  // ---- Dotted paths -------------------------------------------------------

  function SplitDots(s: Text): (parts: seq<Text>)
    ensures |parts| >= 1
  {
    if s == [] then [[]]
    else
      var rest := SplitDots(s[1..]);
      if s[0] == DOT then [[]] + rest else [[s[0]] + rest[0]] + rest[1..]
  }

  function JoinDots(parts: seq<Text>): Text {
    if parts == [] then []
    else if |parts| == 1 then parts[0]
    else parts[0] + [DOT] + JoinDots(parts[1..])
  }

  lemma {:induction false} JoinDotsSnoc(parts: seq<Text>, last: Text)
    requires parts != []
    ensures JoinDots(parts + [last]) == JoinDots(parts) + [DOT] + last
  {
    assert (parts + [last])[1..] == parts[1..] + [last];
    if |parts| > 1 {
      JoinDotsSnoc(parts[1..], last);
      assert parts[0] + [DOT] + (JoinDots(parts[1..]) + [DOT] + last)
          == parts[0] + [DOT] + JoinDots(parts[1..]) + [DOT] + last;
    }
  }

  predicate Absolute(path: Text) {
    path != [] && path[0] == BACKSLASH
  }

  function LeadingCarets(name: Text): (n: nat)
    ensures n <= |name|
    ensures forall i :: 0 <= i < n ==> name[i] == CARET
    ensures n < |name| ==> name[n] != CARET
  {
    if name == [] || name[0] != CARET then 0 else 1 + LeadingCarets(name[1..])
  }

  // ---- Operations ---------------------------------------------------------

  function CurrentScope(ns: Namespace): Text {
    if ns.scopes == [] then [BACKSLASH] else ns.scopes[|ns.scopes| - 1]
  }

  /** `name` below `scope`, where the root needs no separating dot. */
  function Below(scope: Text, name: Text): Text {
    if scope == [BACKSLASH] then [BACKSLASH] + name else scope + [DOT] + name
  }

  function Resolve(scope: Text, name: Text): Text {
    if Absolute(name) then name
    else if name != [] && name[0] == CARET then
      var ups := LeadingCarets(name);
      var parts := SplitDots(scope);
      var base := if ups >= |parts| then [BACKSLASH] else JoinDots(parts[..|parts| - ups]);
      Below(base, name[ups..])
    else Below(scope, name)
  }

  function PushScope(ns: Namespace, name: Text): Namespace {
    ns.(scopes := ns.scopes + [Resolve(CurrentScope(ns), name)])
  }

  function PopScope(ns: Namespace): Namespace {
    if |ns.scopes| > 1 then ns.(scopes := ns.scopes[..|ns.scopes| - 1]) else ns
  }

  function Insert(ns: Namespace, name: Text, value: AmlValue): Namespace {
    var full := Resolve(CurrentScope(ns), name);
    var parent := CurrentScope(ns);
    var listed := if parent in ns.nodes
                  then ns.nodes[parent := ns.nodes[parent].(children := ns.nodes[parent].children + [full])]
                  else ns.nodes;
    ns.(nodes := listed[full := Node(name, full, value, [])])
  }

  const ROOT_SCOPES: seq<Text> := [
    [BACKSLASH],
    [BACKSLASH, 0x5F, 0x53, 0x42],       // \_SB
    [BACKSLASH, 0x5F, 0x50, 0x52],       // \_PR
    [BACKSLASH, 0x5F, 0x54, 0x5A],       // \_TZ
    [BACKSLASH, 0x5F, 0x47, 0x50, 0x45], // \_GPE
    [BACKSLASH, 0x5F, 0x53, 0x49]        // \_SI
  ]

  function NewNamespace(): Namespace {
    Namespace(map s | s in ROOT_SCOPES :: Node(s, s, Uninitialized, []), [[BACKSLASH]])
  }

  // ---- Invariant ----------------------------------------------------------

  ghost predicate WellFormed(ns: Namespace) {
    && ns.scopes != []
    && (forall i :: 0 <= i < |ns.scopes| ==> Absolute(ns.scopes[i]))
    && (forall k :: k in ns.nodes ==> Absolute(k) && ns.nodes[k].fullPath == k)
    && (forall k, i :: k in ns.nodes && 0 <= i < |ns.nodes[k].children| ==> ns.nodes[k].children[i] in ns.nodes)
  }

  /** `later` is well-formed, has the scope stack of `earlier` and every key of it. */
  ghost predicate Extends(later: Namespace, earlier: Namespace) {
    && WellFormed(later)
    && later.scopes == earlier.scopes
    && earlier.nodes.Keys <= later.nodes.Keys
  }

  lemma NewNamespaceWellFormed()
    ensures WellFormed(NewNamespace())
  {
    var ns := NewNamespace();
    forall k | k in ns.nodes
      ensures Absolute(k)
    {
      assert k in ROOT_SCOPES;
    }
  }

  lemma {:induction false} SplitHeadKeepsFirst(s: Text)
    requires Absolute(s)
    ensures Absolute(SplitDots(s)[0])
  {
  }

  /** Whatever the name, resolution below an absolute scope is absolute. */
  lemma ResolveAbsolute(scope: Text, name: Text)
    requires Absolute(scope)
    ensures Absolute(Resolve(scope, name))
  {
    if !Absolute(name) && name != [] && name[0] == CARET {
      var parts, ups := SplitDots(scope), LeadingCarets(name);
      SplitHeadKeepsFirst(scope);
      if ups < |parts| {
        assert parts[..|parts| - ups][0] == parts[0];
        assert Absolute(JoinDots(parts[..|parts| - ups]));
      }
    }
  }

  lemma InsertExtends(ns: Namespace, name: Text, value: AmlValue)
    requires WellFormed(ns)
    ensures Extends(Insert(ns, name, value), ns)
  {
    ResolveAbsolute(CurrentScope(ns), name);
  }

  /** Opening a scope, extending the namespace inside it and closing it again
      restores the stack exactly. This needs the stack to be non-empty: the pop
      never removes the last entry. */
  lemma PushPopBalanced(ns: Namespace, name: Text, inner: Namespace)
    requires WellFormed(ns)
    requires Extends(inner, PushScope(ns, name))
    ensures WellFormed(PushScope(ns, name))
    ensures Extends(PopScope(inner), ns)
  {
    ResolveAbsolute(CurrentScope(ns), name);
    assert PushScope(ns, name).scopes[..|ns.scopes|] == ns.scopes;
  }

  lemma PushScopeWellFormed(ns: Namespace, name: Text)
    requires WellFormed(ns)
    ensures WellFormed(PushScope(ns, name))
  {
    ResolveAbsolute(CurrentScope(ns), name);
  }

  /** The balance of one push and one pop holds exactly for non-empty stacks. */
  lemma PushPopRestoresIff(ns: Namespace, name: Text)
    ensures PopScope(PushScope(ns, name)).scopes == ns.scopes <==> ns.scopes != []
  {
    assert PushScope(ns, name).scopes[..|ns.scopes|] == ns.scopes;
  }

  // ---- What carets mean ---------------------------------------------------

  /** The enclosing scope: one component less, never above the root. */
  function Parent(scope: Text): Text {
    var parts := SplitDots(scope);
    if |parts| == 1 then [BACKSLASH] else JoinDots(parts[..|parts| - 1])
  }

  function Ancestor(scope: Text, n: nat): Text
    decreases n
  {
    if n == 0 then scope else Ancestor(Parent(scope), n - 1)
  }

  predicate DotFree(s: Text) {
    DOT !in s
  }

  lemma {:induction false} SplitPartsDotFree(s: Text)
    ensures forall i :: 0 <= i < |SplitDots(s)| ==> DotFree(SplitDots(s)[i])
  {
    if s != [] {
      SplitPartsDotFree(s[1..]);
    }
  }

  lemma SplitCons(c: Byte, rest: Text)
    requires c != DOT
    ensures SplitDots([c] + rest) == [[c] + SplitDots(rest)[0]] + SplitDots(rest)[1..]
  {
    assert ([c] + rest)[1..] == rest;
  }

  lemma {:induction false} SplitPrefix(a: Text, b: Text)
    requires DotFree(a)
    ensures SplitDots(a + b) == [a + SplitDots(b)[0]] + SplitDots(b)[1..]
  {
    if a == [] {
      assert a + b == b && a + SplitDots(b)[0] == SplitDots(b)[0];
      assert SplitDots(b) == [SplitDots(b)[0]] + SplitDots(b)[1..];
    } else {
      var split := SplitDots(b);
      SplitPrefix(a[1..], b);
      assert a + b == [a[0]] + (a[1..] + b) && a[0] != DOT;
      SplitCons(a[0], a[1..] + b);
      assert [a[0]] + (a[1..] + split[0]) == a + split[0];
    }
  }

  lemma SplitAtFirstDot(a: Text, rest: Text)
    requires DotFree(a)
    ensures SplitDots(a + [DOT] + rest) == [a] + SplitDots(rest)
  {
    SplitPrefix(a, [DOT] + rest);
    assert ([DOT] + rest)[1..] == rest;
    assert a + [DOT] + rest == a + ([DOT] + rest);
    assert a + [] == a;
  }

  lemma SplitDotFree(a: Text)
    requires DotFree(a)
    ensures SplitDots(a) == [a]
  {
    SplitPrefix(a, []);
    assert a + [] == a;
  }

  /** Splitting undoes joining for components that contain no dot. */
  lemma {:induction false} SplitJoin(parts: seq<Text>)
    requires parts != [] && forall i :: 0 <= i < |parts| ==> DotFree(parts[i])
    ensures SplitDots(JoinDots(parts)) == parts
  {
    if |parts| == 1 {
      SplitDotFree(parts[0]);
    } else {
      SplitAtFirstDot(parts[0], JoinDots(parts[1..]));
      SplitJoin(parts[1..]);
      assert parts == [parts[0]] + parts[1..];
    }
  }

  /** The scope `n` components up, never above the root. */
  function DropComponents(parts: seq<Text>, n: nat): Text {
    if n >= |parts| then [BACKSLASH] else JoinDots(parts[..|parts| - n])
  }

  lemma {:induction false} AncestorDropsComponents(scope: Text, n: nat)
    requires Absolute(scope) && n > 0
    ensures Ancestor(scope, n) == DropComponents(SplitDots(scope), n)
    decreases n
  {
    hide SplitDots, DotFree;
    var parts := SplitDots(scope);
    SplitPartsDotFree(scope);
    SplitHeadKeepsFirst(scope);
    if n == 1 {
      assert Ancestor(Parent(scope), 0) == Parent(scope);
    } else if |parts| == 1 {
      SplitDotFree([BACKSLASH]);
      AncestorDropsComponents([BACKSLASH], n - 1);
    } else {
      var up := parts[..|parts| - 1];
      SplitJoin(up);
      assert up[0] == parts[0];
      AncestorDropsComponents(JoinDots(up), n - 1);
      if n < |parts| {
        assert up[..|up| - (n - 1)] == parts[..|parts| - n];
      }
    }
  }

  lemma CaretsCounted(n: nat, rest: Text)
    requires rest == [] || rest[0] != CARET
    ensures LeadingCarets(seq(n, _ => CARET) + rest) == n
  {
    var name := seq(n, _ => CARET) + rest;
    assert forall i :: 0 <= i < n ==> name[i] == CARET;
    assert rest != [] ==> name[n] == rest[0];
  }

  /** A name with `n` leading carets resolves as its rest does in the n-th
      enclosing scope. */
  lemma CaretsResolveInAncestor(scope: Text, n: nat, rest: Text)
    requires Absolute(scope)
    requires rest == [] || (rest[0] != CARET && rest[0] != BACKSLASH)
    ensures Resolve(scope, seq(n, _ => CARET) + rest) == Resolve(Ancestor(scope, n), rest)
  {
    var name := seq(n, _ => CARET) + rest;
    if n == 0 {
      assert name == rest;
    } else {
      CaretsCounted(n, rest);
      AncestorDropsComponents(scope, n);
      assert name[0] == CARET && name[n..] == rest;
      assert Resolve(scope, name) == Below(DropComponents(SplitDots(scope), n), rest);
    }
  }
}
