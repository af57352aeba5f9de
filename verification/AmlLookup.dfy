/** What declarations leave in the namespace: every path, and the value found under
    it, computed from the declarations alone. */
module AmlLookup {
  import opened Wrappers
  import opened Bytes
  import opened AmlNamespace
  import opened AmlLexer
  import opened AmlParser
  import opened AmlNames
  import opened AmlEncoding
  import opened AmlTrees

  // ---- Paths from components ----------------------------------------------

  /** An absolute path from its components. */
  function PathText(parts: seq<Text>): Text {
    [BACKSLASH] + JoinDots(parts)
  }

  /** The components of the scope that a prefix starts from. */
  function Start(scope: seq<Text>, prefix: Prefix): seq<Text> {
    match prefix
    case Root => []
    case Carets(n) => if n >= |scope| then [] else scope[..|scope| - n]
  }

  /** The components of a name in a scope. A scope that is spelled as the bare root
      adds nothing. */
  function PathParts(scope: seq<Text>, prefix: Prefix, segments: seq<Text>): seq<Text> {
    var start := Start(scope, prefix);
    (if start == [[]] then [] else start) + (if segments == [] && !prefix.Root? then [[]] else segments)
  }

  predicate Parts(parts: seq<Text>) {
    forall i :: 0 <= i < |parts| ==> DotFree(parts[i])
  }

  lemma {:induction false} JoinConcat(a: seq<Text>, b: seq<Text>)
    requires a != [] && b != []
    ensures JoinDots(a + b) == JoinDots(a) + [DOT] + JoinDots(b)
  {
    assert (a + b)[1..] == a[1..] + b;
    if |a| > 1 {
      JoinConcat(a[1..], b);
      assert a[0] + [DOT] + (JoinDots(a[1..]) + [DOT] + JoinDots(b)) == a[0] + [DOT] + JoinDots(a[1..]) + [DOT] + JoinDots(b);
    }
  }

  lemma BelowIs(start: seq<Text>, name: seq<Text>)
    requires name != []
    ensures Below(PathText(start), JoinDots(name)) == PathText((if start == [[]] then [] else start) + name)
  {
    if start == [] || start == [[]] {
      assert [] + name == name && PathText(start) == [BACKSLASH];
    } else {
      JoinConcat(start, name);
      JoinNonempty(start);
      assert [BACKSLASH] + JoinDots(start) + [DOT] + JoinDots(name) == [BACKSLASH] + (JoinDots(start) + [DOT] + JoinDots(name));
    }
  }

  lemma JoinNonempty(parts: seq<Text>)
    requires parts != [] && parts != [[]]
    ensures JoinDots(parts) != []
  {
    if |parts| == 1 {
      assert parts == [parts[0]];
    }
  }

  /** Splitting a path gives its components, the root sign at the first. */
  lemma SplitPath(parts: seq<Text>)
    requires Parts(parts)
    ensures SplitDots(PathText(parts)) == if parts == [] then [[BACKSLASH]] else [[BACKSLASH] + parts[0]] + parts[1..]
  {
    if parts == [] {
      SplitDotFree([BACKSLASH]);
      assert [BACKSLASH] + [] == [BACKSLASH];
    } else {
      SplitPrefix([BACKSLASH], JoinDots(parts));
      SplitJoin(parts);
    }
  }

  lemma JoinRooted(parts: seq<Text>)
    requires parts != []
    ensures JoinDots([[BACKSLASH] + parts[0]] + parts[1..]) == PathText(parts)
  {
    var rooted := [[BACKSLASH] + parts[0]] + parts[1..];
    assert rooted[1..] == parts[1..];
    if |parts| > 1 {
      assert [BACKSLASH] + parts[0] + [DOT] + JoinDots(parts[1..]) == [BACKSLASH] + (parts[0] + [DOT] + JoinDots(parts[1..]));
    }
  }

  /** The text of a decoded name behind its prefix starts no prefix of its own. */
  lemma NoPrefixInside(segments: seq<Text>)
    requires forall i :: 0 <= i < |segments| ==> ValidSegment(segments[i])
    ensures var t := JoinDots(Trimmed(segments)); t == [] || (t[0] != CARET && t[0] != BACKSLASH)
  {
    if segments != [] {
      TrimmedStart(segments[0]);
    }
  }

  lemma TrimmedStart(s: Text)
    requires ValidSegment(s)
    ensures var t := TrimUnderscores(s); t == [] || (t[0] != CARET && t[0] != BACKSLASH)
  {
  }

  /** Resolution joins the components of the scope, as far as the prefix leaves
      them, with the segments of the name. */
  lemma ResolveIs(scope: seq<Text>, name: Name)
    requires Parts(scope) && ValidName(name)
    ensures Resolve(PathText(scope), DecodedName(name)) ==
            PathText(PathParts(scope, name.prefix, Trimmed(name.segments)))
  {
    hide ValidSegment, Trimmed, SplitDots, Below, Resolve, JoinDots;
    var segments := Trimmed(name.segments);
    var text := JoinDots(segments);
    NoPrefixInside(name.segments);
    match name.prefix
    case Root =>
      ResolveRooted(PathText(scope), text);
      assert [] + segments == segments;
    case Carets(n) =>
      var np := if segments == [] then [[]] else segments;
      JoinOfNothing();
      BelowIs(Start(scope, name.prefix), np);
      ResolveClimbing(scope, n, text);
  }

  lemma JoinOfNothing()
    ensures JoinDots([]) == JoinDots([[]])
  {
  }

  lemma ResolveRooted(scope: Text, text: Text)
    ensures Resolve(scope, [BACKSLASH] + text) == [BACKSLASH] + text
  {
  }

  lemma ResolveClimbing(scope: seq<Text>, n: nat, text: Text)
    requires Parts(scope) && (text == [] || (text[0] != CARET && text[0] != BACKSLASH))
    ensures Resolve(PathText(scope), seq(n, _ => CARET) + text) == Below(PathText(Start(scope, Carets(n))), text)
  {
    hide SplitDots, Below, JoinDots;
    var name := seq(n, _ => CARET) + text;
    if n == 0 {
      assert name == text && Start(scope, Carets(n)) == scope;
    } else {
      CaretsCounted(n, text);
      assert name[0] == CARET && name[n..] == text;
      CaretBase(scope, n);
    }
  }

  /** The scope that carets climb to. */
  lemma CaretBase(scope: seq<Text>, n: nat)
    requires Parts(scope) && n > 0
    ensures var parts := SplitDots(PathText(scope));
            (if n >= |parts| then [BACKSLASH] else JoinDots(parts[..|parts| - n])) == PathText(Start(scope, Carets(n)))
  {
    hide SplitDots;
    SplitPath(scope);
    var parts := SplitDots(PathText(scope));
    if n < |scope| {
      var kept := scope[..|scope| - n];
      assert parts[..|parts| - n] == [[BACKSLASH] + kept[0]] + kept[1..];
      JoinRooted(kept);
    } else {
      assert PathText([]) == [BACKSLASH];
    }
  }

  // ---- What inserting stores ----------------------------------------------

  /** Inserting puts the named object, with no children, under its path; lists that
      path as the last child of the current scope, if that has a node and is not the
      path itself; and leaves every other node and the scope stack alone. */
  lemma InsertStores(ns: Namespace, scope: seq<Text>, name: Name, value: AmlValue)
    requires Parts(scope) && ValidName(name) && CurrentScope(ns) == PathText(scope)
    ensures var path := PathText(PathParts(scope, name.prefix, Trimmed(name.segments)));
            var after := Insert(ns, DecodedName(name), value);
            && after.scopes == ns.scopes
            && after.nodes.Keys == ns.nodes.Keys + {path}
            && after.nodes[path] == Node(DecodedName(name), path, value, [])
            && (forall k :: k in ns.nodes && k != path ==>
                  after.nodes[k] ==
                  if k == PathText(scope) then ns.nodes[k].(children := ns.nodes[k].children + [path]) else ns.nodes[k])
  {
    hide Resolve, PathText, PathParts, DecodedName;
    ResolveIs(scope, name);
  }

  // ---- Declarations, in order ---------------------------------------------

  datatype Decl = Decl(path: Text, value: AmlValue)

  function ItemPath(scope: seq<Text>, name: NameTree): seq<Text> {
    PathParts(scope, name.prefix, Trimmed(name.segments))
  }

  /** The objects that an item declares in a scope, with their paths. */
  function Decls(scope: seq<Text>, item: Item): seq<Decl>
    decreases item, 0
  {
    match item
    case NameItem(name, data) => [Decl(PathText(ItemPath(scope, name)), DataValue(data))]
    case MethodItem(name, flags, code) => [Decl(PathText(ItemPath(scope, name)), MethodValue(flags, code))]
    case RegionItem(name, space, offset, length) =>
      [Decl(PathText(ItemPath(scope, name)), OpRegion(space, offset, length))]
    case MutexItem(name, flags) => [Decl(PathText(ItemPath(scope, name)), Mutex(flags % 16))]
    case EventItem(name) => [Decl(PathText(ItemPath(scope, name)), Event)]
    case BlockItem(block, name, body) =>
      var path := ItemPath(scope, name);
      (if block.ScopeBlock? then [] else [Decl(PathText(path), BlockValue(block, DecodedName(name)))]) + DeclsAll(path, body)
    case SkippedItem(_, _) => []
  }

  function DeclsAll(scope: seq<Text>, items: seq<Item>): seq<Decl>
    decreases items, 1
  {
    if items == [] then [] else Decls(scope, items[0]) + DeclsAll(scope, items[1..])
  }

  /** The value that the last declaration of a path gives it. */
  function LastDecl(decls: seq<Decl>, path: Text): Option<AmlValue> {
    if decls == [] then None
    else
      var last := decls[|decls| - 1];
      if last.path == path then Some(last.value) else LastDecl(decls[..|decls| - 1], path)
  }

  lemma {:induction false} LastDeclConcat(a: seq<Decl>, b: seq<Decl>, path: Text)
    ensures LastDecl(a + b, path) == if LastDecl(b, path).Some? then LastDecl(b, path) else LastDecl(a, path)
    decreases |b|
  {
    if b == [] {
      assert a + b == a;
    } else {
      assert (a + b)[..|a + b| - 1] == a + b[..|b| - 1];
      LastDeclConcat(a, b[..|b| - 1], path);
    }
  }

  function Lookup(ns: Namespace, path: Text): Option<AmlValue> {
    if path in ns.nodes then Some(ns.nodes[path].value) else None
  }

  function Found(declared: Option<AmlValue>, before: Option<AmlValue>): Option<AmlValue> {
    if declared.Some? then declared else before
  }

  /** The scope's path is current on a non-empty stack. */
  ghost predicate Stands(ns: Namespace, scope: seq<Text>) {
    Parts(scope) && ns.scopes != [] && CurrentScope(ns) == PathText(scope)
  }

  lemma PathIsParts(scope: seq<Text>, name: NameTree)
    requires Parts(scope)
    ensures Parts(ItemPath(scope, name))
  {
    NamesDotFree(name);
    var segments := Trimmed(name.segments);
    assert Parts(segments) && Parts([[]]);
    assert Parts(Start(scope, name.prefix));
  }

  lemma InsertFinds(ns: Namespace, scope: seq<Text>, name: NameTree, value: AmlValue, p: Text)
    requires Stands(ns, scope)
    ensures var after := Insert(ns, DecodedName(name), value);
            && after.scopes == ns.scopes
            && Lookup(after, p) == Found(LastDecl([Decl(PathText(ItemPath(scope, name)), value)], p), Lookup(ns, p))
  {
    hide PathText, PathParts, DecodedName, Insert;
    InsertStores(ns, scope, name, value);
    var decls := [Decl(PathText(ItemPath(scope, name)), value)];
    assert decls[..0] == [] && LastDecl([], p) == None;
  }

  lemma {:induction false} DenoteFinds(ns: Namespace, scope: seq<Text>, item: Item, p: Text)
    requires Stands(ns, scope)
    ensures Denote(ns, item).scopes == ns.scopes
    ensures Lookup(Denote(ns, item), p) == Found(LastDecl(Decls(scope, item), p), Lookup(ns, p))
    decreases item, 0
  {
    hide Insert, DecodedName, PathText, ItemPath, Lookup, LastDecl, DenoteAll, DeclsAll, Stands;
    match item
    case NameItem(name, data) => InsertFinds(ns, scope, name, DataValue(data), p);
    case MethodItem(name, flags, code) => InsertFinds(ns, scope, name, MethodValue(flags, code), p);
    case RegionItem(name, space, offset, length) => InsertFinds(ns, scope, name, OpRegion(space, offset, length), p);
    case MutexItem(name, flags) => InsertFinds(ns, scope, name, Mutex(flags % 16), p);
    case EventItem(name) => InsertFinds(ns, scope, name, Event, p);
    case BlockItem(block, name, body) => BlockFinds(ns, scope, block, name, body, p);
    case SkippedItem(_, _) => NothingDeclared(p);
  }

  lemma NothingDeclared(p: Text)
    ensures LastDecl([], p) == None
  {
  }

  lemma {:induction false} BlockFinds(ns: Namespace, scope: seq<Text>, block: Block, name: NameTree, body: seq<Item>, p: Text)
    requires Stands(ns, scope)
    ensures Denote(ns, BlockItem(block, name, body)).scopes == ns.scopes
    ensures Lookup(Denote(ns, BlockItem(block, name, body)), p) ==
            Found(LastDecl(Decls(scope, BlockItem(block, name, body)), p), Lookup(ns, p))
    decreases body, 3
  {
    hide Insert, DecodedName, PathText, LastDecl, DenoteAll, DeclsAll, Resolve;
    var text, path := DecodedName(name), ItemPath(scope, name);
    var value := BlockValue(block, text);
    var own := if block.ScopeBlock? then [] else [Decl(PathText(path), value)];
    var listed := if block.ScopeBlock? then ns else Insert(ns, text, value);
    InsertFinds(ns, scope, name, value, p);
    NothingDeclared(p);
    ResolveIs(scope, name);
    PathIsParts(scope, name);
    var inner := PushScope(listed, text);
    assert Stands(inner, path);
    DenoteAllFinds(inner, path, body, p);
    LastDeclConcat(own, DeclsAll(path, body), p);
    var after := DenoteAll(inner, body);
    assert after.scopes == ns.scopes + [PathText(path)];
    assert after.scopes[..|ns.scopes|] == ns.scopes;
  }

  lemma {:induction false} DenoteAllFinds(ns: Namespace, scope: seq<Text>, items: seq<Item>, p: Text)
    requires Stands(ns, scope)
    ensures DenoteAll(ns, items).scopes == ns.scopes
    ensures Lookup(DenoteAll(ns, items), p) == Found(LastDecl(DeclsAll(scope, items), p), Lookup(ns, p))
    decreases items, 1
  {
    hide Denote, Decls, LastDecl, Lookup;
    if items == [] {
      NothingDeclared(p);
    } else {
      DenoteFinds(ns, scope, items[0], p);
      DenoteAllFinds(Denote(ns, items[0]), scope, items[1..], p);
      LastDeclConcat(Decls(scope, items[0]), DeclsAll(scope, items[1..]), p);
    }
  }

  /** After loading an encoded table into a fresh interpreter, looking up any path
      gives the value of the last declaration of that path among those that depth
      and budget leave, or what a new namespace has there. */
  lemma LoadedTableIsFound(header: seq<Byte>, items: seq<Item>, p: Text)
    requires |header| == SDT_HEADER_SIZE && AllValid(items)
    ensures var kept := Afford(Cut(items, 31), AML_MAX_OPS);
            Lookup(LoadTable(NewInterp(), header + EncodeAll(items)).0.ns, p) ==
            Found(LastDecl(DeclsAll([], kept), p), Lookup(NewNamespace(), p))
  {
    hide LoadTable, Afford, Cut, EncodeAll, DenoteAll, DeclsAll, LastDecl, Lookup, AllValid;
    var st := NewInterp();
    LoadTableDenotes(st, header, items);
    assert PathText([]) == [BACKSLASH];
    DenoteAllFinds(st.ns, [], Afford(Cut(items, 31), AML_MAX_OPS), p);
  }

  /** One declaration: its path holds its data. */
  lemma LoadedNameIsFound(header: seq<Byte>, name: NameTree, data: Data)
    requires |header| == SDT_HEADER_SIZE && ValidData(data)
    ensures Lookup(LoadTable(NewInterp(), header + EncodeAll([NameItem(name, data)])).0.ns, PathText(ItemPath([], name))) ==
            Some(DataValue(data))
  {
    hide LoadTable, EncodeAll, Lookup, PathText, ItemPath;
    var item := NameItem(name, data);
    assert AllValid([item]);
    LoadedTableIsFound(header, [item], PathText(ItemPath([], name)));
    assert Cut([item], 31) == [item] && Afford([item], AML_MAX_OPS) == [item];
    assert DeclsAll([], [item]) == Decls([], item) + DeclsAll([], []);
  }
}
