/** Render clients and the GEM references they hold: the seam of
    linuxkpi-drm/bringup_render.c. */
module RenderClients {
  import opened Wrappers

  /** A GEM object. */
  type Obj = nat

  const PAGE_SIZE: nat := 4096
  const MAX_MAPPED: nat := 256

  const EINVAL: int := -22
  const E2BIG: int := -7
  const EACCES: int := -13
  const ENXIO: int := -6
  const EAGAIN: int := -11
  const EIO: int := -5
  const ENOSPC: int := -28

  /** What the offset manager finds at an exact range: the object, whether this
      client may map it, and the physical pages behind it, if it has any. */
  datatype Node = Node(obj: Obj, allowed: bool, pages: Option<seq<Option<nat>>>)

  predicate GoodPage(page: Option<nat>) {
    page.Some? && page.value != 0 && page.value % PAGE_SIZE == 0
  }

  /** The error of the first bad page from `i` on, or 0. */
  function PageError(pages: seq<Option<nat>>, i: nat, n: nat): (r: int)
    requires i <= n <= |pages|
    ensures r <= 0
    ensures r == 0 <==> forall k :: i <= k < n ==> GoodPage(pages[k])
    decreases n - i
  {
    if i == n then 0
    else if pages[i].None? then EAGAIN
    else if !GoodPage(pages[i]) then EIO
    else PageError(pages, i + 1, n)
  }

  /** The result of mapping: a page count, or an error code. `live` says that the
      object's reference count is not zero. */
  function MmapResult(table: seq<Obj>, offset: nat, length: nat, node: Option<Node>, live: bool, cap: nat): int {
    var pages := length / PAGE_SIZE;
    if length == 0 || offset % PAGE_SIZE != 0 || length % PAGE_SIZE != 0 then EINVAL
    else if pages > cap then E2BIG
    else if node.None? || !live then EINVAL
    else if !node.value.allowed then EACCES
    else if node.value.pages.None? || |node.value.pages.value| < pages then ENXIO
    else if PageError(node.value.pages.value, 0, pages) < 0 then PageError(node.value.pages.value, 0, pages)
    else if |table| >= MAX_MAPPED then ENOSPC
    else pages
  }

  // ---- When mapping succeeds ----------------------------------------------

  /** A request that makes sense: some whole pages from a page boundary. */
  predicate Aligned(offset: nat, length: nat) {
    length > 0 && offset % 4096 == 0 && length % 4096 == 0
  }

  /** The object has `n` pages, and each is present, not null and page-aligned. */
  predicate Backed(node: Node, n: nat) {
    node.pages.Some? && |node.pages.value| >= n
  }

  predicate AllGood(node: Node, n: nat)
    requires Backed(node, n)
  {
    forall k :: 0 <= k < n ==>
      var page := node.pages.value[k]; page.Some? && page.value != 0 && page.value % 4096 == 0
  }

  /** The first page that is not good is missing, or else present. */
  predicate FirstBad(node: Node, n: nat, missing: bool)
    requires Backed(node, n)
  {
    exists k :: 0 <= k < n && AllGood(node, k) && !GoodPage(node.pages.value[k]) && node.pages.value[k].None? == missing
  }

  /** Mapping succeeds exactly for an aligned request that fits the caller's array,
      finds a live object which this client may map and which has that many good
      pages, and finds room in the table; it then returns the number of pages. */
  lemma MapsIff(table: seq<Obj>, offset: nat, length: nat, node: Option<Node>, live: bool, cap: nat)
    ensures var r, n := MmapResult(table, offset, length, node, live, cap), length / 4096;
            && (r >= 0 <==>
                && Aligned(offset, length) && n <= cap
                && node.Some? && live && node.value.allowed
                && Backed(node.value, n) && AllGood(node.value, n)
                && |table| < 256)
            && (r >= 0 ==> r == n)
  {
  }

  /** Every error has its own condition, checked in this order. */
  lemma MapErrorsIff(table: seq<Obj>, offset: nat, length: nat, node: Option<Node>, live: bool, cap: nat)
    ensures var r, n := MmapResult(table, offset, length, node, live, cap), length / 4096;
            var asked, found := Aligned(offset, length) && n <= cap, node.Some? && live;
            && (r == -22 <==> !Aligned(offset, length) || (asked && !found))
            && (r == -7 <==> Aligned(offset, length) && n > cap)
            && (r == -13 <==> asked && found && !node.value.allowed)
            && (r == -6 <==> asked && found && node.value.allowed && !Backed(node.value, n))
            && (r == -11 <==> asked && found && node.value.allowed && Backed(node.value, n) && FirstBad(node.value, n, true))
            && (r == -5 <==> asked && found && node.value.allowed && Backed(node.value, n) && FirstBad(node.value, n, false))
            && (r == -28 <==> asked && found && node.value.allowed && Backed(node.value, n) && AllGood(node.value, n) && |table| >= 256)
  {
    var n := length / 4096;
    if node.Some? && Backed(node.value, n) {
      FirstBadIs(node.value, 0, n);
    }
    hide PageError, FirstBad;
  }

  lemma {:induction false} FirstBadIs(node: Node, i: nat, n: nat)
    requires Backed(node, n) && i <= n && AllGood(node, i)
    ensures var e := PageError(node.pages.value, i, n);
            && (e == 0 <==> AllGood(node, n)) && (e == -11 <==> FirstBad(node, n, true)) && (e == -5 <==> FirstBad(node, n, false))
            && e in {0, -11, -5}
    decreases n - i
  {
    if i < n {
      if GoodPage(node.pages.value[i]) {
        assert AllGood(node, i + 1);
        FirstBadIs(node, i + 1, n);
      } else {
        OneFirstBad(node, i, n);
      }
    } else {
      NoneBad(node, n);
    }
  }

  lemma OneFirstBad(node: Node, i: nat, n: nat)
    requires Backed(node, n) && i < n && AllGood(node, i) && !GoodPage(node.pages.value[i])
    ensures !AllGood(node, n)
    ensures FirstBad(node, n, true) <==> node.pages.value[i].None?
    ensures FirstBad(node, n, false) <==> node.pages.value[i].Some?
  {
    forall k | 0 <= k < n && AllGood(node, k) && !GoodPage(node.pages.value[k])
      ensures k == i
    {
    }
  }

  lemma NoneBad(node: Node, n: nat)
    requires Backed(node, n) && AllGood(node, n)
    ensures !FirstBad(node, n, true) && !FirstBad(node, n, false)
  {
    forall k | 0 <= k < n
      ensures GoodPage(node.pages.value[k])
    {
    }
  }

  // ---- In place -----------------------------------------------------------

  /** The reference counts of all GEM objects. */
  class Gem {
    var refs: multiset<Obj>

    constructor ()
      ensures refs == multiset{}
    {
      refs := multiset{};
    }

    /** Takes a reference unless the object is already dead. */
    method GetUnlessZero(o: Obj) returns (ok: bool)
      modifies this
      ensures ok <==> old(refs)[o] > 0
      ensures refs == if ok then old(refs) + multiset{o} else old(refs)
    {
      ok := o in refs;
      if ok {
        refs := refs + multiset{o};
      }
    }

    method Put(o: Obj)
      requires o in refs
      modifies this
      ensures refs == old(refs) - multiset{o}
    {
      refs := refs - multiset{o};
    }
  }

  class RenderClient {
    const mapped: array<Obj>
    var mappedCount: nat

    ghost predicate Valid()
      reads this
    {
      mapped.Length == MAX_MAPPED && mappedCount <= MAX_MAPPED
    }

    ghost function Table(): seq<Obj>
      reads this, mapped
      requires Valid()
    {
      mapped[..mappedCount]
    }

    constructor ()
      ensures Valid() && fresh(mapped) && Table() == []
    {
      mapped := new Obj[MAX_MAPPED](_ => 0);
      mappedCount := 0;
    }

    /** A successful mapping keeps the reference that it took; every failure gives
        it back, so that no count changes. */
    method MmapPages(gem: Gem, offset: nat, length: nat, node: Option<Node>, pagesOut: array<nat>, cap: nat) returns (r: int)
      requires Valid() && cap <= pagesOut.Length && pagesOut != mapped
      modifies this, mapped, gem, pagesOut
      ensures Valid()
      ensures r == MmapResult(old(Table()), offset, length, node, node.Some? && old(gem.refs)[node.value.obj] > 0, cap)
      ensures r < 0 ==> gem.refs == old(gem.refs) && Table() == old(Table())
      ensures r >= 0 ==>
                && node.Some? && gem.refs == old(gem.refs) + multiset{node.value.obj}
                && Table() == old(Table()) + [node.value.obj]
                && node.value.pages.Some? && r <= |node.value.pages.value| && r <= pagesOut.Length
                && forall i :: 0 <= i < r ==> node.value.pages.value[i] == Some(pagesOut[i])
    {
      if length == 0 || offset % PAGE_SIZE != 0 || length % PAGE_SIZE != 0 {
        return EINVAL;
      }
      var pages := length / PAGE_SIZE;
      if pages > cap {
        return E2BIG;
      }
      if node.None? {
        return EINVAL;
      }
      var obj := node.value.obj;
      var live := gem.GetUnlessZero(obj);
      if !live {
        return EINVAL;
      }
      assert gem.refs - multiset{obj} == old(gem.refs);
      if !node.value.allowed {
        gem.Put(obj);
        return EACCES;
      }
      if node.value.pages.None? || |node.value.pages.value| < pages {
        gem.Put(obj);
        return ENXIO;
      }
      var err := CopyPages(node.value.pages.value, pages, pagesOut);
      if err < 0 {
        gem.Put(obj);
        return err;
      }
      if mappedCount >= MAX_MAPPED {
        gem.Put(obj);
        return ENOSPC;
      }
      mapped[mappedCount] := obj;
      mappedCount := mappedCount + 1;
      return pages;
    }

    method CopyPages(pages: seq<Option<nat>>, n: nat, pagesOut: array<nat>) returns (err: int)
      requires n <= |pages| && n <= pagesOut.Length
      modifies pagesOut
      ensures err == PageError(pages, 0, n)
      ensures err == 0 ==> forall i :: 0 <= i < n ==> pages[i] == Some(pagesOut[i])
    {
      for i := 0 to n
        invariant PageError(pages, 0, n) == PageError(pages, i, n)
        invariant forall k :: 0 <= k < i ==> pages[k] == Some(pagesOut[k])
      {
        if pages[i].None? {
          return EAGAIN;
        }
        pagesOut[i] := pages[i].value;
        if pagesOut[i] == 0 || pagesOut[i] % PAGE_SIZE != 0 {
          return EIO;
        }
      }
      return 0;
    }

    /** Gives back every reference in the table, each exactly once. */
    method Close(gem: Gem)
      requires Valid() && multiset(Table()) <= gem.refs
      modifies gem
      ensures gem.refs == old(gem.refs) - multiset(Table())
    {
      hide Remaining;
      ghost var table, others := Table(), gem.refs - multiset(Table());
      AllRemain(gem.refs, table);
      for i := 0 to mappedCount
        invariant gem.refs == Remaining(others, table, i)
      {
        PutNext(others, table, i);
        gem.Put(mapped[i]);
      }
      NoneRemain(others, table);
    }
  }

  /** The references of others and of the table's entries from `i` on. */
  ghost function Remaining(others: multiset<Obj>, table: seq<Obj>, i: nat): multiset<Obj>
    requires i <= |table|
  {
    others + multiset(table[i..])
  }

  lemma AllRemain(refs: multiset<Obj>, table: seq<Obj>)
    requires multiset(table) <= refs
    ensures Remaining(refs - multiset(table), table, 0) == refs
  {
    assert table[0..] == table;
  }

  lemma NoneRemain(others: multiset<Obj>, table: seq<Obj>)
    ensures Remaining(others, table, |table|) == others
  {
  }

  lemma PutNext(others: multiset<Obj>, table: seq<Obj>, i: nat)
    requires i < |table|
    ensures table[i] in Remaining(others, table, i)
    ensures Remaining(others, table, i) - multiset{table[i]} == Remaining(others, table, i + 1)
  {
    assert table[i..] == [table[i]] + table[i + 1..];
  }

  // ---- Many clients and the broker ----------------------------------------

  /** The system. Clients are numbered in the order of their allocation and a
      freed one is `None`; `broker` names the client of each id. The references
      that anyone else holds are `foreign`. */
  datatype World = World(
    refs: multiset<Obj>, foreign: multiset<Obj>, clients: seq<Option<seq<Obj>>>, broker: map<nat, nat>)

  datatype Op =
    | Open(id: nat, created: bool)
    | Close(id: nat)
    | Mmap(id: nat, offset: nat, length: nat, node: Option<Node>, cap: nat)
    | ForeignGet(obj: Obj)
    | ForeignPut(obj: Obj)

  function TableOf(client: Option<seq<Obj>>): multiset<Obj> {
    if client.Some? then multiset(client.value) else multiset{}
  }

  /** All references in the tables of open clients. */
  function Held(clients: seq<Option<seq<Obj>>>): multiset<Obj> {
    if clients == [] then multiset{} else Held(clients[..|clients| - 1]) + TableOf(clients[|clients| - 1])
  }

  predicate Known(w: World, id: nat) {
    id in w.broker && w.broker[id] < |w.clients| && w.clients[w.broker[id]].Some?
  }

  function Step(w: World, op: Op): World {
    match op
    case Open(id, created) =>
      if !created then w
      else w.(clients := w.clients + [Some([])], broker := w.broker[id := |w.clients|])
    case Close(id) =>
      if !Known(w, id) then w
      else
        var h := w.broker[id];
        w.(refs := w.refs - TableOf(w.clients[h]), clients := w.clients[h := None], broker := w.broker - {id})
    case Mmap(id, offset, length, node, cap) =>
      if !Known(w, id) then w
      else
        var h := w.broker[id];
        var table := w.clients[h].value;
        if MmapResult(table, offset, length, node, node.Some? && w.refs[node.value.obj] > 0, cap) < 0 then w
        else if node.None? then w
        else
          w.(refs := w.refs + multiset{node.value.obj}, clients := w.clients[h := Some(table + [node.value.obj])])
    case ForeignGet(o) => w.(refs := w.refs + multiset{o}, foreign := w.foreign + multiset{o})
    case ForeignPut(o) => if o in w.foreign then w.(refs := w.refs - multiset{o}, foreign := w.foreign - multiset{o}) else w
  }

  /** A daemon that has just started. */
  function EmptyWorld(): World {
    World(multiset{}, multiset{}, [], map[])
  }

  function Run(w: World, ops: seq<Op>): World
    decreases |ops|
  {
    if ops == [] then w else Run(Step(w, ops[0]), ops[1..])
  }

  /** The references of each object are those in the tables of open clients and
      those of others. */
  ghost predicate Owned(w: World) {
    w.refs == w.foreign + Held(w.clients)
  }

  /** Tables stay within their bound. The broker's clients are open, each under
      one id. */
  ghost predicate Brokered(w: World) {
    && (forall h :: 0 <= h < |w.clients| && w.clients[h].Some? ==> |w.clients[h].value| <= MAX_MAPPED)
    && (forall id :: id in w.broker ==> Known(w, id))
    && (forall a, b :: a in w.broker && b in w.broker && w.broker[a] == w.broker[b] ==> a == b)
  }

  ghost predicate Inv(w: World) {
    Owned(w) && Brokered(w)
  }

  /** Replacing one table leaves the references of all others, `rest`. */
  lemma {:induction false} HeldUpdate(clients: seq<Option<seq<Obj>>>, h: nat, client: Option<seq<Obj>>)
    returns (rest: multiset<Obj>)
    requires h < |clients|
    ensures Held(clients) == rest + TableOf(clients[h])
    ensures Held(clients[h := client]) == rest + TableOf(client)
    decreases |clients|
  {
    hide TableOf;
    var n := |clients| - 1;
    var updated := clients[h := client];
    if h == n {
      assert updated[..n] == clients[..n];
      rest := Held(clients[..n]);
    } else {
      var before := HeldUpdate(clients[..n], h, client);
      assert updated[..n] == clients[..n][h := client];
      rest := before + TableOf(clients[n]);
    }
  }

  lemma Cancel(f: multiset<Obj>, rest: multiset<Obj>, t: multiset<Obj>)
    ensures f + (rest + t) - t == f + rest
  {
  }

  lemma Reassociate(f: multiset<Obj>, rest: multiset<Obj>, table: seq<Obj>, o: Obj)
    ensures f + (rest + multiset(table)) + multiset{o} == f + (rest + multiset(table + [o]))
  {
  }

  lemma StepOwns(w: World, op: Op)
    requires Owned(w)
    ensures Owned(Step(w, op))
  {
    hide MmapResult, Held;
    match op
    case Open(id, created) =>
      NewClientHoldsNothing(w.clients);
    case Close(id) =>
      if Known(w, id) {
        var rest := HeldUpdate(w.clients, w.broker[id], None);
        Cancel(w.foreign, rest, TableOf(w.clients[w.broker[id]]));
      }
    case Mmap(id, offset, length, node, cap) =>
      if Known(w, id) && node.Some? {
        var table := w.clients[w.broker[id]].value;
        var rest := HeldUpdate(w.clients, w.broker[id], Some(table + [node.value.obj]));
        Reassociate(w.foreign, rest, table, node.value.obj);
      }
    case _ =>
  }

  lemma NewClientHoldsNothing(clients: seq<Option<seq<Obj>>>)
    ensures Held(clients + [Some([])]) == Held(clients)
  {
    assert (clients + [Some([])])[..|clients|] == clients;
  }

  lemma SuccessFits(table: seq<Obj>, offset: nat, length: nat, node: Option<Node>, live: bool, cap: nat)
    ensures MmapResult(table, offset, length, node, live, cap) >= 0 ==> |table| < MAX_MAPPED && node.Some?
  {
  }

  lemma StepBrokers(w: World, op: Op)
    requires Brokered(w)
    ensures Brokered(Step(w, op))
  {
    hide MmapResult, Held, TableOf;
    var next := Step(w, op);
    if op.Mmap? && Known(w, op.id) {
      SuccessFits(w.clients[w.broker[op.id]].value, op.offset, op.length, op.node,
                  op.node.Some? && w.refs[op.node.value.obj] > 0, op.cap);
    }
    forall id | id in next.broker
      ensures Known(next, id)
    {
      assert id in w.broker ==> Known(w, id);
    }
  }

  lemma StepKeeps(w: World, op: Op)
    requires Inv(w)
    ensures Inv(Step(w, op))
  {
    hide Owned, Brokered, Step;
    StepOwns(w, op);
    StepBrokers(w, op);
  }

  /** In every run the references that this seam holds on each object are its
      occurrences in the tables of open clients. */
  lemma {:induction false} ReferencesAreOwned(w: World, ops: seq<Op>, o: Obj)
    requires Inv(w)
    ensures Inv(Run(w, ops))
    ensures Run(w, ops).refs[o] == Run(w, ops).foreign[o] + Held(Run(w, ops).clients)[o]
    decreases |ops|
  {
    if ops != [] {
      StepKeeps(w, ops[0]);
      ReferencesAreOwned(Step(w, ops[0]), ops[1..], o);
    }
  }

  /** An object that an open client has mapped is alive, whatever others do. */
  lemma MappedIsAlive(w: World, h: nat, o: Obj)
    requires Inv(w) && h < |w.clients| && w.clients[h].Some? && o in w.clients[h].value
    ensures w.refs[o] > 0
  {
    var rest := HeldUpdate(w.clients, h, None);
    assert o in multiset(w.clients[h].value);
  }

  // ---- Permission ---------------------------------------------------------

  /** Operation `j` of the run maps `o` for client `h`, which may map it. */
  ghost predicate MapsAllowed(w: World, ops: seq<Op>, j: nat, h: nat, o: Obj) {
    && j < |ops| && ops[j].Mmap? && ops[j].node.Some? && ops[j].node.value.obj == o && ops[j].node.value.allowed
    && var before := Run(w, ops[..j]); ops[j].id in before.broker && before.broker[ops[j].id] == h
  }

  function Entries(w: World, h: nat): seq<Obj> {
    if h < |w.clients| && w.clients[h].Some? then w.clients[h].value else []
  }

  lemma StepEntries(w: World, op: Op, h: nat, k: nat)
    requires Brokered(w) && k < |Entries(Step(w, op), h)|
    ensures || (k < |Entries(w, h)| && Entries(w, h)[k] == Entries(Step(w, op), h)[k])
            || MapsAllowed(w, [op], 0, h, Entries(Step(w, op), h)[k])
  {
    hide Held, TableOf, MmapResult;
    if op.Mmap? && Known(w, op.id) {
      MapsIff(w.clients[w.broker[op.id]].value, op.offset, op.length, op.node,
              op.node.Some? && w.refs[op.node.value.obj] > 0, op.cap);
    }
    assert [op][..0] == [] && Run(w, []) == w;
  }

  /** In every run, each entry of a table that was not there before was mapped by an
      operation of that client on an object that it was allowed to map. */
  lemma {:induction false} EntriesWereAllowed(w: World, ops: seq<Op>, h: nat, k: nat)
    requires Inv(w) && k < |Entries(Run(w, ops), h)|
    ensures var o := Entries(Run(w, ops), h)[k];
            (k < |Entries(w, h)| && Entries(w, h)[k] == o) || exists j: nat :: MapsAllowed(w, ops, j, h, o)
    decreases |ops|
  {
    hide Step, Entries, Inv;
    if ops != [] {
      var next, rest := Step(w, ops[0]), ops[1..];
      var o := Entries(Run(next, rest), h)[k];
      StepKeeps(w, ops[0]);
      EntriesWereAllowed(next, rest, h, k);
      if k < |Entries(next, h)| && Entries(next, h)[k] == o {
        EntriesStep(w, ops, h, k);
      } else {
        var j: nat :| MapsAllowed(next, rest, j, h, o);
        assert ops[..j + 1][0] == ops[0] && ops[..j + 1][1..] == rest[..j];
        assert MapsAllowed(w, ops, j + 1, h, o);
      }
    }
  }

  /** From a daemon's start, every entry of every table was allowed to its client
      when it was mapped. */
  lemma TablesHoldOnlyAllowed(ops: seq<Op>, h: nat, k: nat)
    requires k < |Entries(Run(EmptyWorld(), ops), h)|
    ensures exists j: nat :: MapsAllowed(EmptyWorld(), ops, j, h, Entries(Run(EmptyWorld(), ops), h)[k])
  {
    EmptyWorldInv();
    hide Inv, Run;
    EntriesWereAllowed(EmptyWorld(), ops, h, k);
  }

  lemma EmptyWorldInv()
    ensures Inv(EmptyWorld()) && Tracked(EmptyWorld())
  {
  }

  lemma EntriesStep(w: World, ops: seq<Op>, h: nat, k: nat)
    requires Inv(w) && ops != [] && k < |Entries(Step(w, ops[0]), h)|
    ensures var o := Entries(Step(w, ops[0]), h)[k];
            (k < |Entries(w, h)| && Entries(w, h)[k] == o) || MapsAllowed(w, ops, 0, h, o)
  {
    hide Step, Entries;
    StepEntries(w, ops[0], h, k);
    assert ops[..0] == [] && [ops[0]][..0] == [];
  }

  // ---- Leaks --------------------------------------------------------------

  /** Every open client can still be closed. */
  ghost predicate Tracked(w: World) {
    forall h :: 0 <= h < |w.clients| && w.clients[h].Some? ==> exists id :: id in w.broker && w.broker[id] == h
  }

  /** The broker loses track of a client exactly when an id that is in use is
      opened again. */
  lemma StepTracksIff(w: World, op: Op)
    requires Inv(w) && Tracked(w)
    ensures Tracked(Step(w, op)) <==> !(op.Open? && op.created && op.id in w.broker)
  {
    hide MmapResult, Held, TableOf;
    if op.Open? {
      if op.created {
        OpenTracksIff(w, op.id);
      }
    } else {
      OthersTrack(w, op);
    }
  }

  lemma OthersTrack(w: World, op: Op)
    requires Brokered(w) && Tracked(w) && !op.Open?
    ensures Tracked(Step(w, op))
  {
    hide MmapResult, Held, TableOf;
    var next := Step(w, op);
    forall h | 0 <= h < |next.clients| && next.clients[h].Some?
      ensures exists other :: other in next.broker && next.broker[other] == h
    {
      assert w.clients[h].Some?;
      var other :| other in w.broker && w.broker[other] == h;
      assert other in next.broker;
    }
  }

  lemma OpenTracksIff(w: World, id: nat)
    requires Inv(w) && Tracked(w)
    ensures Tracked(Step(w, Open(id, true))) <==> id !in w.broker
  {
    var next := Step(w, Open(id, true));
    if id in w.broker {
      var lost := w.broker[id];
      assert Known(w, id);
      assert next.clients[lost].Some?;
      assert forall a :: a in next.broker ==> next.broker[a] != lost;
    } else {
      forall h | 0 <= h < |next.clients| && next.clients[h].Some?
        ensures exists other :: other in next.broker && next.broker[other] == h
      {
        if h < |w.clients| {
          assert w.clients[h].Some?;
          var other :| other in w.broker && w.broker[other] == h;
          assert other in next.broker && next.broker[other] == h;
        } else {
          assert next.broker[id] == h;
        }
      }
    }
  }

  predicate Untracked(w: World, h: nat) {
    h < |w.clients| && w.clients[h].Some? && forall id :: id in w.broker ==> w.broker[id] != h
  }

  /** A client that the broker lost keeps its references for ever. */
  lemma {:induction false} LostForEver(w: World, h: nat, ops: seq<Op>)
    requires Untracked(w, h)
    ensures Untracked(Run(w, ops), h) && Run(w, ops).clients[h] == w.clients[h]
    decreases |ops|
  {
    if ops != [] {
      var next := Step(w, ops[0]);
      assert Untracked(next, h) && next.clients[h] == w.clients[h];
      LostForEver(next, h, ops[1..]);
    }
  }

  /** No client is opened under an id that is in use. */
  predicate FreshIds(w: World, ops: seq<Op>)
    decreases |ops|
  {
    ops == [] || (!(ops[0].Open? && ops[0].created && ops[0].id in w.broker) && FreshIds(Step(w, ops[0]), ops[1..]))
  }

  /** Over whole runs, the broker keeps track of every client exactly when ids are
      fresh: a client once lost stays lost. */
  lemma {:induction false} TrackedIffFreshIds(w: World, ops: seq<Op>)
    requires Inv(w) && Tracked(w)
    ensures Tracked(Run(w, ops)) <==> FreshIds(w, ops)
    decreases |ops|
  {
    if ops != [] {
      var next := Step(w, ops[0]);
      StepKeeps(w, ops[0]);
      StepTracksIff(w, ops[0]);
      if Tracked(next) {
        TrackedIffFreshIds(next, ops[1..]);
      } else {
        var h :| 0 <= h < |next.clients| && next.clients[h].Some? && !(exists id :: id in next.broker && next.broker[id] == h);
        LostForEver(next, h, ops[1..]);
        assert !Tracked(Run(next, ops[1..]));
      }
    }
  }

  /** When no id is in use, the seam holds no reference. */
  lemma NoClientNoReference(w: World)
    requires Inv(w) && Tracked(w) && w.broker == map[]
    ensures w.refs == w.foreign
  {
    NothingHeld(w.clients);
  }

  lemma {:induction false} NothingHeld(clients: seq<Option<seq<Obj>>>)
    requires forall h :: 0 <= h < |clients| ==> clients[h].None?
    ensures Held(clients) == multiset{}
    decreases |clients|
  {
    if clients != [] {
      NothingHeld(clients[..|clients| - 1]);
    }
  }
}
