/** The render clients of all processes, end to end: the kernel's render inodes
    (kernel/src/gpu_render.rs), its queue to the daemon, and the daemon's broker
    (amdgpud/src/main.rs) with the references it holds. */
module RenderSessions {
  import opened RenderClients

  /** `opening` are the ids minted by opens that have not yet queued their message,
      `live` those of inodes that have not been dropped. */
  datatype Sys = Sys(online: bool, next: nat, opening: set<nat>, live: set<nat>, queue: seq<Op>, world: World)

  datatype Event =
    | Register                    // a daemon registers as the render service
    | Crash                       // it exits: the queue is cleared and its memory is gone
    | Mint                        // an open takes the next id
    | Announce(id: nat)           // ... queues OP_OPEN, and returns the inode
    | Drop(id: nat)               // the last reference to an inode goes: OP_CLOSE
    | Request(op: Op)             // a mapping request, by whatever id
    | Serve(created: bool)        // the daemon handles the oldest message
    | Others(op: Op)              // someone else takes or drops a reference

  function Boot(): Sys {
    Sys(false, 1, {}, {}, [], EmptyWorld())
  }

  predicate Enabled(s: Sys, e: Event) {
    match e
    case Register => true
    case Crash => true
    case Mint => s.online
    case Announce(id) => id in s.opening
    case Drop(id) => id in s.live
    case Request(op) => op.Mmap?
    case Serve(_) => s.online && s.queue != []
    case Others(op) => s.online && (op.ForeignGet? || op.ForeignPut?)
  }

  /** Messages are queued only while a daemon is registered. */
  function Enqueue(s: Sys, op: Op): seq<Op> {
    if s.online then s.queue + [op] else s.queue
  }

  /** The daemon's own outcome of an open decides whether a client exists. */
  function Served(op: Op, created: bool): Op {
    if op.Open? then op.(created := created) else op
  }

  function Next(s: Sys, e: Event): Sys
    requires Enabled(s, e)
  {
    match e
    case Register => s.(online := true)
    case Crash => s.(online := false, queue := [], world := EmptyWorld())
    case Mint => s.(next := s.next + 1, opening := s.opening + {s.next})
    case Announce(id) =>
      s.(opening := s.opening - {id}, live := s.live + {id}, queue := Enqueue(s, Open(id, true)))
    case Drop(id) => s.(live := s.live - {id}, queue := Enqueue(s, Close(id)))
    case Request(op) => s.(queue := Enqueue(s, op))
    case Serve(created) =>
      s.(queue := s.queue[1..], world := Step(s.world, Served(s.queue[0], created)))
    case Others(op) => s.(world := Step(s.world, op))
  }

  predicate IsRun(s: Sys, run: seq<Event>)
    decreases |run|
  {
    run == [] || (Enabled(s, run[0]) && IsRun(Next(s, run[0]), run[1..]))
  }

  function After(s: Sys, run: seq<Event>): Sys
    requires IsRun(s, run)
    decreases |run|
  {
    if run == [] then s else After(Next(s, run[0]), run[1..])
  }

  // ---- Invariant ----------------------------------------------------------

  predicate OpensAt(q: seq<Op>, k: nat, id: nat) {
    k < |q| && q[k].Open? && q[k].id == id
  }

  predicate ClosesAt(q: seq<Op>, k: nat, id: nat) {
    k < |q| && q[k].Close? && q[k].id == id
  }

  /** The inode is live, or its close is queued at `from` or later. */
  ghost predicate WillClose(s: Sys, id: nat, from: nat) {
    id in s.live || exists k: nat :: from <= k && ClosesAt(s.queue, k, id)
  }

  /** An id in circulation is an old one that no open is still about to announce. */
  predicate Used(s: Sys, id: nat) {
    id < s.next && id !in s.opening
  }

  ghost predicate QueueInv(s: Sys) {
    && (forall k: nat, id: nat :: OpensAt(s.queue, k, id) ==> Used(s, id) && id !in s.world.broker && WillClose(s, id, k + 1))
    && (forall j: nat, k: nat, id: nat :: OpensAt(s.queue, j, id) && OpensAt(s.queue, k, id) ==> j == k)
    && (forall k: nat, id: nat :: ClosesAt(s.queue, k, id) ==> Used(s, id))
  }

  ghost predicate IdsInv(s: Sys) {
    && (forall id :: id in s.live ==> Used(s, id))
    && (forall id :: id in s.opening ==> id < s.next)
    && (forall id :: id in s.world.broker ==> Used(s, id) && WillClose(s, id, 0))
  }

  ghost predicate Inv(s: Sys) {
    && QueueInv(s) && IdsInv(s)
    && RenderClients.Inv(s.world) && Tracked(s.world)
    && (!s.online ==> s.queue == [] && s.world == EmptyWorld())
  }

  lemma BootInv()
    ensures Inv(Boot())
  {
    EmptyWorldInv();
  }

  // ---- Every event keeps it -----------------------------------------------

  /** A queued message leaves every promise to close in place. */
  lemma WillCloseKept(s: Sys, t: Sys, id: nat, from: nat)
    requires WillClose(s, id, from) && (id in s.live ==> id in t.live)
    requires |s.queue| <= |t.queue| && t.queue[..|s.queue|] == s.queue
    ensures WillClose(t, id, from)
  {
    if id !in s.live {
      var k: nat :| from <= k && ClosesAt(s.queue, k, id);
      assert t.queue[..|s.queue|][k] == t.queue[k];
      assert ClosesAt(t.queue, k, id);
    }
  }

  lemma AnnounceKeeps(s: Sys, id: nat)
    requires Inv(s) && id in s.opening
    ensures Inv(Next(s, Announce(id)))
  {
    hide RenderClients.Inv, Tracked;
    var t := Next(s, Announce(id));
    forall k: nat, i: nat | OpensAt(t.queue, k, i)
      ensures Used(t, i) && i !in t.world.broker && WillClose(t, i, k + 1)
    {
      if OpensAt(s.queue, k, i) {
        WillCloseKept(s, t, i, k + 1);
      }
    }
    forall i | i in t.world.broker
      ensures Used(t, i) && WillClose(t, i, 0)
    {
      WillCloseKept(s, t, i, 0);
    }
    forall k: nat, i: nat
      ensures OpensAt(t.queue, k, i) ==> OpensAt(s.queue, k, i) || (k == |s.queue| && i == id)
      ensures ClosesAt(t.queue, k, i) ==> ClosesAt(s.queue, k, i)
    {
    }
  }

  lemma DropKeeps(s: Sys, id: nat)
    requires Inv(s) && id in s.live
    ensures Inv(Next(s, Drop(id)))
  {
    hide RenderClients.Inv, Tracked;
    var t := Next(s, Drop(id));
    if s.online {
      assert ClosesAt(t.queue, |s.queue|, id);
      forall i: nat, from: nat | WillClose(s, i, from) && from <= |s.queue|
        ensures WillClose(t, i, from)
      {
        if i != id {
          WillCloseKept(s, t, i, from);
        }
      }
      forall k: nat, i: nat
        ensures OpensAt(t.queue, k, i) <==> OpensAt(s.queue, k, i)
        ensures ClosesAt(t.queue, k, i) <==> ClosesAt(s.queue, k, i) || (k == |s.queue| && i == id)
      {
      }
    }
  }

  lemma RequestKeeps(s: Sys, op: Op)
    requires Inv(s) && op.Mmap?
    ensures Inv(Next(s, Request(op)))
  {
    hide RenderClients.Inv, Tracked;
    var t := Next(s, Request(op));
    forall i: nat, from: nat | WillClose(s, i, from)
      ensures WillClose(t, i, from)
    {
      WillCloseKept(s, t, i, from);
    }
    forall k: nat, i: nat
      ensures OpensAt(t.queue, k, i) <==> OpensAt(s.queue, k, i)
      ensures ClosesAt(t.queue, k, i) <==> ClosesAt(s.queue, k, i)
    {
    }
  }

  /** What one message does to the broker's ids. */
  lemma ServedIds(s: Sys, created: bool)
    requires RenderClients.Inv(s.world) && s.queue != []
    ensures var op, w := s.queue[0], Step(s.world, Served(s.queue[0], created));
            forall i :: i in w.broker <==>
              (i in s.world.broker && !(op.Close? && op.id == i)) || (op.Open? && created && op.id == i)
  {
    hide MmapResult, Held, TableOf;
    var op := s.queue[0];
    assert op.Close? && op.id in s.world.broker ==> Known(s.world, op.id);
  }

  lemma ServeKeeps(s: Sys, created: bool)
    requires Inv(s) && s.online && s.queue != []
    ensures Inv(Next(s, Serve(created)))
  {
    hide RenderClients.Inv, Tracked, Step;
    var t, op := Next(s, Serve(created)), s.queue[0];
    ServedIds(s, created);
    assert op.Open? ==> OpensAt(s.queue, 0, op.id);
    RenderClients.StepKeeps(s.world, Served(op, created));
    StepTracksIff(s.world, Served(op, created));
    forall k: nat, i: nat
      ensures OpensAt(t.queue, k, i) <==> OpensAt(s.queue, k + 1, i)
      ensures ClosesAt(t.queue, k, i) <==> ClosesAt(s.queue, k + 1, i)
    {
    }
    forall k: nat, i: nat | OpensAt(t.queue, k, i)
      ensures Used(t, i) && i !in t.world.broker && WillClose(t, i, k + 1)
    {
      assert OpensAt(s.queue, k + 1, i);
      ShiftWillClose(s, t, i, k + 2);
    }
    forall i | i in t.world.broker
      ensures Used(t, i) && WillClose(t, i, 0)
    {
      if i in s.world.broker {
        ClosesLater(s, i);
      }
      ShiftWillClose(s, t, i, 1);
    }
  }

  lemma ShiftWillClose(s: Sys, t: Sys, id: nat, from: nat)
    requires s.queue != [] && t.queue == s.queue[1..] && t.live == s.live
    requires from > 0 && WillClose(s, id, from)
    ensures WillClose(t, id, from - 1)
  {
    if id !in s.live {
      var k: nat :| from <= k && ClosesAt(s.queue, k, id);
      assert ClosesAt(t.queue, k - 1, id);
    }
  }

  lemma ClosesLater(s: Sys, id: nat)
    requires WillClose(s, id, 0) && !ClosesAt(s.queue, 0, id)
    ensures WillClose(s, id, 1)
  {
    if id !in s.live {
      var k: nat :| 0 <= k && ClosesAt(s.queue, k, id);
      assert k != 0;
    }
  }

  lemma ForeignLeavesIds(w: World, op: Op)
    requires op.ForeignGet? || op.ForeignPut?
    ensures Step(w, op).broker == w.broker
  {
  }

  lemma OthersKeep(s: Sys, op: Op)
    requires Inv(s) && s.online && (op.ForeignGet? || op.ForeignPut?)
    ensures Inv(Next(s, Others(op)))
  {
    hide RenderClients.Inv, Tracked, Step;
    RenderClients.StepKeeps(s.world, op);
    StepTracksIff(s.world, op);
    ForeignLeavesIds(s.world, op);
    var t := Next(s, Others(op));
    forall i: nat, from: nat | WillClose(s, i, from)
      ensures WillClose(t, i, from)
    {
      WillCloseKept(s, t, i, from);
    }
  }

  lemma MintKeeps(s: Sys)
    requires Inv(s) && s.online
    ensures Inv(Next(s, Mint))
  {
    hide RenderClients.Inv, Tracked;
    var t := Next(s, Mint);
    forall i: nat, from: nat | WillClose(s, i, from)
      ensures WillClose(t, i, from)
    {
      WillCloseKept(s, t, i, from);
    }
  }

  lemma EventKeeps(s: Sys, e: Event)
    requires Inv(s) && Enabled(s, e)
    ensures Inv(Next(s, e))
  {
    match e
    case Register =>
      RegisterKeeps(s);
    case Crash => EmptyWorldInv();
    case Mint => MintKeeps(s);
    case Announce(id) => AnnounceKeeps(s, id);
    case Drop(id) => DropKeeps(s, id);
    case Request(op) => RequestKeeps(s, op);
    case Serve(created) => ServeKeeps(s, created);
    case Others(op) => OthersKeep(s, op);
  }

  lemma RegisterKeeps(s: Sys)
    requires Inv(s)
    ensures Inv(Next(s, Register))
  {
    hide RenderClients.Inv, Tracked;
    var t := Next(s, Register);
    forall i: nat, from: nat | WillClose(s, i, from)
      ensures WillClose(t, i, from)
    {
      WillCloseKept(s, t, i, from);
    }
  }

  lemma {:induction false} RunKeeps(s: Sys, run: seq<Event>)
    requires Inv(s) && IsRun(s, run)
    ensures Inv(After(s, run))
    decreases |run|
  {
    if run != [] {
      EventKeeps(s, run[0]);
      RunKeeps(Next(s, run[0]), run[1..]);
    }
  }

  /** From boot, in every run of opens, drops, requests, crashes and services, the
      references on each object are those in the tables of open clients and those
      of others, and the broker can still close every open client: the kernel's
      counter never hands out an id that is in use. */
  lemma EveryClientStaysTracked(run: seq<Event>, o: Obj)
    requires IsRun(Boot(), run)
    ensures var w := After(Boot(), run).world;
            Tracked(w) && w.refs[o] == w.foreign[o] + Held(w.clients)[o]
  {
    hide Tracked, Held, QueueInv, IdsInv;
    BootInv();
    RunKeeps(Boot(), run);
  }

  /** Once every inode is dropped and the queue is served, no reference is held. */
  lemma DroppingAllReturnsAll(run: seq<Event>)
    requires IsRun(Boot(), run)
    requires After(Boot(), run).live == {} && After(Boot(), run).queue == []
    ensures After(Boot(), run).world.refs == After(Boot(), run).world.foreign
  {
    hide Tracked, Held;
    BootInv();
    RunKeeps(Boot(), run);
    var s := After(Boot(), run);
    assert forall id :: id in s.world.broker ==> WillClose(s, id, 0);
    assert s.world.broker == map[];
    NoClientNoReference(s.world);
  }
}
