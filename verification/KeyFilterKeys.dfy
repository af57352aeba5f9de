/** Ordinary keys and the counters of the key filter, over runs that switch its
    features at any time. */
module KeyFilterKeys {
  import opened Wrappers
  import opened KeyFilter
  import opened KeyFilterTraces
  import opened KeyFilterSwitching

  // ---- Releases -----------------------------------------------------------

  predicate PressOf(e: Event, c: KeyCode) {
    e.Use? && e.input.Physical? && e.input.code == c && e.input.down
  }

  predicate ReleaseOf(e: Event, c: KeyCode) {
    e.Use? && e.input.Physical? && e.input.code == c && !e.input.down
  }

  /** The key was pressed under slow keys and its dwell has not passed. */
  predicate StillWaiting(f: Filter, c: KeyCode, now: nat) {
    && !AllOff(f.cfg) && f.pendingSlow.Some? && f.pendingSlow.value.key == c
    && SaturatingSub(now, f.pendingSlow.value.time) < f.cfg.slowKeysMs
  }

  predicate LastIs(events: seq<KeyEvent>, e: KeyEvent) {
    events != [] && events[|events| - 1] == e && e !in events[..|events| - 1]
  }

  lemma WrappedHasNoUp(f: Filter, code: KeyCode, c: KeyCode)
    requires Ordinary(f.cfg, c) && (!f.cfg.stickyKeys ==> f.latched == {})
    ensures KeyEvent(c, false) !in Wrapped(f, code)
  {
    hide ModEvents;
    var up := KeyEvent(c, false);
    if up in ModEvents(f.latched, true, MOD_KEYS) {
      ModEventsAreModifiers(f.latched, true, MOD_KEYS, up);
    }
    if up in ModEvents(f.latched, false, MOD_KEYS_REVERSED) {
      ModEventsAreModifiers(f.latched, false, MOD_KEYS_REVERSED, up);
    }
  }

  lemma ApplyReleases(f: Filter, e: Event, c: KeyCode)
    requires Ordinary(f.cfg, c) && (!f.cfg.stickyKeys ==> f.latched == {})
    ensures var out, up := Apply(f, e).1, KeyEvent(c, false);
            if !ReleaseOf(e, c) then up !in out
            else if StillWaiting(f, c, e.input.now) then out == []
            else LastIs(out, up)
  {
    hide Wrapped;
    if e.Use? {
      match e.input
      case Tick(now) =>
        if f.pendingSlow.Some? {
          WrappedHasNoUp(f, f.pendingSlow.value.key, c);
        }
      case Physical(code, down, now) =>
        WrappedHasNoUp(f, code, c);
        var w := Wrapped(f, code);
        assert (w + [KeyEvent(code, false)])[..|w|] == w;
    }
  }

  /** In every run, with features switched at any time: the release of a key that is
      ordinary then emits its key-up, once and last, except that a press still
      waiting for its dwell is dropped with nothing emitted; and nothing else ever
      emits a key-up of that key. */
  lemma ReleasesComeThrough(cfg: Config, run: seq<Event>, i: nat, c: KeyCode)
    requires i < |run| && Ordinary(After(NewFilter(cfg), run[..i]).cfg, c)
    ensures var f := After(NewFilter(cfg), run[..i]);
            var out, up := Apply(f, run[i]).1, KeyEvent(c, false);
            if !ReleaseOf(run[i], c) then up !in out
            else if StillWaiting(f, c, run[i].input.now) then out == []
            else LastIs(out, up)
  {
    hide After, Apply;
    OffMeansEmpty(NewFilter(cfg), run[..i]);
    ApplyReleases(After(NewFilter(cfg), run[..i]), run[i], c);
  }

  // ---- Keys without slow and bounce keys ----------------------------------

  /** Whether a key is logically down after the events. */
  predicate KeyIsDown(held: bool, events: seq<KeyEvent>, c: KeyCode)
    decreases |events|
  {
    if events == [] then held
    else KeyIsDown(if events[0].code == c then events[0].down else held, events[1..], c)
  }

  lemma {:induction false} KeyIsDownConcat(held: bool, a: seq<KeyEvent>, b: seq<KeyEvent>, c: KeyCode)
    ensures KeyIsDown(held, a + b, c) == KeyIsDown(KeyIsDown(held, a, c), b, c)
    decreases |a|
  {
    if a == [] {
      assert a + b == b;
    } else {
      assert (a + b)[1..] == a[1..] + b;
      KeyIsDownConcat(if a[0].code == c then a[0].down else held, a[1..], b, c);
    }
  }

  lemma KeyIsDownOne(held: bool, e: KeyEvent, c: KeyCode)
    ensures KeyIsDown(held, [e], c) == if e.code == c then e.down else held
    ensures KeyIsDown(held, [], c) == held
  {
    assert [e][1..] == [];
  }

  lemma {:induction false} ModEventsLeaveKeys(held: bool, mods: set<Modifier>, down: bool, order: seq<Modifier>, c: KeyCode)
    requires ModifierOf(c).None?
    ensures KeyIsDown(held, ModEvents(mods, down, order), c) == held
    decreases |order|
  {
    if order != [] {
      var first := if order[0] in mods then [KeyEvent(CanonicalKey(order[0]), down)] else [];
      KeyIsDownConcat(held, first, ModEvents(mods, down, order[1..]), c);
      if order[0] in mods {
        KeyIsDownOne(held, first[0], c);
      }
      ModEventsLeaveKeys(held, mods, down, order[1..], c);
    }
  }

  lemma WrappedPresses(held: bool, f: Filter, code: KeyCode, c: KeyCode)
    requires ModifierOf(c).None?
    ensures KeyIsDown(held, Wrapped(f, code), c) == (code == c || held)
  {
    hide ModEvents, KeyIsDown;
    var downs, key, ups :=
      ModEvents(f.latched, true, MOD_KEYS), [KeyEvent(code, true)], ModEvents(f.latched, false, MOD_KEYS_REVERSED);
    KeyIsDownConcat(held, downs + key, ups, c);
    KeyIsDownConcat(held, downs, key, c);
    ModEventsLeaveKeys(held, f.latched, true, MOD_KEYS, c);
    KeyIsDownOne(held, key[0], c);
    ModEventsLeaveKeys(KeyIsDown(held, downs + key, c), f.latched, false, MOD_KEYS_REVERSED, c);
  }

  predicate NoDelays(cfg: Config) {
    cfg.slowKeysMs == 0 && cfg.bounceKeysMs == 0
  }

  predicate NeverDelays(run: seq<Event>) {
    forall i :: 0 <= i < |run| && run[i].Configure? ==> NoDelays(run[i].cfg)
  }

  predicate Prompt(f: Filter) {
    NoDelays(f.cfg) && f.pendingSlow.None?
  }

  lemma ApplyPrompt(held: bool, f: Filter, e: Event, c: KeyCode)
    requires Prompt(f) && (e.Configure? ==> NoDelays(e.cfg)) && ModifierOf(c).None?
    ensures Prompt(Apply(f, e).0)
    ensures KeyIsDown(held, Apply(f, e).1, c) == if PressOf(e, c) then true else if ReleaseOf(e, c) then false else held
  {
    hide Wrapped, KeyIsDown;
    KeyIsDownOne(held, KeyEvent(c, true), c);
    if e.Use? && e.input.Physical? {
      var code := e.input.code;
      WrappedPresses(held, f, code, c);
      KeyIsDownOne(held, KeyEvent(code, e.input.down), c);
      if ModifierOf(code).Some? {
        var m := ModifierOf(code).value;
        KeyIsDownOne(held, KeyEvent(CanonicalKey(m), true), c);
        KeyIsDownOne(held, KeyEvent(CanonicalKey(m), false), c);
      }
    }
  }

  lemma {:induction false} RunPrompt(f: Filter, run: seq<Event>)
    requires Prompt(f) && NeverDelays(run)
    ensures Prompt(After(f, run))
    decreases |run|
  {
    hide Apply;
    if run != [] {
      ApplyPrompt(false, f, run[0], Plain(0));
      RunPrompt(Apply(f, run[0]).0, run[1..]);
    }
  }

  /** Without slow and bounce keys, whatever sticky keys do, a key that is no
      modifier is logically down exactly while it is physically held. */
  lemma {:induction false} KeysFollowFingers(cfg: Config, run: seq<Event>, c: KeyCode)
    requires NoDelays(cfg) && NeverDelays(run) && ModifierOf(c).None?
    ensures KeyIsDown(false, Emitted(NewFilter(cfg), run), c) <==> c in HeldKeys(run)
    decreases |run|
  {
    hide Apply;
    var f := NewFilter(cfg);
    if run == [] {
      KeyIsDownOne(false, KeyEvent(c, true), c);
    } else {
      var before, last := run[..|run| - 1], run[|run| - 1];
      assert run == before + [last];
      KeysFollowFingers(cfg, before, c);
      EmittedConcat(f, before, [last]);
      var g := After(f, before);
      Unfold(g, last, []);
      assert [last] + [] == [last];
      RunPrompt(f, before);
      ApplyPrompt(KeyIsDown(false, Emitted(f, before), c), g, last, c);
      KeyIsDownConcat(false, Emitted(f, before), Apply(g, last).1, c);
      assert Emitted(Apply(g, last).0, []) == [] && Apply(g, last).1 + [] == Apply(g, last).1;
      assert Emitted(f, run) == Emitted(f, before) + Apply(g, last).1;
    }
  }

  // ---- Counters -----------------------------------------------------------

  function One(b: bool): nat {
    if b then 1 else 0
  }

  /** The press repeats the last accepted key within the bounce window. */
  predicate IsBounce(f: Filter, e: Event) {
    && e.Use? && e.input.Physical? && e.input.down && f.cfg.bounceKeysMs > 0
    && f.lastAccept.Some? && f.lastAccept.value.key == e.input.code
    && SaturatingSub(e.input.now, f.lastAccept.value.time) < f.cfg.bounceKeysMs
  }

  predicate IsRejection(f: Filter, e: Event) {
    e.Use? && e.input.Physical? && !e.input.down && StillWaiting(f, e.input.code, e.input.now)
  }

  /** A key is accepted while something is latched. */
  predicate UsesLatch(f: Filter, e: Event) {
    e.Use? && AcceptedBy(f, e.input).Some? && f.latched != {} && !AllOff(f.cfg)
  }

  function Times(f: Filter, run: seq<Event>, counts: (Filter, Event) -> bool): nat
    decreases |run|
  {
    if run == [] then 0 else One(counts(f, run[0])) + Times(Apply(f, run[0]).0, run[1..], counts)
  }

  lemma CountersStep(f: Filter, e: Event)
    ensures var g := Apply(f, e).0;
            && g.bounced == f.bounced + One(IsBounce(f, e))
            && g.slowRejected == f.slowRejected + One(IsRejection(f, e))
            && g.stickyApplied == f.stickyApplied + One(UsesLatch(f, e))
  {
    hide Wrapped, ModifierOf;
  }

  /** In every run the three counters tell how many presses bounced, how many slow
      presses were released too early, and how many keys used a latch. */
  lemma {:induction false} CountersTell(f: Filter, run: seq<Event>)
    ensures var g := After(f, run);
            && g.bounced == f.bounced + Times(f, run, (h, e) => IsBounce(h, e))
            && g.slowRejected == f.slowRejected + Times(f, run, (h, e) => IsRejection(h, e))
            && g.stickyApplied == f.stickyApplied + Times(f, run, (h, e) => UsesLatch(h, e))
    decreases |run|
  {
    hide Apply, IsBounce, IsRejection, UsesLatch;
    if run != [] {
      CountersStep(f, run[0]);
      CountersTell(Apply(f, run[0]).0, run[1..]);
    }
  }
}
