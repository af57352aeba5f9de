/** The key filter over runs that also switch its features on and off. */
module KeyFilterSwitching {
  import opened Wrappers
  import opened KeyFilter
  import opened KeyFilterTraces

  datatype Event = Use(input: Input) | Configure(cfg: Config)

  /** Switching emits nothing. */
  function Apply(f: Filter, e: Event): (Filter, seq<KeyEvent>) {
    match e
    case Use(input) => Step(f, input)
    case Configure(cfg) => (SetConfig(f, cfg), [])
  }

  function After(f: Filter, run: seq<Event>): Filter
    decreases |run|
  {
    if run == [] then f else After(Apply(f, run[0]).0, run[1..])
  }

  function Emitted(f: Filter, run: seq<Event>): seq<KeyEvent>
    decreases |run|
  {
    if run == [] then [] else Apply(f, run[0]).1 + Emitted(Apply(f, run[0]).0, run[1..])
  }

  // ---- What is down -------------------------------------------------------

  /** Whether a modifier is logically down after the events. */
  predicate IsDown(held: bool, events: seq<KeyEvent>, m: Modifier)
    decreases |events|
  {
    if events == [] then held
    else IsDown(if ModifierOf(events[0].code) == Some(m) then events[0].down else held, events[1..], m)
  }

  lemma {:induction false} IsDownConcat(held: bool, a: seq<KeyEvent>, b: seq<KeyEvent>, m: Modifier)
    ensures IsDown(held, a + b, m) == IsDown(IsDown(held, a, m), b, m)
    decreases |a|
  {
    if a == [] {
      assert a + b == b;
    } else {
      assert (a + b)[1..] == a[1..] + b;
      IsDownConcat(if ModifierOf(a[0].code) == Some(m) then a[0].down else held, a[1..], b, m);
    }
  }

  lemma IsDownOne(held: bool, e: KeyEvent, m: Modifier)
    ensures IsDown(held, [e], m) == if ModifierOf(e.code) == Some(m) then e.down else held
  {
    assert [e][1..] == [];
  }

  lemma {:induction false} ModEventsDown(held: bool, mods: set<Modifier>, down: bool, order: seq<Modifier>, m: Modifier)
    ensures IsDown(held, ModEvents(mods, down, order), m) == if m in mods && m in order then down else held
    decreases |order|
  {
    if order != [] {
      var first := if order[0] in mods then [KeyEvent(CanonicalKey(order[0]), down)] else [];
      var rest := order[1..];
      assert order == [order[0]] + rest;
      IsDownConcat(held, first, ModEvents(mods, down, rest), m);
      if order[0] in mods {
        IsDownOne(held, first[0], m);
      }
      ModEventsDown(IsDown(held, first, m), mods, down, rest, m);
    }
  }

  /** An accepted key presses and releases the latched modifiers around itself. */
  function AcceptTouch(f: Filter, code: KeyCode, m: Modifier): Option<bool> {
    if m in f.latched then Some(false)
    else if ModifierOf(code) == Some(m) then Some(true)
    else None
  }

  function Touched(held: bool, touch: Option<bool>): bool {
    if touch.Some? then touch.value else held
  }

  lemma WrappedTouches(held: bool, f: Filter, code: KeyCode, m: Modifier)
    ensures IsDown(held, Wrapped(f, code), m) == Touched(held, AcceptTouch(f, code, m))
  {
    hide ModEvents, IsDown;
    AllModifiers({m});
    var downs, key, ups :=
      ModEvents(f.latched, true, MOD_KEYS), [KeyEvent(code, true)], ModEvents(f.latched, false, MOD_KEYS_REVERSED);
    assert m in InOrder({m}, MOD_KEYS) && m in InOrder({m}, MOD_KEYS_REVERSED);
    IsDownConcat(held, downs + key, ups, m);
    IsDownConcat(held, downs, key, m);
    ModEventsDown(held, f.latched, true, MOD_KEYS, m);
    IsDownOne(IsDown(held, downs, m), key[0], m);
    ModEventsDown(IsDown(held, downs + key, m), f.latched, false, MOD_KEYS_REVERSED, m);
  }

  // ---- What an input does to a modifier -----------------------------------

  /** What a tap of `m` does: unlock it, lock it, or only latch it. */
  function TapTouch(f: Filter, m: Modifier, now: nat): Option<bool> {
    if m in f.locked then Some(false)
    else if DoubleTap(f, m, now) then Some(true)
    else None
  }

  predicate DoubleTap(f: Filter, m: Modifier, now: nat) {
    f.lastTap.Some? && f.lastTap.value.key == m && SaturatingSub(now, f.lastTap.value.time) <= DOUBLE_TAP_MS
  }

  predicate Elapsed(f: Filter, now: nat) {
    f.pendingSlow.Some? && SaturatingSub(now, f.pendingSlow.value.time) >= f.cfg.slowKeysMs
  }

  function DownTouch(f: Filter, code: KeyCode, now: nat, m: Modifier): Option<bool> {
    if AllOff(f.cfg) then (if ModifierOf(code) == Some(m) then Some(true) else None)
    else if Bounces(f, code, now) then None
    else if f.cfg.stickyKeys && ModifierOf(code).Some? then
      if ModifierOf(code) == Some(m) then TapTouch(f, m, now) else None
    else if f.cfg.slowKeysMs > 0 then None
    else AcceptTouch(f, code, m)
  }

  function UpTouch(f: Filter, code: KeyCode, now: nat, m: Modifier): Option<bool> {
    var own := ModifierOf(code) == Some(m);
    if AllOff(f.cfg) then (if own then Some(false) else None)
    else if f.pendingSlow.Some? && f.pendingSlow.value.key == code then
      if !Elapsed(f, now) then None else if own then Some(false) else AcceptTouch(f, code, m)
    else if own && !f.cfg.stickyKeys then Some(false)
    else None
  }

  /** Whether an event presses the modifier, releases it, or leaves it alone. */
  function Touch(f: Filter, e: Event, m: Modifier): Option<bool> {
    match e
    case Configure(_) => None
    case Use(Physical(code, true, now)) => DownTouch(f, code, now, m)
    case Use(Physical(code, false, now)) => UpTouch(f, code, now, m)
    case Use(Tick(now)) =>
      if f.cfg.slowKeysMs > 0 && Elapsed(f, now) then AcceptTouch(f, f.pendingSlow.value.key, m) else None
  }

  lemma ApplyTouches(held: bool, f: Filter, e: Event, m: Modifier)
    ensures IsDown(held, Apply(f, e).1, m) == Touched(held, Touch(f, e, m))
  {
    match e
    case Configure(_) =>
    case Use(Tick(now)) =>
      if f.pendingSlow.Some? {
        WrappedTouches(held, f, f.pendingSlow.value.key, m);
      }
    case Use(Physical(code, down, now)) =>
      if down {
        PressTouches(held, f, code, now, m);
      } else {
        ReleaseTouches(held, f, code, now, m);
      }
    hide Wrapped, ModEvents;
  }

  lemma PressTouches(held: bool, f: Filter, code: KeyCode, now: nat, m: Modifier)
    ensures IsDown(held, FilterKey(f, code, true, now).1, m) == Touched(held, DownTouch(f, code, now, m))
  {
    hide Wrapped, IsDown;
    WrappedTouches(held, f, code, m);
    IsDownOne(held, KeyEvent(code, true), m);
    NothingEmitted(held, m);
    if ModifierOf(code).Some? {
      var own := ModifierOf(code).value;
      IsDownOne(held, KeyEvent(CanonicalKey(own), true), m);
      IsDownOne(held, KeyEvent(CanonicalKey(own), false), m);
    }
  }

  lemma ReleaseTouches(held: bool, f: Filter, code: KeyCode, now: nat, m: Modifier)
    ensures IsDown(held, FilterKey(f, code, false, now).1, m) == Touched(held, UpTouch(f, code, now, m))
  {
    hide Wrapped, IsDown;
    var up := KeyEvent(code, false);
    WrappedTouches(held, f, code, m);
    IsDownOne(held, up, m);
    IsDownConcat(held, Wrapped(f, code), [up], m);
    IsDownOne(IsDown(held, Wrapped(f, code), m), up, m);
    NothingEmitted(held, m);
  }

  lemma NothingEmitted(held: bool, m: Modifier)
    ensures IsDown(held, [], m) == held
  {
  }

  // ---- Over runs ----------------------------------------------------------

  /** The last press or release of the modifier in a run, if there is one. */
  function LastTouch(f: Filter, run: seq<Event>, m: Modifier): Option<bool>
    decreases |run|
  {
    if run == [] then None
    else
      var later := LastTouch(Apply(f, run[0]).0, run[1..], m);
      if later.Some? then later else Touch(f, run[0], m)
  }

  /** In every run, with features switched at any time, a modifier is logically
      down exactly when its last touch pressed it, or when it was down before and
      has not been touched. */
  lemma {:induction false} DownIffTouched(held: bool, f: Filter, run: seq<Event>, m: Modifier)
    ensures IsDown(held, Emitted(f, run), m) == Touched(held, LastTouch(f, run, m))
    decreases |run|
  {
    hide Apply, Touch;
    if run == [] {
      NothingEmitted(held, m);
    } else {
      var next := Apply(f, run[0]);
      ApplyTouches(held, f, run[0], m);
      IsDownConcat(held, next.1, Emitted(next.0, run[1..]), m);
      DownIffTouched(IsDown(held, next.1, m), next.0, run[1..], m);
    }
  }

  /** The keys that are physically held after a run. */
  function HeldKeys(run: seq<Event>): set<KeyCode> {
    if run == [] then {}
    else
      var last, before := run[|run| - 1], HeldKeys(run[..|run| - 1]);
      if last.Use? && last.input.Physical? then
        if last.input.down then before + {last.input.code} else before - {last.input.code}
      else before
  }

  predicate Holding(run: seq<Event>, m: Modifier) {
    exists code :: code in HeldKeys(run) && ModifierOf(code) == Some(m)
  }

  /** Logically down, with none of its keys held. */
  predicate Stuck(f: Filter, run: seq<Event>, m: Modifier) {
    IsDown(false, Emitted(f, run), m) && !Holding(run, m)
  }

  /** After any run from a fresh filter, with features switched at any time, and
      sticky keys switched off at the end, no modifier is stuck exactly when each
      one that was last touched by a press is still held. */
  lemma SwitchOffLeavesNothingStuckIff(cfg: Config, run: seq<Event>, off: Config)
    ensures (forall m :: !Stuck(NewFilter(cfg), run + [Configure(off)], m)) <==>
            (forall m :: LastTouch(NewFilter(cfg), run, m) == Some(true) ==> Holding(run, m))
  {
    hide Touch, Apply, HeldKeys;
    var f := NewFilter(cfg);
    forall m
      ensures Stuck(f, run + [Configure(off)], m) <==> LastTouch(f, run, m) == Some(true) && !Holding(run, m)
    {
      SwitchingTouchesNothing(f, run, off, m);
      DownIffTouched(false, f, run + [Configure(off)], m);
      SwitchingHoldsNothing(run, off);
    }
  }

  lemma {:induction false} SwitchingTouchesNothing(f: Filter, run: seq<Event>, cfg: Config, m: Modifier)
    ensures LastTouch(f, run + [Configure(cfg)], m) == LastTouch(f, run, m)
    decreases |run|
  {
    hide Apply;
    var all := run + [Configure(cfg)];
    if run == [] {
      assert all[1..] == [] && all[0] == Configure(cfg);
    } else {
      assert all[1..] == run[1..] + [Configure(cfg)] && all[0] == run[0];
      SwitchingTouchesNothing(Apply(f, run[0]).0, run[1..], cfg, m);
    }
  }

  lemma SwitchingHoldsNothing(run: seq<Event>, cfg: Config)
    ensures HeldKeys(run + [Configure(cfg)]) == HeldKeys(run)
  {
    assert (run + [Configure(cfg)])[..|run|] == run;
  }

  // ---- A phase of sticky keys ---------------------------------------------

  predicate StaysSticky(run: seq<Event>) {
    forall i :: 0 <= i < |run| && run[i].Configure? ==> run[i].cfg.stickyKeys
  }

  /** A press of one of the modifier's keys that the debounce lets through. */
  predicate Tapped(f: Filter, e: Event, m: Modifier) {
    && e.Use? && PressesModifier(e.input) && ModifierOf(e.input.code) == Some(m)
    && !Bounces(f, e.input.code, e.input.now)
  }

  predicate Accepts(f: Filter, e: Event) {
    e.Use? && AcceptedBy(f, e.input).Some?
  }

  /** The modifier is tapped twice in quick succession, or tapped (`tapped` tells
      whether that has happened) and then a key comes through. */
  predicate Used(f: Filter, run: seq<Event>, m: Modifier, tapped: bool)
    decreases |run|
  {
    run != [] &&
    (|| (tapped && Accepts(f, run[0]))
     || (Tapped(f, run[0], m) && DoubleTap(f, m, run[0].input.now))
     || Used(Apply(f, run[0]).0, run[1..], m, tapped || Tapped(f, run[0], m)))
  }

  /** Sticky keys are on, latch and lock are disjoint, and no press of `m` itself is
      waiting for its dwell. */
  ghost predicate PhaseInv(f: Filter, m: Modifier) {
    && f.cfg.stickyKeys && f.latched !! f.locked
    && (f.pendingSlow.Some? ==> ModifierOf(f.pendingSlow.value.key) != Some(m))
  }

  lemma PhaseApply(f: Filter, e: Event, m: Modifier)
    requires PhaseInv(f, m) && (e.Configure? ==> e.cfg.stickyKeys)
    ensures PhaseInv(Apply(f, e).0, m)
  {
    hide Wrapped;
  }

  /** In a sticky phase a press of a modifier locks it and a release unlocks it. */
  lemma TouchLocks(f: Filter, e: Event, m: Modifier)
    requires PhaseInv(f, m) && (e.Configure? ==> e.cfg.stickyKeys)
    ensures m in Apply(f, e).0.locked <==> Touched(m in f.locked, Touch(f, e, m))
  {
    match e
    case Use(Physical(code, true, now)) => PressLocks(f, code, now, m);
    case Use(Physical(code, false, now)) => ReleaseKeepsLocks(f, code, now, m);
    case _ =>
    hide Wrapped, DownTouch, UpTouch, FilterKey;
  }

  lemma PressLocks(f: Filter, code: KeyCode, now: nat, m: Modifier)
    requires PhaseInv(f, m)
    ensures m in FilterKey(f, code, true, now).0.locked <==> Touched(m in f.locked, DownTouch(f, code, now, m))
  {
    hide Wrapped, SaturatingSub, Bounces;
  }

  lemma ReleaseKeepsLocks(f: Filter, code: KeyCode, now: nat, m: Modifier)
    requires PhaseInv(f, m)
    ensures m in FilterKey(f, code, false, now).0.locked <==> Touched(m in f.locked, UpTouch(f, code, now, m))
  {
    hide Wrapped, SaturatingSub;
  }

  lemma {:induction false} LastTouchLocks(f: Filter, run: seq<Event>, m: Modifier)
    requires PhaseInv(f, m) && StaysSticky(run)
    ensures m in After(f, run).locked <==> Touched(m in f.locked, LastTouch(f, run, m))
    decreases |run|
  {
    hide Apply, Touch, PhaseInv;
    if run != [] {
      PhaseApply(f, run[0], m);
      TouchLocks(f, run[0], m);
      LastTouchLocks(Apply(f, run[0]).0, run[1..], m);
    }
  }

  /** An untouched modifier that is not locked stays so, and is latched exactly
      when it has been tapped. */
  lemma UntouchedStep(f: Filter, e: Event, m: Modifier)
    requires PhaseInv(f, m) && (e.Configure? ==> e.cfg.stickyKeys) && m !in f.locked
    ensures Touch(f, e, m).Some? <==> (m in f.latched && Accepts(f, e)) || (Tapped(f, e, m) && DoubleTap(f, m, e.input.now))
    ensures Touch(f, e, m).None? ==>
              && m !in Apply(f, e).0.locked
              && (m in Apply(f, e).0.latched <==> m in f.latched || Tapped(f, e, m))
  {
    hide Wrapped;
  }

  lemma {:induction false} TouchedIffUsed(f: Filter, run: seq<Event>, m: Modifier)
    requires PhaseInv(f, m) && StaysSticky(run) && m !in f.locked
    ensures LastTouch(f, run, m).Some? <==> Used(f, run, m, m in f.latched)
    decreases |run|
  {
    hide Apply, Touch, PhaseInv, Accepts, Tapped, DoubleTap;
    if run != [] {
      PhaseApply(f, run[0], m);
      UntouchedStep(f, run[0], m);
      if Touch(f, run[0], m).None? {
        TouchedIffUsed(Apply(f, run[0]).0, run[1..], m);
      }
    }
  }

  lemma PhaseLeaves(held: bool, f: Filter, on: Config, phase: seq<Event>, off: Config, m: Modifier)
    requires on.stickyKeys && StaysSticky(phase) && f.latched == f.locked == {}
    requires f.pendingSlow.Some? && on.slowKeysMs > 0 ==> ModifierOf(f.pendingSlow.value.key) != Some(m)
    ensures var g := SetConfig(f, on);
            IsDown(held, Emitted(f, [Configure(on)] + phase + [Configure(off)]), m) <==>
            m in After(g, phase).locked || (held && !Used(g, phase, m, false))
  {
    hide Touch, Used, After;
    var g := SetConfig(f, on);
    var run := [Configure(on)] + phase;
    DownIffTouched(held, f, run + [Configure(off)], m);
    SwitchingTouchesNothing(f, run, off, m);
    SwitchIsNoTouch(f, on, m);
    assert run[0] == Configure(on) && run[1..] == phase;
    LastTouchLocks(g, phase, m);
    TouchedIffUsed(g, phase, m);
  }

  /** A sticky phase of any run from a fresh filter: sticky keys are switched on,
      used and reconfigured, and switched off. Afterwards a modifier is logically
      down exactly when the phase leaves it locked, or when it was down before and
      the phase did not use it. The one case left to `DownIffTouched` is a press of
      the modifier itself that waits for its dwell across the switch. */
  lemma StickyPhaseLeaves(cfg: Config, before: seq<Event>, on: Config, phase: seq<Event>, off: Config, m: Modifier)
    requires on.stickyKeys && StaysSticky(phase)
    requires var f := After(NewFilter(cfg), before);
             && !f.cfg.stickyKeys
             && (f.pendingSlow.Some? && on.slowKeysMs > 0 ==> ModifierOf(f.pendingSlow.value.key) != Some(m))
    ensures var f := NewFilter(cfg);
            var g := SetConfig(After(f, before), on);
            IsDown(false, Emitted(f, before + ([Configure(on)] + phase + [Configure(off)])), m) <==>
            || m in After(g, phase).locked
            || (IsDown(false, Emitted(f, before), m) && !Used(g, phase, m, false))
  {
    hide Emitted, After, IsDown, Used, SetConfig;
    var f := NewFilter(cfg);
    var rest := [Configure(on)] + phase + [Configure(off)];
    OffMeansEmpty(f, before);
    EmittedConcat(f, before, rest);
    IsDownConcat(false, Emitted(f, before), Emitted(After(f, before), rest), m);
    PhaseLeaves(IsDown(false, Emitted(f, before), m), After(f, before), on, phase, off, m);
  }

  lemma {:induction false} EmittedConcat(f: Filter, a: seq<Event>, b: seq<Event>)
    ensures Emitted(f, a + b) == Emitted(f, a) + Emitted(After(f, a), b)
    decreases |a|
  {
    hide Apply;
    if a == [] {
      assert a + b == b;
    } else {
      assert (a + b)[1..] == a[1..] + b && (a + b)[0] == a[0];
      EmittedConcat(Apply(f, a[0]).0, a[1..], b);
    }
  }

  lemma SwitchIsNoTouch(f: Filter, cfg: Config, m: Modifier)
    ensures Touch(f, Configure(cfg), m) == None
  {
  }

  /** Outside sticky phases the filter has nothing latched or locked. */
  lemma {:induction false} OffMeansEmpty(f: Filter, run: seq<Event>)
    requires !f.cfg.stickyKeys ==> f.latched == f.locked == {} && f.lastTap.None?
    ensures var g := After(f, run); !g.cfg.stickyKeys ==> g.latched == g.locked == {} && g.lastTap.None?
    decreases |run|
  {
    if run != [] {
      hide Wrapped;
      OffMeansEmpty(Apply(f, run[0]).0, run[1..]);
    }
  }

  // ---- Witnesses ----------------------------------------------------------

  /** The shortcut Super+Alt+K: Super and Alt go down with everything off, sticky
      keys come on, both keys are released, and sticky keys go off again. Nothing
      is ever locked and no key is held, and both modifiers are stuck. */
  lemma ShortcutLeavesStuck(start: Config, on: Config, off: Config, t: nat)
    requires AllOff(start) && on.stickyKeys
    ensures var run := ShortcutRun(on, t) + [Configure(off)];
            && Stuck(NewFilter(start), run, Gui) && Stuck(NewFilter(start), run, Alt)
            && After(NewFilter(start), ShortcutRun(on, t)).locked == {}
  {
    hide Apply, Emitted, After, HeldKeys, IsDown;
    var f, run := NewFilter(start), ShortcutRun(on, t);
    ShortcutEmits(start, on, t);
    SwitchingHoldsNothing(run, off);
    ShortcutReleases(on, t);
    forall m | m == Gui || m == Alt
      ensures IsDown(false, Emitted(f, run + [Configure(off)]), m)
    {
      DownIffTouched(false, f, run, m);
      DownIffTouched(false, f, run + [Configure(off)], m);
      SwitchingTouchesNothing(f, run, off, m);
      var a, b := KeyEvent(LeftMeta, true), KeyEvent(LeftAlt, true);
      IsDownConcat(false, [a], [b], m);
      IsDownOne(false, a, m);
      IsDownOne(IsDown(false, [a], m), b, m);
    }
  }

  function ShortcutRun(on: Config, t: nat): seq<Event> {
    [Use(Physical(LeftMeta, true, t))] + ([Use(Physical(LeftAlt, true, t))] + ([Configure(on)]
    + ([Use(Physical(LeftAlt, false, t))] + [Use(Physical(LeftMeta, false, t))])))
  }

  lemma ShortcutEmits(start: Config, on: Config, t: nat)
    requires AllOff(start) && on.stickyKeys
    ensures Emitted(NewFilter(start), ShortcutRun(on, t)) == [KeyEvent(LeftMeta, true)] + [KeyEvent(LeftAlt, true)]
    ensures After(NewFilter(start), ShortcutRun(on, t)).locked == {}
  {
    var f, g := NewFilter(start), SetConfig(NewFilter(start), on);
    var a, b := Use(Physical(LeftMeta, true, t)), Use(Physical(LeftAlt, true, t));
    var c, d, e := Configure(on), Use(Physical(LeftAlt, false, t)), Use(Physical(LeftMeta, false, t));
    assert Apply(f, a) == (f, [KeyEvent(LeftMeta, true)]) && Apply(f, b) == (f, [KeyEvent(LeftAlt, true)]);
    assert Apply(f, c) == (g, []) && Apply(g, d) == (g, []) && Apply(g, e) == (g, []);
    hide Apply, Emitted, After;
    Unfold(g, e, []);
    Unfold(g, d, [e]);
    Unfold(f, c, [d] + [e]);
    Unfold(f, b, [c] + ([d] + [e]));
    Unfold(f, a, [b] + ([c] + ([d] + [e])));
  }

  lemma ShortcutReleases(on: Config, t: nat)
    ensures HeldKeys(ShortcutRun(on, t)) == {}
  {
    hide HeldKeys;
    var a, b := Use(Physical(LeftMeta, true, t)), Use(Physical(LeftAlt, true, t));
    var c, d, e := Configure(on), Use(Physical(LeftAlt, false, t)), Use(Physical(LeftMeta, false, t));
    HeldOne([], a);
    HeldOne([a], b);
    HeldOne([a] + [b], c);
    HeldOne([a] + [b] + [c], d);
    HeldOne([a] + [b] + [c] + [d], e);
    assert [] + [a] == [a];
    assert ShortcutRun(on, t) == [a] + [b] + [c] + [d] + [e];
  }

  lemma Unfold(f: Filter, e: Event, rest: seq<Event>)
    ensures Emitted(f, [e] + rest) == Apply(f, e).1 + Emitted(Apply(f, e).0, rest)
    ensures After(f, [e] + rest) == After(Apply(f, e).0, rest)
    ensures rest == [] ==> Emitted(f, rest) == [] && After(f, rest) == f
  {
    hide Apply;
    assert ([e] + rest)[1..] == rest;
  }

  lemma HeldOne(run: seq<Event>, e: Event)
    ensures HeldKeys(run + [e]) ==
            if e.Use? && e.input.Physical? then
              if e.input.down then HeldKeys(run) + {e.input.code} else HeldKeys(run) - {e.input.code}
            else HeldKeys(run)
    ensures run == [] ==> HeldKeys(run) == {}
  {
    assert (run + [e])[..|run|] == run;
  }

  /** A modifier pressed under slow keys alone waits for its dwell. If sticky keys
      come on meanwhile, the tick still presses it, its release is swallowed, and
      it stays down: the case that `StickyPhaseLeaves` leaves to `DownIffTouched`. */
  lemma PendingModifierSticks(slow: Config, on: Config, t: nat)
    requires !slow.stickyKeys && slow.slowKeysMs > 0 && on.stickyKeys && on.slowKeysMs > 0
    ensures var f := After(NewFilter(slow), [Use(Physical(LeftShift, true, t)), Configure(on)]);
            var rest := [Use(Tick(t + on.slowKeysMs)), Use(Physical(LeftShift, false, t + on.slowKeysMs))];
            && f.latched == f.locked == {} && LastTouch(f, rest, Shift) == Some(true)
            && IsDown(false, Emitted(f, rest), Shift)
  {
    var press, tick := Use(Physical(LeftShift, true, t)), Use(Tick(t + on.slowKeysMs));
    var release := Use(Physical(LeftShift, false, t + on.slowKeysMs));
    var waiting := Apply(NewFilter(slow), press).0;
    var f := SetConfig(waiting, on);
    assert [press, Configure(on)][1..] == [Configure(on)] && [Configure(on)][1..] == [];
    assert After(NewFilter(slow), [press, Configure(on)]) == After(waiting, [Configure(on)]) == After(f, []) == f;
    assert f.pendingSlow == Some(Stamp(LeftShift, t));
    assert Touch(f, tick, Shift) == Some(true);
    assert [tick, release][1..] == [release] && [release][1..] == [];
    assert Touch(Apply(f, tick).0, release, Shift) == None;
    assert LastTouch(Apply(f, tick).0, [release], Shift) == None;
    DownIffTouched(false, f, [tick, release], Shift);
  }
}
