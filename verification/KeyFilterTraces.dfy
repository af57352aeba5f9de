/** The key filter over whole runs of physical events with a fixed configuration. */
module KeyFilterTraces {
  import opened Wrappers
  import opened KeyFilter

  /** A physical transition, or a tick of the input poll loop. */
  datatype Input = Physical(code: KeyCode, down: bool, now: nat) | Tick(now: nat)

  function Step(f: Filter, input: Input): (Filter, seq<KeyEvent>) {
    match input
    case Physical(code, down, now) => FilterKey(f, code, down, now)
    case Tick(now) => Poll(f, now)
  }

  /** The filter after the first `i` inputs. */
  function StateAt(cfg: Config, ins: seq<Input>, i: nat): Filter
    requires i <= |ins|
  {
    if i == 0 then NewFilter(cfg) else Step(StateAt(cfg, ins, i - 1), ins[i - 1]).0
  }

  /** The logical events of input `i`, and of the first `i` inputs. */
  function OutAt(cfg: Config, ins: seq<Input>, i: nat): seq<KeyEvent>
    requires i < |ins|
  {
    Step(StateAt(cfg, ins, i), ins[i]).1
  }

  function Output(cfg: Config, ins: seq<Input>, i: nat): seq<KeyEvent>
    requires i <= |ins|
  {
    if i == 0 then [] else Output(cfg, ins, i - 1) + OutAt(cfg, ins, i - 1)
  }

  // ---- Replaying the logical events ---------------------------------------

  /** The modifiers logically down after the events, or nothing if some event
      presses a modifier that is down or releases one that is up. */
  function Replay(down: set<Modifier>, events: seq<KeyEvent>): Option<set<Modifier>>
    decreases |events|
  {
    if events == [] then Some(down)
    else
      var e := events[0];
      match ModifierOf(e.code)
      case None => Replay(down, events[1..])
      case Some(m) =>
        if (m in down) == e.down then None
        else Replay(if e.down then down + {m} else down - {m}, events[1..])
  }

  lemma {:induction false} ReplayConcat(down: set<Modifier>, a: seq<KeyEvent>, b: seq<KeyEvent>)
    ensures Replay(down, a + b) == (match Replay(down, a) case None => None case Some(d) => Replay(d, b))
    decreases |a|
  {
    if a == [] {
      assert a + b == b;
    } else {
      assert (a + b)[1..] == a[1..] + b;
      match ModifierOf(a[0].code)
      case None =>
        ReplayConcat(down, a[1..], b);
      case Some(m) =>
        ReplayConcat(if a[0].down then down + {m} else down - {m}, a[1..], b);
    }
  }

  function InOrder(mods: set<Modifier>, order: seq<Modifier>): set<Modifier> {
    set m | m in mods && m in order
  }

  predicate NoRepeats(order: seq<Modifier>) {
    forall i, j :: 0 <= i < j < |order| ==> order[i] != order[j]
  }

  /** Pressing modifiers that are up adds them. */
  lemma {:induction false} ReplayPresses(base: set<Modifier>, mods: set<Modifier>, order: seq<Modifier>)
    requires NoRepeats(order) && base !! mods
    ensures Replay(base, ModEvents(mods, true, order)) == Some(base + InOrder(mods, order))
    decreases |order|
  {
    if order == [] {
      assert base + InOrder(mods, order) == base;
    } else {
      var m, rest := order[0], order[1..];
      assert order == [m] + rest && m !in rest;
      var events, later := ModEvents(mods, true, order), ModEvents(mods, true, rest);
      if m in mods {
        ModEventsWithout(mods, m, true, rest);
        ReplayPresses(base + {m}, mods - {m}, rest);
        assert events == [KeyEvent(CanonicalKey(m), true)] + later;
        assert events[1..] == later;
        assert base + {m} + InOrder(mods - {m}, rest) == base + InOrder(mods, order);
      } else {
        ReplayPresses(base, mods, rest);
        assert events == later;
        assert InOrder(mods, order) == InOrder(mods, rest);
      }
    }
  }

  /** Releasing modifiers that are down removes them. */
  lemma {:induction false} ReplayReleases(base: set<Modifier>, mods: set<Modifier>, order: seq<Modifier>)
    requires NoRepeats(order) && base !! mods
    ensures Replay(base + InOrder(mods, order), ModEvents(mods, false, order)) == Some(base)
    decreases |order|
  {
    if order == [] {
      assert base + InOrder(mods, order) == base;
    } else {
      var m, rest := order[0], order[1..];
      assert order == [m] + rest && m !in rest;
      var events, later := ModEvents(mods, false, order), ModEvents(mods, false, rest);
      if m in mods {
        ModEventsWithout(mods, m, false, rest);
        ReplayReleases(base, mods - {m}, rest);
        assert events == [KeyEvent(CanonicalKey(m), false)] + later;
        assert events[1..] == later;
        assert base + InOrder(mods, order) - {m} == base + InOrder(mods - {m}, rest);
      } else {
        ReplayReleases(base, mods, rest);
        assert events == later;
        assert InOrder(mods, order) == InOrder(mods, rest);
      }
    }
  }

  lemma {:induction false} ModEventsWithout(mods: set<Modifier>, m: Modifier, down: bool, order: seq<Modifier>)
    requires m !in order
    ensures ModEvents(mods - {m}, down, order) == ModEvents(mods, down, order)
    decreases |order|
  {
    if order != [] {
      ModEventsWithout(mods, m, down, order[1..]);
    }
  }

  lemma AllModifiers(mods: set<Modifier>)
    ensures InOrder(mods, MOD_KEYS) == mods && InOrder(mods, MOD_KEYS_REVERSED) == mods
    ensures NoRepeats(MOD_KEYS) && NoRepeats(MOD_KEYS_REVERSED)
  {
    forall m | m in mods
      ensures m in MOD_KEYS && m in MOD_KEYS_REVERSED
    {
      match m
      case Shift => assert MOD_KEYS[0] == m && MOD_KEYS_REVERSED[3] == m;
      case Ctrl => assert MOD_KEYS[1] == m && MOD_KEYS_REVERSED[2] == m;
      case Alt => assert MOD_KEYS[2] == m && MOD_KEYS_REVERSED[1] == m;
      case Gui => assert MOD_KEYS[3] == m && MOD_KEYS_REVERSED[0] == m;
    }
  }

  /** A wrapped ordinary key leaves the modifiers as they were. */
  lemma ReplayWrapped(f: Filter, code: KeyCode)
    requires f.latched !! f.locked && ModifierOf(code).None?
    ensures Replay(f.locked, Wrapped(f, code)) == Some(f.locked)
  {
    hide ModEvents, InOrder;
    AllModifiers(f.latched);
    ReplayPresses(f.locked, f.latched, MOD_KEYS);
    ReplayReleases(f.locked, f.latched, MOD_KEYS_REVERSED);
    var downs, ups := ModEvents(f.latched, true, MOD_KEYS), ModEvents(f.latched, false, MOD_KEYS_REVERSED);
    var key := [KeyEvent(code, true)];
    ReplayConcat(f.locked, downs, key);
    ReplayConcat(f.locked, downs + key, ups);
    ReplayNeutral(f.locked + f.latched, KeyEvent(code, true));
  }

  lemma ReplayNeutral(down: set<Modifier>, e: KeyEvent)
    requires ModifierOf(e.code).None?
    ensures Replay(down, [e]) == Some(down)
  {
    assert [e][1..] == [];
  }

  lemma ReplayOne(down: set<Modifier>, m: Modifier, press: bool)
    requires (m in down) != press
    ensures Replay(down, [KeyEvent(CanonicalKey(m), press)]) == Some(if press then down + {m} else down - {m})
  {
    assert [KeyEvent(CanonicalKey(m), press)][1..] == [];
  }

  // ---- Sticky keys --------------------------------------------------------

  ghost predicate StickyInv(f: Filter) {
    && f.cfg.stickyKeys
    && f.latched !! f.locked
    && (f.pendingSlow.Some? ==> ModifierOf(f.pendingSlow.value.key).None?)
  }

  lemma StickyStep(f: Filter, input: Input)
    requires StickyInv(f)
    ensures StickyInv(Step(f, input).0)
    ensures Replay(f.locked, Step(f, input).1) == Some(Step(f, input).0.locked)
  {
    hide Wrapped;
    match input
    case Tick(now) =>
      if f.pendingSlow.Some? {
        ReplayWrapped(f, f.pendingSlow.value.key);
      }
    case Physical(code, down, now) =>
      if down {
        StickyDown(f, code, now);
      } else {
        StickyUp(f, code, now);
      }
  }

  lemma StickyDown(f: Filter, code: KeyCode, now: nat)
    requires StickyInv(f)
    ensures StickyInv(OnDown(f, code, now).0)
    ensures Replay(f.locked, OnDown(f, code, now).1) == Some(OnDown(f, code, now).0.locked)
  {
    hide Wrapped;
    match ModifierOf(code)
    case None =>
      ReplayWrapped(f, code);
    case Some(m) =>
      ReplayOne(f.locked, m, m !in f.locked);
  }

  lemma StickyUp(f: Filter, code: KeyCode, now: nat)
    requires StickyInv(f)
    ensures StickyInv(OnUp(f, code, now).0)
    ensures Replay(f.locked, OnUp(f, code, now).1) == Some(OnUp(f, code, now).0.locked)
  {
    hide Wrapped;
    if ModifierOf(code).None? {
      ReplayWrapped(f, code);
      ReplayNeutral(f.locked, KeyEvent(code, false));
      ReplayConcat(f.locked, Wrapped(f, code), [KeyEvent(code, false)]);
    }
  }

  /** With sticky keys on, no run ever presses a modifier that is down or releases
      one that is up; latched and locked modifiers are disjoint; and after each
      call the modifiers logically down are exactly the locked ones. */
  lemma {:induction false} StickyRun(cfg: Config, ins: seq<Input>, i: nat)
    requires cfg.stickyKeys && i <= |ins|
    ensures StickyInv(StateAt(cfg, ins, i))
    ensures Replay({}, Output(cfg, ins, i)) == Some(StateAt(cfg, ins, i).locked)
    decreases i
  {
    if i > 0 {
      StickyRun(cfg, ins, i - 1);
      StickyStep(StateAt(cfg, ins, i - 1), ins[i - 1]);
      ReplayConcat({}, Output(cfg, ins, i - 1), OutAt(cfg, ins, i - 1));
    }
  }

  /** An ordinary key goes down while exactly the locked and the latched modifiers
      are down, and using the latch empties it: a latch serves one key. */
  lemma ModifiersHeldForKey(f: Filter, input: Input, c: KeyCode) returns (before: seq<KeyEvent>, after: seq<KeyEvent>)
    requires StickyInv(f) && AcceptedBy(f, input) == Some(c)
    ensures Step(f, input).1 == before + [KeyEvent(c, true)] + after
    ensures Replay(f.locked, before) == Some(f.locked + f.latched)
    ensures Step(f, input).0.latched == {} && Step(f, input).0.locked == f.locked
  {
    hide ModEvents, Replay, InOrder;
    AllModifiers(f.latched);
    ReplayPresses(f.locked, f.latched, MOD_KEYS);
    before, after := ModEvents(f.latched, true, MOD_KEYS), ModEvents(f.latched, false, MOD_KEYS_REVERSED);
    if input.Physical? && !input.down {
      after := after + [KeyEvent(c, false)];
    }
  }

  /** A double tap of Shift followed by switching off leaves Shift down. */
  lemma ShiftCanStick(cfg: Config, off: Config)
    requires cfg.stickyKeys && !off.stickyKeys
    ensures exists ins: seq<Input> ::
              && Replay({}, Output(cfg, ins, |ins|)) == Some({Shift})
              && SetConfig(StateAt(cfg, ins, |ins|), off).locked == {}
  {
    hide Replay, Output, Step, FixedInv, Tap;
    var ins := [Physical(LeftShift, true, 0), Physical(LeftShift, true, 1)];
    StickyRun(cfg, ins, 2);
    FixedRun(cfg, ins, 0);
    FixedRun(cfg, ins, 1);
    PressIsTap(cfg, StateAt(cfg, ins, 0), ins[0]);
    PressIsTap(cfg, StateAt(cfg, ins, 1), ins[1]);
    TwoTapsLock(NewFilter(cfg));
    assert StateAt(cfg, ins, 2) == Tap(Tap(NewFilter(cfg), Shift, 0).0, Shift, 1).0;
  }

  lemma TwoTapsLock(f: Filter)
    requires f.locked == {} && f.lastTap.None?
    ensures Tap(Tap(f, Shift, 0).0, Shift, 1).0.locked == {Shift}
  {
  }

  // ---- Slow and bounce keys -----------------------------------------------

  /** Keys that are not consumed by sticky handling. */
  predicate Ordinary(cfg: Config, code: KeyCode) {
    !cfg.stickyKeys || ModifierOf(code).None?
  }

  /** The output contains a key-down of the ordinary key `code`. */
  predicate EmitsDown(cfg: Config, out: seq<KeyEvent>, code: KeyCode) {
    Ordinary(cfg, code) && KeyEvent(code, true) in out
  }

  ghost predicate FixedInv(cfg: Config, f: Filter) {
    && f.cfg == cfg
    && (!cfg.stickyKeys ==> f.latched == {})
    && (cfg.slowKeysMs == 0 ==> f.pendingSlow.None?)
    && (f.pendingSlow.Some? ==> Ordinary(cfg, f.pendingSlow.value.key))
    && (f.lastAccept.Some? ==> Ordinary(cfg, f.lastAccept.value.key))
  }

  /** The ordinary key accepted by a step, if any. */
  function AcceptedBy(f: Filter, input: Input): Option<KeyCode> {
    match input
    case Tick(now) =>
      if f.pendingSlow.Some? && f.cfg.slowKeysMs > 0
         && SaturatingSub(now, f.pendingSlow.value.time) >= f.cfg.slowKeysMs
      then Some(f.pendingSlow.value.key) else None
    case Physical(code, true, now) =>
      if AllOff(f.cfg) then Some(code)
      else if Bounces(f, code, now) || !Ordinary(f.cfg, code) || f.cfg.slowKeysMs > 0 then None
      else Some(code)
    case Physical(code, false, now) =>
      if !AllOff(f.cfg) && f.pendingSlow.Some? && f.pendingSlow.value.key == code
         && SaturatingSub(now, f.pendingSlow.value.time) >= f.cfg.slowKeysMs
      then Some(code) else None
  }

  lemma {:induction false} ModEventsAreModifiers(mods: set<Modifier>, down: bool, order: seq<Modifier>, e: KeyEvent)
    requires e in ModEvents(mods, down, order)
    ensures ModifierOf(e.code).Some? && mods != {}
    decreases |order|
  {
    if order != [] && e in ModEvents(mods, down, order[1..]) {
      ModEventsAreModifiers(mods, down, order[1..], e);
    }
  }

  lemma WrappedEmits(cfg: Config, f: Filter, code: KeyCode, c: KeyCode)
    requires !cfg.stickyKeys ==> f.latched == {}
    requires Ordinary(cfg, code)
    ensures EmitsDown(cfg, Wrapped(f, code), c) <==> c == code
  {
    var e := KeyEvent(c, true);
    if e in ModEvents(f.latched, true, MOD_KEYS) {
      ModEventsAreModifiers(f.latched, true, MOD_KEYS, e);
    }
    if e in ModEvents(f.latched, false, MOD_KEYS_REVERSED) {
      ModEventsAreModifiers(f.latched, false, MOD_KEYS_REVERSED, e);
    }
  }

  lemma FixedStep(cfg: Config, f: Filter, input: Input, c: KeyCode)
    requires FixedInv(cfg, f)
    ensures FixedInv(cfg, Step(f, input).0)
    ensures EmitsDown(cfg, Step(f, input).1, c) <==> AcceptedBy(f, input) == Some(c)
  {
    hide Wrapped, ModEvents, ModifierOf;
    match input
    case Tick(now) =>
      if f.pendingSlow.Some? {
        WrappedEmits(cfg, f, f.pendingSlow.value.key, c);
      }
    case Physical(code, down, now) =>
      if Ordinary(cfg, code) {
        WrappedEmits(cfg, f, code, c);
      }
  }

  /** Accepting stamps the key; every other step keeps the last accepted one. */
  lemma AcceptStep(f: Filter, input: Input)
    requires !AllOff(f.cfg)
    ensures var g := Step(f, input).0;
            match AcceptedBy(f, input)
            case Some(c) => g.lastAccept == Some(Stamp(c, input.now))
            case None => g.lastAccept == f.lastAccept
  {
  }

  lemma {:induction false} FixedRun(cfg: Config, ins: seq<Input>, i: nat)
    requires i <= |ins|
    ensures FixedInv(cfg, StateAt(cfg, ins, i))
    decreases i
  {
    if i > 0 {
      FixedRun(cfg, ins, i - 1);
      FixedStep(cfg, StateAt(cfg, ins, i - 1), ins[i - 1], LeftShift);
    }
  }

  predicate Accepts(cfg: Config, ins: seq<Input>, i: nat, c: KeyCode) {
    i < |ins| && AcceptedBy(StateAt(cfg, ins, i), ins[i]) == Some(c)
  }

  lemma AcceptsIffEmits(cfg: Config, ins: seq<Input>, i: nat, c: KeyCode)
    requires i < |ins|
    ensures Accepts(cfg, ins, i, c) <==> EmitsDown(cfg, OutAt(cfg, ins, i), c)
  {
    FixedRun(cfg, ins, i);
    FixedStep(cfg, StateAt(cfg, ins, i), ins[i], c);
  }

  // ---- Taps of a modifier -------------------------------------------------

  predicate PressesModifier(input: Input) {
    input.Physical? && input.down && ModifierOf(input.code).Some?
  }

  /** The debounce never hits a modifier, so that every press of one is a tap. */
  lemma PressIsTap(cfg: Config, f: Filter, input: Input)
    requires FixedInv(cfg, f) && cfg.stickyKeys && PressesModifier(input)
    ensures Step(f, input) == Tap(f, ModifierOf(input.code).value, input.now)
  {
    hide Wrapped, Tap;
  }

  /** Input `k` is neither a tap nor an accepted key. */
  predicate Quiet(cfg: Config, ins: seq<Input>, k: nat)
    requires k < |ins|
  {
    !PressesModifier(ins[k]) && AcceptedBy(StateAt(cfg, ins, k), ins[k]) == None
  }

  lemma QuietStep(cfg: Config, f: Filter, input: Input)
    requires FixedInv(cfg, f) && cfg.stickyKeys && !PressesModifier(input) && AcceptedBy(f, input) == None
    ensures var g := Step(f, input).0; g.locked == f.locked && g.latched == f.latched && g.lastTap == f.lastTap
  {
    hide Wrapped;
  }

  lemma {:induction false} QuietStretch(cfg: Config, ins: seq<Input>, j: nat, i: nat)
    requires cfg.stickyKeys && j <= i <= |ins| && forall k :: j <= k < i ==> Quiet(cfg, ins, k)
    ensures var f, g := StateAt(cfg, ins, j), StateAt(cfg, ins, i);
            g.locked == f.locked && g.latched == f.latched && g.lastTap == f.lastTap
    decreases i
  {
    if j < i {
      hide Step, AcceptedBy, FixedInv, PressesModifier;
      QuietStretch(cfg, ins, j, i - 1);
      FixedRun(cfg, ins, i - 1);
      assert Quiet(cfg, ins, i - 1);
      QuietStep(cfg, StateAt(cfg, ins, i - 1), ins[i - 1]);
    }
  }

  /** In every run, two taps of a modifier with no tap and no accepted key between
      them, by either of its keys: the first, of a modifier that is not locked nor
      just tapped, latches it; the second locks it exactly within the double-tap
      window, and otherwise leaves it latched. */
  lemma DoubleTapLocksIff(cfg: Config, ins: seq<Input>, j: nat, i: nat, m: Modifier)
    requires cfg.stickyKeys && j < i < |ins| && forall k :: j < k < i ==> Quiet(cfg, ins, k)
    requires PressesModifier(ins[j]) && PressesModifier(ins[i])
    requires ModifierOf(ins[j].code) == ModifierOf(ins[i].code) == Some(m)
    requires var f := StateAt(cfg, ins, j); m !in f.locked && (f.lastTap.Some? ==> f.lastTap.value.key != m)
    ensures m in StateAt(cfg, ins, j + 1).latched && OutAt(cfg, ins, j) == []
    ensures m in StateAt(cfg, ins, i + 1).locked <==> SaturatingSub(ins[i].now, ins[j].now) <= DOUBLE_TAP_MS
    ensures m in StateAt(cfg, ins, i + 1).latched <==> m !in StateAt(cfg, ins, i + 1).locked
    ensures OutAt(cfg, ins, i) == if m in StateAt(cfg, ins, i + 1).locked then [KeyEvent(CanonicalKey(m), true)] else []
  {
    hide Step, Quiet, FixedInv;
    FixedRun(cfg, ins, j);
    FixedRun(cfg, ins, i);
    PressIsTap(cfg, StateAt(cfg, ins, j), ins[j]);
    PressIsTap(cfg, StateAt(cfg, ins, i), ins[i]);
    QuietStretch(cfg, ins, j + 1, i);
  }

  /** A tap that locks or unlocks emits something; a tap that latches does not. An
      accepted key and such a tap end the wait for a double tap: with nothing but
      quiet inputs after them, the next tap of a modifier that is not locked
      latches it, however soon it comes. */
  lemma NextTapLatches(cfg: Config, ins: seq<Input>, k: nat, i: nat, m: Modifier)
    requires cfg.stickyKeys && k < i < |ins| && forall j :: k < j < i ==> Quiet(cfg, ins, j)
    requires AcceptedBy(StateAt(cfg, ins, k), ins[k]).Some? || (PressesModifier(ins[k]) && OutAt(cfg, ins, k) != [])
    requires PressesModifier(ins[i]) && ModifierOf(ins[i].code) == Some(m) && m !in StateAt(cfg, ins, i).locked
    ensures m in StateAt(cfg, ins, i + 1).latched && m !in StateAt(cfg, ins, i + 1).locked && OutAt(cfg, ins, i) == []
  {
    hide Step, Quiet, FixedInv, AcceptedBy;
    FixedRun(cfg, ins, k);
    FixedRun(cfg, ins, i);
    QuietStretch(cfg, ins, k + 1, i);
    PressIsTap(cfg, StateAt(cfg, ins, i), ins[i]);
    if AcceptedBy(StateAt(cfg, ins, k), ins[k]).Some? {
      AcceptEndsTaps(cfg, StateAt(cfg, ins, k), ins[k]);
    } else {
      PressIsTap(cfg, StateAt(cfg, ins, k), ins[k]);
    }
  }

  lemma AcceptEndsTaps(cfg: Config, f: Filter, input: Input)
    requires FixedInv(cfg, f) && cfg.stickyKeys && AcceptedBy(f, input).Some?
    ensures Step(f, input).0.lastTap == None
  {
    hide Wrapped;
  }

  predicate Releases(ins: seq<Input>, i: nat, c: KeyCode) {
    i < |ins| && ins[i].Physical? && ins[i].code == c && !ins[i].down
  }

  /** `j` is the press from which the key pending before input `i` is waiting. */
  ghost predicate PressedAt(cfg: Config, ins: seq<Input>, i: nat, j: nat, c: KeyCode, t: nat) {
    && j < i <= |ins|
    && ins[j] == Physical(c, true, t)
    && !Bounces(StateAt(cfg, ins, j), c, t)
    && (forall k :: j < k < i ==> !Releases(ins, k, c))
    && (forall k, d :: j <= k < i ==> !Accepts(cfg, ins, k, d))
  }

  /** What a step leaves pending: the key it was given, or what was pending
      before, which then was neither released nor accepted. */
  lemma PendingStep(cfg: Config, f: Filter, input: Input, c: KeyCode, t: nat)
    requires FixedInv(cfg, f) && cfg.slowKeysMs > 0
    requires Step(f, input).0.pendingSlow == Some(Stamp(c, t))
    ensures AcceptedBy(f, input) == None
    ensures || (input == Physical(c, true, t) && !Bounces(f, c, t))
            || (f.pendingSlow == Some(Stamp(c, t)) && !(input.Physical? && input.code == c && !input.down))
  {
    hide Wrapped;
  }

  lemma {:induction false} PendingOrigin(cfg: Config, ins: seq<Input>, i: nat, c: KeyCode, t: nat) returns (j: nat)
    requires cfg.slowKeysMs > 0 && i <= |ins|
    requires StateAt(cfg, ins, i).pendingSlow == Some(Stamp(c, t))
    ensures PressedAt(cfg, ins, i, j, c, t)
    decreases i
  {
    hide Step, Bounces, FixedInv;
    var f, input := StateAt(cfg, ins, i - 1), ins[i - 1];
    FixedRun(cfg, ins, i - 1);
    PendingStep(cfg, f, input, c, t);
    if input == Physical(c, true, t) && !Bounces(f, c, t) {
      j := i - 1;
    } else {
      j := PendingOrigin(cfg, ins, i - 1, c, t);
    }
  }

  /** Under slow keys every emitted ordinary key-down at input `i` comes from a
      press `j` of that key, held for at least the dwell without a release in
      between. No other key-down is emitted from `j` up to `i`, so different
      key-downs come from different presses. */
  lemma SlowKeysWaitForDwell(cfg: Config, ins: seq<Input>, i: nat, c: KeyCode) returns (j: nat)
    requires cfg.slowKeysMs > 0 && i < |ins| && EmitsDown(cfg, OutAt(cfg, ins, i), c)
    ensures j < i && ins[j].Physical? && ins[j].code == c && ins[j].down
    ensures ins[i].now >= ins[j].now + cfg.slowKeysMs
    ensures forall k :: j < k < i ==> !Releases(ins, k, c)
    ensures forall k, d :: j <= k < i ==> !EmitsDown(cfg, OutAt(cfg, ins, k), d)
  {
    AcceptsIffEmits(cfg, ins, i, c);
    FixedRun(cfg, ins, i);
    var f := StateAt(cfg, ins, i);
    assert f.pendingSlow.Some? && f.pendingSlow.value.key == c;
    j := PendingOrigin(cfg, ins, i, c, f.pendingSlow.value.time);
    forall k, d | j <= k < i
      ensures !EmitsDown(cfg, OutAt(cfg, ins, k), d)
    {
      assert !Accepts(cfg, ins, k, d);
      AcceptsIffEmits(cfg, ins, k, d);
    }
  }

  /** Nothing disturbs a key that waits from press `j` on: only early ticks and
      releases of other keys come before input `i`. */
  predicate Undisturbed(cfg: Config, ins: seq<Input>, j: nat, i: nat) {
    && j < i <= |ins| && ins[j].Physical?
    && forall k :: j < k < i ==>
         if ins[k].Tick? then ins[k].now < ins[j].now + cfg.slowKeysMs else !ins[k].down && ins[k].code != ins[j].code
  }

  lemma {:induction false} PendingStays(cfg: Config, ins: seq<Input>, j: nat, i: nat)
    requires cfg.slowKeysMs > 0 && Undisturbed(cfg, ins, j, i)
    requires ins[j].down && Ordinary(cfg, ins[j].code) && !Bounces(StateAt(cfg, ins, j), ins[j].code, ins[j].now)
    ensures StateAt(cfg, ins, i).pendingSlow == Some(Stamp(ins[j].code, ins[j].now))
    decreases i
  {
    hide Step, Bounces, Ordinary;
    FixedRun(cfg, ins, i - 1);
    if j < i - 1 {
      PendingStays(cfg, ins, j, i - 1);
      PendingKept(StateAt(cfg, ins, i - 1), ins[i - 1], ins[j].code, ins[j].now);
    } else {
      PendingStarts(StateAt(cfg, ins, j), ins[j].code, ins[j].now);
    }
  }

  lemma PendingStarts(f: Filter, c: KeyCode, t: nat)
    requires f.cfg.slowKeysMs > 0 && Ordinary(f.cfg, c) && !Bounces(f, c, t)
    ensures Step(f, Physical(c, true, t)).0.pendingSlow == Some(Stamp(c, t))
  {
  }

  lemma PendingKept(f: Filter, input: Input, c: KeyCode, t: nat)
    requires f.cfg.slowKeysMs > 0 && f.pendingSlow == Some(Stamp(c, t))
    requires if input.Tick? then input.now < t + f.cfg.slowKeysMs else !input.down && input.code != c
    ensures Step(f, input).0.pendingSlow == Some(Stamp(c, t))
  {
  }

  /** A press that is held undisturbed for the dwell is emitted: at the first tick
      after the dwell, or at its release if that comes first. */
  lemma SlowKeysComeThrough(cfg: Config, ins: seq<Input>, j: nat, i: nat)
    requires cfg.slowKeysMs > 0 && Undisturbed(cfg, ins, j, i) && i < |ins|
    requires ins[j].down && Ordinary(cfg, ins[j].code) && !Bounces(StateAt(cfg, ins, j), ins[j].code, ins[j].now)
    requires ins[i].now >= ins[j].now + cfg.slowKeysMs
    requires ins[i].Tick? || Releases(ins, i, ins[j].code)
    ensures EmitsDown(cfg, OutAt(cfg, ins, i), ins[j].code)
  {
    hide StateAt, EmitsDown;
    PendingStays(cfg, ins, j, i);
    FixedRun(cfg, ins, i);
    AcceptsIffEmits(cfg, ins, i, ins[j].code);
  }

  predicate TimeOrdered(ins: seq<Input>) {
    forall a, b :: 0 <= a <= b < |ins| ==> ins[a].now <= ins[b].now
  }

  /** From one accepted key to the next the stamp stays. */
  lemma {:induction false} StampStays(cfg: Config, ins: seq<Input>, i: nat, k: nat, c: KeyCode)
    requires !AllOff(cfg) && i < k <= |ins| && Accepts(cfg, ins, i, c)
    requires forall m, d :: i < m < k ==> !Accepts(cfg, ins, m, d)
    ensures StateAt(cfg, ins, k).lastAccept == Some(Stamp(c, ins[i].now))
    decreases k
  {
    hide Step, AcceptedBy, AllOff;
    FixedRun(cfg, ins, k - 1);
    AcceptStep(StateAt(cfg, ins, k - 1), ins[k - 1]);
    if i < k - 1 {
      StampStays(cfg, ins, i, k - 1, c);
      NamesAccepted(cfg, ins, k - 1);
    }
  }

  lemma NamesAccepted(cfg: Config, ins: seq<Input>, k: nat)
    requires k < |ins|
    ensures var a := AcceptedBy(StateAt(cfg, ins, k), ins[k]); a.Some? ==> Accepts(cfg, ins, k, a.value)
  {
  }

  /** Without slow keys, a press after the key-down `p` of key `d` is emitted
      exactly when it is of another key or outside the bounce window. */
  lemma BounceKeysDropExactly(cfg: Config, ins: seq<Input>, p: nat, d: KeyCode, i: nat, c: KeyCode)
    requires cfg.slowKeysMs == 0 && cfg.bounceKeysMs > 0 && TimeOrdered(ins) && p < i < |ins|
    requires EmitsDown(cfg, OutAt(cfg, ins, p), d)
    requires forall m, e :: p < m < i ==> !EmitsDown(cfg, OutAt(cfg, ins, m), e)
    requires ins[i].Physical? && ins[i].code == c && ins[i].down && Ordinary(cfg, c)
    ensures EmitsDown(cfg, OutAt(cfg, ins, i), c) <==> c != d || ins[i].now >= ins[p].now + cfg.bounceKeysMs
  {
    hide OutAt, StateAt, EmitsDown;
    AcceptsIffEmits(cfg, ins, p, d);
    AcceptsIffEmits(cfg, ins, i, c);
    forall m, e | p < m < i
      ensures !Accepts(cfg, ins, m, e)
    {
      assert !EmitsDown(cfg, OutAt(cfg, ins, m), e);
      AcceptsIffEmits(cfg, ins, m, e);
    }
    FixedRun(cfg, ins, i);
    StampStays(cfg, ins, p, i, d);
    assert ins[p].now <= ins[i].now;
  }

  /** Two key-downs of the same key with no other ordinary key-down between them
      are at least the bounce window apart. */
  lemma BounceKeysKeepApart(cfg: Config, ins: seq<Input>, i: nat, k: nat, c: KeyCode)
    requires TimeOrdered(ins) && i < k < |ins|
    requires EmitsDown(cfg, OutAt(cfg, ins, i), c) && EmitsDown(cfg, OutAt(cfg, ins, k), c)
    requires forall m, d :: i < m < k ==> !EmitsDown(cfg, OutAt(cfg, ins, m), d)
    ensures ins[k].now >= ins[i].now + cfg.bounceKeysMs
  {
    hide OutAt, StateAt, EmitsDown;
    AcceptsIffEmits(cfg, ins, i, c);
    AcceptsIffEmits(cfg, ins, k, c);
    forall m, d | i < m < k
      ensures !Accepts(cfg, ins, m, d)
    {
      assert !EmitsDown(cfg, OutAt(cfg, ins, m), d);
      AcceptsIffEmits(cfg, ins, m, d);
    }
    if cfg.bounceKeysMs > 0 {
      FixedRun(cfg, ins, k);
      var f := StateAt(cfg, ins, k);
      if cfg.slowKeysMs == 0 {
        StampStays(cfg, ins, i, k, c);
        assert !Bounces(f, c, ins[k].now);
      } else {
        assert f.pendingSlow.Some? && f.pendingSlow.value.key == c;
        var t := f.pendingSlow.value.time;
        var j := PendingOrigin(cfg, ins, k, c, t);
        assert Accepts(cfg, ins, i, c) && i < j;
        StampStays(cfg, ins, i, j, c);
        FixedRun(cfg, ins, j);
        assert !Bounces(StateAt(cfg, ins, j), c, t);
        assert ins[i].now <= ins[j].now == t <= ins[k].now;
      }
    }
  }
}
