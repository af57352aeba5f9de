/** The accessibility key filter of kernel/src/a11y_input.rs: sticky, slow and
    bounce keys between the keyboard and the event queue. */
module KeyFilter {
  import opened Wrappers

  datatype Modifier = Shift | Ctrl | Alt | Gui

  datatype KeyCode =
    | LeftShift | RightShift | LeftCtrl | RightCtrl | LeftAlt | RightAlt | LeftMeta | RightMeta
    | Plain(scancode: nat)

  /** A logical key transition. */
  datatype KeyEvent = KeyEvent(code: KeyCode, down: bool)

  /** A key together with the time it was recorded at. */
  datatype Stamp<+T> = Stamp(key: T, time: nat)

  function ModifierOf(code: KeyCode): Option<Modifier> {
    match code
    case LeftShift => Some(Shift)
    case RightShift => Some(Shift)
    case LeftCtrl => Some(Ctrl)
    case RightCtrl => Some(Ctrl)
    case LeftAlt => Some(Alt)
    case RightAlt => Some(Alt)
    case LeftMeta => Some(Gui)
    case RightMeta => Some(Gui)
    case Plain(_) => None
  }

  /** The key injected for a modifier that is not physically held. */
  function CanonicalKey(m: Modifier): (code: KeyCode)
    ensures ModifierOf(code) == Some(m)
  {
    match m
    case Shift => LeftShift
    case Ctrl => LeftCtrl
    case Alt => LeftAlt
    case Gui => LeftMeta
  }

  const MOD_KEYS: seq<Modifier> := [Shift, Ctrl, Alt, Gui]
  const MOD_KEYS_REVERSED: seq<Modifier> := [Gui, Alt, Ctrl, Shift]
  const DOUBLE_TAP_MS: nat := 400

  datatype Config = Config(stickyKeys: bool, slowKeysMs: nat, bounceKeysMs: nat, repeatDelayMs: nat, repeatRateMs: nat)

  /** The filter's fields. The two modifier masks of the original, with one bit
      per modifier, are sets here. */
  datatype Filter = Filter(
    cfg: Config,
    latched: set<Modifier>,
    locked: set<Modifier>,
    lastTap: Option<Stamp<Modifier>>,
    pendingSlow: Option<Stamp<KeyCode>>,
    lastAccept: Option<Stamp<KeyCode>>,
    bounced: nat, slowRejected: nat, stickyApplied: nat)

  function NewFilter(cfg: Config): Filter {
    Filter(cfg, {}, {}, None, None, None, 0, 0, 0)
  }

  function SaturatingSub(a: nat, b: nat): nat {
    if a >= b then a - b else 0
  }

  // ---- What each call does ------------------------------------------------

  /** Transitions of the given modifiers, in the given order. */
  function ModEvents(mods: set<Modifier>, down: bool, order: seq<Modifier>): seq<KeyEvent> {
    if order == [] then []
    else (if order[0] in mods then [KeyEvent(CanonicalKey(order[0]), down)] else []) + ModEvents(mods, down, order[1..])
  }

  /** A key-down between the downs and the ups of the latched modifiers. */
  function Wrapped(f: Filter, code: KeyCode): seq<KeyEvent> {
    ModEvents(f.latched, true, MOD_KEYS) + [KeyEvent(code, true)] + ModEvents(f.latched, false, MOD_KEYS_REVERSED)
  }

  /** The latch is used up, and the key becomes the last accepted one. */
  function Accept(f: Filter, code: KeyCode, now: nat): Filter {
    f.(stickyApplied := if f.latched != {} then f.stickyApplied + 1 else f.stickyApplied,
       latched := {}, lastTap := None, lastAccept := Some(Stamp(code, now)))
  }

  predicate AllOff(cfg: Config) {
    !cfg.stickyKeys && cfg.slowKeysMs == 0 && cfg.bounceKeysMs == 0
  }

  predicate Bounces(f: Filter, code: KeyCode, now: nat) {
    && f.cfg.bounceKeysMs > 0
    && f.lastAccept.Some?
    && f.lastAccept.value.key == code
    && SaturatingSub(now, f.lastAccept.value.time) < f.cfg.bounceKeysMs
  }

  /** A tap of a sticky modifier: unlock, lock on a quick second tap, or latch. */
  function Tap(f: Filter, m: Modifier, now: nat): (Filter, seq<KeyEvent>) {
    if m in f.locked then
      (f.(locked := f.locked - {m}, lastTap := None), [KeyEvent(CanonicalKey(m), false)])
    else if f.lastTap.Some? && f.lastTap.value.key == m && SaturatingSub(now, f.lastTap.value.time) <= DOUBLE_TAP_MS then
      (f.(locked := f.locked + {m}, latched := f.latched - {m}, lastTap := None), [KeyEvent(CanonicalKey(m), true)])
    else
      (f.(latched := f.latched + {m}, lastTap := Some(Stamp(m, now))), [])
  }

  function OnDown(f: Filter, code: KeyCode, now: nat): (Filter, seq<KeyEvent>) {
    if Bounces(f, code, now) then (f.(bounced := f.bounced + 1), [])
    else if f.cfg.stickyKeys && ModifierOf(code).Some? then Tap(f, ModifierOf(code).value, now)
    else if f.cfg.slowKeysMs > 0 then (f.(pendingSlow := Some(Stamp(code, now))), [])
    else (Accept(f, code, now), Wrapped(f, code))
  }

  function OnUp(f: Filter, code: KeyCode, now: nat): (Filter, seq<KeyEvent>) {
    if f.pendingSlow.Some? && f.pendingSlow.value.key == code then
      var g := f.(pendingSlow := None);
      if SaturatingSub(now, f.pendingSlow.value.time) >= f.cfg.slowKeysMs
      then (Accept(g, code, now), Wrapped(f, code) + [KeyEvent(code, false)])
      else (g.(slowRejected := f.slowRejected + 1), [])
    else if f.cfg.stickyKeys && ModifierOf(code).Some? then (f, [])
    else (f, [KeyEvent(code, false)])
  }

  function FilterKey(f: Filter, code: KeyCode, down: bool, now: nat): (Filter, seq<KeyEvent>) {
    if AllOff(f.cfg) then (f, [KeyEvent(code, down)])
    else if down then OnDown(f, code, now)
    else OnUp(f, code, now)
  }

  function Poll(f: Filter, now: nat): (Filter, seq<KeyEvent>) {
    if f.pendingSlow.Some? && f.cfg.slowKeysMs > 0
       && SaturatingSub(now, f.pendingSlow.value.time) >= f.cfg.slowKeysMs
    then (Accept(f.(pendingSlow := None), f.pendingSlow.value.key, now), Wrapped(f, f.pendingSlow.value.key))
    else (f, [])
  }

  function SetConfig(f: Filter, cfg: Config): Filter {
    var g := if cfg.stickyKeys then f.(cfg := cfg) else f.(cfg := cfg, latched := {}, locked := {}, lastTap := None);
    if cfg.slowKeysMs == 0 then g.(pendingSlow := None) else g
  }

  // ---- In place -----------------------------------------------------------

  class A11yKeyFilter {
    var cfg: Config
    var latched: set<Modifier>
    var locked: set<Modifier>
    var lastTap: Option<Stamp<Modifier>>
    var pendingSlow: Option<Stamp<KeyCode>>
    var lastAccept: Option<Stamp<KeyCode>>
    var bounced: nat
    var slowRejected: nat
    var stickyApplied: nat

    ghost function State(): Filter
      reads this
    {
      Filter(cfg, latched, locked, lastTap, pendingSlow, lastAccept, bounced, slowRejected, stickyApplied)
    }

    constructor (config: Config)
      ensures State() == NewFilter(config)
    {
      cfg, latched, locked := config, {}, {};
      lastTap, pendingSlow, lastAccept := None, None, None;
      bounced, slowRejected, stickyApplied := 0, 0, 0;
    }

    method Configure(config: Config)
      modifies this
      ensures State() == SetConfig(old(State()), config)
    {
      cfg := config;
      if !config.stickyKeys {
        latched, locked, lastTap := {}, {}, None;
      }
      if config.slowKeysMs == 0 {
        pendingSlow := None;
      }
    }

    method EmitMods(mods: set<Modifier>, down: bool, order: seq<Modifier>, out0: seq<KeyEvent>) returns (out: seq<KeyEvent>)
      ensures out == out0 + ModEvents(mods, down, order)
    {
      out := out0;
      for i := 0 to |order|
        invariant out + ModEvents(mods, down, order[i..]) == out0 + ModEvents(mods, down, order)
      {
        if order[i] in mods {
          out := out + [KeyEvent(CanonicalKey(order[i]), down)];
        }
        assert order[i..][1..] == order[i + 1..];
      }
    }

    method WrapKeyDown(code: KeyCode) returns (out: seq<KeyEvent>)
      modifies this`latched, this`lastTap, this`stickyApplied
      ensures out == old(Wrapped(State(), code))
      ensures latched == {} && lastTap == None
      ensures stickyApplied == old(stickyApplied) + if old(latched) != {} then 1 else 0
    {
      hide ModEvents;
      var mods := latched;
      out := EmitMods(mods, true, MOD_KEYS, []);
      out := EmitMods(mods, false, MOD_KEYS_REVERSED, out + [KeyEvent(code, true)]);
      if mods != {} {
        stickyApplied := stickyApplied + 1;
      }
      latched, lastTap := {}, None;
    }

    method TapModifier(m: Modifier, now: nat) returns (out: seq<KeyEvent>)
      modifies this`latched, this`locked, this`lastTap
      ensures State() == Tap(old(State()), m, now).0 && out == Tap(old(State()), m, now).1
    {
      if m in locked {
        locked, lastTap := locked - {m}, None;
        return [KeyEvent(CanonicalKey(m), false)];
      }
      if lastTap.Some? && lastTap.value.key == m && SaturatingSub(now, lastTap.value.time) <= DOUBLE_TAP_MS {
        locked, latched, lastTap := locked + {m}, latched - {m}, None;
        return [KeyEvent(CanonicalKey(m), true)];
      }
      latched, lastTap := latched + {m}, Some(Stamp(m, now));
      return [];
    }

    method KeyDown(code: KeyCode, now: nat) returns (out: seq<KeyEvent>)
      modifies this
      ensures State() == OnDown(old(State()), code, now).0 && out == OnDown(old(State()), code, now).1
    {
      hide Wrapped, SaturatingSub, Accept, Tap;
      if cfg.bounceKeysMs > 0 && lastAccept.Some? && lastAccept.value.key == code
         && SaturatingSub(now, lastAccept.value.time) < cfg.bounceKeysMs {
        bounced := bounced + 1;
        return [];
      }
      if cfg.stickyKeys && ModifierOf(code).Some? {
        out := TapModifier(ModifierOf(code).value, now);
        return;
      }
      if cfg.slowKeysMs > 0 {
        pendingSlow := Some(Stamp(code, now));
        return [];
      }
      out := AcceptKey(code, now);
    }

    method AcceptKey(code: KeyCode, now: nat) returns (out: seq<KeyEvent>)
      modifies this`latched, this`lastTap, this`stickyApplied, this`lastAccept
      ensures State() == Accept(old(State()), code, now)
      ensures out == old(Wrapped(State(), code))
    {
      hide Wrapped;
      out := WrapKeyDown(code);
      lastAccept := Some(Stamp(code, now));
    }

    method KeyUp(code: KeyCode, now: nat) returns (out: seq<KeyEvent>)
      modifies this
      ensures State() == OnUp(old(State()), code, now).0 && out == OnUp(old(State()), code, now).1
    {
      if pendingSlow.Some? && pendingSlow.value.key == code {
        var since := pendingSlow.value.time;
        pendingSlow := None;
        if SaturatingSub(now, since) >= cfg.slowKeysMs {
          out := AcceptKey(code, now);
          out := out + [KeyEvent(code, false)];
          return;
        }
        slowRejected := slowRejected + 1;
        return [];
      }
      if cfg.stickyKeys && ModifierOf(code).Some? {
        return [];
      }
      return [KeyEvent(code, false)];
    }

    method Key(code: KeyCode, down: bool, now: nat) returns (out: seq<KeyEvent>)
      modifies this
      ensures State() == FilterKey(old(State()), code, down, now).0
      ensures out == FilterKey(old(State()), code, down, now).1
    {
      if AllOff(cfg) {
        return [KeyEvent(code, down)];
      }
      if down {
        out := KeyDown(code, now);
      } else {
        out := KeyUp(code, now);
      }
    }

    method Tick(now: nat) returns (out: seq<KeyEvent>)
      modifies this
      ensures State() == Poll(old(State()), now).0 && out == Poll(old(State()), now).1
    {
      if pendingSlow.Some? && cfg.slowKeysMs > 0 && SaturatingSub(now, pendingSlow.value.time) >= cfg.slowKeysMs {
        var code := pendingSlow.value.key;
        pendingSlow := None;
        out := AcceptKey(code, now);
        return;
      }
      return [];
    }
  }
}
