/** The desktop focus order with its modal trap (kernel/src/a11y.rs). */
module FocusOrder {
  import opened Wrappers
  import opened Arithmetic

  /** A focusable element, by its id. */
  type Item = nat

  datatype Focus = Focus(chrome: seq<Item>, modal: Option<seq<Item>>, cursor: Option<nat>, saved: Option<nat>)

  datatype Op = SetChrome(items: seq<Item>) | OpenModal(items: seq<Item>) | CloseModal | Tab | ShiftTab

  function NewFocus(): Focus {
    Focus([], None, None, None)
  }

  /** The modal's items while it is open, else the chrome. */
  function Active(f: Focus): seq<Item> {
    if f.modal.Some? then f.modal.value else f.chrome
  }

  function Clamp(cursor: Option<nat>, len: nat): Option<nat> {
    if len == 0 then None
    else if cursor.Some? && cursor.value >= len then Some(len - 1)
    else cursor
  }

  function Next(f: Focus): Option<nat> {
    var n := |Active(f)|;
    if n == 0 then None
    else if f.cursor.Some? then Some((f.cursor.value + 1) % n)
    else Some(0)
  }

  function Previous(f: Focus): Option<nat> {
    var n := |Active(f)|;
    if n == 0 then None
    else if f.cursor.Some? && f.cursor.value > 0 then Some(f.cursor.value - 1)
    else Some(n - 1)
  }

  function Step(f: Focus, op: Op): Focus {
    match op
    case SetChrome(items) =>
      if f.modal.None? then f.(chrome := items, cursor := Clamp(f.cursor, |items|))
      else f.(chrome := items, saved := Clamp(f.saved, |items|))
    case OpenModal(items) =>
      f.(saved := f.cursor, modal := Some(items), cursor := if items == [] then None else Some(0))
    case CloseModal =>
      f.(modal := None, cursor := Clamp(f.saved, |f.chrome|), saved := None)
    case Tab => f.(cursor := Next(f))
    case ShiftTab => f.(cursor := Previous(f))
  }

  function Run(f: Focus, ops: seq<Op>): Focus
    decreases |ops|
  {
    if ops == [] then f else Run(Step(f, ops[0]), ops[1..])
  }

  /** The focused item. */
  function FocusedId(f: Focus): Option<Item> {
    if f.cursor.Some? && f.cursor.value < |Active(f)| then Some(Active(f)[f.cursor.value]) else None
  }

  // ---- The cursor ---------------------------------------------------------

  /** The cursor is none or in the active layer. */
  predicate InRange(f: Focus) {
    f.cursor.Some? ==> f.cursor.value < |Active(f)|
  }

  lemma StepInRange(f: Focus, op: Op)
    requires InRange(f)
    ensures InRange(Step(f, op))
  {
  }

  /** Over every run, with nested modals and shrinking chrome, the cursor never
      dangles: something is focused exactly when the cursor is set. */
  lemma {:induction false} CursorInRange(f: Focus, ops: seq<Op>)
    requires InRange(f)
    ensures InRange(Run(f, ops))
    ensures FocusedId(Run(f, ops)).Some? <==> Run(f, ops).cursor.Some?
    decreases |ops|
  {
    if ops != [] {
      StepInRange(f, ops[0]);
      CursorInRange(Step(f, ops[0]), ops[1..]);
    }
  }

  function Tabs(f: Focus, k: nat): Focus {
    if k == 0 then f else Step(Tabs(f, k - 1), Tab)
  }

  /** A cursor past the end moves to the last item; any other is kept. */
  lemma ClampIs(cursor: Option<nat>, len: nat)
    ensures Clamp(cursor, 0) == None && Clamp(None, len) == None
    ensures len > 0 && cursor.Some? ==> Clamp(cursor, len) == Some(Min(cursor.value, len - 1))
  {
  }

  /** With nothing focused, Tab goes to the first item and Shift+Tab to the last; in
      an empty layer neither finds any. */
  lemma MovesFromNothing(f: Focus)
    requires f.cursor.None?
    ensures var n := |Active(f)|;
            && FocusedId(Step(f, Tab)) == (if n == 0 then None else Some(Active(f)[0]))
            && FocusedId(Step(f, ShiftTab)) == (if n == 0 then None else Some(Active(f)[n - 1]))
  {
  }

  /** `k` Tabs move the cursor round the active layer by `k`. */
  lemma {:induction false} TabCycle(f: Focus, k: nat)
    requires InRange(f) && f.cursor.Some?
    ensures |Active(f)| > 0 && Tabs(f, k) == f.(cursor := Some((f.cursor.value + k) % |Active(f)|))
  {
    var i, n := f.cursor.value, |Active(f)|;
    if k == 0 {
      RemainderUnique(i, n, 0, i);
    } else {
      TabCycle(f, k - 1);
      NextRemainder(i + k - 1, n);
      NextIs(Tabs(f, k - 1));
    }
  }

  /** Every item of the active layer can be reached by Tab alone. */
  lemma TabReaches(f: Focus, j: nat) returns (k: nat)
    requires InRange(f) && f.cursor.Some? && j < |Active(f)|
    ensures k < |Active(f)| && FocusedId(Tabs(f, k)) == Some(Active(f)[j])
  {
    var i, n := f.cursor.value, |Active(f)|;
    k := if j >= i then j - i else j + n - i;
    TabCycle(f, k);
    RemainderUnique(i + k, n, if j >= i then 0 else 1, j);
  }

  /** Shift+Tab undoes Tab, and Tab undoes Shift+Tab. */
  lemma TabInverses(f: Focus)
    requires InRange(f) && f.cursor.Some?
    ensures Step(Step(f, Tab), ShiftTab) == f
    ensures Step(Step(f, ShiftTab), Tab) == f
  {
    hide Next;
    var i, n := f.cursor.value, |Active(f)|;
    NextIs(f);
    NextIs(Step(f, ShiftTab));
  }

  lemma NextIs(f: Focus)
    requires InRange(f) && f.cursor.Some?
    ensures Next(f) == Some(if f.cursor.value + 1 == |Active(f)| then 0 else f.cursor.value + 1)
  {
    var i, n := f.cursor.value, |Active(f)|;
    RemainderUnique(i, n, 0, i);
    NextRemainder(i, n);
  }

  // ---- The modal trap -----------------------------------------------------

  /** The run neither opens nor closes a modal. */
  predicate StaysInside(ops: seq<Op>) {
    forall i :: 0 <= i < |ops| ==> !ops[i].OpenModal? && !ops[i].CloseModal?
  }

  /** The saved cursor after the chrome was replaced any number of times. */
  function Clamped(cursor: Option<nat>, ops: seq<Op>): Option<nat>
    decreases |ops|
  {
    if ops == [] then cursor
    else Clamped(if ops[0].SetChrome? then Clamp(cursor, |ops[0].items|) else cursor, ops[1..])
  }

  function LastChrome(chrome: seq<Item>, ops: seq<Op>): seq<Item>
    decreases |ops|
  {
    if ops == [] then chrome
    else LastChrome(if ops[0].SetChrome? then ops[0].items else chrome, ops[1..])
  }

  /** While a modal is open only its own items can be focused, and the saved
      cursor changes only with the chrome. */
  lemma {:induction false} Trapped(f: Focus, ops: seq<Op>)
    requires InRange(f) && f.modal.Some? && StaysInside(ops)
    ensures var g := Run(f, ops);
            && InRange(g) && g.modal == f.modal
            && (FocusedId(g).Some? ==> FocusedId(g).value in f.modal.value)
            && g.saved == Clamped(f.saved, ops) && g.chrome == LastChrome(f.chrome, ops)
    decreases |ops|
  {
    if ops != [] {
      Trapped(Step(f, ops[0]), ops[1..]);
    }
  }

  /** A modal opened in any state, whatever runs before it, then used and closed:
      the cursor that the open met comes back, clamped to each chrome that was set
      meanwhile. */
  lemma CloseRestores(f: Focus, items: seq<Item>, ops: seq<Op>)
    requires InRange(f) && StaysInside(ops)
    ensures var g := Step(Run(Step(f, OpenModal(items)), ops), CloseModal);
            g == Focus(LastChrome(f.chrome, ops), None, Clamp(Clamped(f.cursor, ops), |LastChrome(f.chrome, ops)|), None)
  {
    Trapped(Step(f, OpenModal(items)), ops);
  }

  /** With the chrome untouched, exactly the old focus comes back. */
  lemma {:induction false} CloseRestoresExactly(f: Focus, items: seq<Item>, ops: seq<Op>)
    requires InRange(f) && f.modal.None? && StaysInside(ops)
    requires forall i :: 0 <= i < |ops| ==> !ops[i].SetChrome?
    ensures var g := Step(Run(Step(f, OpenModal(items)), ops), CloseModal);
            g == f.(saved := None) && FocusedId(g) == FocusedId(f)
  {
    CloseRestores(f, items, ops);
    ChromeUntouched(f.cursor, f.chrome, ops);
  }

  lemma {:induction false} ChromeUntouched(cursor: Option<nat>, chrome: seq<Item>, ops: seq<Op>)
    requires forall i :: 0 <= i < |ops| ==> !ops[i].SetChrome?
    ensures Clamped(cursor, ops) == cursor && LastChrome(chrome, ops) == chrome
    decreases |ops|
  {
    if ops != [] {
      ChromeUntouched(cursor, chrome, ops[1..]);
    }
  }

  /** Tabs less Shift+Tabs. */
  function Net(ops: seq<Op>): int {
    if ops == [] then 0
    else Net(ops[1..]) + (if ops[0].Tab? then 1 else if ops[0].ShiftTab? then -1 else 0)
  }

  /** Inside a modal the cursor moves round its items by the net number of Tabs,
      whatever happens to the chrome. */
  lemma {:induction false} MovesCycle(f: Focus, ops: seq<Op>)
    requires InRange(f) && f.modal.Some? && f.cursor.Some? && StaysInside(ops)
    ensures |f.modal.value| > 0
    ensures Run(f, ops).cursor == Some((f.cursor.value + Net(ops)) % |f.modal.value|)
    decreases |ops|
  {
    var i, n := f.cursor.value, |f.modal.value|;
    if ops == [] {
      RemainderUnique(i, n, 0, i);
    } else {
      var g := Step(f, ops[0]);
      NextIs(f);
      MovesCycle(g, ops[1..]);
      if ops[0].Tab? && i + 1 == n {
        Wraps(Net(ops[1..]), n);
      } else if ops[0].ShiftTab? && i == 0 {
        Wraps(Net(ops[1..]) - 1, n);
      }
    }
  }

  lemma Wraps(x: int, n: nat)
    requires n > 0
    ensures (x + n) % n == x % n
  {
    var q, r := x / n, x % n;
    assert x + n == (q + 1) * n + r;
    RemainderUnique(x + n, n, q + 1, r);
  }

  lemma {:induction false} EmptyModalStays(f: Focus, ops: seq<Op>)
    requires f.modal == Some([]) && f.cursor.None? && StaysInside(ops)
    ensures Run(f, ops).cursor.None?
    decreases |ops|
  {
    if ops != [] {
      EmptyModalStays(Step(f, ops[0]), ops[1..]);
    }
  }

  /** The cursor of a modal after some moves in it. */
  function ModalCursor(items: seq<Item>, moves: seq<Op>): Option<nat> {
    if items == [] then None else Some(Net(moves) % |items|)
  }

  /** What closing leaves when the last modal was opened over another one: the
      cursor of the outer modal, clamped as if it were one of the chrome. Nothing
      that happened before the outer modal opened matters any more. */
  lemma NestedClose(f: Focus, outer: seq<Item>, moves: seq<Op>, inner: seq<Item>, ops: seq<Op>)
    requires InRange(f) && StaysInside(moves) && StaysInside(ops)
    ensures var chrome := LastChrome(LastChrome(f.chrome, moves), ops);
            Step(Run(Step(Run(Step(f, OpenModal(outer)), moves), OpenModal(inner)), ops), CloseModal) ==
            Focus(chrome, None, Clamp(Clamped(ModalCursor(outer, moves), ops), |chrome|), None)
  {
    hide Run, Net, Clamped, LastChrome, StaysInside;
    var shown := Step(f, OpenModal(outer));
    Trapped(shown, moves);
    if outer == [] {
      EmptyModalStays(shown, moves);
    } else {
      MovesCycle(shown, moves);
    }
    CloseRestores(Run(shown, moves), inner, ops);
  }

  /** In every run the chrome is the one that was set last. */
  lemma {:induction false} ChromeAfter(f: Focus, ops: seq<Op>)
    ensures Run(f, ops).chrome == LastChrome(f.chrome, ops)
    decreases |ops|
  {
    if ops != [] {
      ChromeAfter(Step(f, ops[0]), ops[1..]);
    }
  }

  lemma {:induction false} RunConcat(f: Focus, a: seq<Op>, b: seq<Op>)
    ensures Run(f, a + b) == Run(Run(f, a), b)
    decreases |a|
  {
    hide Step;
    if a == [] {
      assert a + b == b;
    } else {
      assert (a + b)[1..] == a[1..] + b && (a + b)[0] == a[0];
      RunConcat(Step(f, a[0]), a[1..], b);
    }
  }

  // ---- Any run ------------------------------------------------------------

  predicate Switches(op: Op) {
    op.OpenModal? || op.CloseModal?
  }

  /** The last open or close of a run, or -1. */
  function LastSwitch(ops: seq<Op>): (k: int)
    ensures -1 <= k < |ops|
    ensures k >= 0 ==> Switches(ops[k])
    ensures forall i :: k < i < |ops| ==> !Switches(ops[i])
  {
    if ops == [] then -1
    else if Switches(ops[|ops| - 1]) then |ops| - 1
    else LastSwitch(ops[..|ops| - 1])
  }

  lemma AfterLastSwitch(ops: seq<Op>)
    ensures StaysInside(ops[LastSwitch(ops) + 1..])
  {
    hide LastSwitch;
    var k := LastSwitch(ops);
    var tail := ops[k + 1..];
    forall i | 0 <= i < |tail|
      ensures !Switches(tail[i])
    {
      assert tail[i] == ops[k + 1 + i];
    }
  }

  /** The run ends with a modal open: an open is the last switch. */
  predicate EndsOpen(ops: seq<Op>) {
    LastSwitch(ops) >= 0 && ops[LastSwitch(ops)].OpenModal?
  }

  /** Without a modal there is no saved cursor. */
  predicate NothingSaved(f: Focus) {
    f.modal.None? ==> f.saved.None?
  }

  lemma {:induction false} RunSavesNothing(f: Focus, ops: seq<Op>)
    requires InRange(f) && NothingSaved(f)
    ensures InRange(Run(f, ops)) && NothingSaved(Run(f, ops))
    decreases |ops|
  {
    if ops != [] {
      StepInRange(f, ops[0]);
      RunSavesNothing(Step(f, ops[0]), ops[1..]);
    }
  }

  lemma {:induction false} ChromeStays(f: Focus, ops: seq<Op>)
    requires f.modal.None? && StaysInside(ops)
    ensures Run(f, ops).modal.None?
    decreases |ops|
  {
    if ops != [] {
      ChromeStays(Step(f, ops[0]), ops[1..]);
    }
  }

  lemma AroundSwitch(f: Focus, ops: seq<Op>)
    requires LastSwitch(ops) >= 0
    ensures var k := LastSwitch(ops); Run(f, ops) == Run(Step(Run(f, ops[..k]), ops[k]), ops[k + 1..])
  {
    hide Step;
    var k := LastSwitch(ops);
    assert ops == ops[..k] + ([ops[k]] + ops[k + 1..]);
    RunConcat(f, ops[..k], [ops[k]] + ops[k + 1..]);
    assert ([ops[k]] + ops[k + 1..])[1..] == ops[k + 1..];
  }

  /** A modal is open exactly after a run that ends with one open. */
  lemma OpenIffEndsOpen(f: Focus, ops: seq<Op>)
    requires InRange(f) && f.modal.None?
    ensures Run(f, ops).modal.Some? <==> EndsOpen(ops)
  {
    hide LastSwitch;
    var k := LastSwitch(ops);
    AfterLastSwitch(ops);
    if k < 0 {
      assert ops[0..] == ops;
      ChromeStays(f, ops);
    } else {
      AroundSwitch(f, ops);
      CursorInRange(f, ops[..k]);
      var g := Step(Run(f, ops[..k]), ops[k]);
      if ops[k].OpenModal? {
        Trapped(g, ops[k + 1..]);
      } else {
        ChromeStays(g, ops[k + 1..]);
      }
    }
  }

  /** The cursor that the last open of the run met, if it is still open. */
  function Met(f: Focus, ops: seq<Op>): Option<nat> {
    if EndsOpen(ops) then Run(f, ops[..LastSwitch(ops)]).cursor else None
  }

  /** Closing after any run from the chrome, with opens and closes anywhere: the
      cursor that the last unclosed open met, clamped to each chrome set since, or
      none when nothing is open. */
  lemma CloseAfterAnyRun(f: Focus, ops: seq<Op>)
    requires InRange(f) && f.modal.None? && f.saved.None?
    ensures var later := ops[LastSwitch(ops) + 1..];
            var chrome := LastChrome(f.chrome, ops);
            Step(Run(f, ops), CloseModal) == Focus(chrome, None, Clamp(Clamped(Met(f, ops), later), |chrome|), None)
  {
    hide Clamped, LastChrome, StaysInside, LastSwitch;
    var k := LastSwitch(ops);
    AfterLastSwitch(ops);
    ChromeAfter(f, ops);
    if EndsOpen(ops) {
      AroundSwitch(f, ops);
      CursorInRange(f, ops[..k]);
      CloseRestores(Run(f, ops[..k]), ops[k].items, ops[k + 1..]);
    } else {
      OpenIffEndsOpen(f, ops);
      RunSavesNothing(f, ops);
      NoneClamped(ops[k + 1..]);
    }
  }

  lemma {:induction false} NoneClamped(ops: seq<Op>)
    ensures Clamped(None, ops) == None
    decreases |ops|
  {
    if ops != [] {
      NoneClamped(ops[1..]);
    }
  }

  /** In every run from a new focus order: closing brings back the focus that the
      chrome had at some point exactly when the cursor met by the last unclosed
      open since then clamps to it; with nothing open, exactly when the chrome had
      no focus. */
  lemma CloseRestoresIff(earlier: seq<Op>, ops: seq<Op>)
    requires Run(NewFocus(), earlier).modal.None?
    ensures var f := Run(NewFocus(), earlier);
            var chrome, later := LastChrome(f.chrome, ops), ops[LastSwitch(ops) + 1..];
            Step(Run(f, ops), CloseModal).cursor == f.cursor <==>
            if EndsOpen(ops) then f.cursor == Clamp(Clamped(Met(f, ops), later), |chrome|) else f.cursor.None?
  {
    hide Clamped, LastChrome, LastSwitch, Run;
    RunSavesNothing(NewFocus(), earlier);
    var f := Run(NewFocus(), earlier);
    CloseAfterAnyRun(f, ops);
    if !EndsOpen(ops) {
      NoneClamped(ops[LastSwitch(ops) + 1..]);
    }
  }

  /** An open over another modal meets that modal's cursor, a count of Tabs. */
  lemma MetOverModal(f: Focus, ops: seq<Op>)
    requires InRange(f) && EndsOpen(ops) && EndsOpen(ops[..LastSwitch(ops)])
    ensures var before := ops[..LastSwitch(ops)];
            var j := LastSwitch(before);
            Met(f, ops) == ModalCursor(before[j].items, before[j + 1..])
  {
    hide Net;
    var before := ops[..LastSwitch(ops)];
    var j := LastSwitch(before);
    AfterLastSwitch(before);
    AroundSwitch(f, before);
    CursorInRange(f, before[..j]);
    var shown := Step(Run(f, before[..j]), before[j]);
    if before[j].items == [] {
      EmptyModalStays(shown, before[j + 1..]);
    } else {
      MovesCycle(shown, before[j + 1..]);
    }
  }

  /** Whatever the state, a second close with no open since the first leaves no
      focus at all: nested modals that are closed one by one lose it. */
  lemma SecondCloseClears(f: Focus, ops: seq<Op>)
    requires InRange(f) && StaysInside(ops)
    ensures Step(Run(Step(f, CloseModal), ops), CloseModal).cursor == None
  {
    var g := Step(f, CloseModal);
    StepInRange(f, CloseModal);
    ChromeStays(g, ops);
    RunSavesNothing(g, ops);
  }

  /** Opening one modal over another and closing both leaves nothing focused. */
  lemma ClosingBothLoses(x: Item, a: Item, b: Item)
    ensures var f := Focus([x], None, Some(0), None);
            var g := Step(Step(Step(f, OpenModal([a])), OpenModal([b])), CloseModal);
            InRange(f) && FocusedId(f) == FocusedId(g) == Some(x) && FocusedId(Step(g, CloseModal)) == None
  {
  }

  /** Two nested modals lose the focus of a chrome whose second item had it. */
  lemma NestedCanLose(a: Item, b: Item)
    ensures var f := Focus([a, b], None, Some(1), None);
            var g := Step(Step(Step(f, OpenModal([a])), OpenModal([b])), CloseModal);
            InRange(f) && FocusedId(f) == Some(b) && g.cursor == Some(0)
  {
  }

  // ---- In place -----------------------------------------------------------

  class FocusRing {
    var chrome: seq<Item>
    var modal: Option<seq<Item>>
    var cursor: Option<nat>
    var saved: Option<nat>

    ghost function State(): Focus
      reads this
    {
      Focus(chrome, modal, cursor, saved)
    }

    constructor ()
      ensures State() == NewFocus()
    {
      chrome, modal, cursor, saved := [], None, None, None;
    }

    method ReplaceChrome(items: seq<Item>)
      modifies this
      ensures State() == Step(old(State()), SetChrome(items))
    {
      chrome := items;
      if modal.None? {
        cursor := Clamp(cursor, |chrome|);
      } else {
        saved := Clamp(saved, |chrome|);
      }
    }

    method Open(items: seq<Item>)
      modifies this
      ensures State() == Step(old(State()), OpenModal(items))
    {
      saved := cursor;
      modal := Some(items);
      cursor := if items == [] then None else Some(0);
    }

    method Close()
      modifies this
      ensures State() == Step(old(State()), CloseModal)
    {
      modal := None;
      cursor := Clamp(saved, |chrome|);
      saved := None;
    }

    method GetFocusedId() returns (id: Option<Item>)
      ensures id == FocusedId(State())
    {
      var active := if modal.Some? then modal.value else chrome;
      if cursor.Some? && cursor.value < |active| {
        return Some(active[cursor.value]);
      }
      return None;
    }

    method Forward() returns (id: Option<Item>)
      modifies this`cursor
      ensures State() == Step(old(State()), Tab) && id == FocusedId(State())
    {
      var n := if modal.Some? then |modal.value| else |chrome|;
      if n == 0 {
        cursor := None;
        return None;
      }
      cursor := Some(if cursor.Some? then (cursor.value + 1) % n else 0);
      id := GetFocusedId();
    }

    method Backward() returns (id: Option<Item>)
      modifies this`cursor
      ensures State() == Step(old(State()), ShiftTab) && id == FocusedId(State())
    {
      var n := if modal.Some? then |modal.value| else |chrome|;
      if n == 0 {
        cursor := None;
        return None;
      }
      cursor := Some(if cursor.Some? && cursor.value > 0 then cursor.value - 1 else n - 1);
      id := GetFocusedId();
    }
  }
}
