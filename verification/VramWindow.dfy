/** Access to video memory through an index/data register window
    (amdgpud/src/main.rs, `mm_read_dw`, `mm_write_dw`, `vram_write`, `vram_read`). */
module VramWindow {
  import opened Bytes
  import opened Arithmetic

  /** One window of the low index register covers 2 GiB. */
  const WINDOW: nat := 0x8000_0000
  /** Offsets that the two index registers can express. */
  const REACH: nat := 0x8000_0000_0000_0000
  /** Offsets that a 64-bit word can express. */
  const OFFSETS: nat := 0x1_0000_0000_0000_0000
  /** The cached high part that forces the first write of the high register. */
  const SENTINEL: U32 := 0xFFFF_FFFF

  /** Video memory by byte offset of the dword; unwritten memory reads as zero. */
  type Vram = map<nat, U32>

  function Dword(vram: Vram, at: nat): U32 {
    if at in vram then vram[at] else 0
  }

  /** The high index of an offset, cut to 32 bits. */
  function HighPart(p: nat): U32 {
    p / WINDOW % 0x1_0000_0000
  }

  // ---- The flat array -----------------------------------------------------

  /** The flat array: `data` stored from `at` on. */
  function FlatWrite(vram: Vram, at: nat, data: seq<U32>): Vram {
    if data == [] then vram
    else FlatWrite(vram, at, data[..|data| - 1])[at + 4 * (|data| - 1) := data[|data| - 1]]
  }

  /** Exactly the addressed dwords change. */
  lemma {:induction false} FlatWriteAt(vram: Vram, at: nat, data: seq<U32>, a: nat)
    ensures Dword(FlatWrite(vram, at, data), a) ==
            if at <= a < at + 4 * |data| && (a - at) % 4 == 0 then data[(a - at) / 4] else Dword(vram, a)
    decreases |data|
  {
    if data != [] {
      FlatWriteAt(vram, at, data[..|data| - 1], a);
    }
  }

  lemma {:induction false} FlatWriteHas(vram: Vram, at: nat, data: seq<U32>, a: nat)
    ensures a in FlatWrite(vram, at, data) <==> a in vram || (at <= a < at + 4 * |data| && (a - at) % 4 == 0)
    decreases |data|
  {
    if data != [] {
      FlatWriteHas(vram, at, data[..|data| - 1], a);
    }
  }

  // ---- Where accesses go --------------------------------------------------

  /** Where access `i` of a transfer from `at` goes. Offsets wrap at the reach of
      the registers. While a transfer that starts in a sentinel window stays in it,
      the device's old high register is in force. */
  function Target(at: nat, i: nat, stale: U32): nat {
    var p := at + 4 * i;
    if HighPart(at) == SENTINEL && p / WINDOW == at / WINDOW then stale * WINDOW + p % WINDOW else p % REACH
  }

  function Written(vram: Vram, at: nat, stale: U32, data: seq<U32>): Vram {
    if data == [] then vram
    else Written(vram, at, stale, data[..|data| - 1])[Target(at, |data| - 1, stale) := data[|data| - 1]]
  }

  function ReadFrom(vram: Vram, at: nat, stale: U32, n: nat): seq<U32> {
    seq(n, i requires 0 <= i => Dword(vram, Target(at, i, stale)))
  }

  /** The high register after `n` accesses from `at`. */
  function HighAfter(at: nat, stale: U32, n: nat): U32 {
    if n == 0 then stale
    else
      var last := at + 4 * (n - 1);
      if HighPart(at) == SENTINEL && last / WINDOW == at / WINDOW then stale else HighPart(last)
  }

  lemma SplitOffset(p: nat)
    ensures HighPart(p) * WINDOW + p % WINDOW == p % REACH
  {
    var w, q := p / WINDOW, p / WINDOW / 0x1_0000_0000;
    assert p == q * REACH + (HighPart(p) * WINDOW + p % WINDOW);
    RemainderUnique(p, REACH, q, HighPart(p) * WINDOW + p % WINDOW);
  }

  lemma TargetInReach(at: nat, i: nat, stale: U32)
    ensures Target(at, i, stale) < REACH
  {
  }

  lemma {:induction false} WrittenInReach(vram: Vram, at: nat, stale: U32, data: seq<U32>, a: nat)
    requires a >= REACH
    ensures a in Written(vram, at, stale, data) <==> a in vram
    decreases |data|
  {
    if data != [] {
      WrittenInReach(vram, at, stale, data[..|data| - 1], a);
      TargetInReach(at, |data| - 1, stale);
    }
  }

  lemma {:induction false} WrittenIsFlat(vram: Vram, at: nat, stale: U32, data: seq<U32>)
    requires at + 4 * |data| < REACH + 4 && (HighPart(at) < SENTINEL || stale == SENTINEL)
    ensures Written(vram, at, stale, data) == FlatWrite(vram, at, data)
    decreases |data|
  {
    if data != [] {
      var p := at + 4 * (|data| - 1);
      WrittenIsFlat(vram, at, stale, data[..|data| - 1]);
      SplitOffset(p);
      RemainderUnique(p, REACH, 0, p);
      SplitOffset(at);
    }
  }

  lemma {:induction false} WrittenHas(vram: Vram, at: nat, stale: U32, data: seq<U32>, i: nat)
    requires i < |data|
    ensures Target(at, i, stale) in Written(vram, at, stale, data)
    decreases |data|
  {
    hide Target;
    if i < |data| - 1 {
      WrittenHas(vram, at, stale, data[..|data| - 1], i);
    }
  }

  /** A write reaches the flat array for every memory content exactly when its last
      offset is within reach and either its first is below the last window or the
      high register happens to be there already. */
  lemma WriteIsFlatIff(at: nat, stale: U32, data: seq<U32>)
    requires data != []
    ensures (forall vram: Vram :: Written(vram, at, stale, data) == FlatWrite(vram, at, data))
            <==> at + 4 * (|data| - 1) < REACH && (HighPart(at) < SENTINEL || stale == SENTINEL)
  {
    hide Written, FlatWrite;
    var last := at + 4 * (|data| - 1);
    if last >= REACH {
      WrittenInReach(map[], at, stale, data, last);
      FlatWriteHas(map[], at, data, last);
      assert Written(map[], at, stale, data) != FlatWrite(map[], at, data);
    } else if HighPart(at) == SENTINEL && stale != SENTINEL {
      var to := Target(at, 0, stale);
      SplitOffset(at);
      assert to < at;
      WrittenHas(map[], at, stale, data, 0);
      FlatWriteHas(map[], at, data, to);
      assert Written(map[], at, stale, data) != FlatWrite(map[], at, data);
    } else {
      forall vram: Vram
        ensures Written(vram, at, stale, data) == FlatWrite(vram, at, data)
      {
        WrittenIsFlat(vram, at, stale, data);
      }
    }
  }

  /** A dword for the last window, with the high register still at zero, lands at
      the start of video memory. */
  lemma LastWindowMisses(v: U32)
    ensures Written(map[], REACH - WINDOW, 0, [v]) == map[0 := v]
    ensures FlatWrite(map[], REACH - WINDOW, [v]) == map[REACH - WINDOW := v]
  {
    assert [v][..0] == [];
    assert Target(REACH - WINDOW, 0, 0) == 0;
  }

  // ---- Reading back -------------------------------------------------------

  /** No two accesses of the transfer go to the same place. */
  ghost predicate Distinct(at: nat, stale: U32, n: nat) {
    forall i: nat, j: nat :: i < j < n ==> Target(at, i, stale) != Target(at, j, stale)
  }

  lemma {:induction false} WrittenAt(vram: Vram, at: nat, stale: U32, data: seq<U32>, i: nat)
    requires i < |data| && Distinct(at, stale, |data|)
    ensures Dword(Written(vram, at, stale, data), Target(at, i, stale)) == data[i]
    decreases |data|
  {
    hide Target;
    if i < |data| - 1 {
      WrittenAt(vram, at, stale, data[..|data| - 1], i);
    }
  }

  /** The second pass uses the places of the first. */
  ghost predicate SamePlaces(at: nat, stale: U32, n: nat) {
    forall i: nat :: i < n ==> Target(at, i, HighAfter(at, stale, n)) == Target(at, i, stale)
  }

  /** Whether reading back restores the data, in terms of the arguments: the
      transfer starts outside the sentinel windows or stays in one, or else the
      old high register is the last one used and the transfer stops short of the
      redirected dwords. */
  predicate ReadsBack(at: nat, stale: U32, n: nat)
    requires n > 0
  {
    var last := at + 4 * (n - 1);
    || HighPart(at) != SENTINEL || last / WINDOW == at / WINDOW
    || (stale == HighPart(last) && last % WINDOW < at % WINDOW)
  }

  lemma ReadBackIff(at: nat, stale: U32, n: nat)
    requires n > 0 && 4 * n <= REACH
    ensures (forall vram: Vram, data: seq<U32> {:trigger Written(vram, at, stale, data)} :: |data| == n ==>
               ReadFrom(Written(vram, at, stale, data), at, HighAfter(at, stale, n), n) == data)
            <==> ReadsBack(at, stale, n)
  {
    hide Written, Target, HighAfter, HighPart;
    if ReadsBack(at, stale, n) {
      PlacesDistinct(at, stale, n);
      PlacesAgree(at, stale, n);
      forall vram: Vram, data: seq<U32> {:trigger Written(vram, at, stale, data)} | |data| == n
        ensures ReadFrom(Written(vram, at, stale, data), at, HighAfter(at, stale, n), n) == data
      {
        forall i: nat | i < n
          ensures ReadFrom(Written(vram, at, stale, data), at, HighAfter(at, stale, n), n)[i] == data[i]
        {
          WrittenAt(vram, at, stale, data, i);
        }
      }
    } else {
      var data := OneThenZeros(n);
      FirstIsLost(at, stale, n);
      assert ReadFrom(Written(map[], at, stale, data), at, HighAfter(at, stale, n), n)[0] != data[0];
    }
  }

  function OneThenZeros(n: nat): (r: seq<U32>)
    ensures |r| == n
  {
    seq(n, i => if i == 0 then 1 else 0)
  }

  lemma {:induction false} ZeroElsewhere(at: nat, stale: U32, n: nat, a: nat)
    requires a != Target(at, 0, stale) || exists j: nat :: 0 < j < n && Target(at, j, stale) == a
    ensures Dword(Written(map[], at, stale, OneThenZeros(n)), a) == 0
    decreases n
  {
    hide Target;
    if n > 0 {
      var data := OneThenZeros(n);
      assert data[..n - 1] == OneThenZeros(n - 1);
      if Target(at, n - 1, stale) != a {
        ZeroElsewhere(at, stale, n - 1, a);
      }
    }
  }

  lemma FirstIsLost(at: nat, stale: U32, n: nat)
    requires n > 0 && 4 * n <= REACH && !ReadsBack(at, stale, n)
    ensures Dword(Written(map[], at, stale, OneThenZeros(n)), Target(at, 0, HighAfter(at, stale, n))) == 0
  {
    hide Written;
    var last := at + 4 * (n - 1);
    var h := HighPart(last);
    assert HighAfter(at, stale, n) == h;
    if h == stale {
      var j := n - 1 - (last % WINDOW - at % WINDOW) / 4;
      Overtaken(at, n, j);
      SplitOffset(at + 4 * j);
      assert Target(at, j, stale) == Target(at, 0, h);
    }
    ZeroElsewhere(at, stale, n, Target(at, 0, h));
  }

  /** The access that falls onto the first dword's place in the last window. */
  lemma Overtaken(at: nat, n: nat, j: int)
    requires n > 0
    requires var last := at + 4 * (n - 1);
             last / WINDOW > at / WINDOW && last % WINDOW >= at % WINDOW && j == n - 1 - (last % WINDOW - at % WINDOW) / 4
    ensures 0 < j < n
    ensures (at + 4 * j) % WINDOW == at % WINDOW && (at + 4 * j) / WINDOW == (at + 4 * (n - 1)) / WINDOW
  {
    var last := at + 4 * (n - 1);
    var d := last % WINDOW - at % WINDOW;
    assert d == 4 * (n - 1) - WINDOW * (last / WINDOW - at / WINDOW);
    assert d % 4 == 0;
    assert at + 4 * j == WINDOW * (last / WINDOW) + at % WINDOW;
  }

  lemma PlacesAgree(at: nat, stale: U32, n: nat)
    requires n > 0 && ReadsBack(at, stale, n)
    ensures SamePlaces(at, stale, n)
  {
  }

  lemma PlacesDistinct(at: nat, stale: U32, n: nat)
    requires n > 0 && 4 * n <= REACH && ReadsBack(at, stale, n)
    ensures Distinct(at, stale, n)
  {
    forall i: nat, j: nat | i < j < n
      ensures Target(at, i, stale) != Target(at, j, stale)
    {
      TwoPlaces(at, stale, n, i, j);
    }
  }

  lemma TwoPlaces(at: nat, stale: U32, n: nat, i: nat, j: nat)
    requires n > 0 && 4 * n <= REACH && ReadsBack(at, stale, n) && i < j < n
    ensures Target(at, i, stale) != Target(at, j, stale)
  {
    hide HighPart;
    var p, q := at + 4 * i, at + 4 * j;
    var here := at / WINDOW;
    assert here <= p / WINDOW <= q / WINDOW;
    if HighPart(at) == SENTINEL && p / WINDOW == here {
      if q / WINDOW != here {
        RedirectedApart(at, stale, n, p, q);
      }
    } else {
      RemaindersDiffer(p, q);
    }
  }

  lemma RemaindersDiffer(p: nat, q: nat)
    requires p < q < p + REACH
    ensures p % REACH != q % REACH
  {
    var a, b := p / REACH, q / REACH;
    assert q % REACH - p % REACH == q - p - REACH * (b - a);
  }

  /** A redirected dword and one behind the sentinel window. */
  lemma RedirectedApart(at: nat, stale: U32, n: nat, p: nat, q: nat)
    requires n > 0 && 4 * n <= REACH && at <= p < q <= at + 4 * (n - 1)
    requires p / WINDOW == at / WINDOW < q / WINDOW
    requires stale == HighPart(at + 4 * (n - 1)) && (at + 4 * (n - 1)) % WINDOW < at % WINDOW
    ensures stale * WINDOW + p % WINDOW != q % REACH
  {
    var last := at + 4 * (n - 1);
    SplitOffset(q);
    assert p % WINDOW >= at % WINDOW;
    if HighPart(q) == stale {
      SameWindow(at, q, last);
      assert q % WINDOW <= last % WINDOW;
    }
  }

  lemma SameWindow(at: nat, q: nat, last: nat)
    requires at / WINDOW < q / WINDOW <= last / WINDOW && last < at + REACH && HighPart(q) == HighPart(last)
    ensures q / WINDOW == last / WINDOW
  {
    var a, b := q / WINDOW, last / WINDOW;
    assert b - at / WINDOW <= 0x1_0000_0000;
    assert (b - a) % 0x1_0000_0000 == 0;
  }

  // ---- The device and the driver's loops ----------------------------------

  class Gpu {
    /** Whether the register file is mapped. */
    const mapped: bool
    var index: U32
    var indexHi: U32
    var vram: Vram

    constructor (isMapped: bool)
      ensures mapped == isMapped && vram == map[]
    {
      mapped, index, indexHi, vram := isMapped, 0, 0, map[];
    }

    /** The dword behind the data register; the top bit of the low index selects
        video memory. */
    ghost function Window(): nat
      reads this
      requires index >= WINDOW
    {
      indexHi * WINDOW + (index - WINDOW)
    }

    method WriteData(v: U32)
      requires index >= WINDOW
      modifies this`vram
      ensures vram == old(vram)[Window() := v]
    {
      vram := vram[indexHi * WINDOW + (index - WINDOW) := v];
    }

    method ReadData() returns (v: U32)
      requires index >= WINDOW
      ensures v == Dword(vram, Window())
    {
      v := Dword(vram, indexHi * WINDOW + (index - WINDOW));
    }

    /** Points the window at `p`, writing the high register only when the cached
        high part changes. */
    method Select(p: U64, hi: U32) returns (cached: U32)
      modifies this`index, this`indexHi
      ensures cached == HighPart(p) && index >= WINDOW
      ensures indexHi == if HighPart(p) == hi then old(indexHi) else HighPart(p)
      ensures Window() == indexHi * WINDOW + p % WINDOW
    {
      index := p % WINDOW + WINDOW;
      cached := p / WINDOW % 0x1_0000_0000;
      if cached != hi {
        indexHi := cached;
      }
    }

    method MmWrite(p: U64, v: U32, hi: U32) returns (cached: U32)
      modifies this`index, this`indexHi, this`vram
      ensures cached == HighPart(p)
      ensures indexHi == if HighPart(p) == hi then old(indexHi) else HighPart(p)
      ensures vram == old(vram)[indexHi * WINDOW + p % WINDOW := v]
    {
      cached := Select(p, hi);
      WriteData(v);
    }

    method MmRead(p: U64, hi: U32) returns (v: U32, cached: U32)
      modifies this`index, this`indexHi
      ensures cached == HighPart(p)
      ensures indexHi == if HighPart(p) == hi then old(indexHi) else HighPart(p)
      ensures v == Dword(vram, indexHi * WINDOW + p % WINDOW)
    {
      cached := Select(p, hi);
      v := ReadData();
    }

    /** The whole effect of a write, for every offset and across every window
        boundary. The sum of offset and size stays within 64 bits. */
    method VramWrite(at: nat, data: seq<U32>)
      requires at + 4 * |data| <= OFFSETS
      modifies this`index, this`indexHi, this`vram
      ensures vram == if mapped then Written(old(vram), at, old(indexHi), data) else old(vram)
      ensures indexHi == if mapped then HighAfter(at, old(indexHi), |data|) else old(indexHi)
    {
      if !mapped {
        return;
      }
      hide Target, HighAfter, HighPart;
      var hi := SENTINEL;
      AtStart(at, indexHi);
      for i := 0 to |data|
        invariant hi == CachedAfter(at, i)
        invariant indexHi == HighAfter(at, old(indexHi), i)
        invariant vram == Written(old(vram), at, old(indexHi), data[..i])
      {
        NextAccess(at, i, old(indexHi));
        hi := MmWrite(at + 4 * i, data[i], hi);
        assert data[..i + 1][..i] == data[..i];
      }
      assert data[..|data|] == data;
    }

    method VramRead(at: nat, n: nat) returns (out: seq<U32>)
      requires at + 4 * n <= OFFSETS
      modifies this`index, this`indexHi
      ensures out == if mapped then ReadFrom(vram, at, old(indexHi), n) else seq(n, _ => 0)
      ensures indexHi == if mapped then HighAfter(at, old(indexHi), n) else old(indexHi)
    {
      if !mapped {
        return seq(n, _ => 0);
      }
      hide Target, HighAfter, HighPart;
      var hi := SENTINEL;
      AtStart(at, indexHi);
      out := [];
      for i := 0 to n
        invariant hi == CachedAfter(at, i)
        invariant indexHi == HighAfter(at, old(indexHi), i)
        invariant out == ReadFrom(vram, at, old(indexHi), i)
      {
        NextAccess(at, i, old(indexHi));
        var v;
        v, hi := MmRead(at + 4 * i, hi);
        out := out + [v];
      }
    }

    /** Reading back what was just written returns it under the exact condition of
        `ReadBackIff`, which includes every misdirected write that stays in its
        window: reading back does not reveal those. */
    method WriteThenRead(at: nat, data: seq<U32>) returns (out: seq<U32>)
      requires at + 4 * |data| <= OFFSETS
      modifies this`index, this`indexHi, this`vram
      ensures mapped ==> out == ReadFrom(vram, at, HighAfter(at, old(indexHi), |data|), |data|)
      ensures !mapped ==> out == seq(|data|, _ => 0)
      ensures mapped && data != [] && 4 * |data| <= REACH && ReadsBack(at, old(indexHi), |data|) ==> out == data
    {
      VramWrite(at, data);
      out := VramRead(at, |data|);
      if mapped && data != [] && 4 * |data| <= REACH {
        ReadBackIff(at, old(indexHi), |data|);
      }
    }
  }

  /** The cached high part after `n` accesses. */
  function CachedAfter(at: nat, n: nat): U32 {
    if n == 0 then SENTINEL else HighPart(at + 4 * (n - 1))
  }

  lemma AtStart(at: nat, stale: U32)
    ensures CachedAfter(at, 0) == SENTINEL && HighAfter(at, stale, 0) == stale
  {
  }

  /** Access `i` finds the cache and the register as the earlier ones left them,
      and goes to its target. */
  lemma NextAccess(at: nat, i: nat, stale: U32)
    ensures var p := at + 4 * i;
            var high := if HighPart(p) == CachedAfter(at, i) then HighAfter(at, stale, i) else HighPart(p);
            && high == HighAfter(at, stale, i + 1) && CachedAfter(at, i + 1) == HighPart(p)
            && high * WINDOW + p % WINDOW == Target(at, i, stale)
  {
    var p := at + 4 * i;
    SplitOffset(p);
    if i > 0 {
      var before := p - 4;
      assert before / WINDOW <= p / WINDOW <= before / WINDOW + 1;
      assert at / WINDOW <= before / WINDOW;
    }
  }
}
