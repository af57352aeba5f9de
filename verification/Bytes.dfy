/** Bytes, little-endian words and UTF-8, as the components below share them. */
module Bytes {

  type Byte = b: int | 0 <= b < 0x100

  type U32 = n: int | 0 <= n < 0x1_0000_0000

  type U64 = n: int | 0 <= n < 0x1_0000_0000_0000_0000

  /** Rust strings are UTF-8 byte sequences, and every string operation that is
      modelled here (prefix tests, splitting, trimming, padding) is on ASCII
      characters, so a string is the sequence of its bytes. */
  type Text = seq<Byte>

  // ---- Little-endian words ------------------------------------------------

  function Le16(b: seq<Byte>): (n: nat)
    requires |b| == 2
    ensures n < 0x1_0000
  {
    b[0] as int + 0x100 * (b[1] as int)
  }

  function Le32(b: seq<Byte>): (n: U32)
    requires |b| == 4
  {
    Le16(b[..2]) + 0x1_0000 * Le16(b[2..])
  }

  function Le64(b: seq<Byte>): (n: U64)
    requires |b| == 8
  {
    (Le32(b[..4]) as int) + 0x1_0000_0000 * (Le32(b[4..]) as int)
  }

  function ToLe16(n: nat): (b: seq<Byte>)
    requires n < 0x1_0000
    ensures |b| == 2 && Le16(b) == n
  {
    [n % 0x100, n / 0x100]
  }

  function ToLe32(n: U32): (b: seq<Byte>)
    ensures |b| == 4 && Le32(b) == n
  {
    var lo, hi := ToLe16(n % 0x1_0000), ToLe16(n / 0x1_0000);
    assert (lo + hi)[..2] == lo && (lo + hi)[2..] == hi;
    lo + hi
  }

  function ToLe64(n: U64): (b: seq<Byte>)
    ensures |b| == 8 && Le64(b) == n
  {
    var lo, hi := ToLe32(n % 0x1_0000_0000), ToLe32(n / 0x1_0000_0000);
    assert (lo + hi)[..4] == lo && (lo + hi)[4..] == hi;
    lo + hi
  }

  lemma Le16Injective(b: seq<Byte>)
    requires |b| == 2
    ensures ToLe16(Le16(b)) == b
  {
    var lo: int, hi: int := b[0], b[1];
    assert (lo + 0x100 * hi) % 0x100 == lo && (lo + 0x100 * hi) / 0x100 == hi;
  }

  /** A word determines its bytes, so encoding also inverts decoding. */
  lemma Le32Injective(b: seq<Byte>)
    requires |b| == 4
    ensures ToLe32(Le32(b)) == b
  {
    var lo, hi := Le16(b[..2]), Le16(b[2..]);
    assert (lo + 0x1_0000 * hi) % 0x1_0000 == lo && (lo + 0x1_0000 * hi) / 0x1_0000 == hi;
    Le16Injective(b[..2]);
    Le16Injective(b[2..]);
    assert b == b[..2] + b[2..];
  }

  // ---- UTF-8 --------------------------------------------------------------

  predicate Continuation(b: Byte) {
    0x80 <= b < 0xC0
  }

  /** Length of the well-formed UTF-8 character at position `i`, or 0
      (Table 3-7 of the Unicode Standard, which `core::str::from_utf8` follows). */
  function CharLength(s: seq<Byte>, i: nat): (n: nat)
    requires i < |s|
    ensures i + n <= |s|
  {
    var left := |s| - i;
    if s[i] < 0x80 then 1
    else if 0xC2 <= s[i] < 0xE0 then
      if left >= 2 && Continuation(s[i + 1]) then 2 else 0
    else if 0xE0 <= s[i] < 0xF0 then
      if left >= 3 && Continuation(s[i + 1]) && Continuation(s[i + 2])
         && (s[i] == 0xE0 ==> s[i + 1] >= 0xA0) && (s[i] == 0xED ==> s[i + 1] < 0xA0)
      then 3 else 0
    else if 0xF0 <= s[i] < 0xF5 then
      if left >= 4 && Continuation(s[i + 1]) && Continuation(s[i + 2]) && Continuation(s[i + 3])
         && (s[i] == 0xF0 ==> s[i + 1] >= 0x90) && (s[i] == 0xF4 ==> s[i + 1] < 0x90)
      then 4 else 0
    else 0
  }

  predicate ValidUtf8From(s: seq<Byte>, i: nat)
    requires i <= |s|
    decreases |s| - i
  {
    i == |s| || (CharLength(s, i) > 0 && ValidUtf8From(s, i + CharLength(s, i)))
  }

  predicate ValidUtf8(s: seq<Byte>) {
    ValidUtf8From(s, 0)
  }

  lemma {:induction false} AsciiFrom(s: seq<Byte>, i: nat)
    requires i <= |s| && forall k :: 0 <= k < |s| ==> s[k] < 0x80
    ensures ValidUtf8From(s, i)
    decreases |s| - i
  {
    if i < |s| {
      AsciiFrom(s, i + 1);
    }
  }

  /** Every ASCII string is well-formed UTF-8. */
  lemma AsciiIsUtf8(s: seq<Byte>)
    requires forall k :: 0 <= k < |s| ==> s[k] < 0x80
    ensures ValidUtf8(s)
  {
    AsciiFrom(s, 0);
  }

  // ---- Substrings at a position -------------------------------------------

  predicate SameByte(all: seq<Byte>, pos: nat, part: seq<Byte>, i: nat) {
    i < |part| && pos + i < |all| && all[pos + i] == part[i]
  }

  /** `part` occurs in `all` at position `pos`. */
  predicate At(all: seq<Byte>, pos: nat, part: seq<Byte>) {
    && pos + |part| <= |all|
    && forall i: nat :: i < |part| ==> SameByte(all, pos, part, i)
  }

  /** Two adjacent parts occur one after the other exactly when their
      concatenation occurs. */
  lemma AtConcat(all: seq<Byte>, pos: nat, a: seq<Byte>, b: seq<Byte>)
    ensures At(all, pos, a + b) <==> At(all, pos, a) && At(all, pos + |a|, b)
  {
    if At(all, pos, a + b) {
      forall i: nat | i < |a|
        ensures SameByte(all, pos, a, i)
      {
        assert SameByte(all, pos, a + b, i);
      }
      forall i: nat {:trigger b[i]} | i < |b|
        ensures SameByte(all, pos + |a|, b, i)
      {
        assert SameByte(all, pos, a + b, |a| + i);
      }
    }
    if At(all, pos, a) && At(all, pos + |a|, b) {
      forall i: nat | i < |a + b|
        ensures SameByte(all, pos, a + b, i)
      {
        assert if i < |a| then SameByte(all, pos, a, i) else SameByte(all, pos + |a|, b, i - |a|);
      }
    }
  }

  lemma AtFits(all: seq<Byte>, pos: nat, part: seq<Byte>)
    requires At(all, pos, part)
    ensures pos + |part| <= |all|
  {
  }

  lemma AtByte(all: seq<Byte>, pos: nat, part: seq<Byte>, i: nat)
    requires At(all, pos, part) && i < |part|
    ensures pos + i < |all| && all[pos + i] == part[i]
  {
    assert SameByte(all, pos, part, i);
  }

  lemma AtSlice(all: seq<Byte>, pos: nat, part: seq<Byte>)
    requires pos + |part| <= |all|
    ensures At(all, pos, part) <==> all[pos..pos + |part|] == part
  {
    var slice := all[pos..pos + |part|];
    if At(all, pos, part) {
      forall i: nat | i < |part|
        ensures slice[i] == part[i]
      {
        assert SameByte(all, pos, part, i);
      }
    }
    if slice == part {
      forall i: nat | i < |part|
        ensures SameByte(all, pos, part, i)
      {
        assert slice[i] == all[pos + i];
      }
    }
  }
}
