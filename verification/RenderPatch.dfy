/** The daemon's side of a command submission: pointers patched in place
    (amdgpud/src/main.rs, the command-submission and buffer-list arms). */
module RenderPatch {
  import opened Bytes
  import opened RenderMarshal

  const ADDRESS_SPACE: nat := 0x1_0000_0000_0000_0000

  /** The 64-bit word at `off`. */
  predicate Holds64(s: seq<Byte>, off: nat, v: nat) {
    off + 8 <= |s| && Word64(s, off) == v
  }

  /** The bytes with a word stored at `off`. */
  function Store64(s: seq<Byte>, off: nat, v: U64): (r: seq<Byte>)
    requires off + 8 <= |s|
    ensures |r| == |s|
  {
    s[..off] + ToLe64(v) + s[off + 8..]
  }

  lemma StoreHolds(s: seq<Byte>, off: nat, v: U64)
    requires off + 8 <= |s|
    ensures Holds64(Store64(s, off, v), off, v)
  {
    assert Store64(s, off, v)[off..off + 8] == ToLe64(v);
  }

  lemma StoreElsewhere(s: seq<Byte>, off: nat, v: U64, o: nat, w: nat)
    requires off + 8 <= |s| && (o + 8 <= off || off + 8 <= o) && Holds64(s, o, w)
    ensures Holds64(Store64(s, off, v), o, w)
  {
    assert Store64(s, off, v)[o..o + 8] == s[o..o + 8];
  }

  method Put64(a: array<Byte>, off: nat, v: U64)
    requires off + 8 <= a.Length
    modifies a
    ensures a[..] == Store64(old(a[..]), off, v)
  {
    var bytes := ToLe64(v);
    for i := 0 to 8
      invariant a[off..off + i] == bytes[..i]
      invariant forall k :: 0 <= k < a.Length && !(off <= k < off + 8) ==> a[k] == old(a[k])
    {
      a[off + i] := bytes[i];
    }
  }

  /** The bytes of the pointer fields of a submission with `count` chunks. */
  predicate PointerByte(count: nat, k: nat) {
    || 16 <= k < HeadersOff(count)
    || (HeadersOff(count) <= k < DataStart(count) && (k - HeadersOff(count)) % 16 >= 8)
  }

  /** What the patched header of chunk `i` points to. */
  function DataPointer(b: seq<Byte>, i: nat, base: nat): nat
    requires Framed(b) && i < Count(b)
  {
    if Dwords(b, i) == 0 then 0 else base + DataOff(b, i)
  }

  /** `p` agrees with `b` outside the pointer fields. */
  ghost predicate SameButPointers(b: seq<Byte>, p: seq<Byte>)
    requires Framed(b)
  {
    |p| == |b| && forall k :: 0 <= k < |b| && !PointerByte(Count(b), k) ==> p[k] == b[k]
  }

  /** The pointers of the first `n` chunks are in place. */
  ghost predicate Linked(b: seq<Byte>, p: seq<Byte>, base: nat, n: nat)
    requires Framed(b) && n <= Count(b)
  {
    && Holds64(p, 16, base + ARG)
    && (forall i :: 0 <= i < n ==> Holds64(p, ARG + 8 * i, base + HeaderOff(Count(b), i)))
    && (forall i :: 0 <= i < n ==> Holds64(p, HeaderOff(Count(b), i) + 8, DataPointer(b, i, base)))
  }

  ghost predicate Patched(b: seq<Byte>, p: seq<Byte>, base: nat) {
    Framed(b) && SameButPointers(b, p) && Linked(b, p, base, Count(b))
  }

  lemma LinkedStep(b: seq<Byte>, p: seq<Byte>, base: nat, n: nat)
    requires Framed(b) && n < Count(b) && Linked(b, p, base, n)
    requires Holds64(p, ARG + 8 * n, base + HeaderOff(Count(b), n))
    requires Holds64(p, HeaderOff(Count(b), n) + 8, DataPointer(b, n, base))
    ensures Linked(b, p, base, n + 1)
  {
    hide Framed, Holds64, DataPointer;
  }

  /** The fields of the next chunk are apart from those already linked. */
  lemma LinkedKept(b: seq<Byte>, p: seq<Byte>, base: nat, n: nat, off: nat, v: U64)
    requires Framed(b) && n < Count(b) && Linked(b, p, base, n) && off + 8 <= |p|
    requires off == ARG + 8 * n || off == HeaderOff(Count(b), n) + 8
    ensures Linked(b, Store64(p, off, v), base, n)
  {
    hide Holds64, DataPointer, Store64;
    var count, q := Count(b), Store64(p, off, v);
    StoreElsewhere(p, off, v, 16, base + ARG);
    forall i | 0 <= i < n
      ensures Holds64(q, ARG + 8 * i, base + HeaderOff(count, i))
      ensures Holds64(q, HeaderOff(count, i) + 8, DataPointer(b, i, base))
    {
      StoreElsewhere(p, off, v, ARG + 8 * i, base + HeaderOff(count, i));
      StoreElsewhere(p, off, v, HeaderOff(count, i) + 8, DataPointer(b, i, base));
    }
  }

  /** Cutting off the rest of the buffer keeps the links. */
  lemma LinkedPrefix(b: seq<Byte>, p: seq<Byte>, base: nat, n: nat)
    requires Framed(b) && n <= Count(b) && Linked(b, p, base, n) && |b| <= |p|
    ensures Linked(b, p[..|b|], base, n)
  {
    hide DataPointer;
    var q := p[..|b|];
    forall o: nat, w: nat | o + 8 <= |b| && Holds64(p, o, w)
      ensures Holds64(q, o, w)
    {
      assert q[o..o + 8] == p[o..o + 8];
    }
  }

  /** From one buffer to the next only pointer fields of the payload changed. */
  ghost predicate Kept(p: seq<Byte>, q: seq<Byte>, len: nat, count: nat) {
    |q| == |p| && forall k :: 0 <= k < |p| && (k >= len || !PointerByte(count, k)) ==> q[k] == p[k]
  }

  lemma KeptWord(p: seq<Byte>, len: nat, count: nat, off: nat, v: U64)
    requires off + 8 <= len <= |p|
    requires forall k :: off <= k < off + 8 ==> PointerByte(count, k)
    ensures Kept(p, Store64(p, off, v), len, count)
  {
    hide PointerByte;
  }

  /** The second half of each header is a pointer field. */
  lemma HeaderPointer(count: nat, i: nat)
    requires i < count
    ensures forall k :: HeaderOff(count, i) + 8 <= k < HeaderOff(count, i) + 16 ==> PointerByte(count, k)
  {
    forall k | HeaderOff(count, i) + 8 <= k < HeaderOff(count, i) + 16
      ensures PointerByte(count, k)
    {
      var d := k - HeaderOff(count, i);
      assert k - HeadersOff(count) == 16 * i + d;
      assert (16 * i + d) % 16 == d;
    }
  }

  lemma KeptTwice(p: seq<Byte>, q: seq<Byte>, r: seq<Byte>, len: nat, count: nat)
    requires Kept(p, q, len, count) && Kept(q, r, len, count)
    ensures Kept(p, r, len, count)
  {
    hide PointerByte;
  }

  /** A dword count is not a pointer field, so patching has left it alone. */
  lemma DwordsKept(b: seq<Byte>, whole: seq<Byte>, p: seq<Byte>, i: nat)
    requires Framed(b) && i < Count(b) && |b| <= |whole| && whole[..|b|] == b && Kept(whole, p, |b|, Count(b))
    ensures |p| == |whole| && Word32(p, HeaderOff(Count(b), i) + 4) == Dwords(b, i)
  {
    var o := HeaderOff(Count(b), i) + 4;
    forall k | o <= k < o + 4
      ensures p[k] == b[k]
    {
      assert (k - HeadersOff(Count(b))) % 16 == k - o + 4;
      assert p[k] == whole[k] == whole[..|b|][k];
    }
    assert p[o..o + 4] == b[o..o + 4];
  }

  lemma DataOffNext(b: seq<Byte>, i: nat, base: nat)
    requires Framed(b) && i < Count(b)
    ensures DataOff(b, i + 1) == DataOff(b, i) + 4 * Dwords(b, i)
    ensures DataPointer(b, i, base) == if 4 * Dwords(b, i) == 0 then 0 else base + DataOff(b, i)
  {
  }

  /** One turn of the loop over the chunks; `whole` is the buffer as received. */
  method PatchChunk(payload: array<Byte>, base: nat, count: nat, index: nat, cursor: nat, len: nat, ghost b: seq<Byte>, ghost whole: seq<Byte>)
    returns (fits: bool, end: nat)
    requires Framed(b) && Count(b) == count && index < count && |b| == len <= |whole| == payload.Length && whole[..len] == b
    requires base + payload.Length < ADDRESS_SPACE && cursor == DataOff(b, index) <= len
    requires Kept(whole, payload[..], len, count)
    requires Linked(b, payload[..], base, index)
    modifies payload
    ensures fits <==> DataOff(b, index + 1) <= len
    ensures fits ==> end == DataOff(b, index + 1) && Linked(b, payload[..], base, index + 1)
    ensures Kept(whole, payload[..], len, count)
  {
    hide Framed, Count, DataOff, Dwords, DataPointer, Holds64, Word32, PointerByte, Kept, Linked, Store64;
    HeaderInside(b, index);
    DataOffNext(b, index, base);
    var headerOff := HeadersOff(count) + index * 16;
    FirstPointer(b, whole, payload[..], base, index);
    Put64(payload, ARG + index * 8, base + headerOff);
    ghost var q := payload[..];
    var bytes := 4 * Word32(payload[..], headerOff + 4);
    end := cursor + bytes;
    if end > len {
      return false, end;
    }
    SecondPointer(b, whole, q, base, index);
    Put64(payload, headerOff + 8, if bytes == 0 then 0 else base + cursor);
    return true, end;
  }

  /** After the chunk's entry of the pointer array is stored. */
  lemma FirstPointer(b: seq<Byte>, whole: seq<Byte>, p: seq<Byte>, base: nat, i: nat)
    requires Framed(b) && i < Count(b) && |b| <= |whole| && whole[..|b|] == b && Kept(whole, p, |b|, Count(b))
    requires Linked(b, p, base, i) && base + |whole| < ADDRESS_SPACE
    ensures var q := Store64(p, ARG + 8 * i, base + HeaderOff(Count(b), i));
            && Kept(whole, q, |b|, Count(b)) && Linked(b, q, base, i)
            && Word32(q, HeaderOff(Count(b), i) + 4) == Dwords(b, i)
            && Holds64(q, ARG + 8 * i, base + HeaderOff(Count(b), i))
  {
    var count, off, v := Count(b), ARG + 8 * i, base + HeaderOff(Count(b), i);
    var q := Store64(p, off, v);
    hide Holds64, Word32, Kept, Linked, Store64, Dwords;
    KeptWord(p, |b|, count, off, v);
    KeptTwice(whole, p, q, |b|, count);
    LinkedKept(b, p, base, i, off, v);
    DwordsKept(b, whole, q, i);
    StoreHolds(p, off, v);
  }

  lemma HeaderInside(b: seq<Byte>, i: nat)
    requires Framed(b) && i < Count(b)
    ensures ARG < HeadersOff(Count(b)) < HeaderOff(Count(b), i) + 16 <= DataStart(Count(b)) <= |b|
  {
  }

  /** After the data pointer in the chunk's header is stored. */
  lemma SecondPointer(b: seq<Byte>, whole: seq<Byte>, q: seq<Byte>, base: nat, i: nat)
    requires Framed(b) && i < Count(b) && |b| <= |whole| == |q| && Kept(whole, q, |b|, Count(b))
    requires Linked(b, q, base, i) && DataPointer(b, i, base) < ADDRESS_SPACE
    requires Holds64(q, ARG + 8 * i, base + HeaderOff(Count(b), i))
    ensures var r := Store64(q, HeaderOff(Count(b), i) + 8, DataPointer(b, i, base));
            Kept(whole, r, |b|, Count(b)) && Linked(b, r, base, i + 1)
  {
    hide Holds64, Kept, Linked, Store64, DataPointer, Framed, PointerByte;
    HeaderInside(b, i);
    var count, off, v := Count(b), HeaderOff(Count(b), i) + 8, DataPointer(b, i, base);
    var r := Store64(q, off, v);
    HeaderPointer(count, i);
    KeptWord(q, |b|, count, off, v);
    KeptTwice(whole, q, r, |b|, count);
    LinkedKept(b, q, base, i, off, v);
    StoreHolds(q, off, v);
    StoreElsewhere(q, off, v, ARG + 8 * i, base + HeaderOff(count, i));
    LinkedStep(b, r, base, i);
  }

  /** The `FLAG_CS_AUX` arm: true when the submission goes on to the driver.
      `len` is the payload's length in a larger buffer that starts at `base`. */
  method PatchSubmission(payload: array<Byte>, len: nat, argLen: nat, base: nat) returns (ok: bool)
    requires argLen <= len <= payload.Length && base + payload.Length < ADDRESS_SPACE
    modifies payload
    ensures ok <==> argLen == ARG && Accepted(old(payload[..len]))
    ensures ok ==> Patched(old(payload[..len]), payload[..len], base)
    ensures payload[len..] == old(payload[len..])
    ensures if argLen == ARG && Framed(old(payload[..len]))
            then SameButPointers(old(payload[..len]), payload[..len])
            else payload[..] == old(payload[..])
  {
    ghost var b := payload[..len];
    if argLen != ARG || len < ARG {
      return false;
    }
    assert payload[8..12] == b[8..12];
    var count := Le32(payload[8..12]);
    if count == 0 || count > MAX_CHUNKS || DataStart(count) > len {
      return false;
    }
    ok := PatchFramed(payload, len, count, base, b);
  }

  /** The rest of the arm, once the headers are known to fit. */
  method PatchFramed(payload: array<Byte>, len: nat, count: nat, base: nat, ghost b: seq<Byte>) returns (ok: bool)
    requires len <= payload.Length && base + payload.Length < ADDRESS_SPACE
    requires b == payload[..len] && Framed(b) && Count(b) == count
    modifies payload
    ensures ok <==> Accepted(b)
    ensures ok ==> Patched(b, payload[..len], base)
    ensures SameButPointers(b, payload[..len]) && payload[len..] == old(payload[len..])
  {
    hide Framed, Count, Dwords, DataOff, Holds64, Kept, PointerByte, Linked, Store64;
    ghost var whole := payload[..];
    assert whole[..len] == b;
    Start(b, whole, base);
    var cursor, index, valid := DataStart(count), 0, true;
    Put64(payload, 16, base + ARG);
    while index < count && valid
      invariant 0 <= index <= count
      invariant valid ==> cursor == DataOff(b, index) <= len && Linked(b, payload[..], base, index)
      invariant !valid ==> DataOff(b, count) > len
      invariant Kept(whole, payload[..], len, count)
      decreases count - index
    {
      valid, cursor := PatchChunk(payload, base, count, index, cursor, len, b, whole);
      index := index + 1;
      DataOffMonotone(b, index, count);
    }
    ok := valid && cursor == len;
    KeptMeans(b, whole, payload[..]);
    assert payload[..][..len] == payload[..len] && payload[..][len..] == payload[len..];
    assert whole[len..] == old(payload[len..]);
    if ok {
      LinkedPrefix(b, payload[..], base, count);
    }
  }

  /** After the pointer to the pointer array is stored. */
  lemma Start(b: seq<Byte>, whole: seq<Byte>, base: nat)
    requires Framed(b) && |b| <= |whole| && base + |whole| < ADDRESS_SPACE
    ensures DataOff(b, 0) == DataStart(Count(b)) <= |b| && HeaderOff(Count(b), 0) > ARG
    ensures Kept(whole, Store64(whole, 16, base + ARG), |b|, Count(b))
    ensures Linked(b, Store64(whole, 16, base + ARG), base, 0)
  {
    hide Kept, Holds64, Store64;
    KeptWord(whole, |b|, Count(b), 16, base + ARG);
    StoreHolds(whole, 16, base + ARG);
  }

  lemma KeptMeans(b: seq<Byte>, whole: seq<Byte>, p: seq<Byte>)
    requires Framed(b) && |b| <= |whole| && whole[..|b|] == b && Kept(whole, p, |b|, Count(b))
    ensures |p| == |whole| && SameButPointers(b, p[..|b|]) && p[|b|..] == whole[|b|..]
  {
    hide PointerByte;
    forall k | 0 <= k < |b| && !PointerByte(Count(b), k)
      ensures p[..|b|][k] == b[k]
    {
      assert p[k] == whole[k] == whole[..|b|][k];
    }
  }

  // ---- Buffer lists -------------------------------------------------------

  /** The `FLAG_BO_LIST_AUX` arm: the entries follow the argument record, and its
      pointer field is made to point at them. */
  method PatchBufferList(payload: array<Byte>, len: nat, argLen: nat, base: nat) returns (ok: bool)
    requires argLen <= len <= payload.Length && base + payload.Length < ADDRESS_SPACE
    modifies payload
    ensures ok <==>
            argLen == ARG && ARG + (Word32(old(payload[..len]), 8) as nat) * (Word32(old(payload[..len]), 12) as nat) == len
    ensures ok ==>
            && payload[..] == Store64(old(payload[..]), 16, if len == ARG then 0 else base + ARG)
            && Holds64(payload[..], 16, if len == ARG then 0 else base + ARG)
    ensures !ok ==> payload[..] == old(payload[..])
  {
    hide Store64, Holds64;
    if argLen != ARG || len < ARG {
      return false;
    }
    assert payload[..len][8..12] == payload[8..12] && payload[..len][12..16] == payload[12..16];
    var count, entrySize := Le32(payload[8..12]), Le32(payload[12..16]);
    if count * entrySize + argLen != len {
      return false;
    }
    var pointer := if len == argLen then 0 else base + argLen;
    StoreHolds(payload[..], 16, pointer);
    Put64(payload, 16, pointer);
    return true;
  }
}
