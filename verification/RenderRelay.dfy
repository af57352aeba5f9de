/** A command submission end to end: what the driver finds behind the patched
    pointers is what the client had behind its own. */
module RenderRelay {
  import opened Wrappers
  import opened Bytes
  import opened RenderMarshal
  import opened RenderPatch

  /** The chunks of a payload, by offsets alone. */
  function Flat(b: seq<Byte>): (r: seq<Chunk>)
    requires Accepted(b)
    ensures |r| == Count(b) && forall i :: 0 <= i < |r| ==> r[i] == FlatChunk(b, i)
  {
    seq(Count(b), i requires 0 <= i < Count(b) => FlatChunk(b, i))
  }

  // ---- The patched payload ------------------------------------------------

  /** A buffer as it is seen in its process's address space. */
  function Mapped(p: seq<Byte>, base: nat): Memory {
    map k: nat | base <= k < base + |p| && Inside(k, p, base) :: p[k - base]
  }

  predicate Inside(k: nat, p: seq<Byte>, base: nat) {
    base <= k < base + |p|
  }

  lemma Subslice(s: seq<Byte>, lo: nat, n: nat, from: nat, m: nat)
    requires lo + n <= |s| && from + m <= n
    ensures s[lo..lo + n][from..from + m] == s[lo + from..lo + from + m]
  {
    var part, sub := s[lo..lo + n], s[lo + from..lo + from + m];
    forall k | 0 <= k < m
      ensures part[from..from + m][k] == sub[k]
    {
      assert part[from + k] == s[lo + from + k];
    }
  }

  lemma ReadMapped(p: seq<Byte>, base: nat, off: nat, n: nat)
    requires off + n <= |p|
    ensures Read(Mapped(p, base), base + off, n) == Some(p[off..off + n])
  {
    var mem := Mapped(p, base);
    assert forall k: nat :: base + off <= k < base + off + n ==> Inside(k, p, base) && k in mem;
    assert Read(mem, base + off, n).value == p[off..off + n];
  }

  /** Words outside the pointer fields read the same before and after. */
  lemma SameWord(b: seq<Byte>, p: seq<Byte>, off: nat, n: nat)
    requires Framed(b) && SameButPointers(b, p) && off + n <= |b|
    requires forall k :: off <= k < off + n ==> !PointerByte(Count(b), k)
    ensures p[off..off + n] == b[off..off + n]
  {
    hide PointerByte, Count, Framed;
  }

  lemma HeaderFields(count: nat, i: nat)
    requires i < count
    ensures forall k :: HeaderOff(count, i) <= k < HeaderOff(count, i) + 8 ==> !PointerByte(count, k)
  {
    forall k | HeaderOff(count, i) <= k < HeaderOff(count, i) + 8
      ensures !PointerByte(count, k)
    {
      var d := k - HeaderOff(count, i);
      assert (16 * i + d) % 16 == d;
    }
  }

  /** Following the patched pointer to a header gives the payload's chunk. */
  lemma PatchedChunk(b: seq<Byte>, p: seq<Byte>, base: nat, i: nat)
    requires Accepted(b) && Patched(b, p, base) && i < Count(b)
    ensures ChunkAt(Mapped(p, base), base + HeaderOff(Count(b), i)) == Some(FlatChunk(b, i))
  {
    hide Framed, Count, PointerByte, SameButPointers, Mapped, Read, Dwords, DataOff, Le32, Le64;
    HeaderInside(b, i);
    DataWithin(b, i);
    DataOffNext(b, i, base);
    var count, o := Count(b), HeaderOff(Count(b), i);
    SizeKept(b, p);
    ReadMapped(p, base, o, 16);
    var h := p[o..o + 16];
    HeaderWords(b, p, i);
    assert Holds64(p, o + 8, DataPointer(b, i, base));
    Subslice(p, o, 16, 8, 8);
    if Dwords(b, i) > 0 {
      ReadMapped(p, base, DataOff(b, i), 4 * Dwords(b, i));
      DataFields(b, p, i);
    }
  }

  lemma FramedSizes(b: seq<Byte>)
    requires Framed(b)
    ensures Count(b) > 0 && ARG < HeadersOff(Count(b)) <= DataStart(Count(b)) <= |b|
  {
  }

  lemma SizeKept(b: seq<Byte>, p: seq<Byte>)
    requires Framed(b) && SameButPointers(b, p)
    ensures |p| == |b|
  {
  }

  lemma HeaderWords(b: seq<Byte>, p: seq<Byte>, i: nat)
    requires Framed(b) && SameButPointers(b, p) && i < Count(b)
    ensures var o := HeaderOff(Count(b), i);
            && |p| == |b| && o + 16 <= |b|
            && Word32(p[o..o + 16], 0) == Word32(b, o) && Word32(p[o..o + 16], 4) == Dwords(b, i)
  {
    hide PointerByte, SameButPointers;
    HeaderInside(b, i);
    SizeKept(b, p);
    var o := HeaderOff(Count(b), i);
    HeaderFields(Count(b), i);
    SameWord(b, p, o, 4);
    SameWord(b, p, o + 4, 4);
    Subslice(p, o, 16, 0, 4);
    Subslice(p, o, 16, 4, 4);
  }

  lemma DataFields(b: seq<Byte>, p: seq<Byte>, i: nat)
    requires Accepted(b) && SameButPointers(b, p) && i < Count(b)
    ensures |p| == |b| && DataOff(b, i) <= DataOff(b, i + 1) <= |b|
    ensures p[DataOff(b, i)..DataOff(b, i + 1)] == b[DataOff(b, i)..DataOff(b, i + 1)]
  {
    hide Dwords;
    DataWithin(b, i);
    var lo, n := DataOff(b, i), DataOff(b, i + 1) - DataOff(b, i);
    SameWord(b, p, lo, n);
  }

  lemma {:induction false} PatchedChunks(b: seq<Byte>, p: seq<Byte>, base: nat, n: nat)
    requires Accepted(b) && Patched(b, p, base) && n <= Count(b)
    ensures HeadersOff(Count(b)) <= |p| && ChunksAt(Mapped(p, base), p[ARG..HeadersOff(Count(b))], n) == Some(Flat(b)[..n])
  {
    hide ChunkAt, SameButPointers, Mapped, DataOff, Dwords, PointerByte, Framed, Count, DataPointer, FlatChunk, Flat, Le64;
    FramedSizes(b);
    SizeKept(b, p);
    var pointers := p[ARG..HeadersOff(Count(b))];
    if n > 0 {
      var i := n - 1;
      PatchedChunks(b, p, base, i);
      PatchedChunk(b, p, base, i);
      assert Holds64(p, ARG + 8 * i, base + HeaderOff(Count(b), i));
      Subslice(p, ARG, 8 * Count(b), 8 * i, 8);
      assert Flat(b)[..n] == Flat(b)[..i] + [FlatChunk(b, i)];
    }
  }

  /** The submission behind the patched pointers is the payload's chunks. */
  lemma PatchedMeans(b: seq<Byte>, p: seq<Byte>, base: nat)
    requires Accepted(b) && Patched(b, p, base)
    ensures |p| >= ARG && Submission(Mapped(p, base), p[..ARG]) == Some(Flat(b))
  {
    hide Mapped, Flat, ChunksAt, DataOff, Dwords;
    SizeKept(b, p);
    var arg := p[..ARG];
    SameWord(b, p, 8, 4);
    assert arg[8..12] == p[8..12] && arg[16..24] == p[16..24];
    assert Holds64(p, 16, base + ARG);
    ReadMapped(p, base, ARG, 8 * Count(b));
    PatchedChunks(b, p, base, Count(b));
    assert Flat(b)[..Count(b)] == Flat(b);
  }

  // ---- The kernel's copy --------------------------------------------------

  function DataBytes(chunks: seq<Chunk>): nat {
    if chunks == [] then 0 else DataBytes(chunks[..|chunks| - 1]) + |chunks[|chunks| - 1].data|
  }

  /** The first `|chunks|` chunks are in place and nothing follows them. */
  ghost predicate Laid(b: seq<Byte>, chunks: seq<Chunk>) {
    && Framed(b) && |chunks| <= Count(b) && DataOff(b, |chunks|) == |b|
    && forall i :: 0 <= i < |chunks| ==> LaidAt(b, i, chunks[i])
  }

  ghost predicate LaidAt(b: seq<Byte>, i: nat, c: Chunk)
    requires Framed(b)
  {
    && i < Count(b) && DataOff(b, i) <= DataOff(b, i + 1) <= |b|
    && Word32(b, HeaderOff(Count(b), i)) == c.id && b[DataOff(b, i)..DataOff(b, i + 1)] == c.data
  }

  /** More data changes neither the header words nor the offsets. */
  lemma {:induction false} DataOffExtends(b: seq<Byte>, more: seq<Byte>, n: nat)
    requires Framed(b) && n <= Count(b)
    ensures Framed(b + more) && Count(b + more) == Count(b) && DataOff(b + more, n) == DataOff(b, n)
    ensures n < Count(b) ==> Dwords(b + more, n) == Dwords(b, n)
    ensures n < Count(b) ==> Word32(b + more, HeaderOff(Count(b), n)) == Word32(b, HeaderOff(Count(b), n))
    decreases n
  {
    hide Le32;
    var c := b + more;
    assert c[8..12] == b[8..12];
    if n < Count(b) {
      HeaderInside(b, n);
      var o := HeaderOff(Count(b), n);
      assert c[o + 4..o + 8] == b[o + 4..o + 8] && c[o..o + 4] == b[o..o + 4];
    }
    if n > 0 {
      DataOffExtends(b, more, n - 1);
    }
  }

  lemma LaidAtExtends(b: seq<Byte>, more: seq<Byte>, i: nat, c: Chunk)
    requires Framed(b) && LaidAt(b, i, c)
    ensures Framed(b + more) && LaidAt(b + more, i, c)
  {
    hide Framed, Count, DataOff, Dwords, Word32;
    DataOffExtends(b, more, i);
    DataOffExtends(b, more, i + 1);
    assert (b + more)[DataOff(b, i)..DataOff(b, i + 1)] == b[DataOff(b, i)..DataOff(b, i + 1)];
  }

  /** Appending the data of the next chunk. */
  lemma LaidStep(b: seq<Byte>, chunks: seq<Chunk>, data: seq<Byte>)
    requires Laid(b, chunks) && |chunks| < Count(b) && |data| == 4 * Dwords(b, |chunks|)
    ensures Laid(b + data, chunks + [Chunk(Word32(b, HeaderOff(Count(b), |chunks|)), data)])
  {
    hide Framed, Count, DataOff, Dwords, Word32, LaidAt;
    var n, c := |chunks|, b + data;
    var next := Chunk(Word32(b, HeaderOff(Count(b), n)), data);
    DataOffExtends(b, data, n);
    DataOffExtends(b, data, n + 1);
    DataOffNext(b, n, 0);
    forall i | 0 <= i < n
      ensures LaidAt(c, i, chunks[i])
    {
      LaidAtExtends(b, data, i, chunks[i]);
    }
    LaidNext(b, data, n);
  }

  lemma LaidNext(b: seq<Byte>, data: seq<Byte>, n: nat)
    requires Framed(b) && n < Count(b) && DataOff(b, n) == |b| && |data| == 4 * Dwords(b, n)
    ensures Framed(b + data) && LaidAt(b + data, n, Chunk(Word32(b, HeaderOff(Count(b), n)), data))
  {
    hide Framed, Count, DataOff, Dwords, Word32;
    var c := b + data;
    DataOffExtends(b, data, n);
    DataOffExtends(b, data, n + 1);
    DataOffNext(b, n, 0);
    assert c[|b|..|c|] == data;
  }

  lemma LaidIsFlat(b: seq<Byte>, chunks: seq<Chunk>)
    requires Laid(b, chunks) && |chunks| == Count(b)
    ensures Accepted(b) && Flat(b) == chunks
  {
    hide Framed, Count, DataOff, Dwords, Word32, Flat;
    forall i | 0 <= i < |chunks|
      ensures Flat(b)[i] == chunks[i]
    {
      assert LaidAt(b, i, chunks[i]);
    }
  }

  /** One unreadable chunk makes the whole submission unreadable. */
  lemma {:induction false} UnreadableChunk(mem: Memory, pointers: seq<Byte>, i: nat, n: nat)
    requires 8 * n <= |pointers| && i < n && ChunkAt(mem, Word64(pointers, 8 * i)).None?
    ensures ChunksAt(mem, pointers, n).None?
  {
    hide ChunkAt, Word64;
    if i < n - 1 {
      UnreadableChunk(mem, pointers, i, n - 1);
    }
  }

  /** The chunks of a readable submission start with those read so far. */
  lemma {:induction false} ReadSoFar(mem: Memory, pointers: seq<Byte>, i: nat, n: nat)
    requires 8 * n <= |pointers| && i <= n && ChunksAt(mem, pointers, n).Some?
    ensures ChunksAt(mem, pointers, i).Some?
    ensures DataBytes(ChunksAt(mem, pointers, i).value) <= DataBytes(ChunksAt(mem, pointers, n).value)
  {
    hide ChunkAt, Word64;
    if i < n {
      ReadSoFar(mem, pointers, i, n - 1);
      var all := ChunksAt(mem, pointers, n).value;
      assert all[..n - 1] == ChunksAt(mem, pointers, n - 1).value;
    }
  }

  /** Every pointer of the array leads to the header that was copied. */
  ghost predicate HeadersCopied(mem: Memory, pointers: seq<Byte>, headers: seq<Byte>, n: nat)
    requires 8 * n <= |pointers| && 16 * n <= |headers|
  {
    forall i :: 0 <= i < n ==> Read(mem, Word64(pointers, 8 * i), 16) == Some(headers[16 * i..16 * i + 16])
  }

  method CopyHeaders(mem: Memory, pointers: seq<Byte>, count: nat) returns (headers: Option<seq<Byte>>)
    requires |pointers| == 8 * count
    ensures headers.Some? ==> |headers.value| == 16 * count && HeadersCopied(mem, pointers, headers.value, count)
    ensures headers.None? ==> ChunksAt(mem, pointers, count).None?
  {
    hide Read, Word64;
    var out: seq<Byte> := [];
    for i := 0 to count
      invariant |out| == 16 * i && HeadersCopied(mem, pointers, out, i)
    {
      var header := Read(mem, Word64(pointers, 8 * i), 16);
      if header.None? {
        UnreadableChunk(mem, pointers, i, count);
        return None;
      }
      ghost var before := out;
      out := out + header.value;
      forall j | 0 <= j < i + 1
        ensures Read(mem, Word64(pointers, 8 * j), 16) == Some(out[16 * j..16 * j + 16])
      {
        if j < i {
          assert out[16 * j..16 * j + 16] == before[16 * j..16 * j + 16];
        } else {
          assert out[16 * i..16 * i + 16] == header.value;
        }
      }
    }
    return Some(out);
  }

  /** Argument, pointer array and headers, before any data. */
  ghost predicate Headed(mem: Memory, b: seq<Byte>) {
    && Framed(b) && |b| == DataStart(Count(b))
    && forall i :: 0 <= i < Count(b) ==> HeadedAt(mem, b, i)
  }

  ghost predicate HeadedAt(mem: Memory, b: seq<Byte>, i: nat)
    requires Framed(b) && i < Count(b)
  {
    HeaderInside(b, i);
    Read(mem, Word64(b, ARG + 8 * i), 16) == Some(b[HeaderOff(Count(b), i)..HeaderOff(Count(b), i) + 16])
  }

  /** Reading chunk `i` from the client comes down to reading its data. */
  lemma ChunkFromHeader(mem: Memory, b: seq<Byte>, i: nat)
    requires Headed(mem, b) && i < Count(b)
    ensures ARG + 8 * i + 8 <= |b| && HeaderOff(Count(b), i) + 16 <= |b|
    ensures ChunkAt(mem, Word64(b, ARG + 8 * i)) ==
            match Read(mem, Word64(b, HeaderOff(Count(b), i) + 8), 4 * Dwords(b, i))
            case None => None
            case Some(data) => Some(Chunk(Word32(b, HeaderOff(Count(b), i)), data))
  {
    hide Read, Framed, Count, Le32, Le64;
    HeaderInside(b, i);
    assert HeadedAt(mem, b, i);
    var o := HeaderOff(Count(b), i);
    Subslice(b, o, 16, 0, 4);
    Subslice(b, o, 16, 4, 4);
    Subslice(b, o, 16, 8, 8);
  }

  lemma PointerInArray(b: seq<Byte>, i: nat)
    requires Framed(b) && i < Count(b)
    ensures HeadersOff(Count(b)) <= |b| && 8 * i + 8 <= 8 * Count(b)
    ensures Word64(b[ARG..HeadersOff(Count(b))], 8 * i) == Word64(b, ARG + 8 * i)
  {
    hide Le64;
    Subslice(b, ARG, 8 * Count(b), 8 * i, 8);
  }

  /** The client's chunks as far as pointer `n`. */
  ghost function Chunks(mem: Memory, b: seq<Byte>, n: nat): (r: Option<seq<Chunk>>)
    requires Framed(b) && n <= Count(b)
    ensures r.Some? ==> |r.value| == n
  {
    ChunksAt(mem, b[ARG..HeadersOff(Count(b))], n)
  }

  /** The next chunk, when its data can be read. */
  lemma ChunksStep(mem: Memory, b: seq<Byte>, n: nat, data: Option<seq<Byte>>)
    requires Headed(mem, b) && n < Count(b) && Chunks(mem, b, n).Some?
    requires HeaderOff(Count(b), n) + 16 <= |b| && data == Read(mem, Word64(b, HeaderOff(Count(b), n) + 8), 4 * Dwords(b, n))
    ensures data.None? ==> Chunks(mem, b, Count(b)).None?
    ensures data.Some? ==>
              var next := Chunks(mem, b, n).value + [Chunk(Word32(b, HeaderOff(Count(b), n)), data.value)];
              && Chunks(mem, b, n + 1) == Some(next)
              && DataBytes(next) == DataBytes(Chunks(mem, b, n).value) + |data.value|
    ensures Chunks(mem, b, Count(b)).Some? ==>
              DataBytes(Chunks(mem, b, Count(b)).value) >= DataBytes(Chunks(mem, b, n).value) + 4 * Dwords(b, n)
  {
    hide Read, Framed, Count, Dwords, Word64, Word32, HeadedAt;
    var count := Count(b);
    PointerInArray(b, n);
    ChunkFromHeader(mem, b, n);
    var pointers := b[ARG..HeadersOff(count)];
    if data.None? {
      UnreadableChunk(mem, pointers, n, count);
    } else {
      var before, c := Chunks(mem, b, n).value, Chunk(Word32(b, HeaderOff(count, n)), data.value);
      assert (before + [c])[..n] == before;
      if Chunks(mem, b, count).Some? {
        ReadSoFar(mem, pointers, n + 1, count);
      }
    }
  }

  method CopyData(mem: Memory, b: seq<Byte>, count: nat) returns (r: Result<seq<Byte>>)
    requires Headed(mem, b) && Count(b) == count
    ensures r.Ok? ==>
              var all := Chunks(mem, b, count);
              && all.Some? && Laid(r.value, all.value) && Count(r.value) == count
              && |r.value| == DataStart(count) + DataBytes(all.value) <= MAX_PAYLOAD
              && r.value[..ARG] == b[..ARG]
    ensures r.Err? ==>
              var all := Chunks(mem, b, count);
              r.error != EINVAL && (all.Some? ==> r.error == E2BIG && DataStart(count) + DataBytes(all.value) > MAX_PAYLOAD)
  {
    hide Read, Framed, Count, Dwords, Word32, Word64, HeadedAt, LaidAt, DataOff, DataBytes, Chunks;
    var payload := b;
    assert payload == b + [];
    ghost var chunks: seq<Chunk> := [];
    NothingYet(mem, b);
    for i := 0 to count
      invariant Chunks(mem, b, i) == Some(chunks) && Laid(payload, chunks) && Count(payload) == count
      invariant |b| <= |payload| == DataStart(count) + DataBytes(chunks)
      invariant payload == b + payload[|b|..]
      invariant i > 0 ==> |payload| <= MAX_PAYLOAD
    {
      var header := HeaderOff(count, i);
      HeaderInside(b, i);
      DataOffExtends(b, payload[|b|..], i);
      DwordsWord(payload, i);
      var bytes := 4 * Word32(payload, header + 4);
      var end := |payload| + bytes;
      var data := Read(mem, Word64(b, header + 8), bytes);
      ChunksStep(mem, b, i, data);
      if end > MAX_PAYLOAD {
        return Err(E2BIG);
      }
      if data.None? {
        return Err(EFAULT);
      }
      LaidStep(payload, chunks, data.value);
      DataOffExtends(payload, data.value, i);
      chunks := chunks + [Chunk(Word32(payload, header), data.value)];
      payload := payload + data.value;
    }
    return Ok(payload);
  }

  lemma DwordsWord(b: seq<Byte>, i: nat)
    requires Framed(b) && i < Count(b)
    ensures HeaderOff(Count(b), i) + 16 <= |b| && Word32(b, HeaderOff(Count(b), i) + 4) == Dwords(b, i)
  {
  }

  lemma NothingYet(mem: Memory, b: seq<Byte>)
    requires Headed(mem, b)
    ensures Chunks(mem, b, 0) == Some([]) && Laid(b, []) && DataBytes([]) == 0 && 0 < Count(b)
  {
  }

  // ---- End to end ---------------------------------------------------------

  /** The kernel takes a submission: its chunks are readable and fit. */
  ghost predicate Marshals(mem: Memory, arg: seq<Byte>)
    requires |arg| == ARG
  {
    var all := Submission(mem, arg);
    1 <= Count(arg) <= MAX_CHUNKS && all.Some? && DataStart(Count(arg)) + DataBytes(all.value) <= MAX_PAYLOAD
  }

  lemma HeadedLayout(mem: Memory, arg: seq<Byte>, pointers: seq<Byte>, headers: seq<Byte>)
    requires |arg| == ARG && 1 <= Count(arg) <= MAX_CHUNKS
    requires |pointers| == 8 * Count(arg) && |headers| == 16 * Count(arg)
    requires HeadersCopied(mem, pointers, headers, Count(arg))
    ensures var b := arg + pointers + headers;
            && Headed(mem, b) && Count(b) == Count(arg)
            && b[..ARG] == arg && b[ARG..HeadersOff(Count(b))] == pointers
  {
    hide Read, Le32, Le64;
    var b := arg + pointers + headers;
    assert b[8..12] == arg[8..12];
    var count := Count(b);
    assert b[ARG..HeadersOff(count)] == pointers;
    assert b[HeadersOff(count)..] == headers;
    forall i | 0 <= i < count
      ensures HeadedAt(mem, b, i)
    {
      PointerInArray(b, i);
      Subslice(b, HeadersOff(count), 16 * count, 16 * i, 16);
      assert b[HeadersOff(count)..HeadersOff(count) + 16 * count] == headers;
    }
  }

  /** The kernel's marshaller for a command submission. With at most 64 chunks the
      argument, pointers and headers alone never exceed the payload limit. */
  method MarshalSubmission(mem: Memory, arg: seq<Byte>) returns (r: Result<seq<Byte>>)
    requires |arg| == ARG
    ensures r.Ok? <==> Marshals(mem, arg)
    ensures r.Ok? ==> Accepted(r.value) && Some(Flat(r.value)) == Submission(mem, arg)
    ensures r.Ok? ==> |r.value| <= MAX_PAYLOAD && r.value[..ARG] == arg
    ensures r == Err(EINVAL) <==> !(1 <= Count(arg) <= MAX_CHUNKS)
    ensures r == Err(EFAULT) ==> Submission(mem, arg).None?
  {
    hide Read, Word64, HeadedAt, ChunksAt, DataBytes, DataOff, HeadersCopied, Flat;
    var count := Word32(arg, 8);
    if count == 0 || count > MAX_CHUNKS {
      return Err(EINVAL);
    }
    var pointers := Read(mem, Word64(arg, 16), 8 * count);
    if pointers.None? {
      return Err(EFAULT);
    }
    var headers := CopyHeaders(mem, pointers.value, count);
    if headers.None? {
      return Err(EFAULT);
    }
    HeadedLayout(mem, arg, pointers.value, headers.value);
    r := CopyData(mem, arg + pointers.value + headers.value, count);
    if r.Ok? {
      LaidIsFlat(r.value, Submission(mem, arg).value);
    }
  }

  /** A submission that the kernel takes is accepted by the daemon, and nothing
      else is. Seen from the daemon, the `len` bytes of its payload then denote
      the client's chunks. */
  method Relay(mem: Memory, arg: seq<Byte>, buffer: array<Byte>, base: nat) returns (dispatched: bool, len: nat)
    requires |arg| == ARG && buffer.Length == MAX_PAYLOAD && base + MAX_PAYLOAD < ADDRESS_SPACE
    modifies buffer
    ensures dispatched <==> Marshals(mem, arg)
    ensures dispatched ==> ARG <= len <= MAX_PAYLOAD && buffer[..16] == arg[..16]
    ensures dispatched ==> Submission(Mapped(buffer[..len], base), buffer[..ARG]) == Submission(mem, arg)
  {
    hide Marshals, Submission, Flat, Patched, DataOff;
    var r := MarshalSubmission(mem, arg);
    if r.Err? {
      return false, 0;
    }
    len := |r.value|;
    for i := 0 to len
      invariant buffer[..i] == r.value[..i]
    {
      buffer[i] := r.value[i];
    }
    assert buffer[..len] == r.value;
    dispatched := PatchSubmission(buffer, len, ARG, base);
    Delivered(r.value, buffer[..len], base);
    assert buffer[..len][..ARG] == buffer[..ARG] && buffer[..len][..16] == buffer[..16];
    assert r.value[..ARG][..16] == r.value[..16];
  }

  lemma Delivered(b: seq<Byte>, p: seq<Byte>, base: nat)
    requires Accepted(b) && Patched(b, p, base)
    ensures |p| == |b| >= 16 && p[..16] == b[..16]
    ensures |p| >= ARG && Submission(Mapped(p, base), p[..ARG]) == Some(Flat(b))
  {
    hide Submission, Flat, DataOff, Dwords;
    SizeKept(b, p);
    SameWord(b, p, 0, 16);
    PatchedMeans(b, p, base);
  }
}
