/** Command submissions on their way from a client to the GPU driver.

    The kernel (kernel/src/gpu_render.rs) copies the pointer graph of a client's
    submission into one flat payload; the driver daemon (amdgpud/src/main.rs)
    patches that payload in place into an equal graph in its own memory. */
module RenderMarshal {
  import opened Wrappers
  import opened Bytes

  datatype Error = EINVAL | E2BIG | EFAULT

  datatype Result<+T> = Ok(value: T) | Err(error: Error)

  const MAX_PAYLOAD: nat := 0x1_0000
  const MAX_CHUNKS: nat := 64
  /** The argument record: word 8 is the chunk count, word 16 the pointer array. */
  const ARG: nat := 24

  // ---- Pointer graphs -----------------------------------------------------

  /** The bytes that can be read in an address space. */
  type Memory = map<nat, Byte>

  function Read(mem: Memory, addr: nat, len: nat): (r: Option<seq<Byte>>)
    ensures r.Some? ==> |r.value| == len
    ensures len == 0 ==> r == Some([])
  {
    if forall k :: addr <= k < addr + len ==> k in mem
    then Some(seq(len, i requires 0 <= i < len && (forall k :: addr <= k < addr + len ==> k in mem) => mem[addr + i]))
    else None
  }

  function Word32(b: seq<Byte>, off: nat): U32
    requires off + 4 <= |b|
  {
    Le32(b[off..off + 4])
  }

  function Word64(b: seq<Byte>, off: nat): U64
    requires off + 8 <= |b|
  {
    Le64(b[off..off + 8])
  }

  datatype Chunk = Chunk(id: U32, data: seq<Byte>)

  /** The chunk whose 16-byte header (id, dwords, data pointer) is at `p`. */
  function ChunkAt(mem: Memory, p: nat): Option<Chunk> {
    match Read(mem, p, 16)
    case None => None
    case Some(h) =>
      match Read(mem, Word64(h, 8), 4 * Word32(h, 4))
      case None => None
      case Some(data) => Some(Chunk(Word32(h, 0), data))
  }

  /** The chunks behind the first `n` pointers. */
  function ChunksAt(mem: Memory, pointers: seq<Byte>, n: nat): (r: Option<seq<Chunk>>)
    requires 8 * n <= |pointers|
    ensures r.Some? ==> |r.value| == n
  {
    if n == 0 then Some([])
    else
      match ChunksAt(mem, pointers, n - 1)
      case None => None
      case Some(before) =>
        match ChunkAt(mem, Word64(pointers, 8 * (n - 1)))
        case None => None
        case Some(c) => Some(before + [c])
  }

  /** What a submission means: its chunks, found by following the pointers. */
  function Submission(mem: Memory, arg: seq<Byte>): Option<seq<Chunk>>
    requires |arg| == ARG
  {
    match Read(mem, Word64(arg, 16), 8 * Word32(arg, 8))
    case None => None
    case Some(pointers) => ChunksAt(mem, pointers, Word32(arg, 8))
  }

  // ---- The flat layout ----------------------------------------------------

  function Count(b: seq<Byte>): nat
    requires |b| >= ARG
  {
    Word32(b, 8)
  }

  function HeadersOff(count: nat): nat {
    ARG + 8 * count
  }

  function DataStart(count: nat): nat {
    ARG + 24 * count
  }

  function HeaderOff(count: nat, i: nat): nat {
    HeadersOff(count) + 16 * i
  }

  /** The payload has room for the pointers and the headers. */
  predicate Framed(b: seq<Byte>) {
    |b| >= ARG && 1 <= Count(b) <= MAX_CHUNKS && DataStart(Count(b)) <= |b|
  }

  function Dwords(b: seq<Byte>, i: nat): nat
    requires Framed(b) && i < Count(b)
  {
    Word32(b, HeaderOff(Count(b), i) + 4)
  }

  /** Where the data of chunk `i` starts: the data ranges follow one another. */
  function DataOff(b: seq<Byte>, i: nat): (r: nat)
    requires Framed(b) && i <= Count(b)
    ensures r >= DataStart(Count(b))
  {
    if i == 0 then DataStart(Count(b)) else DataOff(b, i - 1) + 4 * Dwords(b, i - 1)
  }

  /** The headers describe exactly the rest of the payload. */
  predicate Accepted(b: seq<Byte>) {
    Framed(b) && DataOff(b, Count(b)) == |b|
  }

  lemma {:induction false} DataOffMonotone(b: seq<Byte>, i: nat, j: nat)
    requires Framed(b) && i <= j <= Count(b)
    ensures DataOff(b, i) <= DataOff(b, j)
    decreases j
  {
    hide Framed, Dwords;
    if i < j {
      DataOffMonotone(b, i, j - 1);
    }
  }

  /** The dwords of the first `n` chunks. */
  function SumDwords(b: seq<Byte>, n: nat): nat
    requires Framed(b) && n <= Count(b)
  {
    if n == 0 then 0 else SumDwords(b, n - 1) + Dwords(b, n - 1)
  }

  /** Acceptance as one equation. */
  lemma AcceptedIffSizesAddUp(b: seq<Byte>)
    requires Framed(b)
    ensures Accepted(b) <==> ARG + 24 * Count(b) + 4 * SumDwords(b, Count(b)) == |b|
  {
    DataOffIsSum(b, Count(b));
  }

  lemma {:induction false} DataOffIsSum(b: seq<Byte>, n: nat)
    requires Framed(b) && n <= Count(b)
    ensures DataOff(b, n) == ARG + 24 * Count(b) + 4 * SumDwords(b, n)
  {
    if n > 0 {
      DataOffIsSum(b, n - 1);
    }
  }

  predicate InData(b: seq<Byte>, i: nat, k: nat)
    requires Framed(b)
  {
    i < Count(b) && DataOff(b, i) <= k < DataOff(b, i + 1)
  }

  /** The data ranges tile the rest of an accepted payload: each of its bytes is
      in exactly one range, and no range leaves it. */
  lemma DataTiles(b: seq<Byte>, k: nat)
    requires Accepted(b)
    ensures DataStart(Count(b)) <= k < |b| <==> exists i: nat :: InData(b, i, k)
    ensures forall i: nat, j: nat :: InData(b, i, k) && InData(b, j, k) ==> i == j
  {
    hide Framed, Dwords, DataOff;
    if DataStart(Count(b)) <= k < |b| {
      var i := DataCovers(b, Count(b), k);
    }
    forall i: nat, j: nat | InData(b, i, k) && InData(b, j, k)
      ensures i == j && DataStart(Count(b)) <= k < |b|
    {
      DataOffMonotone(b, i + 1, Count(b));
      if i < j {
        DataOffMonotone(b, i + 1, j);
      } else if j < i {
        DataOffMonotone(b, j + 1, i);
      }
    }
  }

  lemma {:induction false} DataCovers(b: seq<Byte>, n: nat, k: nat) returns (i: nat)
    requires Framed(b) && n <= Count(b) && DataStart(Count(b)) <= k < DataOff(b, n)
    ensures InData(b, i, k)
  {
    hide Framed, Dwords;
    if k >= DataOff(b, n - 1) {
      i := n - 1;
    } else {
      i := DataCovers(b, n - 1, k);
    }
  }

  lemma DataWithin(b: seq<Byte>, i: nat)
    requires Accepted(b) && i < Count(b)
    ensures DataOff(b, i) <= DataOff(b, i + 1) <= |b|
  {
    hide Framed, Dwords, DataOff;
    DataOffMonotone(b, i, i + 1);
    DataOffMonotone(b, i + 1, Count(b));
  }

  /** Chunk `i` of a payload, by offsets alone. */
  function FlatChunk(b: seq<Byte>, i: nat): Chunk
    requires Accepted(b) && i < Count(b)
  {
    DataWithin(b, i);
    Chunk(Word32(b, HeaderOff(Count(b), i)), b[DataOff(b, i)..DataOff(b, i + 1)])
  }
}
