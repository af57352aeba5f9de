/** The ACPI table dump of kernel/src/acpi_full.rs: base64 rows in the boot log,
    within a shared budget. */
module AcpiDump {
  import opened Arithmetic
  import opened Bytes

  const NEWLINE: Byte := 0x0A
  const EQUALS: Byte := 0x3D
  const DUMP_BUDGET: nat := 600 * 1024
  const ROW_BYTES: nat := 57

  // ---- Base64 (section 4 of RFC 4648) -------------------------------------

  function Symbol(v: nat): (s: Byte)
    requires v < 64
    ensures s != NEWLINE && s != EQUALS
  {
    if v < 26 then 0x41 + v
    else if v < 52 then 0x61 + (v - 26)
    else if v < 62 then 0x30 + (v - 52)
    else if v == 62 then 0x2B
    else 0x2F
  }

  /** The characters of Table 1 of RFC 4648: letters, digits, plus and slash. */
  lemma SymbolIsAlphabet(v: nat)
    requires v < 64
    ensures v < 26 ==> Symbol(v) == 'A' as int + v
    ensures 26 <= v < 52 ==> Symbol(v) == 'a' as int + (v - 26)
    ensures 52 <= v < 62 ==> Symbol(v) == '0' as int + (v - 52)
    ensures Symbol(62) == '+' as int && Symbol(63) == '/' as int && EQUALS == '=' as int
  {
  }

  /** The value of an alphabet character; other bytes have none. */
  function SymbolValue(s: Byte): nat {
    if 0x41 <= s <= 0x5A then s - 0x41
    else if 0x61 <= s <= 0x7A then s - 0x61 + 26
    else if 0x30 <= s <= 0x39 then s - 0x30 + 52
    else if s == 0x2B then 62
    else 63
  }

  lemma SymbolRoundTrip(v: nat)
    requires v < 64
    ensures SymbolValue(Symbol(v)) == v
  {
  }

  /** The 24 bits of a chunk, missing bytes being zero. */
  function Bits(chunk: seq<Byte>): (n: nat)
    requires 1 <= |chunk| <= 3
    ensures n < 0x100_0000
  {
    var b1: nat := if |chunk| > 1 then chunk[1] else 0;
    var b2: nat := if |chunk| > 2 then chunk[2] else 0;
    0x1_0000 * (chunk[0] as nat) + 0x100 * b1 + b2
  }

  function EncodeChunk(chunk: seq<Byte>): (t: Text)
    requires 1 <= |chunk| <= 3
    ensures |t| == 4
    ensures forall i :: 0 <= i < 4 ==> t[i] != NEWLINE
  {
    var n := Bits(chunk);
    [Symbol(n / 0x4_0000),
     Symbol(n / 0x1000 % 64),
     if |chunk| > 1 then Symbol(n / 64 % 64) else EQUALS,
     if |chunk| > 2 then Symbol(n % 64) else EQUALS]
  }

  /** Base64 of a byte string: three bytes at a time, padding at the end. */
  function Base64(bytes: seq<Byte>): Text {
    if bytes == [] then [] else EncodeChunk(bytes[..Min(3, |bytes|)]) + Base64(bytes[Min(3, |bytes|)..])
  }

  function QuadBits(quad: Text): nat
    requires |quad| == 4
  {
    0x4_0000 * SymbolValue(quad[0]) + 0x1000 * SymbolValue(quad[1])
    + (if quad[2] == EQUALS then 0 else 64 * SymbolValue(quad[2]))
    + (if quad[3] == EQUALS then 0 else SymbolValue(quad[3]))
  }

  function DecodeQuad(quad: Text): seq<Byte>
    requires |quad| == 4
  {
    var n := QuadBits(quad);
    [n / 0x1_0000 % 0x100] + (if quad[2] == EQUALS then [] else [n / 0x100 % 0x100])
    + (if quad[3] == EQUALS then [] else [n % 0x100])
  }

  function Decode64(text: Text): seq<Byte>
    requires |text| % 4 == 0
  {
    if text == [] then [] else DecodeQuad(text[..4]) + Decode64(text[4..])
  }

  lemma SixBitGroups(n: nat)
    requires n < 0x100_0000
    ensures n == 0x4_0000 * (n / 0x4_0000) + 0x1000 * (n / 0x1000 % 64) + 64 * (n / 64 % 64) + n % 64
    ensures n / 0x4_0000 < 64
  {
    assert n / 64 / 64 == n / 0x1000 && n / 0x1000 / 64 == n / 0x4_0000;
  }

  lemma BitsBytes(chunk: seq<Byte>)
    requires 1 <= |chunk| <= 3
    ensures Bits(chunk) / 0x1_0000 % 0x100 == chunk[0]
    ensures |chunk| > 1 ==> Bits(chunk) / 0x100 % 0x100 == chunk[1]
    ensures |chunk| > 2 ==> Bits(chunk) % 0x100 == chunk[2]
    ensures |chunk| == 1 ==> Bits(chunk) % 0x1_0000 == 0
    ensures |chunk| == 2 ==> Bits(chunk) % 0x100 == 0
  {
    var b1: nat := if |chunk| > 1 then chunk[1] else 0;
    var b2: nat := if |chunk| > 2 then chunk[2] else 0;
    ThreeBytes(chunk[0], b1, b2);
  }

  lemma ThreeBytes(a: nat, b: nat, c: nat)
    requires a < 0x100 && b < 0x100 && c < 0x100
    ensures var n := 0x1_0000 * a + 0x100 * b + c;
            n / 0x1_0000 == a && n / 0x100 % 0x100 == b && n % 0x100 == c && n % 0x1_0000 == 0x100 * b + c
  {
    var n := 0x1_0000 * a + 0x100 * b + c;
    var low := 0x100 * b + c;
    RemainderUnique(n, 0x1_0000, a, low);
    RemainderUnique(n, 0x100, 0x100 * a + b, c);
    RemainderUnique(0x100 * a + b, 0x100, a, b);
  }

  lemma PaddedBits(n: nat)
    requires n < 0x100_0000
    ensures n % 0x1_0000 == 0 ==> n / 64 % 64 == 0 && n % 64 == 0
    ensures n % 0x100 == 0 ==> n % 64 == 0
  {
    if n % 0x1_0000 == 0 {
      var q := n / 0x1_0000;
      RemainderUnique(n, 64, 1024 * q, 0);
      RemainderUnique(1024 * q, 64, 16 * q, 0);
    }
    if n % 0x100 == 0 {
      RemainderUnique(n, 64, 4 * (n / 0x100), 0);
    }
  }

  lemma QuadKeepsBits(chunk: seq<Byte>)
    requires 1 <= |chunk| <= 3
    ensures QuadBits(EncodeChunk(chunk)) == Bits(chunk)
  {
    var n := Bits(chunk);
    SixBitGroups(n);
    BitsBytes(chunk);
    PaddedBits(n);
    SymbolRoundTrip(n / 0x4_0000);
    SymbolRoundTrip(n / 0x1000 % 64);
    SymbolRoundTrip(n / 64 % 64);
    SymbolRoundTrip(n % 64);
    hide Symbol, SymbolValue, Bits;
  }

  lemma ChunkRoundTrip(chunk: seq<Byte>)
    requires 1 <= |chunk| <= 3
    ensures DecodeQuad(EncodeChunk(chunk)) == chunk
  {
    QuadKeepsBits(chunk);
    BitsBytes(chunk);
    hide Bits, QuadBits, Symbol;
    var quad := EncodeChunk(chunk);
    assert quad[2] == EQUALS <==> |chunk| == 1;
    assert quad[3] == EQUALS <==> |chunk| < 3;
  }

  /** The encoding has four characters per started group of three bytes, and
      decodes back. */
  lemma {:induction false} Base64RoundTrip(bytes: seq<Byte>)
    ensures |Base64(bytes)| == (|bytes| + 2) / 3 * 4
    ensures Decode64(Base64(bytes)) == bytes
  {
    hide EncodeChunk, DecodeQuad;
    if bytes != [] {
      var k := Min(3, |bytes|);
      Base64RoundTrip(bytes[k..]);
      ChunkRoundTrip(bytes[..k]);
      var first := EncodeChunk(bytes[..k]);
      assert (first + Base64(bytes[k..]))[..4] == first;
      assert (first + Base64(bytes[k..]))[4..] == Base64(bytes[k..]);
      assert bytes[..k] + bytes[k..] == bytes;
    }
  }

  /** Encoding splits after any multiple of three bytes. */
  lemma {:induction false} Base64Split(a: seq<Byte>, b: seq<Byte>)
    requires |a| % 3 == 0
    ensures Base64(a + b) == Base64(a) + Base64(b)
  {
    hide EncodeChunk;
    if a == [] {
      assert a + b == b;
    } else {
      assert (a + b)[..3] == a[..3] && (a + b)[3..] == a[3..] + b;
      Base64Split(a[3..], b);
    }
  }

  // ---- Rows ---------------------------------------------------------------

  /** The rows of a dump: up to 57 bytes each, every row ended by a newline. */
  function Rows(table: seq<Byte>): Text {
    if table == [] then []
    else Base64(table[..Min(ROW_BYTES, |table|)]) + [NEWLINE] + Rows(table[Min(ROW_BYTES, |table|)..])
  }

  function StripNewlines(t: Text): Text {
    if t == [] then []
    else (if t[0] == NEWLINE then [] else [t[0]]) + StripNewlines(t[1..])
  }

  lemma {:induction false} StripConcat(a: Text, b: Text)
    ensures StripNewlines(a + b) == StripNewlines(a) + StripNewlines(b)
  {
    if a == [] {
      assert a + b == b;
    } else {
      assert (a + b)[1..] == a[1..] + b;
      StripConcat(a[1..], b);
    }
  }

  lemma {:induction false} StripNothing(a: Text)
    requires NEWLINE !in a
    ensures StripNewlines(a) == a
  {
    if a != [] {
      StripNothing(a[1..]);
      assert [a[0]] + a[1..] == a;
    }
  }

  lemma {:induction false} Base64HasNoNewline(bytes: seq<Byte>)
    ensures NEWLINE !in Base64(bytes)
  {
    if bytes != [] {
      Base64HasNoNewline(bytes[Min(3, |bytes|)..]);
    }
  }

  /** With the newlines removed, the rows of any table are the base64 encoding of
      the whole table; they decode to it and have exactly the charged length. */
  lemma {:induction false} RowsAreBase64(table: seq<Byte>)
    ensures StripNewlines(Rows(table)) == Base64(table)
    ensures |StripNewlines(Rows(table))| == Charge(table)
    ensures Charge(table) % 4 == 0 && Decode64(StripNewlines(Rows(table))) == table
  {
    hide Base64, Decode64;
    Base64RoundTrip(table);
    RowsStripped(table);
  }

  lemma {:induction false} RowsStripped(table: seq<Byte>)
    ensures StripNewlines(Rows(table)) == Base64(table)
  {
    if table != [] {
      var k := Min(ROW_BYTES, |table|);
      var row, rest := table[..k], table[k..];
      RowsStripped(rest);
      RowStripped(row, Rows(rest));
      assert row + rest == table;
      if rest == [] {
        assert row == table;
      } else {
        Base64Split(row, rest);
      }
      hide Base64;
    }
  }

  lemma RowStripped(row: seq<Byte>, after: Text)
    ensures StripNewlines(Base64(row) + [NEWLINE] + after) == Base64(row) + StripNewlines(after)
  {
    hide Base64;
    StripConcat(Base64(row) + [NEWLINE], after);
    StripConcat(Base64(row), [NEWLINE]);
    Base64HasNoNewline(row);
    StripNothing(Base64(row));
    assert StripNewlines([NEWLINE]) == [];
  }

  // ---- The dump and its budget --------------------------------------------

  function Charge(table: seq<Byte>): nat {
    (|table| + 2) / 3 * 4
  }

  const BEGIN_MARK: Text := [0x5B, 0x61, 0x63, 0x70, 0x69, 0x2D, 0x64, 0x75, 0x6D, 0x70, 0x5D, 0x20,
                             0x42, 0x45, 0x47, 0x49, 0x4E, 0x20]  // "[acpi-dump] BEGIN "
  const END_MARK: Text := [0x5B, 0x61, 0x63, 0x70, 0x69, 0x2D, 0x64, 0x75, 0x6D, 0x70, 0x5D, 0x20,
                           0x45, 0x4E, 0x44, 0x20]                // "[acpi-dump] END "

  function DumpText(title: Text, table: seq<Byte>): Text {
    BEGIN_MARK + title + [NEWLINE] + Rows(table) + END_MARK + title + [NEWLINE]
  }

  /** A dump is framed by its title: a line that begins it, the rows, and a line that
      ends it, in the words of the log. */
  lemma DumpIsFramed(title: Text, table: seq<Byte>)
    ensures Spells(BEGIN_MARK, "[acpi-dump] BEGIN ") && Spells(END_MARK, "[acpi-dump] END ")
    ensures IsFramed(DumpText(title, table), BEGIN_MARK, END_MARK, title, Rows(table))
  {
    MarksSpell();
    hide Rows, Spells, IsFramed;
    Framed(BEGIN_MARK, END_MARK, title, Rows(table));
  }

  /** A line of mark and title, the rows, and a line of mark and title. */
  predicate IsFramed(text: Text, begin: Text, end: Text, title: Text, rows: Text) {
    var p, q := |begin| + |title| + 1, |begin| + |title| + 1 + |rows|;
    && |text| == q + |end| + |title| + 1
    && text[..|begin|] == begin && text[|begin|..p - 1] == title && text[p - 1] == NEWLINE
    && text[p..q] == rows && text[q..q + |end|] == end
    && text[q + |end|..q + |end| + |title|] == title && text[q + |end| + |title|] == NEWLINE
  }

  lemma Framed(begin: Text, end: Text, title: Text, rows: Text)
    ensures IsFramed(begin + title + [NEWLINE] + rows + end + title + [NEWLINE], begin, end, title, rows)
  {
  }

  lemma MarksSpell()
    ensures Spells(BEGIN_MARK, "[acpi-dump] BEGIN ") && Spells(END_MARK, "[acpi-dump] END ")
  {
  }

  /** The bytes are those of the string. */
  predicate Spells(t: Text, s: string) {
    |t| == |s| && forall i :: 0 <= i < |t| ==> t[i] == s[i] as int
  }

  predicate Fits(used: nat, table: seq<Byte>) {
    used + Charge(table) <= DUMP_BUDGET
  }

  /** The shared counter and the boot log. */
  datatype DumpState = DumpState(used: nat, log: Text)

  /** One dump: the encoded size is charged whether or not the table is written. */
  function Step(st: DumpState, title: Text, table: seq<Byte>): DumpState {
    DumpState(st.used + Charge(table),
              if Fits(st.used, table) then st.log + DumpText(title, table) else st.log)
  }

  class Dumper {
    var used: nat       // ACPI_DUMP_USED
    var log: Text       // the boot log, to which the dump appends

    constructor ()
      ensures used == 0 && log == []
    {
      used, log := 0, [];
    }

    method EncodeRow(row: seq<Byte>) returns (line: Text)
      ensures line == Base64(row) + [NEWLINE]
    {
      hide EncodeChunk;
      line := [];
      var pos := 0;
      while pos < |row|
        invariant 0 <= pos <= |row|
        invariant line + Base64(row[pos..]) == Base64(row)
      {
        var next := Min(pos + 3, |row|);
        assert row[pos..][..next - pos] == row[pos..next] && row[pos..][next - pos..] == row[next..];
        line := line + EncodeChunk(row[pos..next]);
        pos := next;
      }
      assert line == Base64(row);
      line := line + [NEWLINE];
    }

    ghost function State(): DumpState
      reads this
    {
      DumpState(used, log)
    }

    method Dump(title: Text, table: seq<Byte>)
      modifies this
      ensures State() == Step(old(State()), title, table)
    {
      var encoded := (|table| + 2) / 3 * 4;
      var prior := used;
      used := used + encoded;
      if prior + encoded > DUMP_BUDGET {
        return;
      }
      log := log + BEGIN_MARK + title + [NEWLINE];
      WriteRows(table);
      log := log + END_MARK + title + [NEWLINE];
      assert log == old(log) + DumpText(title, table);
    }

    method WriteRows(table: seq<Byte>)
      modifies this`log
      ensures log == old(log) + Rows(table)
    {
      hide Base64;
      var pos := 0;
      while pos < |table|
        invariant 0 <= pos <= |table|
        invariant log + Rows(table[pos..]) == old(log) + Rows(table)
      {
        var next := Min(pos + ROW_BYTES, |table|);
        var line := EncodeRow(table[pos..next]);
        assert table[pos..][..next - pos] == table[pos..next] && table[pos..][next - pos..] == table[next..];
        assert log + line + Rows(table[next..]) == log + (line + Rows(table[next..]));
        log := log + line;
        pos := next;
      }
    }
  }

  // ---- Runs ---------------------------------------------------------------

  datatype Job = Job(title: Text, table: seq<Byte>)

  function Run(jobs: seq<Job>): DumpState {
    if jobs == [] then DumpState(0, [])
    else
      var last := jobs[|jobs| - 1];
      Step(Run(jobs[..|jobs| - 1]), last.title, last.table)
  }

  predicate Written(jobs: seq<Job>, i: nat)
    requires i < |jobs|
  {
    Fits(Run(jobs[..i]).used, jobs[i].table)
  }

  /** Base64 characters a run puts into the log. */
  function CharsWritten(jobs: seq<Job>): nat {
    if jobs == [] then 0
    else
      var n := |jobs| - 1;
      CharsWritten(jobs[..n]) + if Written(jobs, n) then Charge(jobs[n].table) else 0
  }

  /** Everything else in the log: two marked lines for each table that is written,
      and one newline for every started row. */
  function Framing(jobs: seq<Job>): nat {
    if jobs == [] then 0
    else
      var n := |jobs| - 1;
      Framing(jobs[..n]) + if Written(jobs, n) then FrameSize(jobs[n]) else 0
  }

  function FrameSize(job: Job): nat {
    |BEGIN_MARK| + |END_MARK| + 2 * |job.title| + 2 + (|job.table| + ROW_BYTES - 1) / ROW_BYTES
  }

  lemma {:induction false} RowsLength(table: seq<Byte>)
    ensures |Rows(table)| == Charge(table) + (|table| + ROW_BYTES - 1) / ROW_BYTES
  {
    hide Base64;
    if |table| <= ROW_BYTES {
      if table != [] {
        assert table[..|table|] == table && Rows(table[|table|..]) == [];
        Base64RoundTrip(table);
      }
    } else {
      var row, rest := table[..ROW_BYTES], table[ROW_BYTES..];
      RowsLength(rest);
      Base64RoundTrip(row);
      FullRow(|rest|);
    }
  }

  lemma FullRow(n: nat)
    ensures (n + ROW_BYTES + 2) / 3 * 4 == 76 + (n + 2) / 3 * 4
    ensures (n + ROW_BYTES + ROW_BYTES - 1) / ROW_BYTES == 1 + (n + ROW_BYTES - 1) / ROW_BYTES
  {
  }

  lemma {:induction false} UsedMonotone(jobs: seq<Job>, i: nat)
    requires i <= |jobs|
    ensures Run(jobs[..i]).used <= Run(jobs).used
    decreases |jobs|
  {
    if i < |jobs| {
      var init := jobs[..|jobs| - 1];
      UsedMonotone(init, i);
      assert init[..i] == jobs[..i];
    } else {
      assert jobs[..i] == jobs;
    }
  }

  /** A skipped table is charged too, so nothing after it is written: the
      written dumps are a prefix of the run. */
  lemma SkipIsFinal(jobs: seq<Job>, i: nat, j: nat)
    requires i <= j < |jobs| && !Written(jobs, i)
    ensures !Written(jobs, j)
  {
    if i < j {
      var before := jobs[..j];
      UsedMonotone(before, i + 1);
      assert before[..i + 1] == jobs[..i + 1] && jobs[..i + 1][..i] == jobs[..i];
    }
  }

  /** Over every run the log consists of the encoded characters and the framing of
      the written tables, and the encoded characters stay within the budget. */
  lemma {:induction false} DumpsWithinBudget(jobs: seq<Job>)
    ensures |Run(jobs).log| == CharsWritten(jobs) + Framing(jobs)
    ensures CharsWritten(jobs) <= DUMP_BUDGET
    ensures CharsWritten(jobs) <= Run(jobs).used
  {
    if jobs != [] {
      hide Rows;
      DumpsWithinBudget(jobs[..|jobs| - 1]);
      RowsLength(jobs[|jobs| - 1].table);
    }
  }
}
