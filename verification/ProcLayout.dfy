/** The byte layout of an assembled procedure, and the reader that takes it apart again. */
module ProcLayout {
  import opened BigEndian
  import opened Wrappers

  datatype LexicalRecord = LexicalRecord(activationCall: U32, targetOffset: U32, lexicalTarget: Byte)

  datatype CheckRecord = CheckRecord(
    intervalOffset: U32, intervalSize: U32, firstException: U16, numExceptions: U16, exceptionLocal: U16)

  datatype ExceptionRecord = ExceptionRecord(exceptionType: U32, catchOffset: U32, catchSize: U32)

  /** What a procedure consists of. The assembler never emits cleanups. */
  datatype Procedure = Procedure(
    arity: nat,
    numLocals: nat,
    lexicals: seq<LexicalRecord>,
    code: seq<Byte>,
    checks: seq<CheckRecord>,
    exceptions: seq<ExceptionRecord>)

  const HEADER_SIZE := 10
  const LEXICAL_SIZE := 9
  const TRAILER_SIZE := 6
  const CHECK_SIZE := 14
  const EXCEPTION_SIZE := 12
  const CLEANUP_SIZE := 18

  // ---------- writing ----------

  function LexicalBytes(l: LexicalRecord): (s: seq<Byte>)
    ensures |s| == LEXICAL_SIZE
  {
    U32Bytes(l.activationCall) + U32Bytes(l.targetOffset) + [l.lexicalTarget]
  }

  function CheckBytes(c: CheckRecord): (s: seq<Byte>)
    ensures |s| == CHECK_SIZE
  {
    U32Bytes(c.intervalOffset) + U32Bytes(c.intervalSize)
    + U16Bytes(c.firstException) + U16Bytes(c.numExceptions) + U16Bytes(c.exceptionLocal)
  }

  function ExceptionBytes(e: ExceptionRecord): (s: seq<Byte>)
    ensures |s| == EXCEPTION_SIZE
  {
    U32Bytes(e.exceptionType) + U32Bytes(e.catchOffset) + U32Bytes(e.catchSize)
  }

  function TableBytes<T>(records: seq<T>, write: T -> seq<Byte>): seq<Byte> {
    if records == [] then [] else TableBytes(records[..|records| - 1], write) + write(records[|records| - 1])
  }

  /** The counts are cast to 16 bits; the third one counts cleanups. */
  function Trailer(p: Procedure): seq<Byte> {
    if p.checks == [] && p.exceptions == [] then []
    else
      U16Bytes(ToU16(|p.checks|)) + U16Bytes(ToU16(|p.exceptions|)) + U16Bytes(0)
      + TableBytes(p.checks, CheckBytes) + TableBytes(p.exceptions, ExceptionBytes)
  }

  function Counts(p: Procedure): (s: seq<Byte>)
    ensures |s| == HEADER_SIZE
  {
    U16Bytes(ToU16(p.arity)) + U16Bytes(ToU16(p.numLocals)) + U16Bytes(ToU16(|p.lexicals|))
        + U32Bytes(ToU32(|Trailer(p)|))
  }

  function Header(p: Procedure): seq<Byte> {
    Counts(p) + TableBytes(p.lexicals, LexicalBytes)
  }

  function Body(p: Procedure): seq<Byte> {
    Header(p) + p.code + Trailer(p)
  }

  function Layout(p: Procedure): seq<Byte> {
    U32Bytes(ToU32(|Body(p)|)) + Body(p)
  }

  // ---------- reading ----------

  function ReadLexical(s: seq<Byte>): LexicalRecord
    requires |s| == LEXICAL_SIZE
  {
    LexicalRecord(ReadU32(s[..4]), ReadU32(s[4..8]), s[8])
  }

  function ReadCheck(s: seq<Byte>): CheckRecord
    requires |s| == CHECK_SIZE
  {
    CheckRecord(ReadU32(s[..4]), ReadU32(s[4..8]), ReadU16(s[8..10]), ReadU16(s[10..12]), ReadU16(s[12..14]))
  }

  function ReadException(s: seq<Byte>): ExceptionRecord
    requires |s| == EXCEPTION_SIZE
  {
    ExceptionRecord(ReadU32(s[..4]), ReadU32(s[4..8]), ReadU32(s[8..12]))
  }

  /** Reads a table of records of equal size. */
  function ReadTable<T>(s: seq<Byte>, n: nat, size: nat, read: seq<Byte> --> T): (r: seq<T>)
    requires |s| == n * size
    requires forall b: seq<Byte> :: |b| == size ==> read.requires(b)
    ensures |r| == n
    decreases n
  {
    if n == 0 then []
    else
      assert (n - 1) * size + size == n * size;
      ReadTable(s[..(n - 1) * size], n - 1, size, read) + [read(s[(n - 1) * size..])]
  }

  datatype ProcInfo = ProcInfo(
    numArguments: U16, numLocals: U16, numLexicals: U16, lexicals: seq<Byte>, code: seq<Byte>, trailer: seq<Byte>)

  /** The bytes of the procedure at `offset`, without their size prefix. */
  function ParseProc(bytecode: seq<Byte>, offset: nat): Result<seq<Byte>> {
    if |bytecode| <= offset then Err(ObjectInvariant)
    else
      var rest := bytecode[offset..];
      if |rest| < 4 then Err(ObjectInvariant)
      else
        var size := ReadU32(rest[..4]);
        if |rest| - 4 < size then Err(ObjectInvariant) else Ok(rest[4..4 + size])
  }

  function ParseProcInfo(proc: seq<Byte>): Result<ProcInfo> {
    if |proc| < HEADER_SIZE then Err(ObjectInvariant)
    else
      var numLexicals := ReadU16(proc[4..6]);
      var trailerSize := ReadU32(proc[6..10]);
      var lexicalsEnd := HEADER_SIZE + numLexicals * LEXICAL_SIZE;
      if |proc| < lexicalsEnd || |proc| - lexicalsEnd < trailerSize then Err(ObjectInvariant)
      else
        var codeEnd := |proc| - trailerSize;
        Ok(ProcInfo(ReadU16(proc[..2]), ReadU16(proc[2..4]), numLexicals,
                    proc[HEADER_SIZE..lexicalsEnd], proc[lexicalsEnd..codeEnd], proc[codeEnd..]))
  }

  /** The check and exception tables; the reader insists on having read the whole trailer. */
  function ParseTrailer(trailer: seq<Byte>): Result<(seq<CheckRecord>, seq<ExceptionRecord>)> {
    if trailer == [] then Ok(([], []))
    else if |trailer| < TRAILER_SIZE then Err(ObjectInvariant)
    else
      var checksEnd := TRAILER_SIZE + ReadU16(trailer[..2]) * CHECK_SIZE;
      var exceptionsEnd := checksEnd + ReadU16(trailer[2..4]) * EXCEPTION_SIZE;
      var cleanupsEnd := exceptionsEnd + ReadU16(trailer[4..6]) * CLEANUP_SIZE;
      if |trailer| != cleanupsEnd then Err(ObjectInvariant)
      else
        Ok((ReadTable(trailer[TRAILER_SIZE..checksEnd], ReadU16(trailer[..2]), CHECK_SIZE, ReadCheck),
            ReadTable(trailer[checksEnd..exceptionsEnd], ReadU16(trailer[2..4]), EXCEPTION_SIZE, ReadException)))
  }

  /** Everything a reader learns of the procedure at `offset`. */
  function ReadProcedure(bytecode: seq<Byte>, offset: nat): Result<Procedure> {
    var proc :- ParseProc(bytecode, offset);
    var info :- ParseProcInfo(proc);
    var tables :- ParseTrailer(info.trailer);
    Ok(Procedure(info.numArguments, info.numLocals,
                 ReadTable(info.lexicals, info.numLexicals, LEXICAL_SIZE, ReadLexical),
                 info.code, tables.0, tables.1))
  }

  // ---------- the round trip ----------

  lemma LexicalRoundTrip(l: LexicalRecord)
    ensures ReadLexical(LexicalBytes(l)) == l
  {
    hide U32Bytes, ReadU32;
    var s := LexicalBytes(l);
    assert s[..4] == U32Bytes(l.activationCall) && s[4..8] == U32Bytes(l.targetOffset);
    U32RoundTrip(l.activationCall);
    U32RoundTrip(l.targetOffset);
  }

  lemma CheckRoundTrip(c: CheckRecord)
    ensures ReadCheck(CheckBytes(c)) == c
  {
    hide U16Bytes, U32Bytes, ReadU16, ReadU32;
    var s := CheckBytes(c);
    assert s[..4] == U32Bytes(c.intervalOffset) && s[4..8] == U32Bytes(c.intervalSize);
    assert s[8..10] == U16Bytes(c.firstException) && s[10..12] == U16Bytes(c.numExceptions);
    assert s[12..14] == U16Bytes(c.exceptionLocal);
    U32RoundTrip(c.intervalOffset);
    U32RoundTrip(c.intervalSize);
    U16RoundTrip(c.firstException);
    U16RoundTrip(c.numExceptions);
    U16RoundTrip(c.exceptionLocal);
  }

  lemma ExceptionRoundTrip(e: ExceptionRecord)
    ensures ReadException(ExceptionBytes(e)) == e
  {
    hide U32Bytes, ReadU32;
    var s := ExceptionBytes(e);
    assert s[..4] == U32Bytes(e.exceptionType) && s[4..8] == U32Bytes(e.catchOffset)
        && s[8..12] == U32Bytes(e.catchSize);
    U32RoundTrip(e.exceptionType);
    U32RoundTrip(e.catchOffset);
    U32RoundTrip(e.catchSize);
  }

  lemma {:induction false} TableSize<T>(records: seq<T>, write: T -> seq<Byte>, size: nat)
    requires forall x :: x in records ==> |write(x)| == size
    ensures |TableBytes(records, write)| == |records| * size
  {
    if records != [] {
      var n := |records| - 1;
      TableSize(records[..n], write, size);
      assert n * size + size == |records| * size;
    }
  }

  lemma {:induction false} TableRoundTrip<T>(records: seq<T>, write: T -> seq<Byte>, size: nat, read: seq<Byte> --> T)
    requires forall b: seq<Byte> :: |b| == size ==> read.requires(b)
    requires forall x :: x in records ==> |write(x)| == size && read(write(x)) == x
    ensures |TableBytes(records, write)| == |records| * size
    ensures ReadTable(TableBytes(records, write), |records|, size, read) == records
  {
    TableSize(records, write, size);
    if records != [] {
      var n := |records| - 1;
      TableSize(records[..n], write, size);
      TableRoundTrip(records[..n], write, size, read);
      var s := TableBytes(records, write);
      assert s[..n * size] == TableBytes(records[..n], write);
      assert s[n * size..] == write(records[n]);
    }
  }

  /** The counts fit the fields they are cast into. */
  predicate Fits(p: Procedure) {
    && p.arity < 0x1_0000
    && p.numLocals < 0x1_0000
    && |p.lexicals| < 0x1_0000
    && |p.checks| < 0x1_0000
    && |p.exceptions| < 0x1_0000
    && |Body(p)| < 0x1_0000_0000
  }

  lemma TablesRoundTrip(p: Procedure)
    ensures |TableBytes(p.lexicals, LexicalBytes)| == |p.lexicals| * LEXICAL_SIZE
    ensures |TableBytes(p.checks, CheckBytes)| == |p.checks| * CHECK_SIZE
    ensures |TableBytes(p.exceptions, ExceptionBytes)| == |p.exceptions| * EXCEPTION_SIZE
    ensures ReadTable(TableBytes(p.lexicals, LexicalBytes), |p.lexicals|, LEXICAL_SIZE, ReadLexical) == p.lexicals
    ensures ReadTable(TableBytes(p.checks, CheckBytes), |p.checks|, CHECK_SIZE, ReadCheck) == p.checks
    ensures ReadTable(TableBytes(p.exceptions, ExceptionBytes), |p.exceptions|, EXCEPTION_SIZE, ReadException)
              == p.exceptions
  {
    forall l ensures ReadLexical(LexicalBytes(l)) == l { LexicalRoundTrip(l); }
    forall c ensures ReadCheck(CheckBytes(c)) == c { CheckRoundTrip(c); }
    forall e ensures ReadException(ExceptionBytes(e)) == e { ExceptionRoundTrip(e); }
    TableRoundTrip(p.lexicals, LexicalBytes, LEXICAL_SIZE, ReadLexical);
    TableRoundTrip(p.checks, CheckBytes, CHECK_SIZE, ReadCheck);
    TableRoundTrip(p.exceptions, ExceptionBytes, EXCEPTION_SIZE, ReadException);
  }

  lemma Split3<T>(a: seq<T>, b: seq<T>, c: seq<T>)
    ensures (a + b + c)[..|a|] == a
    ensures (a + b + c)[|a|..|a| + |b|] == b
    ensures (a + b + c)[|a| + |b|..] == c
  {
  }

  /** Three counts in a row can be read back one by one. */
  lemma ThreeCounts(x: U16, y: U16, z: U16)
    ensures var s := U16Bytes(x) + U16Bytes(y) + U16Bytes(z);
            ReadU16(s[..2]) == x && ReadU16(s[2..4]) == y && ReadU16(s[4..6]) == z
  {
    hide U16Bytes, ReadU16;
    Split3(U16Bytes(x), U16Bytes(y), U16Bytes(z));
    assert (U16Bytes(x) + U16Bytes(y) + U16Bytes(z))[4..6] == (U16Bytes(x) + U16Bytes(y) + U16Bytes(z))[4..];
    U16RoundTrip(x);
    U16RoundTrip(y);
    U16RoundTrip(z);
  }

  lemma HeadOf<T>(head: seq<T>, tail: seq<T>)
    requires |head| >= 6
    ensures (head + tail)[..2] == head[..2] && (head + tail)[2..4] == head[2..4] && (head + tail)[4..6] == head[4..6]
    ensures (head + tail)[|head|..] == tail
  {
  }

  lemma TrailerParts(p: Procedure)
    requires Fits(p) && (p.checks != [] || p.exceptions != [])
    ensures var t := Trailer(p);
            var checksEnd := TRAILER_SIZE + |p.checks| * CHECK_SIZE;
            && |t| == checksEnd + |p.exceptions| * EXCEPTION_SIZE
            && ReadU16(t[..2]) == |p.checks| && ReadU16(t[2..4]) == |p.exceptions| && ReadU16(t[4..6]) == 0
            && t[TRAILER_SIZE..checksEnd] == TableBytes(p.checks, CheckBytes)
            && t[checksEnd..|t|] == TableBytes(p.exceptions, ExceptionBytes)
  {
    hide TableBytes, CheckBytes, ExceptionBytes, U16Bytes, ReadU16, Fits;
    TablesRoundTrip(p);
    SmallCounts(p);
    var t := Trailer(p);
    var counts := U16Bytes(|p.checks|) + U16Bytes(|p.exceptions|) + U16Bytes(0);
    ThreeCounts(|p.checks|, |p.exceptions|, 0);
    Split3(counts, TableBytes(p.checks, CheckBytes), TableBytes(p.exceptions, ExceptionBytes));
    HeadOf(counts, TableBytes(p.checks, CheckBytes) + TableBytes(p.exceptions, ExceptionBytes));
    assert t == counts + (TableBytes(p.checks, CheckBytes) + TableBytes(p.exceptions, ExceptionBytes));
  }

  lemma SmallCounts(p: Procedure)
    requires Fits(p)
    ensures ToU16(|p.checks|) == |p.checks| && ToU16(|p.exceptions|) == |p.exceptions|
  {
    hide Body;
  }

  lemma TrailerRoundTrip(p: Procedure)
    requires Fits(p)
    ensures ParseTrailer(Trailer(p)) == Ok((p.checks, p.exceptions))
  {
    hide TableBytes, ReadTable, ReadCheck, ReadException, CheckBytes, ExceptionBytes, U16Bytes, ReadU16;
    if p.checks != [] || p.exceptions != [] {
      hide Trailer, Fits;
      TablesRoundTrip(p);
      TrailerParts(p);
    }
  }

  lemma CountsRoundTrip(p: Procedure)
    requires Fits(p)
    ensures ReadU16(Counts(p)[..2]) == p.arity && ReadU16(Counts(p)[2..4]) == p.numLocals
    ensures ReadU16(Counts(p)[4..6]) == |p.lexicals| && ReadU32(Counts(p)[6..10]) == |Trailer(p)|
  {
    hide Trailer, TableBytes, U16Bytes, ReadU16, ReadU32, U32Bytes;
    var counts := U16Bytes(p.arity) + U16Bytes(p.numLocals) + U16Bytes(|p.lexicals|);
    ThreeCounts(p.arity, p.numLocals, |p.lexicals|);
    HeadOf(counts, U32Bytes(|Trailer(p)|));
    assert Counts(p) == counts + U32Bytes(|Trailer(p)|);
    assert Counts(p)[6..10] == Counts(p)[6..];
    U32RoundTrip(|Trailer(p)|);
  }

  lemma InfoRoundTrip(p: Procedure)
    requires Fits(p)
    ensures ParseProcInfo(Body(p))
              == Ok(ProcInfo(p.arity, p.numLocals, |p.lexicals|, TableBytes(p.lexicals, LexicalBytes),
                                                  p.code, Trailer(p)))
  {
    hide Trailer, TableBytes, ReadU16, ReadU32, Counts, LexicalBytes;
    TablesRoundTrip(p);
    CountsRoundTrip(p);
    var b := Body(p);
    var lexicals := TableBytes(p.lexicals, LexicalBytes);
    var lexicalsEnd := HEADER_SIZE + |lexicals|;
    Split3(Counts(p), lexicals, p.code + Trailer(p));
    Split3(Counts(p) + lexicals, p.code, Trailer(p));
    assert b == Counts(p) + lexicals + (p.code + Trailer(p));
    var head := b[..HEADER_SIZE];
    assert head == Counts(p);
    assert b[..2] == head[..2] && b[2..4] == head[2..4] && b[4..6] == head[4..6] && b[6..10] == head[6..10];
  }

  /** Wherever the layout of a procedure that fits is put, a reader recovers the procedure from there. */
  lemma LayoutRoundTrip(p: Procedure, before: seq<Byte>, after: seq<Byte>)
    requires Fits(p)
    ensures ReadProcedure(before + Layout(p) + after, |before|) == Ok(p)
  {
    hide Body, ParseProcInfo, ParseTrailer, ReadTable, TableBytes, ReadU32, ReadU16, U32Bytes, Trailer;
    var rest := (before + Layout(p) + after)[|before|..];
    Split3(before, Layout(p), after);
    assert rest == Layout(p) + after;
    Split3(U32Bytes(|Body(p)|), Body(p), after);
    U32RoundTrip(|Body(p)|);
    InfoRoundTrip(p);
    TrailerRoundTrip(p);
    TablesRoundTrip(p);
  }

  /** A reader never comes up with a procedure that does not fit. */
  lemma ReadFits(bytecode: seq<Byte>, offset: nat)
    requires ReadProcedure(bytecode, offset).Ok?
    ensures Fits(ReadProcedure(bytecode, offset).value)
  {
    var p := ReadProcedure(bytecode, offset).value;
    var proc := ParseProc(bytecode, offset).value;
    var info := ParseProcInfo(proc).value;
    TablesRoundTrip(p);
    assert |Trailer(p)| <= |info.trailer|;
    assert |Body(p)| <= |proc|;
  }

  /** So the layout can be read back exactly when the procedure fits, and the trailer is there
      exactly when there is something to put in it. */
  lemma RecoveredExactlyWhenFits(p: Procedure, before: seq<Byte>, after: seq<Byte>)
    ensures ReadProcedure(before + Layout(p) + after, |before|) == Ok(p) <==> Fits(p)
    ensures Trailer(p) == [] <==> p.checks == [] && p.exceptions == []
  {
    if Fits(p) {
      LayoutRoundTrip(p, before, after);
    }
    if ReadProcedure(before + Layout(p) + after, |before|) == Ok(p) {
      ReadFits(before + Layout(p) + after, |before|);
    }
  }
}
