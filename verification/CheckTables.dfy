/** The check and exception tables of a procedure, and how a raised exception finds its handler in them. */
module CheckTables {
  import opened BigEndian
  import opened CheckForest
  import opened Emission
  import opened Instructions
  import opened Intervals
  import opened ProcLayout
  import opened SymbolIndex
  import opened Wrappers

  type Labels = map<string, U16>

  /** Every check and every catch has both its labels placed in the fragment. */
  ghost predicate LabelsPlaced(f: Forest, labels: Labels) {
    && (forall k :: 0 <= k < |f.checks| ==> f.checks[k].start in labels && f.checks[k].end in labels)
    && (forall c :: 0 <= c < |f.catches| ==> f.catches[c].start in labels && f.catches[c].end in labels)
  }

  // ---------- building ----------

  function ExceptionFor(catch: Catch, labels: Labels, idx: Index): Result<ExceptionRecord>
    requires catch.start in labels && catch.end in labels
  {
    var exceptionType :- TypeOffset(idx, catch.exceptionType);
    Ok(ExceptionRecord(exceptionType, labels[catch.start], ToU32((labels[catch.end] as int) - labels[catch.start])))
  }

  function ExceptionsFor(f: Forest, ids: seq<nat>, labels: Labels, idx: Index): Result<seq<ExceptionRecord>>
    requires LabelsPlaced(f, labels) && forall i :: 0 <= i < |ids| ==> ids[i] < |f.catches|
  {
    if ids == [] then Ok([])
    else
      var n := |ids| - 1;
      var before :- ExceptionsFor(f, ids[..n], labels, idx);
      var last :- ExceptionFor(f.catches[ids[n]], labels, idx);
      Ok(before + [last])
  }

  /** The counts and the slot of the caught exception are cast to 16 bits. */
  function RecordFor(check: Check, first: nat, labels: Labels): CheckRecord
    requires check.start in labels && check.end in labels
  {
    CheckRecord(labels[check.start], ToU32((labels[check.end] as int) - labels[check.start]),
                ToU16(first), ToU16(|check.catches|), ToU16(check.caughtLocal))
  }

  datatype CheckTable = CheckTable(checks: seq<CheckRecord>, exceptions: seq<ExceptionRecord>)

  function TablesFor(f: Forest, order: seq<nat>, labels: Labels, idx: Index): Result<CheckTable>
    requires InBounds(f) && LabelsPlaced(f, labels) && forall i :: 0 <= i < |order| ==> order[i] < |f.checks|
  {
    if order == [] then Ok(CheckTable([], []))
    else
      var n := |order| - 1;
      var before :- TablesFor(f, order[..n], labels, idx);
      var check := f.checks[order[n]];
      var more :- ExceptionsFor(f, check.catches, labels, idx);
      Ok(CheckTable(before.checks + [RecordFor(check, |before.exceptions|, labels)], before.exceptions + more))
  }

  // ---------- slices ----------

  /** How many catches the first `n` checks in table order have. */
  function CatchesBefore(f: Forest, order: seq<nat>, n: nat): nat
    requires n <= |order| && forall i :: 0 <= i < |order| ==> order[i] < |f.checks|
  {
    if n == 0 then 0 else CatchesBefore(f, order, n - 1) + |f.checks[order[n - 1]].catches|
  }

  lemma {:induction false} CatchesBeforePrefix(f: Forest, order: seq<nat>, m: nat, n: nat)
    requires n <= m <= |order| && forall i :: 0 <= i < |order| ==> order[i] < |f.checks|
    ensures CatchesBefore(f, order[..m], n) == CatchesBefore(f, order, n)
    decreases n
  {
    if n > 0 {
      CatchesBeforePrefix(f, order, m, n - 1);
    }
  }

  lemma {:induction false} CatchesBeforeMonotone(f: Forest, order: seq<nat>, m: nat, n: nat)
    requires m <= n <= |order| && forall i :: 0 <= i < |order| ==> order[i] < |f.checks|
    ensures CatchesBefore(f, order, m) <= CatchesBefore(f, order, n)
    ensures m < n ==> CatchesBefore(f, order, m) + |f.checks[order[m]].catches| <= CatchesBefore(f, order, n)
    decreases n - m
  {
    if m < n {
      CatchesBeforeMonotone(f, order, m + 1, n);
    }
  }

  lemma {:induction false} ExceptionsSucceed(f: Forest, ids: seq<nat>, labels: Labels, idx: Index)
    requires LabelsPlaced(f, labels) && forall i :: 0 <= i < |ids| ==> ids[i] < |f.catches|
    ensures ExceptionsFor(f, ids, labels, idx).Ok?
       <==> forall i :: 0 <= i < |ids| ==> f.catches[ids[i]].exceptionType in idx.typeOffsets
    ensures ExceptionsFor(f, ids, labels, idx).Ok? ==>
              var r := ExceptionsFor(f, ids, labels, idx).value;
              && |r| == |ids|
              && (forall i :: 0 <= i < |ids| ==> Ok(r[i]) == ExceptionFor(f.catches[ids[i]], labels, idx))
  {
    if ids != [] {
      ExceptionsSucceed(f, ids[..|ids| - 1], labels, idx);
    }
  }

  /** The types of all the catches of these checks are tracked by the writer. */
  ghost predicate TypesTracked(f: Forest, order: seq<nat>, idx: Index)
    requires InBounds(f) && forall i :: 0 <= i < |order| ==> order[i] < |f.checks|
  {
    forall i, j :: 0 <= i < |order| && 0 <= j < |f.checks[order[i]].catches| ==>
      f.catches[f.checks[order[i]].catches[j]].exceptionType in idx.typeOffsets
  }

  /** The entry of the i-th check in the table, and its slice of the exception table. */
  ghost predicate EntryRight(f: Forest, order: seq<nat>, labels: Labels, idx: Index, table: CheckTable, i: nat)
    requires InBounds(f) && LabelsPlaced(f, labels) && forall i :: 0 <= i < |order| ==> order[i] < |f.checks|
    requires i < |order| == |table.checks|
  {
    var check := f.checks[order[i]];
    var first := CatchesBefore(f, order, i);
    && table.checks[i] == RecordFor(check, first, labels)
    && first + |check.catches| <= |table.exceptions|
    && (forall j :: 0 <= j < |check.catches| ==>
          Ok(table.exceptions[first + j]) == ExceptionFor(f.catches[check.catches[j]], labels, idx))
  }

  /** The tables are built exactly when every catch has a tracked type. Then there is one entry for
      each check, and the slices of the exception table are consecutive, start at its start, end
      at its end, and hold the catches of their own check in the order of declaration. */
  lemma {:induction false} TablesRight(f: Forest, order: seq<nat>, labels: Labels, idx: Index)
    requires InBounds(f) && LabelsPlaced(f, labels) && forall i :: 0 <= i < |order| ==> order[i] < |f.checks|
    ensures TablesFor(f, order, labels, idx).Ok? <==> TypesTracked(f, order, idx)
    ensures TablesFor(f, order, labels, idx).Ok? ==>
              var table := TablesFor(f, order, labels, idx).value;
              && |table.checks| == |order|
              && |table.exceptions| == CatchesBefore(f, order, |order|)
              && (forall i :: 0 <= i < |order| ==> EntryRight(f, order, labels, idx, table, i))
  {
    hide ExceptionFor, ExceptionsFor, RecordFor, LabelsPlaced, EntryRight;
    if order != [] {
      var n := |order| - 1;
      TablesRight(f, order[..n], labels, idx);
      var check := f.checks[order[n]];
      ExceptionsSucceed(f, check.catches, labels, idx);
      CatchesBeforePrefix(f, order, n, n);
      TrackedSplits(f, order, idx);
      if TablesFor(f, order, labels, idx).Ok? {
        EntriesRight(f, order, labels, idx, TablesFor(f, order[..n], labels, idx).value,
                     TablesFor(f, order, labels, idx).value);
      }
    }
  }

  lemma EntriesRight(f: Forest, order: seq<nat>, labels: Labels, idx: Index, before: CheckTable, table: CheckTable)
    requires InBounds(f) && LabelsPlaced(f, labels) && order != [] && forall i :: 0 <= i < |order| ==>
              order[i] < |f.checks|
    requires var n := |order| - 1;
             && |before.checks| == n && |before.exceptions| == CatchesBefore(f, order, n)
             && (forall i :: 0 <= i < n ==> EntryRight(f, order[..n], labels, idx, before, i))
    requires var check := f.checks[order[|order| - 1]];
             var more := ExceptionsFor(f, check.catches, labels, idx);
             && more.Ok? && |more.value| == |check.catches|
             && (forall j :: 0 <= j < |check.catches| ==>
                 Ok(more.value[j]) == ExceptionFor(f.catches[check.catches[j]], labels, idx))
             && table == CheckTable(before.checks + [RecordFor(check, |before.exceptions|, labels)],
                                    before.exceptions + more.value)
    ensures forall i :: 0 <= i < |order| ==> EntryRight(f, order, labels, idx, table, i)
  {
    hide ExceptionFor, ExceptionsFor, RecordFor;
    var n := |order| - 1;
    forall i | 0 <= i < |order|
      ensures EntryRight(f, order, labels, idx, table, i)
    {
      if i < n {
        assert EntryRight(f, order[..n], labels, idx, before, i);
        CatchesBeforePrefix(f, order, n, i);
      }
    }
  }

  lemma TrackedSplits(f: Forest, order: seq<nat>, idx: Index)
    requires InBounds(f) && order != [] && forall i :: 0 <= i < |order| ==> order[i] < |f.checks|
    ensures var n := |order| - 1;
            TypesTracked(f, order, idx) <==>
              && TypesTracked(f, order[..n], idx)
              && (forall j :: 0 <= j < |f.checks[order[n]].catches| ==>
                    f.catches[f.checks[order[n]].catches[j]].exceptionType in idx.typeOffsets)
  {
    var n := |order| - 1;
    if TypesTracked(f, order, idx) {
      assert forall i :: 0 <= i < n ==> order[..n][i] == order[i];
    }
  }

  /** The fields that are cast to 16 bits are wide enough for what is put into them. */
  ghost predicate CountsFit(f: Forest, table: CheckTable) {
    && |table.exceptions| < 0x1_0000
    && forall k :: 0 <= k < |f.checks| ==> f.checks[k].caughtLocal < 0x1_0000
  }

  /** A check's recorded slice starts where the catches of the checks before it end. */
  lemma SliceBounds(f: Forest, order: seq<nat>, labels: Labels, idx: Index, table: CheckTable, i: nat)
    requires InBounds(f) && LabelsPlaced(f, labels) && forall i :: 0 <= i < |order| ==> order[i] < |f.checks|
    requires TablesFor(f, order, labels, idx) == Ok(table) && |table.exceptions| < 0x1_0000
    requires i < |order|
    ensures |table.checks| == |order| && |table.exceptions| == CatchesBefore(f, order, |order|)
    ensures table.checks[i].firstException == CatchesBefore(f, order, i)
    ensures table.checks[i].firstException + table.checks[i].numExceptions == CatchesBefore(f, order, i + 1)
  {
    hide ExceptionFor, TablesFor, LabelsPlaced;
    TablesRight(f, order, labels, idx);
    assert EntryRight(f, order, labels, idx, table, i);
    CatchesBeforeMonotone(f, order, i, |order|);
  }

  /** The recorded slices partition the exception table: they are consecutive, and every exception
      is in exactly one of them. */
  lemma SlicesPartition(f: Forest, order: seq<nat>, labels: Labels, idx: Index, table: CheckTable)
    requires InBounds(f) && LabelsPlaced(f, labels) && forall i :: 0 <= i < |order| ==> order[i] < |f.checks|
    requires TablesFor(f, order, labels, idx) == Ok(table) && |table.exceptions| < 0x1_0000
    ensures |table.checks| == |order|
    ensures table.checks != [] ==> table.checks[0].firstException == 0
    ensures forall i :: 0 <= i < |table.checks| ==>
              table.checks[i].firstException + table.checks[i].numExceptions
              == if i + 1 < |table.checks| then table.checks[i + 1].firstException else |table.exceptions|
    ensures forall e: nat :: e < |table.exceptions| ==> InSomeSlice(table.checks, e)
    ensures forall i, j :: 0 <= i < j < |table.checks| ==>
              table.checks[i].firstException + table.checks[i].numExceptions <= table.checks[j].firstException
  {
    hide TablesFor, LabelsPlaced, CatchesBefore, InBounds;
    TablesRight(f, order, labels, idx);
    forall i: nat | i < |order|
      ensures table.checks[i].firstException == CatchesBefore(f, order, i)
      ensures table.checks[i].firstException + table.checks[i].numExceptions == CatchesBefore(f, order, i + 1)
    {
      SliceBounds(f, order, labels, idx, table, i);
    }
    forall e: nat | e < |table.exceptions|
      ensures InSomeSlice(table.checks, e)
    {
      var i := FindSlice(f, order, e, |order|);
      assert InSlice(table.checks[i], e);
    }
    forall i: nat, j: nat | i < j < |order|
      ensures table.checks[i].firstException + table.checks[i].numExceptions <= table.checks[j].firstException
    {
      CatchesBeforeMonotone(f, order, i + 1, j);
    }
    assert CatchesBefore(f, order, 0) == 0 by { NoneBefore(f, order); }
  }

  lemma NoneBefore(f: Forest, order: seq<nat>)
    requires forall i :: 0 <= i < |order| ==> order[i] < |f.checks|
    ensures CatchesBefore(f, order, 0) == 0
  {
  }

  predicate InSlice(check: CheckRecord, e: nat) {
    check.firstException <= e < check.firstException + check.numExceptions
  }

  predicate InSomeSlice(checks: seq<CheckRecord>, e: nat) {
    exists i :: 0 <= i < |checks| && InSlice(checks[i], e)
  }

  lemma {:induction false} FindSlice(f: Forest, order: seq<nat>, e: nat, n: nat) returns (i: nat)
    requires n <= |order| && forall i :: 0 <= i < |order| ==> order[i] < |f.checks|
    requires e < CatchesBefore(f, order, n)
    ensures i < n && CatchesBefore(f, order, i) <= e < CatchesBefore(f, order, i + 1)
    decreases n
  {
    if e < CatchesBefore(f, order, n - 1) {
      i := FindSlice(f, order, e, n - 1);
    } else {
      i := n - 1;
    }
  }

  // ---------- raising an exception ----------

  /** Whether the instruction at `at` is in the interval of a check, in 32-bit arithmetic. */
  predicate CoveredBy(check: CheckRecord, at: U32) {
    check.intervalOffset <= at < ToU32(check.intervalOffset + check.intervalSize)
  }

  predicate SlicesInside(checks: seq<CheckRecord>, exceptions: seq<ExceptionRecord>) {
    forall k :: 0 <= k < |checks| ==> checks[k].firstException + checks[k].numExceptions <= |exceptions|
  }

  /** Whether the j-th exception of a check is one that the raised exception is an instance of. */
  predicate Accepts(check: CheckRecord, exceptions: seq<ExceptionRecord>, matches: U32 -> bool, j: nat)
    requires check.firstException + check.numExceptions <= |exceptions| && j < check.numExceptions
  {
    matches(exceptions[check.firstException + j].exceptionType)
  }

  predicate AcceptsNone(check: CheckRecord, exceptions: seq<ExceptionRecord>, matches: U32 -> bool)
    requires check.firstException + check.numExceptions <= |exceptions|
  {
    forall j :: 0 <= j < check.numExceptions ==> !Accepts(check, exceptions, matches, j)
  }

  /** The j-th exception of the i-th check is accepted, and no covering check accepts one before it. */
  predicate FirstMatch(table: CheckTable, at: U32, matches: U32 -> bool, i: nat, j: nat)
    requires SlicesInside(table.checks, table.exceptions)
  {
    && i < |table.checks| && CoveredBy(table.checks[i], at)
    && j < table.checks[i].numExceptions && Accepts(table.checks[i], table.exceptions, matches, j)
    && (forall k :: 0 <= k < i && CoveredBy(table.checks[k], at) ==>
        AcceptsNone(table.checks[k], table.exceptions, matches))
    && (forall l :: 0 <= l < j ==> !Accepts(table.checks[i], table.exceptions, matches, l))
  }

  /** Searches the tables of an activation for the handler of an exception; `matches` says whether
      the exception is of a type, or of one that extends it. */
  method FindHandler(table: CheckTable, at: U32, matches: U32 -> bool) returns (found: Option<(nat, nat)>)
    requires SlicesInside(table.checks, table.exceptions)
    ensures found.Some? ==> FirstMatch(table, at, matches, found.value.0, found.value.1)
    ensures found.None? ==>
              forall k :: 0 <= k < |table.checks| && CoveredBy(table.checks[k], at) ==>
                AcceptsNone(table.checks[k], table.exceptions, matches)
  {
    var i := 0;
    while i < |table.checks|
      invariant 0 <= i <= |table.checks|
      invariant forall k :: 0 <= k < i && CoveredBy(table.checks[k], at) ==>
                  AcceptsNone(table.checks[k], table.exceptions, matches)
    {
      var check := table.checks[i];
      if CoveredBy(check, at) {
        var j := 0;
        while j < check.numExceptions
          invariant 0 <= j <= check.numExceptions
          invariant forall l :: 0 <= l < j ==> !Accepts(check, table.exceptions, matches, l)
        {
          if matches(table.exceptions[check.firstException + j].exceptionType) {
            return Some((i, j));
          }
          j := j + 1;
        }
      }
      i := i + 1;
    }
    return None;
  }

  /** A check has a catch that fits. */
  ghost predicate Catches(f: Forest, idx: Index, matches: U32 -> bool, k: nat, j: nat)
    requires InBounds(f) && k < |f.checks| && j < |f.checks[k].catches|
  {
    var t := TypeOffset(idx, f.catches[f.checks[k].catches[j]].exceptionType);
    t.Ok? && matches(t.value)
  }

  /** `q` is the check `k` or one of those it is declared in. */
  ghost predicate IsOrEncloses(parents: Parents, q: nat, k: nat)
    requires Ordered(parents) && k < |parents|
  {
    q == k || Encloses(parents, q, k)
  }

  /** What a search of the tables finds, said of the forest: the exception goes to the catch `j` of
      check `k`. The check is around the instruction, and every check around it that could have
      caught the exception is that check or one further out; of its catches it is the first that fits. */
  ghost predicate CaughtInnermost(f: Forest, parents: Parents, lo: seq<nat>, hi: seq<nat>, idx: Index, at: nat,
                                  matches: U32 -> bool, k: nat, j: nat)
    requires InBounds(f) && Ordered(parents) && |parents| == |lo| == |hi| == |f.checks|
    requires k < |f.checks| && j < |f.checks[k].catches|
  {
    && Covers(lo, hi, k, at)
    && Catches(f, idx, matches, k, j)
    && (forall l :: 0 <= l < j ==> !Catches(f, idx, matches, k, l))
    && (forall q, l :: 0 <= q < |f.checks| && 0 <= l < |f.checks[q].catches|
                       && Covers(lo, hi, q, at) && Catches(f, idx, matches, q, l) ==>
          IsOrEncloses(parents, q, k))
  }

  /** What the tables say about a check is what its labels and catches say. */
  lemma RecordMeans(f: Forest, stmts: seq<Instruction>, order: seq<nat>, idx: Index, table: CheckTable,
                    matches: U32 -> bool, at: U32, i: nat)
    requires InBounds(f) && LabelsPlaced(f, LabelOffsets(stmts)) && forall i :: 0 <= i < |order| ==>
              order[i] < |f.checks|
    requires |table.checks| == |order| && CountsFit(f, table)
    requires i < |order| && EntryRight(f, order, LabelOffsets(stmts), idx, table, i)
    requires StartOffsets(stmts, f)[order[i]] <= EndOffsets(stmts, f)[order[i]]
    ensures table.checks[i].firstException + table.checks[i].numExceptions <= |table.exceptions|
    ensures CoveredBy(table.checks[i], at) <==> Covers(StartOffsets(stmts, f), EndOffsets(stmts, f), order[i], at)
    ensures table.checks[i].numExceptions == |f.checks[order[i]].catches|
    ensures table.checks[i].exceptionLocal == f.checks[order[i]].caughtLocal
    ensures forall j :: 0 <= j < |f.checks[order[i]].catches| ==>
              (Catches(f, idx, matches, order[i], j) <==> Accepts(table.checks[i], table.exceptions, matches, j))
  {
    var check := f.checks[order[i]];
    forall j | 0 <= j < |check.catches|
      ensures Catches(f, idx, matches, order[i], j) <==> Accepts(table.checks[i], table.exceptions, matches, j)
    {
      assert Ok(table.exceptions[CatchesBefore(f, order, i) + j])
          == ExceptionFor(f.catches[check.catches[j]], LabelOffsets(stmts), idx);
    }
  }

  /** An exception's entry leads to its catch's start label, and reaches to its end label. */
  lemma EntryLandsOnLabel(f: Forest, stmts: seq<Instruction>, order: seq<nat>, idx: Index, table: CheckTable, i: nat,
                          j: nat)
    requires InBounds(f) && LabelsPlaced(f, LabelOffsets(stmts)) && forall i :: 0 <= i < |order| ==>
              order[i] < |f.checks|
    requires TablesFor(f, order, LabelOffsets(stmts), idx) == Ok(table) && CountsFit(f, table)
    requires i < |order| && j < |f.checks[order[i]].catches|
    ensures i < |table.checks| && table.checks[i].firstException + j < |table.exceptions|
    ensures var entry := table.exceptions[table.checks[i].firstException + j];
            var catch := f.catches[f.checks[order[i]].catches[j]];
            && entry.catchOffset == OffsetOfLabel(stmts, catch.start)
            && entry.catchSize == ToU32(OffsetOfLabel(stmts, catch.end) - OffsetOfLabel(stmts, catch.start))
            && Ok(entry.exceptionType) == TypeOffset(idx, catch.exceptionType)
  {
    hide TablesFor, ExceptionFor, RecordFor, LabelsPlaced, OffsetOfLabel, InBounds, TypeOffset;
    SliceBounds(f, order, LabelOffsets(stmts), idx, table, i);
    TablesRight(f, order, LabelOffsets(stmts), idx);
    CatchesBeforeMonotone(f, order, i + 1, |order|);
    var entry := table.exceptions[table.checks[i].firstException + j];
    CatchOf(f, order, i, j);
    assert EntryRight(f, order, LabelOffsets(stmts), idx, table, i);
    EntryOfCatch(f, stmts, f.checks[order[i]].catches[j], idx, entry);
  }

  lemma CatchOf(f: Forest, order: seq<nat>, i: nat, j: nat)
    requires InBounds(f) && forall i :: 0 <= i < |order| ==> order[i] < |f.checks|
    requires i < |order| && j < |f.checks[order[i]].catches|
    ensures f.checks[order[i]].catches[j] < |f.catches|
    ensures CatchesBefore(f, order, i + 1) == CatchesBefore(f, order, i) + |f.checks[order[i]].catches|
  {
  }

  lemma EntryOfCatch(f: Forest, stmts: seq<Instruction>, c: nat, idx: Index, entry: ExceptionRecord)
    requires LabelsPlaced(f, LabelOffsets(stmts)) && c < |f.catches|
    requires Ok(entry) == ExceptionFor(f.catches[c], LabelOffsets(stmts), idx)
    ensures entry.catchOffset == OffsetOfLabel(stmts, f.catches[c].start)
    ensures entry.catchSize == ToU32(OffsetOfLabel(stmts, f.catches[c].end) - OffsetOfLabel(stmts, f.catches[c].start))
    ensures Ok(entry.exceptionType) == TypeOffset(idx, f.catches[c].exceptionType)
  {
  }

  /** The tables as they are built for a forest whose emitted intervals are nested. */
  ghost predicate Built(f: Forest, parents: Parents, stmts: seq<Instruction>, idx: Index, table: CheckTable) {
    && Nested(f, parents)
    && WellNested(parents, StartOffsets(stmts, f), EndOffsets(stmts, f))
    && LabelsPlaced(f, LabelOffsets(stmts))
    && (forall i :: 0 <= i < |BuildLevels(f)| ==> BuildLevels(f)[i] < |f.checks|)
    && TablesFor(f, BuildLevels(f), LabelOffsets(stmts), idx) == Ok(table)
    && CountsFit(f, table)
  }

  lemma BuiltMeans(f: Forest, parents: Parents, stmts: seq<Instruction>, idx: Index, table: CheckTable,
                   matches: U32 -> bool, at: U32)
    requires Built(f, parents, stmts, idx, table)
    ensures |f.checks| == |parents| && InBounds(f) && Ordered(parents)
    ensures |table.checks| == |BuildLevels(f)| && SlicesInside(table.checks, table.exceptions)
    ensures forall i :: 0 <= i < |BuildLevels(f)| ==> BuildLevels(f)[i] < |f.checks|
    ensures forall i :: 0 <= i < |table.checks| ==>
              var k := BuildLevels(f)[i];
              && (CoveredBy(table.checks[i], at) <==> Covers(StartOffsets(stmts, f), EndOffsets(stmts, f), k, at))
              && table.checks[i].numExceptions == |f.checks[k].catches|
              && table.checks[i].exceptionLocal == f.checks[k].caughtLocal
              && (forall j :: 0 <= j < |f.checks[k].catches| ==>
                    (Catches(f, idx, matches, k, j) <==> Accepts(table.checks[i], table.exceptions, matches, j)))
  {
    hide Nested, WellNested, TablesFor, Catches, CoveredBy, BuildLevels, LabelsPlaced, Accepts, Covers, EntryRight;
    NestedFacts(f, parents);
    SpansNotNegative(parents, StartOffsets(stmts, f), EndOffsets(stmts, f));
    TablesRight(f, BuildLevels(f), LabelOffsets(stmts), idx);
    forall i | 0 <= i < |table.checks|
      ensures var k := BuildLevels(f)[i];
              && table.checks[i].firstException + table.checks[i].numExceptions <= |table.exceptions|
              && (CoveredBy(table.checks[i], at) <==> Covers(StartOffsets(stmts, f), EndOffsets(stmts, f), k, at))
              && table.checks[i].numExceptions == |f.checks[k].catches|
              && table.checks[i].exceptionLocal == f.checks[k].caughtLocal
              && (forall j :: 0 <= j < |f.checks[k].catches| ==>
                    (Catches(f, idx, matches, k, j) <==> Accepts(table.checks[i], table.exceptions, matches, j)))
    {
      RecordMeans(f, stmts, BuildLevels(f), idx, table, matches, at, i);
    }
  }

  /** The first match in the table is the handler of the innermost check that can catch the exception. */
  lemma FirstMatchIsInnermost(f: Forest, parents: Parents, stmts: seq<Instruction>, idx: Index, table: CheckTable,
                              matches: U32 -> bool, at: U32, i: nat, j: nat)
    requires Built(f, parents, stmts, idx, table) && SlicesInside(table.checks, table.exceptions)
    requires FirstMatch(table, at, matches, i, j)
    ensures i < |BuildLevels(f)| && InBounds(f) && Ordered(parents) && |parents| == |f.checks|
    ensures var k := BuildLevels(f)[i];
            && j < |f.checks[k].catches|
            && CaughtInnermost(f, parents, StartOffsets(stmts, f), EndOffsets(stmts, f), idx, at, matches, k, j)
            && table.checks[i].exceptionLocal == f.checks[k].caughtLocal
  {
    hide Nested, WellNested, TablesFor, Catches, CoveredBy, BuildLevels, LabelsPlaced, Accepts, Depth, Up, Covers,
         Built;
    BuiltMeans(f, parents, stmts, idx, table, matches, at);
    var k := BuildLevels(f)[i];
    forall q, l | 0 <= q < |f.checks| && 0 <= l < |f.checks[q].catches|
               && Covers(StartOffsets(stmts, f), EndOffsets(stmts, f), q, at) && Catches(f, idx, matches, q, l)
      ensures IsOrEncloses(parents, q, k)
    {
      AcceptedLater(f, parents, stmts, idx, table, matches, at, i, q, l);
    }
  }

  lemma AcceptedLater(f: Forest, parents: Parents, stmts: seq<Instruction>, idx: Index, table: CheckTable,
                      matches: U32 -> bool, at: U32, i: nat, q: nat, l: nat)
    requires Built(f, parents, stmts, idx, table) && SlicesInside(table.checks, table.exceptions)
    requires i < |table.checks| && CoveredBy(table.checks[i], at)
    requires forall k :: 0 <= k < i && CoveredBy(table.checks[k], at) ==>
              AcceptsNone(table.checks[k], table.exceptions, matches)
    requires q < |f.checks| && InBounds(f) && l < |f.checks[q].catches| && Catches(f, idx, matches, q, l)
    requires Covers(StartOffsets(stmts, f), EndOffsets(stmts, f), q, at)
    ensures i < |BuildLevels(f)| && Ordered(parents) && BuildLevels(f)[i] < |parents|
              && IsOrEncloses(parents, q, BuildLevels(f)[i])
  {
    hide Nested, WellNested, TablesFor, Catches, CoveredBy, BuildLevels, LabelsPlaced, Accepts, Depth, Up, Covers;
    BuiltMeans(f, parents, stmts, idx, table, matches, at);
    BuildLevelsSorted(f, parents);
    var order := BuildLevels(f);
    assert q in order && order[i] in order;
    var m: nat :| m < |order| && order[m] == q;
    assert Accepts(table.checks[m], table.exceptions, matches, l);
    assert i <= m;
    FirstCoveringIsInnermost(parents, order, StartOffsets(stmts, f), EndOffsets(stmts, f), at, i, m);
  }

  /** A check around the instruction has a catch that fits. */
  ghost predicate CanCatch(f: Forest, stmts: seq<Instruction>, idx: Index, matches: U32 -> bool, at: nat, q: nat)
    requires InBounds(f) && q < |f.checks|
  {
    && Covers(StartOffsets(stmts, f), EndOffsets(stmts, f), q, at)
    && exists l :: 0 <= l < |f.checks[q].catches| && Catches(f, idx, matches, q, l)
  }

  /** The search of the table comes up empty exactly when no check around the instruction can catch the exception. */
  lemma NoMatchNoHandler(f: Forest, parents: Parents, stmts: seq<Instruction>, idx: Index, table: CheckTable,
                         matches: U32 -> bool, at: U32)
    requires Built(f, parents, stmts, idx, table) && InBounds(f) && SlicesInside(table.checks, table.exceptions)
    ensures (forall i :: 0 <= i < |table.checks| && CoveredBy(table.checks[i], at) ==>
                           AcceptsNone(table.checks[i], table.exceptions, matches))
       <==> (forall q :: 0 <= q < |f.checks| ==> !CanCatch(f, stmts, idx, matches, at, q))
  {
    hide Nested, WellNested, TablesFor, Catches, CoveredBy, BuildLevels, LabelsPlaced, Accepts, Depth, Up, Covers;
    BuiltMeans(f, parents, stmts, idx, table, matches, at);
    BuildLevelsSorted(f, parents);
    var order := BuildLevels(f);
    forall i | 0 <= i < |order|
      ensures order[i] < |f.checks|
      ensures CanCatch(f, stmts, idx, matches, at, order[i])
         <==> CoveredBy(table.checks[i], at) && !AcceptsNone(table.checks[i], table.exceptions, matches)
    {
      assert order[i] in order;
    }
    forall q | 0 <= q < |f.checks|
      ensures CanCatch(f, stmts, idx, matches, at, q) ==>
                exists m :: 0 <= m < |table.checks| && CoveredBy(table.checks[m], at)
                         && !AcceptsNone(table.checks[m], table.exceptions, matches)
    {
      assert q in order;
    }
  }
}
