/** The handlers of exceptions: what the tables of a procedure say they are, what its fragment says
    they are, and that these are the same. */
module ExceptionHandlers {
  import opened BigEndian
  import opened CheckForest
  import opened CheckTables
  import opened ControlFlow
  import opened Emission
  import opened Instructions
  import opened Intervals
  import opened Operands
  import opened ProcLayout
  import opened SymbolIndex
  import opened TypeDefs
  import opened Wrappers

  // ---------- the handlers in the tables ----------

  /** The offsets of the types that an exception is an instance of. */
  function Matching(idx: Index, raised: Exception): U32 -> bool {
    (offset: U32) => offset < |idx.types| && raised(idx.types[offset])
  }

  /** The interpreter goes on at the first match of the tables. */
  ghost function TableHandler(table: CheckTable, idx: Index, at: nat, raised: Exception): Option<Handler>
    requires SlicesInside(table.checks, table.exceptions)
  {
    if i: nat, j: nat :| at < 0x1_0000_0000 && FirstMatch(table, at, Matching(idx, raised), i, j) then
      Some(Handler(table.exceptions[table.checks[i].firstException + j].catchOffset, table.checks[i].exceptionLocal))
    else
      None
  }

  ghost function TableHandlers(table: CheckTable, idx: Index): Handlers
    requires SlicesInside(table.checks, table.exceptions)
  {
    (at: nat, raised: Exception) => TableHandler(table, idx, at, raised)
  }

  /** There is only one first match. */
  lemma FirstMatchUnique(table: CheckTable, at: U32, matches: U32 -> bool, i: nat, j: nat, k: nat, l: nat)
    requires SlicesInside(table.checks, table.exceptions)
    requires FirstMatch(table, at, matches, i, j) && FirstMatch(table, at, matches, k, l)
    ensures i == k && j == l
  {
    hide CoveredBy, Accepts;
    assert !AcceptsNone(table.checks[i], table.exceptions, matches);
    assert !AcceptsNone(table.checks[k], table.exceptions, matches);
  }

  lemma {:induction false} FirstAccepted(check: CheckRecord, exceptions: seq<ExceptionRecord>, matches: U32 -> bool,
                                         n: nat)
      returns (j: nat)
    requires check.firstException + check.numExceptions <= |exceptions| && n <= check.numExceptions
    requires exists l :: 0 <= l < n && Accepts(check, exceptions, matches, l)
    ensures j < n && Accepts(check, exceptions, matches, j)
    ensures forall l :: 0 <= l < j ==> !Accepts(check, exceptions, matches, l)
    decreases n
  {
    if exists l :: 0 <= l < n - 1 && Accepts(check, exceptions, matches, l) {
      j := FirstAccepted(check, exceptions, matches, n - 1);
    } else {
      j := n - 1;
    }
  }

  /** A check of the table covers the instruction and accepts the exception. */
  predicate CanHandle(table: CheckTable, at: U32, matches: U32 -> bool, k: nat)
    requires SlicesInside(table.checks, table.exceptions)
  {
    k < |table.checks| && CoveredBy(table.checks[k], at) && !AcceptsNone(table.checks[k], table.exceptions, matches)
  }

  /** If any check can handle an exception there is a first match. */
  lemma {:induction false} SomeMatchIsFirst(table: CheckTable, at: U32, matches: U32 -> bool, n: nat)
      returns (i: nat, j: nat)
    requires SlicesInside(table.checks, table.exceptions) && n <= |table.checks|
    requires exists k: nat :: k < n && CanHandle(table, at, matches, k)
    ensures i < n && FirstMatch(table, at, matches, i, j)
    decreases n
  {
    hide CoveredBy, Accepts;
    if exists k: nat :: k < n - 1 && CanHandle(table, at, matches, k) {
      i, j := SomeMatchIsFirst(table, at, matches, n - 1);
    } else {
      i := n - 1;
      assert CanHandle(table, at, matches, i);
      j := FirstAccepted(table.checks[i], table.exceptions, matches, table.checks[i].numExceptions);
      forall k | 0 <= k < i && CoveredBy(table.checks[k], at)
        ensures AcceptsNone(table.checks[k], table.exceptions, matches)
      {
        assert !CanHandle(table, at, matches, k);
      }
    }
  }

  // ---------- the handlers in the fragment ----------

  /** A catch is for a type that the exception is an instance of. */
  ghost predicate FitsCatch(f: Forest, raised: Exception, k: nat, j: nat)
    requires InBounds(f) && k < |f.checks| && j < |f.checks[k].catches|
  {
    raised(f.catches[f.checks[k].catches[j]].exceptionType)
  }

  ghost predicate Spans(f: Forest, parents: Parents, lo: seq<nat>, hi: seq<nat>) {
    InBounds(f) && Ordered(parents) && |parents| == |lo| == |hi| == |f.checks|
  }

  /** Catch `j` of check `k` is the one for an exception raised at a place: the check is around the
      place, the catch is its first that fits, and of the checks around the place that could have
      caught the exception all others are further out. */
  ghost predicate HandlesAt(f: Forest, parents: Parents, lo: seq<nat>, hi: seq<nat>, at: nat, raised: Exception, k: nat,
                            j: nat)
    requires Spans(f, parents, lo, hi)
  {
    && k < |f.checks| && j < |f.checks[k].catches|
    && Covers(lo, hi, k, at)
    && FitsCatch(f, raised, k, j)
    && (forall l :: 0 <= l < j ==> !FitsCatch(f, raised, k, l))
    && (forall q, l :: 0 <= q < |f.checks| && 0 <= l < |f.checks[q].catches|
                       && Covers(lo, hi, q, at) && FitsCatch(f, raised, q, l) ==>
          IsOrEncloses(parents, q, k))
  }

  lemma HandlerUnique(f: Forest, parents: Parents, lo: seq<nat>, hi: seq<nat>, at: nat, raised: Exception,
                      k: nat, j: nat, q: nat, l: nat)
    requires Spans(f, parents, lo, hi)
    requires HandlesAt(f, parents, lo, hi, at, raised, k, j) && HandlesAt(f, parents, lo, hi, at, raised, q, l)
    ensures k == q && j == l
  {
    hide InBounds, Encloses, FitsCatch, Covers;
    if k != q {
      assert IsOrEncloses(parents, q, k) && IsOrEncloses(parents, k, q);
      EnclosesBelow(parents, q, k);
      EnclosesBelow(parents, k, q);
    }
  }

  /** Catch `c` is the one for an exception raised at a place: the check that it was declared for is around the
      place, it is the first catch declared for that check that fits, and of the checks around the place that a
      fitting catch was declared for all others are further out. */
  ghost predicate CatchesAt(f: Forest, parents: Parents, owners: seq<nat>, lo: seq<nat>, hi: seq<nat>, at: nat,
                            raised: Exception, c: nat)
    requires Spans(f, parents, lo, hi) && CatchesAgree(f, owners)
  {
    && c < |owners| && Covers(lo, hi, owners[c], at) && raised(f.catches[c].exceptionType)
    && (forall d :: 0 <= d < c && owners[d] == owners[c] ==> !raised(f.catches[d].exceptionType))
    && (forall d :: 0 <= d < |owners| && Covers(lo, hi, owners[d], at) && raised(f.catches[d].exceptionType) ==>
          IsOrEncloses(parents, owners[d], owners[c]))
  }

  lemma CatchInBounds(f: Forest, owners: seq<nat>, k: nat, j: nat)
    requires InBounds(f) && CatchesAgree(f, owners) && k < |f.checks| && j < |f.checks[k].catches|
    ensures f.checks[k].catches[j] < |owners| == |f.catches| && owners[f.checks[k].catches[j]] == k
  {
    assert f.checks[k].catches[j] in f.checks[k].catches;
  }

  /** A catch is in the list of its check. */
  lemma CatchListed(f: Forest, owners: seq<nat>, c: nat) returns (j: nat)
    requires InBounds(f) && CatchesAgree(f, owners) && c < |owners|
    ensures owners[c] < |f.checks| && j < |f.checks[owners[c]].catches| && f.checks[owners[c]].catches[j] == c
  {
    assert c in f.checks[owners[c]].catches;
    j :| 0 <= j < |f.checks[owners[c]].catches| && f.checks[owners[c]].catches[j] == c;
  }

  lemma FirstSame(f: Forest, owners: seq<nat>, raised: Exception, k: nat, j: nat)
    requires InBounds(f) && CatchesAgree(f, owners) && k < |f.checks| && j < |f.checks[k].catches|
    ensures var c := f.checks[k].catches[j];
            && c < |owners| == |f.catches|
            && ((forall l :: 0 <= l < j ==> !FitsCatch(f, raised, k, l)) <==>
                (forall d :: 0 <= d < c && owners[d] == k ==> !raised(f.catches[d].exceptionType)))
  {
    hide CatchesAgree, InBounds;
    var c := f.checks[k].catches[j];
    CatchInBounds(f, owners, k, j);
    if d: nat :| d < c && owners[d] == k && raised(f.catches[d].exceptionType) {
      var l := CatchListed(f, owners, d);
      CatchesInOrder(f, owners, k, l, j);
      assert FitsCatch(f, raised, k, l);
    }
    if l: nat :| l < j && FitsCatch(f, raised, k, l) {
      CatchInBounds(f, owners, k, l);
      CatchesInOrder(f, owners, k, l, j);
      assert owners[f.checks[k].catches[l]] == k;
    }
  }

  lemma OutermostSame(f: Forest, parents: Parents, owners: seq<nat>, lo: seq<nat>, hi: seq<nat>, at: nat,
                      raised: Exception, k: nat)
    requires Spans(f, parents, lo, hi) && CatchesAgree(f, owners) && k < |f.checks|
    ensures (forall q, l :: 0 <= q < |f.checks| && 0 <= l < |f.checks[q].catches|
                            && Covers(lo, hi, q, at) && FitsCatch(f, raised, q, l) ==>
               IsOrEncloses(parents, q, k))
       <==> (forall d :: 0 <= d < |owners| && Covers(lo, hi, owners[d], at) && raised(f.catches[d].exceptionType) ==>
               IsOrEncloses(parents, owners[d], k))
  {
    hide Covers, InBounds, IsOrEncloses;
    if d: nat :| d < |owners| && Covers(lo, hi, owners[d], at) && raised(f.catches[d].exceptionType)
                 && !IsOrEncloses(parents, owners[d], k) {
      var l := CatchListed(f, owners, d);
      assert FitsCatch(f, raised, owners[d], l);
    }
    if q: nat, l: nat :| q < |f.checks| && l < |f.checks[q].catches| && Covers(lo, hi, q, at)
                         && FitsCatch(f, raised, q, l) && !IsOrEncloses(parents, q, k) {
      CatchInBounds(f, owners, q, l);
      assert owners[f.checks[q].catches[l]] == q;
    }
  }

  /** It is the same to look for the handler in the lists of the checks. */
  lemma HandlesAsDeclared(f: Forest, parents: Parents, owners: seq<nat>, lo: seq<nat>, hi: seq<nat>, at: nat,
                          raised: Exception, k: nat, j: nat)
    requires Spans(f, parents, lo, hi) && CatchesAgree(f, owners) && k < |f.checks| && j < |f.checks[k].catches|
    ensures HandlesAt(f, parents, lo, hi, at, raised, k, j)
       <==> CatchesAt(f, parents, owners, lo, hi, at, raised, f.checks[k].catches[j])
  {
    hide Covers, InBounds, CatchesAgree, IsOrEncloses;
    CatchInBounds(f, owners, k, j);
    FirstSame(f, owners, raised, k, j);
    OutermostSame(f, parents, owners, lo, hi, at, raised, k);
  }

  lemma CatchesInOrder(f: Forest, owners: seq<nat>, k: nat, l: nat, j: nat)
    requires CatchesAgree(f, owners) && k < |f.checks|
    ensures l < |f.checks[k].catches| && j < |f.checks[k].catches| ==>
              (l < j <==> f.checks[k].catches[l] < f.checks[k].catches[j])
  {
  }

  /** The start label of a catch stands here. */
  ghost predicate CatchStarts(f: Forest, stmts: seq<Instruction>, c: nat, l: nat)
    requires c < |f.catches|
  {
    l < |stmts| && stmts[l] == Label(f.catches[c].start)
  }

  /** An exception raised by a statement of a fragment is caught at the start label of the catch for it. */
  ghost function FragmentHandler(f: Forest, parents: Parents, owners: seq<nat>, lo: seq<nat>, hi: seq<nat>,
                                 stmts: seq<Instruction>, at: nat, raised: Exception): Option<Handler>
    requires Spans(f, parents, lo, hi) && CatchesAgree(f, owners)
  {
    if c: nat, l: nat :| CatchesAt(f, parents, owners, lo, hi, at, raised, c) && CatchStarts(f, stmts, c, l) then
      Some(Handler(l, f.checks[owners[c]].caughtLocal))
    else
      None
  }

  ghost function FragmentHandlers(f: Forest, parents: Parents, owners: seq<nat>, lo: seq<nat>, hi: seq<nat>,
                                  stmts: seq<Instruction>): Handlers
    requires Spans(f, parents, lo, hi) && CatchesAgree(f, owners)
  {
    (at: nat, raised: Exception) => FragmentHandler(f, parents, owners, lo, hi, stmts, at, raised)
  }

  // ---------- they correspond ----------

  /** The labels of the checks stand at these positions of the fragment. */
  ghost predicate PlacedAt(f: Forest, stmts: seq<Instruction>, lo: seq<nat>, hi: seq<nat>) {
    && |lo| == |hi| == |f.checks|
    && (forall k :: 0 <= k < |f.checks| ==>
          && lo[k] < |stmts| && stmts[lo[k]] == Label(f.checks[k].start)
          && hi[k] < |stmts| && stmts[hi[k]] == Label(f.checks[k].end))
  }

  ghost predicate CatchesLow(stmts: seq<Instruction>, f: Forest) {
    forall c :: 0 <= c < |f.catches| ==> LabelLow(stmts, f.catches[c].start)
  }

  lemma SpanOffsets(f: Forest, stmts: seq<Instruction>, lo: seq<nat>, hi: seq<nat>, k: nat)
    requires PlacedAt(f, stmts, lo, hi) && DistinctLabels(stmts) && ChecksLow(stmts, f) && k < |f.checks|
    ensures StartOffsets(stmts, f)[k] == Offset(stmts, lo[k]) && EndOffsets(stmts, f)[k] == Offset(stmts, hi[k])
  {
    hide Offset, DistinctLabels, LabelLow, OffsetOfLabel;
    LabelAt(stmts, lo[k]);
    LabelAt(stmts, hi[k]);
  }

  /** An instruction is between the labels of a check exactly when its offset is in the check's interval. */
  lemma CoversSame(f: Forest, stmts: seq<Instruction>, lo: seq<nat>, hi: seq<nat>, k: nat, at: nat)
    requires PlacedAt(f, stmts, lo, hi) && DistinctLabels(stmts) && ChecksLow(stmts, f)
    requires k < |f.checks| && at < |stmts| && Size(stmts[at]) > 0
    ensures Covers(StartOffsets(stmts, f), EndOffsets(stmts, f), k, Offset(stmts, at)) <==> Covers(lo, hi, k, at)
  {
    hide Offset, DistinctLabels, ChecksLow, StartOffsets, EndOffsets, Encode;
    SpanOffsets(f, stmts, lo, hi, k);
    OrderedOffsets(stmts, lo[k], at);
    OrderedOffsets(stmts, hi[k], at);
    assert StartOffsets(stmts, f)[k] <= Offset(stmts, at) <==> lo[k] <= at;
    assert Offset(stmts, at) < EndOffsets(stmts, f)[k] <==> at < hi[k];
  }

  /** A statement that takes room is behind a position exactly when its offset is not before that of the position. */
  lemma OrderedOffsets(stmts: seq<Instruction>, x: nat, at: nat)
    requires x < |stmts| && at < |stmts| && Size(stmts[at]) > 0
    ensures x <= at <==> Offset(stmts, x) <= Offset(stmts, at)
  {
    if x <= at {
      OffsetMonotone(stmts, x, at);
    } else {
      OffsetMonotone(stmts, at, x);
    }
  }

  /** Whether a catch fits can be told by the offset of its type. */
  lemma FitsSame(f: Forest, idx: Index, raised: Exception, k: nat, j: nat)
    requires Consistent(idx) && Addressable(idx) && InBounds(f) && k < |f.checks| && j < |f.checks[k].catches|
    requires f.catches[f.checks[k].catches[j]].exceptionType in idx.typeOffsets
    ensures Catches(f, idx, Matching(idx, raised), k, j) <==> FitsCatch(f, raised, k, j)
  {
    hide Consistent, Addressable;
    TableDenotes(idx);
  }

  lemma InnermostSame(f: Forest, parents: Parents, stmts: seq<Instruction>, lo: seq<nat>, hi: seq<nat>, idx: Index,
                      at: nat, raised: Exception, k: nat, j: nat)
    requires Spans(f, parents, lo, hi) && PlacedAt(f, stmts, lo, hi) && DistinctLabels(stmts) && ChecksLow(stmts, f)
    requires Consistent(idx) && Addressable(idx) && AllTypesTracked(f, idx)
    requires at < |stmts| && Size(stmts[at]) > 0 && k < |f.checks| && j < |f.checks[k].catches|
    ensures CaughtInnermost(f, parents, StartOffsets(stmts, f), EndOffsets(stmts, f), idx, Offset(stmts, at),
                            Matching(idx, raised), k, j)
       <==> HandlesAt(f, parents, lo, hi, at, raised, k, j)
  {
    hide Offset, DistinctLabels, ChecksLow, Encode, PlacedAt, Consistent, Covers, Catches, FitsCatch, Encloses,
         StartOffsets, EndOffsets;
    forall q, l | 0 <= q < |f.checks| && 0 <= l < |f.checks[q].catches|
      ensures Catches(f, idx, Matching(idx, raised), q, l) <==> FitsCatch(f, raised, q, l)
    {
      FitsSame(f, idx, raised, q, l);
    }
    forall q | 0 <= q < |f.checks|
      ensures Covers(StartOffsets(stmts, f), EndOffsets(stmts, f), q, Offset(stmts, at)) <==> Covers(lo, hi, q, at)
    {
      CoversSame(f, stmts, lo, hi, q, at);
    }
  }

  ghost predicate AllTypesTracked(f: Forest, idx: Index)
    requires InBounds(f)
  {
    forall q, l :: 0 <= q < |f.checks| && 0 <= l < |f.checks[q].catches| ==>
      f.catches[f.checks[q].catches[l]].exceptionType in idx.typeOffsets
  }

  /** The tables built for a fragment in which the checks are placed. */
  ghost predicate Tabled(f: Forest, parents: Parents, owners: seq<nat>, stmts: seq<Instruction>, lo: seq<nat>,
                         hi: seq<nat>, idx: Index, table: CheckTable) {
    && Built(f, parents, stmts, idx, table)
    && SlicesInside(table.checks, table.exceptions)
    && Spans(f, parents, lo, hi) && CatchesAgree(f, owners) && PlacedAt(f, stmts, lo, hi)
    && DistinctLabels(stmts) && ChecksLow(stmts, f) && CatchesLow(stmts, f)
    && Consistent(idx) && Addressable(idx)
  }

  lemma TabledTracked(f: Forest, parents: Parents, owners: seq<nat>, stmts: seq<Instruction>, lo: seq<nat>,
                      hi: seq<nat>, idx: Index, table: CheckTable)
    requires Tabled(f, parents, owners, stmts, lo, hi, idx, table)
    ensures AllTypesTracked(f, idx)
  {
    hide Nested, WellNested, TablesFor, LabelsPlaced, BuildLevels, DistinctLabels, ChecksLow, CatchesLow, PlacedAt,
         Consistent, EntryRight;
    TablesRight(f, BuildLevels(f), LabelOffsets(stmts), idx);
    BuildLevelsSorted(f, parents);
    forall q, l | 0 <= q < |f.checks| && 0 <= l < |f.checks[q].catches|
      ensures f.catches[f.checks[q].catches[l]].exceptionType in idx.typeOffsets
    {
      assert q in BuildLevels(f);
    }
  }

  /** The label that a catch starts at, and the offset that the tables have for it. */
  lemma CatchLabel(f: Forest, parents: Parents, owners: seq<nat>, stmts: seq<Instruction>, lo: seq<nat>, hi: seq<nat>,
                   idx: Index, table: CheckTable, i: nat, j: nat) returns (l: nat)
    requires Tabled(f, parents, owners, stmts, lo, hi, idx, table)
    requires i < |BuildLevels(f)| && BuildLevels(f)[i] < |f.checks| && j < |f.checks[BuildLevels(f)[i]].catches|
    ensures l < |stmts| && CatchStarts(f, stmts, f.checks[BuildLevels(f)[i]].catches[j], l)
    ensures forall m :: CatchStarts(f, stmts, f.checks[BuildLevels(f)[i]].catches[j], m) ==> m == l
    ensures i < |table.checks| && table.checks[i].firstException + j < |table.exceptions|
    ensures table.exceptions[table.checks[i].firstException + j].catchOffset == Offset(stmts, l)
  {
    hide Nested, WellNested, TablesFor, BuildLevels, DistinctLabels, ChecksLow, PlacedAt, Consistent, Offset, LabelLow,
         LabelOffsets;
    var c := f.checks[BuildLevels(f)[i]].catches[j];
    EntryLandsOnLabel(f, stmts, BuildLevels(f), idx, table, i, j);
    assert c < |f.catches| && LabelLow(stmts, f.catches[c].start);
    l := FindLabel(stmts, f.catches[c].start);
    assert OffsetOfLabel(stmts, f.catches[c].start) == LabelOffsets(stmts)[f.catches[c].start];
  }

  lemma HandlerListed(f: Forest, parents: Parents, owners: seq<nat>, lo: seq<nat>, hi: seq<nat>, at: nat,
                      raised: Exception, c: nat) returns (k: nat, j: nat)
    requires Spans(f, parents, lo, hi) && CatchesAgree(f, owners)
              && CatchesAt(f, parents, owners, lo, hi, at, raised, c)
    ensures k < |f.checks| && j < |f.checks[k].catches| && f.checks[k].catches[j] == c
    ensures HandlesAt(f, parents, lo, hi, at, raised, k, j)
  {
    hide CatchesAgree, InBounds, HandlesAt, Covers;
    j := CatchListed(f, owners, c);
    k := owners[c];
    HandlesAsDeclared(f, parents, owners, lo, hi, at, raised, k, j);
  }

  lemma DeclaredUnique(f: Forest, parents: Parents, owners: seq<nat>, lo: seq<nat>, hi: seq<nat>, at: nat,
                       raised: Exception, k: nat, j: nat, c: nat)
    requires Spans(f, parents, lo, hi) && CatchesAgree(f, owners)
              && CatchesAt(f, parents, owners, lo, hi, at, raised, c)
    requires HandlesAt(f, parents, lo, hi, at, raised, k, j)
    ensures f.checks[k].catches[j] == c
  {
    hide CatchesAgree, InBounds, HandlesAt, CatchesAt;
    var q, m := HandlerListed(f, parents, owners, lo, hi, at, raised, c);
    HandlerUnique(f, parents, lo, hi, at, raised, k, j, q, m);
  }

  /** A first match of the tables is the handler of the fragment. */
  lemma MatchIsHandler(f: Forest, parents: Parents, owners: seq<nat>, stmts: seq<Instruction>, lo: seq<nat>,
                       hi: seq<nat>, idx: Index, table: CheckTable, at: nat, raised: Exception, i: nat, j: nat)
    requires Tabled(f, parents, owners, stmts, lo, hi, idx, table) && at < |stmts| && Size(stmts[at]) > 0
    requires Offset(stmts, at) < 0x1_0000_0000 && FirstMatch(table, Offset(stmts, at), Matching(idx, raised), i, j)
    ensures var handler := FragmentHandler(f, parents, owners, lo, hi, stmts, at, raised);
            && handler.Some? && handler.value.place < |stmts|
            && TableHandler(table, idx, Offset(stmts, at), raised) ==
                 Some(Handler(Offset(stmts, handler.value.place), handler.value.slot))
  {
    hide FirstMatch, Offset, Built, BuildLevels, DistinctLabels, ChecksLow, CatchesLow, PlacedAt, Consistent,
         CaughtInnermost, HandlesAt, Matching, CatchStarts, SlicesInside, Encode;
    FirstMatchIsInnermost(f, parents, stmts, idx, table, Matching(idx, raised), Offset(stmts, at), i, j);
    var k := BuildLevels(f)[i];
    assert k < |f.checks| by { LevelsKnown(f, parents, stmts, idx, table); }
    TabledTracked(f, parents, owners, stmts, lo, hi, idx, table);
    InnermostSame(f, parents, stmts, lo, hi, idx, at, raised, k, j);
    var l := CatchLabel(f, parents, owners, stmts, lo, hi, idx, table, i, j);
    HandlesAsDeclared(f, parents, owners, lo, hi, at, raised, k, j);
    var c := f.checks[k].catches[j];
    CatchInBounds(f, owners, k, j);
    forall d | CatchesAt(f, parents, owners, lo, hi, at, raised, d)
      ensures d == c
    {
      DeclaredUnique(f, parents, owners, lo, hi, at, raised, k, j, d);
    }
    forall q, m | FirstMatch(table, Offset(stmts, at), Matching(idx, raised), q, m)
      ensures q == i && m == j
    {
      FirstMatchUnique(table, Offset(stmts, at), Matching(idx, raised), i, j, q, m);
    }
    SlicesKnown(f, parents, stmts, idx, table, i);
    assert FragmentHandler(f, parents, owners, lo, hi, stmts, at, raised) == Some(Handler(l, f.checks[k].caughtLocal));
  }

  lemma LevelsKnown(f: Forest, parents: Parents, stmts: seq<Instruction>, idx: Index, table: CheckTable)
    requires Built(f, parents, stmts, idx, table)
    ensures InBounds(f) && forall i :: 0 <= i < |BuildLevels(f)| ==> BuildLevels(f)[i] < |f.checks|
  {
    hide Nested, WellNested, TablesFor, BuildLevels, LabelsPlaced;
    NestedFacts(f, parents);
  }

  lemma SlicesKnown(f: Forest, parents: Parents, stmts: seq<Instruction>, idx: Index, table: CheckTable, i: nat)
    requires Built(f, parents, stmts, idx, table) && InBounds(f) && i < |BuildLevels(f)|
              && BuildLevels(f)[i] < |f.checks|
    ensures i < |table.checks| && table.checks[i].exceptionLocal == f.checks[BuildLevels(f)[i]].caughtLocal
  {
    hide Built, BuildLevels, CoveredBy, Covers, Catches, Accepts;
    BuiltMeans(f, parents, stmts, idx, table, (_) => true, 0);
  }

  /** Without a first match the fragment has no handler either. */
  lemma NoMatchIsNoHandler(f: Forest, parents: Parents, owners: seq<nat>, stmts: seq<Instruction>, lo: seq<nat>,
                           hi: seq<nat>, idx: Index, table: CheckTable, at: nat, raised: Exception)
    requires Tabled(f, parents, owners, stmts, lo, hi, idx, table) && at < |stmts| && Size(stmts[at]) > 0
    requires TableHandler(table, idx, Offset(stmts, at), raised) == None
    ensures FragmentHandler(f, parents, owners, lo, hi, stmts, at, raised) == None
  {
    hide FirstMatch, Offset, Built, BuildLevels, DistinctLabels, ChecksLow, CatchesLow, PlacedAt, Consistent,
         Matching, CatchStarts, Encode, StartOffsets, EndOffsets, CanCatch, Covers, CoveredBy, FitsCatch;
    forall c | CatchesAt(f, parents, owners, lo, hi, at, raised, c)
      ensures false
    {
      var k, j := HandlerListed(f, parents, owners, lo, hi, at, raised, c);
      CoversSame(f, stmts, lo, hi, k, at);
      TabledTracked(f, parents, owners, stmts, lo, hi, idx, table);
      FitsSame(f, idx, raised, k, j);
      CoveredIsLow(f, stmts, k, Offset(stmts, at));
      var here: U32 := Offset(stmts, at);
      assert CanCatch(f, stmts, idx, Matching(idx, raised), here, k) by {
        CatchWitness(f, stmts, idx, Matching(idx, raised), here, k, j);
      }
      NoMatchNoHandler(f, parents, stmts, idx, table, Matching(idx, raised), here);
      var m :| 0 <= m < |table.checks| && CoveredBy(table.checks[m], here)
        && !AcceptsNone(table.checks[m], table.exceptions, Matching(idx, raised));
      assert CanHandle(table, here, Matching(idx, raised), m);
      var a, b := SomeMatchIsFirst(table, here, Matching(idx, raised), |table.checks|);
    }
  }

  lemma CoveredIsLow(f: Forest, stmts: seq<Instruction>, k: nat, at: nat)
    requires k < |f.checks| && Covers(StartOffsets(stmts, f), EndOffsets(stmts, f), k, at)
    ensures at < 0x1_0000
  {
  }

  lemma CatchWitness(f: Forest, stmts: seq<Instruction>, idx: Index, matches: U32 -> bool, at: nat, k: nat, j: nat)
    requires InBounds(f) && k < |f.checks| && j < |f.checks[k].catches|
    requires Covers(StartOffsets(stmts, f), EndOffsets(stmts, f), k, at) && Catches(f, idx, matches, k, j)
    ensures CanCatch(f, stmts, idx, matches, at, k)
  {
  }

  /** The handlers that the interpreter finds in the tables are those of the fragment: for every
      exception the innermost check around the raising statement that has a catch for it, or none. */
  lemma TablesHandleAsFragment(f: Forest, parents: Parents, owners: seq<nat>, stmts: seq<Instruction>, lo: seq<nat>,
                               hi: seq<nat>, idx: Index, table: CheckTable)
    requires Tabled(f, parents, owners, stmts, lo, hi, idx, table)
    ensures HandlersMatch(stmts, TableHandlers(table, idx), FragmentHandlers(f, parents, owners, lo, hi, stmts))
  {
    hide Offset, Built, BuildLevels, DistinctLabels, ChecksLow, CatchesLow, PlacedAt, Consistent, FirstMatch, HandlesAt,
         SlicesInside, InBounds, Tabled;
    TabledParts(f, parents, owners, stmts, lo, hi, idx, table);
    forall j: nat, raised: Exception | j < |stmts| && stmts[j].Raise?
      ensures Corresponds(stmts, Caught(TableHandler(table, idx, Offset(stmts, j), raised)),
                          Caught(FragmentHandler(f, parents, owners, lo, hi, stmts, j, raised)))
    {
      var at := Offset(stmts, j);
      if i: nat, m: nat :| at < 0x1_0000_0000 && FirstMatch(table, at, Matching(idx, raised), i, m) {
        MatchIsHandler(f, parents, owners, stmts, lo, hi, idx, table, j, raised, i, m);
      } else {
        NoMatchIsNoHandler(f, parents, owners, stmts, lo, hi, idx, table, j, raised);
      }
    }
  }

  lemma TabledParts(f: Forest, parents: Parents, owners: seq<nat>, stmts: seq<Instruction>, lo: seq<nat>,
                    hi: seq<nat>, idx: Index, table: CheckTable)
    requires Tabled(f, parents, owners, stmts, lo, hi, idx, table)
    ensures SlicesInside(table.checks, table.exceptions) && Spans(f, parents, lo, hi) && CatchesAgree(f, owners)
  {
    hide Built;
  }
}
