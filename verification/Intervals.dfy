/** The intervals that checks cover: nested like the checks themselves, so that the first table
    entry to cover an instruction is the innermost check around it. */
module Intervals {
  import opened BigEndian
  import opened CheckForest
  import opened Emission
  import opened Instructions
  import opened Wrappers

  // ---------- intervals nested like a forest ----------

  /** A check covers [lo[i], hi[i]). Children lie within their parent, and of two checks declared
      in the same place one ends before the other starts, whichever was declared first. */
  ghost predicate WellNested(parents: Parents, lo: seq<nat>, hi: seq<nat>) {
    && Ordered(parents)
    && |lo| == |hi| == |parents|
    && (forall i :: 0 <= i < |lo| ==> lo[i] <= hi[i])
    && WithinParents(parents, lo, hi)
    && SiblingsApart(parents, lo, hi)
  }

  ghost predicate WithinParents(parents: Parents, lo: seq<nat>, hi: seq<nat>)
    requires Ordered(parents) && |lo| == |hi| == |parents|
  {
    forall i :: 0 <= i < |lo| && parents[i].Some? ==> lo[parents[i].value] <= lo[i] && hi[i] <= hi[parents[i].value]
  }

  ghost predicate SiblingsApart(parents: Parents, lo: seq<nat>, hi: seq<nat>)
    requires |lo| == |hi| == |parents|
  {
    forall i, j :: 0 <= i < j < |lo| && parents[i] == parents[j] ==> hi[i] <= lo[j] || hi[j] <= lo[i]
  }

  lemma SpansNotNegative(parents: Parents, lo: seq<nat>, hi: seq<nat>)
    requires WellNested(parents, lo, hi)
    ensures Ordered(parents) && |lo| == |hi| == |parents| && forall i :: 0 <= i < |lo| ==> lo[i] <= hi[i]
  {
  }

  predicate Covers(lo: seq<nat>, hi: seq<nat>, i: nat, at: nat)
    requires i < |lo| == |hi|
  {
    lo[i] <= at < hi[i]
  }

  lemma {:induction false} AncestorContains(parents: Parents, lo: seq<nat>, hi: seq<nat>, i: nat, n: nat)
    requires WellNested(parents, lo, hi) && i < |parents| && Up(parents, i, n).Some?
    ensures var a := Up(parents, i, n).value;
            lo[a] <= lo[i] && hi[i] <= hi[a]
    decreases n
  {
    if n > 0 {
      AncestorContains(parents, lo, hi, parents[i].value, n - 1);
    }
  }

  /** Two different checks of the same depth never overlap. */
  lemma {:induction false} SameDepthDisjoint(parents: Parents, lo: seq<nat>, hi: seq<nat>, i: nat, j: nat)
    requires WellNested(parents, lo, hi) && i < j < |parents| && Depth(parents, i) == Depth(parents, j)
    ensures hi[i] <= lo[j] || hi[j] <= lo[i]
    decreases Depth(parents, i)
  {
    if parents[i] != parents[j] {
      var a, b := parents[i].value, parents[j].value;
      if a < b {
        SameDepthDisjoint(parents, lo, hi, a, b);
      } else {
        SameDepthDisjoint(parents, lo, hi, b, a);
      }
    }
  }

  /** Any two checks are disjoint, or the deeper one is the other or declared in it, and lies within it. */
  lemma NestedOrDisjoint(parents: Parents, lo: seq<nat>, hi: seq<nat>, i: nat, j: nat)
    requires WellNested(parents, lo, hi) && i < |parents| && j < |parents| && Depth(parents, j) <= Depth(parents, i)
    ensures || hi[i] <= lo[j] || hi[j] <= lo[i]
            || ((i == j || Encloses(parents, j, i)) && lo[j] <= lo[i] && hi[i] <= hi[j])
  {
    hide WellNested, Depth, Up, Encloses;
    SpansNotNegative(parents, lo, hi);
    var n := Depth(parents, i) - Depth(parents, j);
    UpDepth(parents, i, n);
    UpEncloses(parents, i, n);
    AncestorContains(parents, lo, hi, i, n);
    AncestorOrDisjoint(parents, lo, hi, i, j, Up(parents, i, n).value);
  }

  lemma AncestorOrDisjoint(parents: Parents, lo: seq<nat>, hi: seq<nat>, i: nat, j: nat, a: nat)
    requires WellNested(parents, lo, hi) && i < |parents| && j < |parents| && a < |parents|
    requires Depth(parents, a) == Depth(parents, j) && lo[a] <= lo[i] && hi[i] <= hi[a]
    ensures a == j || hi[i] <= lo[j] || hi[j] <= lo[i]
  {
    hide Depth, WellNested;
    if a < j {
      SameDepthDisjoint(parents, lo, hi, a, j);
    } else if j < a {
      SameDepthDisjoint(parents, lo, hi, j, a);
    }
  }

  /** In a table sorted deepest first, every check that covers the instruction is the first one that
      does, or that first one was declared in it. */
  lemma FirstCoveringIsInnermost(parents: Parents, order: seq<nat>, lo: seq<nat>, hi: seq<nat>, at: nat, p: nat, q: nat)
    requires WellNested(parents, lo, hi) && DeepestFirst(parents, order)
    requires forall x: nat :: x in order <==> x < |parents|
    requires p <= q < |order|
    requires order[p] in order && order[q] in order
    requires Covers(lo, hi, order[p], at) && Covers(lo, hi, order[q], at)
    ensures order[q] == order[p] || Encloses(parents, order[q], order[p])
  {
    hide WellNested, Depth, Encloses;
    NestedOrDisjoint(parents, lo, hi, order[p], order[q]);
  }

  // ---------- intervals that are moved ----------

  function MapAll(s: seq<nat>, g: nat -> nat): (r: seq<nat>)
    ensures |r| == |s|
  {
    seq(|s|, i requires 0 <= i < |s| => g(s[i]))
  }

  ghost predicate Monotone(g: nat -> nat) {
    forall a, b :: a <= b ==> g(a) <= g(b)
  }

  /** Moving all positions by a monotone map keeps intervals nested. */
  lemma MonotoneNested(parents: Parents, lo: seq<nat>, hi: seq<nat>, g: nat -> nat)
    requires WellNested(parents, lo, hi) && Monotone(g)
    ensures WellNested(parents, MapAll(lo, g), MapAll(hi, g))
  {
    var lo1, hi1 := MapAll(lo, g), MapAll(hi, g);
    forall i, j | 0 <= i < j < |lo| && parents[i] == parents[j]
      ensures hi1[i] <= lo1[j] || hi1[j] <= lo1[i]
    {
      assert hi[i] <= lo[j] || hi[j] <= lo[i];
    }
  }

  // ---------- the intervals of the emitted table ----------

  /** The offset that the emitted tables give for a label, when the emit pass met it. */
  function OffsetOfLabel(stmts: seq<Instruction>, name: string): nat {
    if name in LabelOffsets(stmts) then LabelOffsets(stmts)[name] else 0
  }

  function StartOffsets(stmts: seq<Instruction>, f: Forest): (lo: seq<nat>)
    ensures |lo| == |f.checks|
  {
    seq(|f.checks|, i requires 0 <= i < |f.checks| => OffsetOfLabel(stmts, f.checks[i].start))
  }

  function EndOffsets(stmts: seq<Instruction>, f: Forest): (hi: seq<nat>)
    ensures |hi| == |f.checks|
  {
    seq(|f.checks|, i requires 0 <= i < |f.checks| => OffsetOfLabel(stmts, f.checks[i].end))
  }

  /** The labels of the checks lie where 16-bit offsets can say where they are. */
  ghost predicate ChecksLow(stmts: seq<Instruction>, f: Forest) {
    forall k :: 0 <= k < |f.checks| ==> LabelLow(stmts, f.checks[k].start) && LabelLow(stmts, f.checks[k].end)
  }

  lemma LabelAt(stmts: seq<Instruction>, i: nat)
    requires DistinctLabels(stmts) && i < |stmts| && stmts[i].Label? && LabelLow(stmts, stmts[i].name)
    ensures OffsetOfLabel(stmts, stmts[i].name) == Offset(stmts, i)
  {
    hide LabelOffsets, Offset, DistinctLabels;
    LabelOffsetAt(stmts, i);
    assert stmts[i] == Label(stmts[i].name);
  }

  function OffsetUpTo(stmts: seq<Instruction>, x: nat): nat {
    Offset(stmts, if x < |stmts| then x else |stmts|)
  }

  /** Emitting keeps nested intervals nested. */
  lemma EmittedNested(stmts: seq<Instruction>, f: Forest, parents: Parents, starts: seq<nat>, ends: seq<nat>)
    requires WellNested(parents, starts, ends) && |parents| == |f.checks|
    requires DistinctLabels(stmts) && ChecksLow(stmts, f)
    requires forall i :: 0 <= i < |starts| ==> starts[i] < |stmts| && stmts[starts[i]] == Label(f.checks[i].start)
    requires forall i :: 0 <= i < |ends| ==> ends[i] < |stmts| && stmts[ends[i]] == Label(f.checks[i].end)
    ensures WellNested(parents, StartOffsets(stmts, f), EndOffsets(stmts, f))
  {
    hide WellNested, DistinctLabels, Offset, LabelOffsets, LabelLow, OffsetOfLabel;
    SpansNotNegative(parents, starts, ends);
    var g := (x: nat) => OffsetUpTo(stmts, x);
    forall a: nat, b: nat | a <= b
      ensures OffsetUpTo(stmts, a) <= OffsetUpTo(stmts, b)
    {
      OffsetMonotone(stmts, if a < |stmts| then a else |stmts|, if b < |stmts| then b else |stmts|);
    }
    assert Monotone(g);
    MonotoneNested(parents, starts, ends, g);
    forall i | 0 <= i < |starts|
      ensures StartOffsets(stmts, f)[i] == g(starts[i]) && EndOffsets(stmts, f)[i] == g(ends[i])
    {
      LabelAt(stmts, starts[i]);
      LabelAt(stmts, ends[i]);
    }
    assert StartOffsets(stmts, f) == MapAll(starts, g);
    assert EndOffsets(stmts, f) == MapAll(ends, g);
  }
}
