/** Loops: their continue and break targets are collected while they are open, and patched when they are finalized. */
module Loops {
  import opened BigEndian
  import opened JumpTables
  import opened Wrappers

  /** A loop is finalized once it has an exit label. */
  datatype Loop = Loop(top: string, continues: seq<U32>, breaks: seq<U32>, exit: string)

  /** All loops of a procedure in the order of their declaration, and the stack of open ones. */
  datatype LoopState = LoopState(tables: Tables, loops: seq<Loop>, stack: seq<nat>)

  function ContinueLoop(loop: Loop, target: U32): Result<Loop> {
    if loop.exit != "" then Err(AssemblerInvariant) else Ok(loop.(continues := loop.continues + [target]))
  }

  function BreakLoop(loop: Loop, target: U32): Result<Loop> {
    if loop.exit != "" then Err(AssemblerInvariant) else Ok(loop.(breaks := loop.breaks + [target]))
  }

  function DeclareLoop(s: LoopState, top: string): LoopState {
    s.(loops := s.loops + [Loop(top, [], [], "")], stack := s.stack + [|s.loops|])
  }

  /** Records a continue (or break) target with the loop at `k`. */
  function RecordAt(s: LoopState, k: nat, target: U32, breaks: bool): (Status, LoopState)
    requires k < |s.loops|
  {
    var r := if breaks then BreakLoop(s.loops[k], target) else ContinueLoop(s.loops[k], target);
    if r.Err? then (Err(r.condition), s) else (OK, s.(loops := s.loops[k := r.value]))
  }

  /** Records a target with the loop on top of the stack. */
  function RecordCurrent(s: LoopState, target: U32, breaks: bool): (Status, LoopState)
    requires forall i :: 0 <= i < |s.stack| ==> s.stack[i] < |s.loops|
  {
    if s.stack == [] then (Err(AssemblerInvariant), s) else RecordAt(s, s.stack[|s.stack| - 1], target, breaks)
  }

  /** Patches the targets to one label, up to the first that cannot be patched. */
  function PatchEach(t: Tables, targets: seq<U32>, name: string): (Status, Tables) {
    if targets == [] then (OK, t)
    else
      var n := |targets| - 1;
      var (status, t) := PatchEach(t, targets[..n], name);
      if status.Err? then (status, t) else PatchTarget(t, targets[n], name)
  }

  /** Whichever loop is finalized, it is the top of the stack that is popped. */
  function FinalizeLoop(s: LoopState, k: nat, exit: string): (Status, LoopState)
    requires k < |s.loops|
  {
    var loop := s.loops[k];
    if loop.exit != "" then (Err(AssemblerInvariant), s)
    else
      var s := s.(loops := s.loops[k := loop.(exit := exit)]);
      var (continued, tables) := PatchEach(s.tables, loop.continues, loop.top);
      if continued.Err? then (continued, s.(tables := tables))
      else
        var (broken, tables) := PatchEach(tables, loop.breaks, exit);
        var s := s.(tables := tables);
        if broken.Err? then (broken, s)
        else if s.stack == [] then (Err(AssemblerInvariant), s)
        else (OK, s.(stack := s.stack[..|s.stack| - 1]))
  }

  // ---------- patching many targets ----------

  lemma {:induction false} PatchEachSucceeds(t: Tables, targets: seq<U32>, name: string)
    requires name in t.labelTargets && forall j :: j in targets ==> j in t.jumpLabels
    ensures var (status, after) := PatchEach(t, targets, name);
            && status == OK
            && after.nextId == t.nextId
            && after.labelTargets.Keys == t.labelTargets.Keys
            && after.jumpLabels.Keys == t.jumpLabels.Keys
            && (forall j :: j in t.jumpLabels ==> after.jumpLabels[j] == if j in targets then name else t.jumpLabels[j])
  {
    if targets != [] {
      var n := |targets| - 1;
      PatchEachSucceeds(t, targets[..n], name);
      assert targets == targets[..n] + [targets[n]];
    }
  }

  // ---------- the loop that was innermost ----------

  predicate Open(s: LoopState, k: nat) {
    k < |s.loops| && s.loops[k].exit == ""
  }

  /** The stack holds exactly the open loops, outermost first. */
  ghost predicate StackIsOpen(s: LoopState) {
    && (forall i, j :: 0 <= i < j < |s.stack| ==> s.stack[i] < s.stack[j])
    && (forall k: nat :: k in s.stack <==> Open(s, k))
    && (forall i :: 0 <= i < |s.stack| ==> Open(s, s.stack[i]))
  }

  /** `k` is the open loop declared last, that is the innermost one. */
  ghost predicate Innermost(s: LoopState, k: nat) {
    Open(s, k) && forall m: nat :: Open(s, m) ==> m <= k
  }

  lemma TopIsInnermost(s: LoopState)
    requires StackIsOpen(s) && s.stack != []
    ensures Innermost(s, s.stack[|s.stack| - 1])
  {
    assert s.stack[|s.stack| - 1] in s.stack;
  }

  /** A state of a run, with the record of who asked for what: for each target the loop it was
      recorded with, and whether it was a break. */
  datatype Recorded = Recorded(state: LoopState, record: map<U32, (nat, bool)>)

  datatype LoopOp =
    | Ask(request: Request)
    | Declare(top: string)
    | Record(target: U32, breaks: bool)
    | RecordWith(k: nat, target: U32, breaks: bool)
    | Finalize(k: nat, exit: string)

  /** What a client may ask for: labels that exist, targets that exist and are recorded once and
      not patched by hand as well, and loops finalized innermost first. */
  ghost predicate Legal(r: Recorded, op: LoopOp) {
    var s := r.state;
    match op
    case Ask(request) => request.ForPatch? ==> request.name != "" && request.target !in r.record
    case Declare(top) => top in s.tables.labelTargets
    case Record(target, _) => target in s.tables.jumpLabels && target !in r.record
    case RecordWith(k, target, _) => k < |s.loops| && target in s.tables.jumpLabels && target !in r.record
    case Finalize(k, exit) => Innermost(s, k) && exit != "" && exit in s.tables.labelTargets
  }

  ghost function Apply(r: Recorded, op: LoopOp): Recorded
    requires Legal(r, op) && StackIsOpen(r.state)
  {
    var s := r.state;
    match op
    case Ask(request) => r.(state := s.(tables := Serve(s.tables, request)))
    case Declare(top) => r.(state := DeclareLoop(s, top))
    case Record(target, breaks) =>
      var (status, after) := RecordCurrent(s, target, breaks);
      if status.Err? then r.(state := after)
      else Recorded(after, r.record[target := (s.stack[|s.stack| - 1], breaks)])
    case RecordWith(k, target, breaks) =>
      var (status, after) := RecordAt(s, k, target, breaks);
      if status.Err? then r.(state := after) else Recorded(after, r.record[target := (k, breaks)])
    case Finalize(k, exit) => r.(state := FinalizeLoop(s, k, exit).1)
  }

  /** The label that a target recorded with this loop has to end up at. */
  function Destination(loop: Loop, breaks: bool): string {
    if breaks then loop.exit else loop.top
  }

  predicate Lists(loop: Loop, target: U32, breaks: bool) {
    target in if breaks then loop.breaks else loop.continues
  }

  ghost predicate TargetKept(r: Recorded, target: U32)
    requires target in r.record
  {
    var s := r.state;
    var (k, breaks) := r.record[target];
    && k < |s.loops|
    && target in s.tables.jumpLabels
    && Lists(s.loops[k], target, breaks)
    && (s.loops[k].exit != "" ==> s.tables.jumpLabels[target] == Destination(s.loops[k], breaks))
  }

  ghost predicate LoopKept(r: Recorded, k: nat)
    requires k < |r.state.loops|
  {
    var loop := r.state.loops[k];
    && loop.top in r.state.tables.labelTargets
    && (forall target: U32, breaks :: Lists(loop, target, breaks) ==>
        target in r.record && r.record[target] == (k, breaks))
  }

  ghost predicate Kept(r: Recorded) {
    && StackIsOpen(r.state)
    && (forall target: U32 :: target in r.record ==> TargetKept(r, target))
    && (forall k :: 0 <= k < |r.state.loops| ==> LoopKept(r, k))
    && "" !in r.state.tables.labelTargets
    && (forall j :: j in r.state.tables.jumpLabels ==> j < r.state.tables.nextId)
  }

  lemma AskKept(r: Recorded, request: Request)
    requires Kept(r) && Legal(r, Ask(request))
    ensures Kept(Apply(r, Ask(request)))
  {
    var after := Apply(r, Ask(request));
    assert StackIsOpen(after.state);
    forall target: U32 | target in after.record
      ensures TargetKept(after, target)
    {
      assert TargetKept(r, target);
    }
    forall k | 0 <= k < |after.state.loops|
      ensures LoopKept(after, k)
    {
      assert LoopKept(r, k);
    }
  }

  lemma PushIsOpen(s: LoopState, after: LoopState)
    requires StackIsOpen(s) && after.stack == s.stack + [|s.loops|]
    requires |after.loops| == |s.loops| + 1 && after.loops[..|s.loops|] == s.loops && after.loops[|s.loops|].exit == ""
    ensures StackIsOpen(after)
  {
    forall k: nat
      ensures k in after.stack <==> Open(after, k)
    {
      assert k < |s.loops| ==> after.loops[k] == after.loops[..|s.loops|][k];
      assert k in after.stack <==> k in s.stack || k == |s.loops|;
    }
    forall i | 0 <= i < |after.stack|
      ensures Open(after, after.stack[i])
    {
      assert after.stack[i] in after.stack;
    }
  }

  lemma DeclareKept(r: Recorded, top: string)
    requires Kept(r) && Legal(r, Declare(top))
    ensures Kept(Apply(r, Declare(top)))
  {
    var after := Apply(r, Declare(top));
    PushIsOpen(r.state, after.state);
    forall target: U32 | target in after.record
      ensures TargetKept(after, target)
    {
      assert TargetKept(r, target);
    }
    forall k | 0 <= k < |after.state.loops|
      ensures LoopKept(after, k)
    {
      assert k < |r.state.loops| ==> LoopKept(r, k);
    }
  }

  lemma RecordKept(r: Recorded, k: nat, target: U32, breaks: bool)
    requires Kept(r) && k < |r.state.loops| && target in r.state.tables.jumpLabels && target !in r.record
    requires RecordAt(r.state, k, target, breaks).0.Ok?
    ensures Kept(Recorded(RecordAt(r.state, k, target, breaks).1, r.record[target := (k, breaks)]))
  {
    var after := Recorded(RecordAt(r.state, k, target, breaks).1, r.record[target := (k, breaks)]);
    var before, now := r.state.loops[k], after.state.loops[k];
    assert forall m: nat :: Open(after.state, m) <==> Open(r.state, m);
    assert StackIsOpen(after.state);
    assert forall t, b :: Lists(now, t, b) <==> Lists(before, t, b) || (t == target && b == breaks);
    forall t: U32 | t in after.record
      ensures TargetKept(after, t)
    {
      if t != target {
        assert TargetKept(r, t);
        assert after.record[t] == r.record[t];
      }
    }
    forall m | 0 <= m < |after.state.loops|
      ensures LoopKept(after, m)
    {
      assert LoopKept(r, m);
    }
  }

  /** What finalizing the loop at `k` does to the rest of the state. */
  ghost predicate Finalized(s: LoopState, after: LoopState, k: nat, exit: string) {
    && k < |s.loops|
    && after.loops == s.loops[k := s.loops[k].(exit := exit)]
    && after.tables.nextId == s.tables.nextId
    && after.tables.labelTargets.Keys == s.tables.labelTargets.Keys
    && after.tables.jumpLabels.Keys == s.tables.jumpLabels.Keys
    && (forall j :: j in s.tables.jumpLabels ==>
          (after.tables.jumpLabels[j] == if j in s.loops[k].breaks then exit
                                         else if j in s.loops[k].continues then s.loops[k].top
                                         else s.tables.jumpLabels[j]))
  }

  lemma FinalizeSucceeds(r: Recorded, k: nat, exit: string)
    requires Kept(r) && Legal(r, Finalize(k, exit))
    ensures var (status, after) := FinalizeLoop(r.state, k, exit);
            var s := r.state;
            && status == OK
            && r.state.stack != [] && s.stack[|s.stack| - 1] == k
            && after.stack == s.stack[..|s.stack| - 1]
            && Finalized(s, after, k, exit)
  {
    var s := r.state;
    var loop := s.loops[k];
    assert LoopKept(r, k);
    assert k in s.stack;
    TopIsInnermost(s);
    forall j, breaks | Lists(loop, j, breaks)
      ensures j in s.tables.jumpLabels
    {
      assert TargetKept(r, j);
    }
    assert forall j :: j in loop.continues ==> Lists(loop, j, false);
    assert forall j :: j in loop.breaks ==> Lists(loop, j, true);
    PatchEachSucceeds(s.tables, loop.continues, loop.top);
    PatchEachSucceeds(PatchEach(s.tables, loop.continues, loop.top).1, loop.breaks, exit);
  }

  lemma FinalizedTarget(r: Recorded, after: LoopState, k: nat, exit: string, target: U32)
    requires Finalized(r.state, after, k, exit) && r.state.loops[k].exit == ""
    requires target in r.record && TargetKept(r, target) && LoopKept(r, k)
    ensures TargetKept(r.(state := after), target)
  {
    var (m, breaks) := r.record[target];
    assert Lists(r.state.loops[k], target, true) ==> r.record[target] == (k, true);
    assert Lists(r.state.loops[k], target, false) ==> r.record[target] == (k, false);
    assert Lists(r.state.loops[m], target, breaks);
    assert Lists(after.loops[m], target, breaks);
    assert target in after.tables.jumpLabels.Keys;
  }

  lemma FinalizedLoop(r: Recorded, after: LoopState, k: nat, exit: string, m: nat)
    requires Finalized(r.state, after, k, exit)
    requires m < |r.state.loops| && LoopKept(r, m)
    ensures LoopKept(r.(state := after), m)
  {
    assert forall target: U32, breaks :: Lists(after.loops[m], target, breaks) ==>
        Lists(r.state.loops[m], target, breaks);
  }

  lemma FinalizeKept(r: Recorded, k: nat, exit: string)
    requires Kept(r) && Legal(r, Finalize(k, exit))
    ensures Kept(Apply(r, Finalize(k, exit)))
  {
    hide FinalizeLoop, TargetKept, LoopKept;
    var s := r.state;
    var after := FinalizeLoop(s, k, exit).1;
    FinalizeSucceeds(r, k, exit);
    assert Finalized(s, after, k, exit);
    assert forall m: nat :: Open(after, m) <==> Open(s, m) && m != k;
    PopIsOpen(s, after, k);
    forall target: U32 | target in r.record
      ensures TargetKept(r.(state := after), target)
    {
      FinalizedTarget(r, after, k, exit, target);
    }
    forall m | 0 <= m < |after.loops|
      ensures LoopKept(r.(state := after), m)
    {
      FinalizedLoop(r, after, k, exit, m);
    }
  }

  lemma PopIsOpen(s: LoopState, after: LoopState, k: nat)
    requires StackIsOpen(s) && s.stack != [] && s.stack[|s.stack| - 1] == k && after.stack == s.stack[..|s.stack| - 1]
    requires forall m: nat :: Open(after, m) <==> Open(s, m) && m != k
    ensures StackIsOpen(after)
  {
    hide Open;
    var n := |s.stack| - 1;
    forall i | 0 <= i < n
      ensures after.stack[i] == s.stack[i] && after.stack[i] < k && Open(after, after.stack[i])
    {
      assert s.stack[i] < s.stack[n];
    }
    forall m: nat
      ensures m in after.stack <==> Open(after, m)
    {
      PoppedMember(s.stack, m);
    }
  }

  lemma PoppedMember(stack: seq<nat>, m: nat)
    requires stack != [] && forall i, j :: 0 <= i < j < |stack| ==> stack[i] < stack[j]
    ensures m in stack[..|stack| - 1] <==> m in stack && m != stack[|stack| - 1]
  {
    assert stack == stack[..|stack| - 1] + [stack[|stack| - 1]];
  }

  lemma OpKept(r: Recorded, op: LoopOp)
    requires Kept(r) && Legal(r, op)
    ensures Kept(Apply(r, op))
  {
    match op
    case Ask(request) => AskKept(r, request);
    case Declare(top) => DeclareKept(r, top);
    case Record(target, breaks) =>
      var s := r.state;
      if s.stack != [] {
        TopIsInnermost(s);
        var k := s.stack[|s.stack| - 1];
        RecordKept(r, k, target, breaks);
      }
    case RecordWith(k, target, breaks) =>
      if RecordAt(r.state, k, target, breaks).0.Ok? {
        RecordKept(r, k, target, breaks);
      }
    case Finalize(k, exit) => FinalizeKept(r, k, exit);
  }

  // ---------- any run ----------

  ghost predicate LegalRun(r: Recorded, ops: seq<LoopOp>)
    requires Kept(r)
    decreases |ops|
  {
    ops == [] || (Legal(r, ops[0]) && (OpKept(r, ops[0]); LegalRun(Apply(r, ops[0]), ops[1..])))
  }

  ghost function ApplyAll(r: Recorded, ops: seq<LoopOp>): (after: Recorded)
    requires Kept(r) && LegalRun(r, ops)
    ensures Kept(after)
    decreases |ops|
  {
    if ops == [] then r else OpKept(r, ops[0]); ApplyAll(Apply(r, ops[0]), ops[1..])
  }

  const START := Recorded(LoopState(NO_TABLES, [], []), map[])

  lemma StartKept()
    ensures Kept(START)
  {
  }

  /** A target recorded with the current loop is recorded with the loop that is innermost then,
      and a recorded target is never recorded differently later. */
  lemma {:induction false} RecordsInnermost(r: Recorded, target: U32, breaks: bool, ops: seq<LoopOp>)
    requires Kept(r) && Legal(r, Record(target, breaks)) && r.state.stack != []
    requires LegalRun(r, [Record(target, breaks)] + ops)
    ensures target in ApplyAll(r, [Record(target, breaks)] + ops).record
    ensures Innermost(r.state, ApplyAll(r, [Record(target, breaks)] + ops).record[target].0)
    ensures ApplyAll(r, [Record(target, breaks)] + ops).record[target].1 == breaks
  {
    hide Kept, FinalizeLoop, Serve, StackIsOpen;
    RunHead(r, Record(target, breaks), ops);
    KeptStack(r);
    TopIsInnermost(r.state);
    RecordedNow(r, target, breaks);
    RecordStays(Apply(r, Record(target, breaks)), target, ops);
  }

  lemma KeptStack(r: Recorded)
    requires Kept(r)
    ensures StackIsOpen(r.state)
  {
  }

  /** A run is its first step and the rest. */
  lemma RunHead(r: Recorded, op: LoopOp, ops: seq<LoopOp>)
    requires Kept(r) && LegalRun(r, [op] + ops)
    ensures Legal(r, op) && StackIsOpen(r.state) && Kept(Apply(r, op)) && LegalRun(Apply(r, op), ops)
    ensures ApplyAll(r, [op] + ops) == ApplyAll(Apply(r, op), ops)
  {
    hide Apply, StackIsOpen;
    KeptStack(r);
    assert ([op] + ops)[0] == op && ([op] + ops)[1..] == ops;
    OpKept(r, op);
  }

  lemma RecordedNow(r: Recorded, target: U32, breaks: bool)
    requires Kept(r) && StackIsOpen(r.state) && Legal(r, Record(target, breaks)) && r.state.stack != []
    requires Innermost(r.state, r.state.stack[|r.state.stack| - 1])
    ensures var after := Apply(r, Record(target, breaks));
            target in after.record && after.record[target] == (r.state.stack[|r.state.stack| - 1], breaks)
  {
  }

  lemma {:induction false} RecordStays(r: Recorded, target: U32, ops: seq<LoopOp>)
    requires Kept(r) && LegalRun(r, ops) && target in r.record
    ensures target in ApplyAll(r, ops).record && ApplyAll(r, ops).record[target] == r.record[target]
    decreases |ops|
  {
    hide Kept, FinalizeLoop, Serve, StackIsOpen;
    if ops != [] {
      KeptStack(r);
      OpKept(r, ops[0]);
      StepKeepsRecord(r, ops[0], target);
      RecordStays(Apply(r, ops[0]), target, ops[1..]);
    }
  }

  lemma StepKeepsRecord(r: Recorded, op: LoopOp, target: U32)
    requires StackIsOpen(r.state) && Legal(r, op) && target in r.record
    ensures target in Apply(r, op).record && Apply(r, op).record[target] == r.record[target]
  {
    hide FinalizeLoop, Serve;
  }

  /** Once every loop is finalized, each recorded target goes to the top label of its loop if it
      continues the loop, and to the exit label if it breaks it. */
  lemma TargetsReachTheirLoops(start: Recorded, ops: seq<LoopOp>, target: U32)
    requires Kept(start) && LegalRun(start, ops)
    requires ApplyAll(start, ops).state.stack == [] && target in ApplyAll(start, ops).record
    ensures var r := ApplyAll(start, ops);
            var (k, breaks) := r.record[target];
            && k < |r.state.loops|
            && r.state.loops[k].exit != ""
            && r.state.tables.jumpLabels[target] == Destination(r.state.loops[k], breaks)
  {
    var r := ApplyAll(start, ops);
    assert TargetKept(r, target);
    var k := r.record[target].0;
    assert !Open(r.state, k);
  }

  /** The labels that the loops of a run are declared with. */
  function TopsDeclared(ops: seq<LoopOp>): seq<string> {
    if ops == [] then [] else (if ops[0].Declare? then [ops[0].top] else []) + TopsDeclared(ops[1..])
  }

  /** The label that a loop is first finalized with. */
  function ExitGiven(ops: seq<LoopOp>, k: nat): string {
    if ops == [] then "" else if ops[0].Finalize? && ops[0].k == k then ops[0].exit else ExitGiven(ops[1..], k)
  }

  ghost predicate LoopAsGiven(before: seq<Loop>, ops: seq<LoopOp>, k: nat, loop: Loop) {
    var n := |before|;
    && k < n + |TopsDeclared(ops)|
    && loop.top == (if k < n then before[k].top else TopsDeclared(ops)[k - n])
    && loop.exit == if k < n && before[k].exit != "" then before[k].exit else ExitGiven(ops, k)
  }

  lemma {:induction false} LoopsAsGiven(r: Recorded, ops: seq<LoopOp>)
    requires Kept(r) && LegalRun(r, ops)
    ensures var loops := ApplyAll(r, ops).state.loops;
            && |loops| == |r.state.loops| + |TopsDeclared(ops)|
            && (forall k :: 0 <= k < |loops| ==> LoopAsGiven(r.state.loops, ops, k, loops[k]))
    decreases |ops|
  {
    hide Kept, StackIsOpen;
    if ops != [] {
      KeptStack(r);
      OpKept(r, ops[0]);
      StepLoops(r, ops[0]);
      var next := Apply(r, ops[0]);
      LoopsAsGiven(next, ops[1..]);
      var loops := ApplyAll(r, ops).state.loops;
      forall k | 0 <= k < |loops|
        ensures LoopAsGiven(r.state.loops, ops, k, loops[k])
      {
        hide Apply;
        assert LoopAsGiven(next.state.loops, ops[1..], k, loops[k]);
      }
    }
  }

  /** What one step does to the labels of the loops. */
  lemma StepLoops(r: Recorded, op: LoopOp)
    requires Kept(r) && Legal(r, op) && StackIsOpen(r.state)
    ensures var before, after := r.state.loops, Apply(r, op).state.loops;
            && |after| == |before| + (if op.Declare? then 1 else 0)
            && (forall k :: 0 <= k < |before| ==>
                  && after[k].top == before[k].top
                  && after[k].exit == if op.Finalize? && op.k == k && before[k].exit == "" then op.exit
                                      else before[k].exit)
            && (op.Declare? ==> after[|before|] == Loop(op.top, [], [], ""))
            && (op.Finalize? ==> op.k < |before| && op.exit != "")
  {
    if op.Finalize? {
      FinalizeSucceeds(r, op.k, op.exit);
    }
  }

  /** Once every loop of a run is finalized, each recorded target goes to the label that its loop was declared
      with, if it continues the loop, and to the one that its loop was finalized with, if it breaks it. */
  lemma TargetsGoWhereGiven(ops: seq<LoopOp>, target: U32)
    requires Kept(START) && LegalRun(START, ops)
    requires ApplyAll(START, ops).state.stack == [] && target in ApplyAll(START, ops).record
    ensures var r := ApplyAll(START, ops);
            var (k, breaks) := r.record[target];
            && k < |TopsDeclared(ops)|
            && r.state.tables.jumpLabels[target] == if breaks then ExitGiven(ops, k) else TopsDeclared(ops)[k]
  {
    hide Kept, LegalRun, ApplyAll;
    TargetsReachTheirLoops(START, ops, target);
    LoopsAsGiven(START, ops);
    var r := ApplyAll(START, ops);
    var k := r.record[target].0;
    assert LoopAsGiven([], ops, k, r.state.loops[k]);
  }

  /** A target can be recorded with a loop exactly while the loop is open, and with the current loop exactly while any
      loop is open. */
  lemma RecordsExactlyWhileOpen(s: LoopState, k: nat, target: U32, breaks: bool)
    requires StackIsOpen(s)
    ensures k < |s.loops| ==>
              && RecordAt(s, k, target, breaks).0 == FailIf(!Open(s, k), AssemblerInvariant)
              && (RecordAt(s, k, target, breaks).0.Err? ==> RecordAt(s, k, target, breaks).1 == s)
    ensures RecordCurrent(s, target, breaks).0 == FailIf(forall m: nat :: !Open(s, m), AssemblerInvariant)
  {
    if s.stack != [] {
      TopIsInnermost(s);
    }
    if m: nat :| Open(s, m) {
      assert m in s.stack;
    }
  }

  /** Finalizing keeps the stack of open loops right exactly when it is the innermost loop that is finalized. */
  lemma NestingNeedsInnermost(s: LoopState, k: nat, exit: string)
    requires StackIsOpen(s) && Open(s, k) && exit != "" && FinalizeLoop(s, k, exit).0.Ok?
    ensures StackIsOpen(FinalizeLoop(s, k, exit).1) <==> Innermost(s, k)
  {
    var after := FinalizeLoop(s, k, exit).1;
    assert k in s.stack;
    var top := s.stack[|s.stack| - 1];
    TopIsInnermost(s);
    assert forall m: nat :: Open(after, m) <==> Open(s, m) && m != k;
    if k == top {
      PopIsOpen(s, after, k);
    } else {
      var i :| 0 <= i < |s.stack| && s.stack[i] == k;
      assert after.stack[i] == k && k in after.stack;
      assert !Open(after, k);
    }
  }

  const TWO_LOOPS := [ForLabel("outer"), ForLabel("inner"), ForLabel("end"), ForJump]

  lemma TwoLoopsTables()
    ensures ServeAll(TWO_LOOPS) == Tables(1, map["outer" := {}, "inner" := {}, "end" := {}], map[0 := ""])
  {
    assert TWO_LOOPS[..3] == [ForLabel("outer"), ForLabel("inner"), ForLabel("end")];
    assert TWO_LOOPS[..3][..2] == [ForLabel("outer"), ForLabel("inner")];
    assert [ForLabel("outer"), ForLabel("inner")][..1] == [ForLabel("outer")] && [ForLabel("outer")][..0] == [];
    assert ServeAll([ForLabel("outer")]) == Serve(NO_TABLES, ForLabel("outer"));
    assert ServeAll([ForLabel("outer"), ForLabel("inner")]) == Serve(ServeAll([ForLabel("outer")]), ForLabel("inner"));
    assert ServeAll(TWO_LOOPS[..3]) == Serve(ServeAll(TWO_LOOPS[..3][..2]), ForLabel("end"));
  }

  lemma TwoLoopsDeclared(tables: Tables)
    ensures DeclareLoop(DeclareLoop(LoopState(tables, [], []), "outer"), "inner") ==
              LoopState(tables, [Loop("outer", [], [], ""), Loop("inner", [], [], "")], [0, 1])
  {
    var s := DeclareLoop(LoopState(tables, [], []), "outer");
    assert s.loops == [Loop("outer", [], [], "")] && s.stack == [0];
    assert DeclareLoop(s, "inner").loops == [Loop("outer", [], [], ""), Loop("inner", [], [], "")];
    assert DeclareLoop(s, "inner").stack == [0, 1];
  }

  /** Of two nested loops the outer one is finalized first: the inner one goes off the stack and the
      outer one stays on it, so that a break of the inner loop is refused. */
  lemma OuterFinalizedFirst()
    ensures var s := DeclareLoop(DeclareLoop(LoopState(ServeAll(TWO_LOOPS), [], []), "outer"), "inner");
            var (status, after) := FinalizeLoop(s, 0, "end");
            && StackIsOpen(s) && !Innermost(s, 0)
            && status == OK
            && after.stack == [0] && !Open(after, 0) && Open(after, 1)
            && 0 in after.tables.jumpLabels && RecordCurrent(after, 0, true).0 == Err(AssemblerInvariant)
  {
    hide ServeAll, DeclareLoop;
    var tables := ServeAll(TWO_LOOPS);
    TwoLoopsTables();
    TwoLoopsDeclared(tables);
    var s := LoopState(tables, [Loop("outer", [], [], ""), Loop("inner", [], [], "")], [0, 1]);
    assert Open(s, 1);
    assert PatchEach(tables, [], "outer") == (OK, tables) && PatchEach(tables, [], "end") == (OK, tables);
  }
}
