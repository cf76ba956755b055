/** The handles that clients hold on a procedure, its loops, checks and catches, and building the procedure. */
module ProcHandles {
  import opened Assembly
  import opened BigEndian
  import opened BlockHandles
  import opened Bytecode
  import CheckForest
  import opened CheckTables
  import opened CodeFragments
  import opened Emission
  import opened Instructions
  import JumpTables
  import Loops
  import opened ObjectWriters
  import opened ProcLayout
  import Scopes
  import opened SymbolIndex
  import opened Symbols
  import opened TypeDefs
  import opened Wrappers

  class LoopHandle {
    const proc: ProcHandle
    const top: string
    var continueTargets: seq<U32>
    var breakTargets: seq<U32>
    var exit: string

    /** The number of the loop in its procedure. */
    ghost const index: nat

    constructor (proc: ProcHandle, top: string, ghost index: nat)
      ensures this.proc == proc && this.index == index && Value() == Loops.Loop(top, [], [], "")
    {
      this.proc := proc;
      this.top := top;
      this.index := index;
      continueTargets, breakTargets, exit := [], [], "";
    }

    ghost function Value(): Loops.Loop
      reads this
    {
      Loops.Loop(top, continueTargets, breakTargets, exit)
    }

    method ContinueLoop(target: U32) returns (s: Status)
      modifies this
      ensures var r := Loops.ContinueLoop(old(Value()), target);
              if r.Ok? then s == OK && Value() == r.value else s == Err(r.condition) && Value() == old(Value())
    {
      if exit != "" {
        return Err(AssemblerInvariant);
      }
      continueTargets := continueTargets + [target];
      return OK;
    }

    method BreakLoop(target: U32) returns (s: Status)
      modifies this
      ensures var r := Loops.BreakLoop(old(Value()), target);
              if r.Ok? then s == OK && Value() == r.value else s == Err(r.condition) && Value() == old(Value())
    {
      if exit != "" {
        return Err(AssemblerInvariant);
      }
      breakTargets := breakTargets + [target];
      return OK;
    }

    /** Patches the targets recorded with this loop, and takes the innermost loop off the stack. */
    method FinalizeLoop(loopExit: string) returns (s: Status)
      requires proc.ValidLoops() && index < |proc.loops| && proc.loops[index] == this
      requires loopExit != "" && top != ""
      modifies this`exit, proc`loopStack, proc.tables
      ensures proc.ValidLoops()
      ensures (s, proc.LoopState()) == Loops.FinalizeLoop(old(proc.LoopState()), index, loopExit)
    {
      hide Loops.PatchEach, JumpTables.PatchTarget;
      if exit != "" {
        return Err(AssemblerInvariant);
      }
      exit := loopExit;
      ghost var values := old(proc.LoopValues())[index := Value()];
      assert proc.LoopValues() == values && proc.LoopState().stack == old(proc.LoopState().stack);
      s := PatchTargets(continueTargets, top);
      assert proc.LoopValues() == values && proc.LoopState().stack == old(proc.LoopState().stack);
      if s.Err? {
        return;
      }
      s := PatchTargets(breakTargets, loopExit);
      assert proc.LoopValues() == values && proc.LoopState().stack == old(proc.LoopState().stack);
      if s.Err? {
        return;
      }
      s := proc.PopLoop();
      assert proc.LoopValues() == values;
      assert proc.LoopState().stack == if s.Ok? then old(proc.LoopState().stack)[..|old(proc.loopStack)| - 1] else [];
    }

    method PatchTargets(targets: seq<U32>, name: string) returns (s: Status)
      requires name != "" && proc.ValidLoops()
      modifies proc.tables
      ensures (s, proc.tables.State()) == Loops.PatchEach(old(proc.tables.State()), targets, name)
    {
      ghost var before := proc.tables.State();
      var i := 0;
      while i < |targets|
        invariant 0 <= i <= |targets|
        invariant Loops.PatchEach(before, targets[..i], name) == (OK, proc.tables.State())
      {
        assert targets[..i + 1][..i] == targets[..i];
        s := proc.fragment.PatchTarget(targets[i], name);
        if s.Err? {
          EachFails(before, targets, name, i + 1);
          return;
        }
        i := i + 1;
      }
      assert targets[..i] == targets;
      s := OK;
    }
  }

  /** Patching stops at the first target that cannot be patched. */
  lemma {:induction false} EachFails(t: JumpTables.Tables, targets: seq<U32>, name: string, n: nat)
    requires n <= |targets| && Loops.PatchEach(t, targets[..n], name).0.Err?
    ensures Loops.PatchEach(t, targets, name) == Loops.PatchEach(t, targets[..n], name)
    decreases |targets|
  {
    if n < |targets| {
      var m := |targets| - 1;
      assert targets[..m][..n] == targets[..n];
      EachFails(t, targets[..m], name, n);
    } else {
      assert targets[..n] == targets;
    }
  }

  class CatchHandle {
    const start: string
    var end: string
    var exceptionType: TypeDef
    var resumeTarget: Option<U32>

    /** The number of the catch in its procedure. */
    ghost const index: nat

    constructor (start: string, ghost index: nat)
      ensures this.index == index && Value() == CheckForest.Catch(start, "", Invalid)
    {
      this.start := start;
      this.index := index;
      end, exceptionType, resumeTarget := "", Invalid, None;
    }

    ghost function Value(): CheckForest.Catch
      reads this
    {
      CheckForest.Catch(start, end, exceptionType)
    }

    method SetExceptionType(t: TypeDef) returns (s: Status)
      modifies this`exceptionType
      ensures s == FailIf(t == Invalid, AssemblerInvariant)
      ensures Value() == if s.Ok? then old(Value()).(exceptionType := t) else old(Value())
    {
      if t == Invalid {
        return Err(AssemblerInvariant);
      }
      exceptionType := t;
      return OK;
    }

    method SetResumeTarget(target: Option<U32>) returns (s: Status)
      modifies this`resumeTarget
      ensures s == FailIf(target == None, AssemblerInvariant)
      ensures resumeTarget == if s.Ok? then target else old(resumeTarget)
    {
      if target == None {
        return Err(AssemblerInvariant);
      }
      resumeTarget := target;
      return OK;
    }

    method FinalizeCatch(endExclusive: string) returns (s: Status)
      requires endExclusive != ""
      modifies this`end
      ensures s == FailIf(old(end) != "", AssemblerInvariant)
      ensures Value() == if s.Ok? then old(Value()).(end := endExclusive) else old(Value())
    {
      if end != "" {
        return Err(AssemblerInvariant);
      }
      end := endExclusive;
      return OK;
    }
  }

  class CheckHandle {
    const proc: ProcHandle
    const start: string

    /** The url of the temporary in which a caught exception is kept. */
    const caughtRef: Url
    var end: string
    var catches: seq<CatchHandle>
    var children: seq<CheckHandle>

    /** The number of the check in its procedure, and the slot of its temporary. */
    ghost const index: nat
    ghost const caughtLocal: U32

    constructor (proc: ProcHandle, start: string, caughtRef: Url, ghost caughtLocal: U32, ghost index: nat)
      ensures this.proc == proc && this.index == index && catches == [] && children == []
      ensures this.caughtRef == caughtRef && this.caughtLocal == caughtLocal
      ensures Value() == CheckForest.Check(start, "", caughtLocal, [], [])
    {
      this.proc := proc;
      this.start := start;
      this.caughtRef := caughtRef;
      this.caughtLocal := caughtLocal;
      this.index := index;
      end, catches, children := "", [], [];
    }

    ghost function Value(): CheckForest.Check
      reads this
    {
      CheckForest.Check(start, end, caughtLocal, CatchNumbers(catches), CheckNumbers(children))
    }

    method AppendChild(child: CheckHandle)
      modifies this`children
      ensures children == old(children) + [child]
      ensures Value() == CheckForest.AppendChild(old(Value()), child.index)
    {
      children := children + [child];
      assert CheckNumbers(children) == CheckNumbers(old(children)) + [child.index];
    }

    method DeclareCatch(catchStart: string) returns (handle: CatchHandle)
      requires proc.ValidChecks() && index < |proc.checks| && proc.checks[index] == this
      modifies this`catches, proc`catches
      ensures proc.ValidChecks() && fresh(handle) && proc.catches == old(proc.catches) + [handle]
      ensures catches == old(catches) + [handle]
      ensures proc.Forest() == CheckForest.DeclareCatch(old(proc.Forest()), index, catchStart)
    {
      ghost var before := proc.Forest();
      handle := proc.DeclareCatch(catchStart);
      catches := catches + [handle];
      assert CatchNumbers(catches) == CatchNumbers(old(catches)) + [|before.catches|];
      assert proc.Forest().checks == before.checks[index := Value()];
      assert proc.Forest().catches == before.catches + [handle.Value()];
      assert proc.Forest().stack == before.stack && proc.Forest().roots == before.roots;
    }

    /** Takes the innermost check off the stack. */
    method FinalizeCheck(endExclusive: string) returns (s: Status)
      requires proc.ValidChecks() && index < |proc.checks| && proc.checks[index] == this
      requires endExclusive != ""
      modifies this`end, proc`checkStack
      ensures proc.ValidChecks()
      ensures (s, proc.Forest()) == CheckForest.FinalizeCheck(old(proc.Forest()), index, endExclusive)
    {
      ghost var before := proc.Forest();
      if end != "" {
        return Err(AssemblerInvariant);
      }
      end := endExclusive;
      assert proc.Forest().checks == before.checks[index := Value()];
      assert proc.Forest().catches == before.catches;
      assert proc.Forest().stack == before.stack && proc.Forest().roots == before.roots;
      s := proc.PopCheck();
    }
  }

  /** The temporary of a check is a local of its slot. */
  ghost predicate CaughtCached(symbols: Scopes.Cache, check: CheckHandle) {
    && check.caughtRef in symbols
    && symbols[check.caughtRef].kind.Local?
    && symbols[check.caughtRef].slot == check.caughtLocal
  }

  ghost function UrlOf(r: Result<Scopes.Reference>): Result<Url> {
    match r
    case Err(condition) => Err(condition)
    case Ok(InvalidReference) => Err(InvalidBinding)
    case Ok(Reference(binding)) => Ok(binding.url)
  }

  ghost function CheckNumbers(handles: seq<CheckHandle>): (s: seq<nat>)
    ensures |s| == |handles|
  {
    seq(|handles|, i requires 0 <= i < |handles| => handles[i].index)
  }

  ghost function CatchNumbers(handles: seq<CatchHandle>): (s: seq<nat>)
    ensures |s| == |handles|
  {
    seq(|handles|, i requires 0 <= i < |handles| => handles[i].index)
  }

  ghost function LoopNumbers(handles: seq<LoopHandle>): (s: seq<nat>)
    ensures |s| == |handles|
  {
    seq(|handles|, i requires 0 <= i < |handles| => handles[i].index)
  }

  class ProcHandle {
    const frame: ProcFrame
    const block: BlockHandle
    const tables: JumpTable
    const fragment: CodeFragment
    var loops: seq<LoopHandle>
    var loopStack: seq<LoopHandle>
    var checks: seq<CheckHandle>
    var checkStack: seq<CheckHandle>
    var checkRoots: seq<CheckHandle>
    var checkDepth: nat
    var catches: seq<CatchHandle>

    ghost predicate ValidLoops()
      reads this
    {
      && fragment.tables == tables
      && (forall i :: 0 <= i < |loops| ==> loops[i].index == i && loops[i].proc == this)
      && (forall i :: 0 <= i < |loopStack| ==>
          loopStack[i].index < |loops| && loops[loopStack[i].index] == loopStack[i])
    }

    ghost function LoopValues(): (s: seq<Loops.Loop>)
      reads this, loops
      ensures |s| == |loops|
    {
      seq(|loops|, i requires 0 <= i < |loops| reads this, loops => loops[i].Value())
    }

    ghost function LoopState(): Loops.LoopState
      reads this, loops, tables
    {
      Loops.LoopState(tables.State(), LoopValues(), LoopNumbers(loopStack))
    }

    method DeclareLoop(top: string) returns (loop: LoopHandle)
      requires ValidLoops()
      modifies this`loops, this`loopStack
      ensures ValidLoops() && fresh(loop) && loops == old(loops) + [loop]
      ensures LoopState() == Loops.DeclareLoop(old(LoopState()), top)
    {
      ghost var before := LoopState();
      loop := new LoopHandle(this, top, |loops|);
      loops := loops + [loop];
      loopStack := loopStack + [loop];
      assert LoopValues() == before.loops + [loop.Value()];
      assert LoopState().stack == before.stack + [|before.loops|];
    }

    method ContinueCurrentLoop(target: U32) returns (s: Status)
      requires ValidLoops()
      modifies loops
      ensures ValidLoops() && (s, LoopState()) == Loops.RecordCurrent(old(LoopState()), target, false)
    {
      if loopStack == [] {
        return Err(AssemblerInvariant);
      }
      var current := loopStack[|loopStack| - 1];
      s := current.ContinueLoop(target);
      assert LoopValues() == old(LoopValues())[current.index := current.Value()];
      assert s.Err? ==> LoopValues() == old(LoopValues());
    }

    method BreakCurrentLoop(target: U32) returns (s: Status)
      requires ValidLoops()
      modifies loops
      ensures ValidLoops() && (s, LoopState()) == Loops.RecordCurrent(old(LoopState()), target, true)
    {
      if loopStack == [] {
        return Err(AssemblerInvariant);
      }
      var current := loopStack[|loopStack| - 1];
      s := current.BreakLoop(target);
      assert LoopValues() == old(LoopValues())[current.index := current.Value()];
      assert s.Err? ==> LoopValues() == old(LoopValues());
    }

    method PopLoop() returns (s: Status)
      requires ValidLoops()
      modifies this`loopStack
      ensures ValidLoops() && LoopValues() == old(LoopValues())
      ensures s == FailIf(old(loopStack) == [], AssemblerInvariant)
      ensures loopStack == if s.Ok? then old(loopStack)[..|old(loopStack)| - 1] else old(loopStack)
    {
      if loopStack == [] {
        return Err(AssemblerInvariant);
      }
      loopStack := loopStack[..|loopStack| - 1];
      return OK;
    }

    // ---------- checks ----------

    /** The handle is the one that the procedure has under its number. */
    ghost predicate HasCheck(check: CheckHandle)
      reads this
    {
      check.index < |checks| && checks[check.index] == check
    }

    ghost predicate HasCatch(handle: CatchHandle)
      reads this
    {
      handle.index < |catches| && catches[handle.index] == handle
    }

    ghost predicate ValidChecks()
      reads this, checks
    {
      && (forall i :: 0 <= i < |checks| ==> checks[i].index == i && checks[i].proc == this)
      && (forall i :: 0 <= i < |catches| ==> catches[i].index == i)
      && (forall i :: 0 <= i < |checkStack| ==> HasCheck(checkStack[i]))
      && (forall i :: 0 <= i < |checkRoots| ==> HasCheck(checkRoots[i]))
      && (forall k, i :: 0 <= k < |checks| && 0 <= i < |checks[k].children| ==> HasCheck(checks[k].children[i]))
      && (forall k, i :: 0 <= k < |checks| && 0 <= i < |checks[k].catches| ==> HasCatch(checks[k].catches[i]))
    }

    ghost function Forest(): CheckForest.Forest
      reads this, checks, catches
    {
      CheckForest.Forest(
        seq(|checks|, i requires 0 <= i < |checks| reads this, checks => checks[i].Value()),
        CheckNumbers(checkStack), CheckNumbers(checkRoots), checkDepth,
        seq(|catches|, i requires 0 <= i < |catches| reads this, catches => catches[i].Value()))
    }

    lemma ForestInBounds()
      requires ValidChecks()
      ensures CheckForest.InBounds(Forest())
    {
      var f := Forest();
      forall k, i | 0 <= k < |f.checks| && 0 <= i < |f.checks[k].children|
        ensures f.checks[k].children[i] < |f.checks|
      {
        assert HasCheck(checks[k].children[i]);
      }
      forall k, i | 0 <= k < |f.checks| && 0 <= i < |f.checks[k].catches|
        ensures f.checks[k].catches[i] < |f.catches|
      {
        assert HasCatch(checks[k].catches[i]);
      }
    }

    /** The symbol cache has the temporary of every check as a local with its slot. */
    ghost predicate CaughtKnown()
      reads this, block.cache
    {
      forall i :: 0 <= i < |checks| ==> CaughtCached(block.cache.symbols, checks[i])
    }

    /** The exception that a check catches is kept in a temporary variable of the procedure's block. */
    method DeclareCheck(start: string, statusType: TypeDef) returns (r: Result<CheckHandle>)
      requires ValidChecks() && CaughtKnown() && block.Valid() && block.proc == frame
      modifies this`checks, this`checkStack, this`checkRoots, this`checkDepth, checks
      modifies block`bindings, frame`numLocals, block.cache
      ensures ValidChecks() && CaughtKnown()
      ensures match r
              case Ok(check) => fresh(check) && checks == old(checks) + [check]
              case Err(_) => checks == old(checks)
      ensures var temporary := Scopes.DeclareTemporary(old(block.View()), statusType, false);
              && block.View() == temporary.1
              && (if temporary.0.Ok? then r.Ok? && Ok(r.value.caughtRef) == UrlOf(temporary.0)
                  else r == Err(temporary.0.condition))
      ensures CheckForest.InBounds(old(Forest()))
      ensures Forest() == if r.Err? then old(Forest())
                          else CheckForest.DeclareCheck(old(Forest()), start,
                                                        Scopes.AllocateLocal(old(frame.numLocals)).0)
    {
      hide Scopes.DeclareTemporary, CheckForest.DeclareCheck, CheckForest.InBounds, BlockHandle.View, BlockHandle.Valid,
           ProcHandle.Forest, ProcHandle.ValidChecks;
      ForestInBounds();
      TemporaryOfView(statusType);
      ghost var caughtLocal := Scopes.AllocateLocal(frame.numLocals).0;
      var caught := block.DeclareTemporary(statusType, false);
      CacheOfView();
      if caught.Err? {
        return Err(caught.condition);
      }
      var check := PushCheck(start, caught.value.binding.url, caughtLocal);
      return Ok(check);
    }

    lemma CacheOfView()
      ensures block.View().cache == block.cache.symbols
    {
    }

    /** What declaring the temporary does to the symbols. */
    lemma TemporaryOfView(statusType: TypeDef)
      requires block.Valid() && block.proc == frame
      ensures block.View().cache == block.cache.symbols
      ensures var (r, after) := Scopes.DeclareTemporary(block.View(), statusType, false);
              && (r.Ok? ==>
                    && r.value.Reference? && r.value.binding.url in after.cache
                    && after.cache[r.value.binding.url] ==
                         Scopes.CachedSymbol(Local, Scopes.AllocateLocal(frame.numLocals).0, true))
              && (forall url :: url in block.cache.symbols && block.cache.symbols[url].kind.Local? ==>
                    url in after.cache && after.cache[url] == block.cache.symbols[url])
    {
      hide Scopes.DeclareTemporary;
      Scopes.TemporaryCached(block.View(), statusType, false);
    }

    /** Enters a new check as a child of the innermost open one, or as a root. */
    method PushCheck(start: string, caughtRef: Url, ghost caughtLocal: U32) returns (check: CheckHandle)
      requires ValidChecks() && CheckForest.InBounds(Forest())
      modifies this`checks, this`checkStack, this`checkRoots, this`checkDepth, checks
      ensures ValidChecks() && fresh(check) && checks == old(checks) + [check]
      ensures check.caughtRef == caughtRef && check.caughtLocal == caughtLocal
      ensures Forest() == CheckForest.DeclareCheck(old(Forest()), start, caughtLocal)
    {
      hide CheckForest.InBounds, CheckHandle.Value, ProcHandle.Forest;
      ghost var before := Forest();
      StackOfForest();
      assert |before.checks| == |checks| by { SizeOfForest(); }
      check := new CheckHandle(this, start, caughtRef, caughtLocal, |checks|);
      EnterCheck(check);
      if checkStack == [] {
        EnterRoot(check);
      } else {
        ghost var parent := before.stack[|before.stack| - 1];
        assert HasCheck(checkStack[|checkStack| - 1]);
        LinkChild(checkStack[|checkStack| - 1], check);
        assert (before.checks + [check.Value()])[parent := CheckForest.AppendChild(before.checks[parent], check.index)]
            == before.checks[parent := CheckForest.AppendChild(before.checks[parent], check.index)] + [check.Value()];
      }
      PushOnStack(check);
    }

    method EnterCheck(check: CheckHandle)
      requires ValidChecks() && check !in checks && check.index == |checks| && check.proc == this
      requires check.children == [] && check.catches == []
      modifies this`checks
      ensures ValidChecks() && checks == old(checks) + [check]
      ensures Forest() == old(Forest()).(checks := old(Forest()).checks + [check.Value()])
    {
      ghost var before := Forest();
      checks := checks + [check];
      assert Forest().checks == before.checks + [check.Value()];
      assert Forest().stack == before.stack && Forest().roots == before.roots && Forest().catches == before.catches;
    }

    method EnterRoot(check: CheckHandle)
      requires ValidChecks() && HasCheck(check)
      modifies this`checkRoots
      ensures ValidChecks()
      ensures Forest() == old(Forest()).(roots := old(Forest()).roots + [check.index])
    {
      ghost var before := Forest();
      checkRoots := checkRoots + [check];
      assert Forest().roots == before.roots + [check.index];
      assert Forest().checks == before.checks && Forest().stack == before.stack && Forest().catches == before.catches;
    }

    method PushOnStack(check: CheckHandle)
      requires ValidChecks() && HasCheck(check)
      modifies this`checkStack, this`checkDepth
      ensures ValidChecks()
      ensures var f := old(Forest());
              Forest() == f.(stack := f.stack + [check.index], depth := CheckForest.Max(f.depth, |f.stack| + 1))
    {
      ghost var before := Forest();
      checkStack := checkStack + [check];
      checkDepth := if checkDepth < |checkStack| then |checkStack| else checkDepth;
      assert Forest().stack == before.stack + [check.index];
      assert Forest().checks == before.checks && Forest().catches == before.catches;
    }

    method LinkChild(parent: CheckHandle, check: CheckHandle)
      requires ValidChecks() && HasCheck(parent) && HasCheck(check)
      modifies parent`children
      ensures ValidChecks()
      ensures var f := old(Forest());
              Forest() == f.(checks := f.checks[parent.index :=
                                                CheckForest.AppendChild(f.checks[parent.index], check.index)])
    {
      ghost var before := Forest();
      parent.AppendChild(check);
      assert Forest().checks == before.checks[parent.index := parent.Value()];
      assert Forest().stack == before.stack && Forest().roots == before.roots && Forest().catches == before.catches;
    }

    method PopCheck() returns (s: Status)
      requires ValidChecks()
      modifies this`checkStack
      ensures ValidChecks()
      ensures (s, Forest()) == CheckForest.PopCheck(old(Forest()))
    {
      ghost var before := Forest();
      if checkStack == [] {
        return Err(AssemblerInvariant);
      }
      checkStack := checkStack[..|checkStack| - 1];
      assert Forest().checks == before.checks && Forest().catches == before.catches;
      assert Forest().stack == before.stack[..|before.stack| - 1];
      return OK;
    }

    method DeclareCatch(start: string) returns (handle: CatchHandle)
      requires ValidChecks()
      modifies this`catches
      ensures ValidChecks() && fresh(handle)
      ensures catches == old(catches) + [handle] && handle.index == |old(catches)|
      ensures handle.Value() == CheckForest.Catch(start, "", Invalid)
    {
      handle := new CatchHandle(start, |catches|);
      catches := catches + [handle];
    }

    // ---------- building ----------

    /** Makes the writer track what the procedure refers to. */
    method Touch(writer: ObjectWriter, more: nat -> seq<Insertion>) returns (s: Status)
      requires ValidChecks()
      modifies writer
      ensures var (status, touched) := TouchUpTo(old(writer.State()), fragment.statements, more);
              s == status && writer.State() == if s.Ok? then TouchTypes(touched, Forest().catches) else touched
      ensures s.Ok? <==> TouchAll(old(writer.State()), fragment.statements, more).Ok?
      ensures s.Ok? ==>
                writer.State() == TouchTypes(TouchAll(old(writer.State()), fragment.statements, more).value,
                                             Forest().catches)
    {
      hide TouchAll, TouchUpTo, SymbolIndex.InsertType;
      TouchUpToAll(writer.State(), fragment.statements, more);
      s := fragment.Touch(writer, more);
      if s.Err? {
        return;
      }
      ghost var touched, catchValues := writer.State(), Forest().catches;
      var i := 0;
      while i < |catches|
        invariant 0 <= i <= |catches|
        invariant writer.State() == TouchTypes(touched, catchValues[..i])
      {
        assert catchValues[..i + 1][..i] == catchValues[..i];
        writer.InsertType(catches[i].exceptionType);
        i := i + 1;
      }
      assert catchValues[..i] == catchValues;
    }

    ghost predicate Valid()
      reads this, checks
    {
      ValidLoops() && ValidChecks()
    }

    ghost function State(): ProcState
      reads this, checks, catches, frame, fragment, tables
    {
      ProcState(frame.arity, frame.numLocals, frame.lexicals, fragment.statements, tables.State(), |loopStack|,
                Forest())
    }

    method ValidateFragment() returns (s: Status)
      ensures s == FailIf(fragment.statements == []
                          || !IsTerminator(fragment.statements[|fragment.statements| - 1]), AssemblerInvariant)
    {
      var n := |fragment.statements|;
      if n == 0 {
        return Err(AssemblerInvariant);
      }
      var last := fragment.statements[n - 1];
      if last.Jump? || last.Return? || last.Interrupt? || last.Abort? || last.Halt? {
        return OK;
      }
      return Err(AssemblerInvariant);
    }

    /** Patches every jump of the code, in an order of its own choosing. */
    method PatchJumps(builder: BytecodeBuilder, patchOffsets: map<U32, U16>, labelOffsets: Labels)
      returns (s: Status, ghost order: seq<U32>)
      requires forall t :: t in patchOffsets ==> t in tables.jumpLabels
      modifies builder
      ensures NoRepeats(order) && forall t :: t in order <==> t in patchOffsets
      ensures ApplyPatches(old(builder.code), order, patchOffsets, tables.jumpLabels, labelOffsets)
           == if s.Ok? then Ok(builder.code) else Err(s.condition)
    {
      hide CanPatch, Patched;
      ghost var before := builder.code;
      order := [];
      var remaining := patchOffsets.Keys;
      while remaining != {}
        invariant remaining <= patchOffsets.Keys
        invariant NoRepeats(order) && forall t :: t in order <==> t in patchOffsets && t !in remaining
        invariant ApplyPatches(before, order, patchOffsets, tables.jumpLabels, labelOffsets) == Ok(builder.code)
        decreases |remaining|
      {
        var target :| target in remaining;
        remaining := remaining - {target};
        order := Grown(order, target, patchOffsets.Keys, remaining);
        s := PatchJump(builder, patchOffsets[target], tables.jumpLabels[target], labelOffsets);
        if s.Err? {
          order := CompleteOrder(before, order, remaining, patchOffsets, tables.jumpLabels, labelOffsets);
          return;
        }
      }
      s := OK;
    }

    method PatchJump(builder: BytecodeBuilder, patch: U16, jumpLabel: string, labelOffsets: Labels) returns (s: Status)
      modifies builder
      ensures jumpLabel !in labelOffsets ==> s == Err(AssemblerInvariant)
      ensures jumpLabel in labelOffsets ==>
                s == FailIf(!CanPatch(|old(builder.code)|, patch, labelOffsets[jumpLabel]), ObjectInvariant)
      ensures builder.code == if s.Ok? then Patched(old(builder.code), patch, labelOffsets[jumpLabel])
                else old(builder.code)
    {
      if jumpLabel !in labelOffsets {
        return Err(AssemblerInvariant);
      }
      s := builder.Patch(patch, labelOffsets[jumpLabel]);
    }

    /** Appends the descendants of a check at a level. */
    method BuildCheckLevel(check: CheckHandle, level: nat, checkLevels: seq<CheckHandle>)
        returns (levels: seq<CheckHandle>)
      requires ValidChecks() && HasCheck(check) && forall i :: 0 <= i < |checkLevels| ==> HasCheck(checkLevels[i])
      ensures CheckForest.InBounds(Forest())
      ensures CheckNumbers(levels) == CheckNumbers(checkLevels) + CheckForest.Level(Forest(), check.index, level)
      ensures forall i :: 0 <= i < |levels| ==> HasCheck(levels[i])
      decreases level
    {
      hide CheckForest.InBounds, ProcHandle.Forest, ProcHandle.ValidChecks, ProcHandle.HasCheck;
      ForestInBounds();
      ChildrenOfCheck(check);
      levels := checkLevels;
      if level > 0 {
        ghost var ids := CheckNumbers(check.children);
        var i := 0;
        while i < |check.children|
          invariant 0 <= i <= |check.children|
          invariant CheckNumbers(levels)
                    == CheckNumbers(checkLevels) + CheckForest.Levels(Forest(), ids[..i], level - 1)
          invariant forall j :: 0 <= j < |levels| ==> HasCheck(levels[j])
        {
          assert ids[..i + 1][..i] == ids[..i];
          levels := BuildCheckLevel(check.children[i], level - 1, levels);
          i := i + 1;
        }
        assert ids[..i] == ids;
      } else {
        levels := levels + [check];
      }
    }

    /** Lists the checks, deepest level first. */
    method BuildCheckLevels() returns (levels: seq<CheckHandle>)
      requires ValidChecks()
      ensures CheckForest.InBounds(Forest())
      ensures CheckNumbers(levels) == CheckForest.BuildLevels(Forest())
      ensures forall i :: 0 <= i < |levels| ==> HasCheck(levels[i])
    {
      hide CheckForest.InBounds, CheckForest.Levels, ProcHandle.ValidChecks, ProcHandle.Forest, ProcHandle.HasCheck,
           CheckForest.BuildLevels;
      ForestInBounds();
      DepthOfForest();
      levels := [];
      var depth := checkDepth;
      while depth > 0
        invariant CheckNumbers(levels) + CheckForest.LevelsFrom(Forest(), depth) == CheckForest.BuildLevels(Forest())
        invariant forall j :: 0 <= j < |levels| ==> HasCheck(levels[j])
      {
        depth := depth - 1;
        levels := BuildRoots(depth, levels);
      }
    }

    lemma DepthOfForest()
      requires CheckForest.InBounds(Forest())
      ensures CheckForest.BuildLevels(Forest()) == CheckForest.LevelsFrom(Forest(), checkDepth)
    {
    }

    method BuildRoots(depth: nat, checkLevels: seq<CheckHandle>) returns (levels: seq<CheckHandle>)
      requires ValidChecks() && forall i :: 0 <= i < |checkLevels| ==> HasCheck(checkLevels[i])
      ensures CheckForest.InBounds(Forest())
      ensures CheckNumbers(levels) == CheckNumbers(checkLevels) + CheckForest.Levels(Forest(), Forest().roots, depth)
      ensures forall i :: 0 <= i < |levels| ==> HasCheck(levels[i])
    {
      hide CheckForest.InBounds;
      ForestInBounds();
      ghost var ids := CheckNumbers(checkRoots);
      levels := checkLevels;
      var i := 0;
      while i < |checkRoots|
        invariant 0 <= i <= |checkRoots|
        invariant CheckNumbers(levels) == CheckNumbers(checkLevels) + CheckForest.Levels(Forest(), ids[..i], depth)
        invariant forall j :: 0 <= j < |levels| ==> HasCheck(levels[j])
      {
        assert ids[..i + 1][..i] == ids[..i];
        levels := BuildCheckLevel(checkRoots[i], depth, levels);
        i := i + 1;
      }
      assert ids[..i] == ids;
    }

    lemma CatchesOfCheck(check: CheckHandle)
      requires ValidChecks() && HasCheck(check)
      ensures check.index < |Forest().checks| && Forest().checks[check.index].catches == CatchNumbers(check.catches)
      ensures forall i :: 0 <= i < |check.catches| ==>
                && CatchNumbers(check.catches)[i] < |Forest().catches|
                && Forest().catches[CatchNumbers(check.catches)[i]] == check.catches[i].Value()
    {
      forall i | 0 <= i < |check.catches|
        ensures HasCatch(check.catches[i])
      {
        assert HasCatch(checks[check.index].catches[i]);
      }
    }

    lemma ChildrenOfCheck(check: CheckHandle)
      requires ValidChecks() && HasCheck(check)
      ensures check.index < |Forest().checks| && Forest().checks[check.index].children == CheckNumbers(check.children)
      ensures forall i :: 0 <= i < |check.children| ==> HasCheck(check.children[i])
      ensures forall i :: 0 <= i < |check.children| ==> CheckNumbers(check.children)[i] < |Forest().checks|
    {
      forall i | 0 <= i < |check.children|
        ensures HasCheck(check.children[i])
      {
        assert HasCheck(checks[check.index].children[i]);
      }
    }

    /** Defines each catch of a check. */
    method BuildExceptions(check: CheckHandle, labelOffsets: Labels, writer: ObjectWriter)
        returns (r: Result<seq<ExceptionRecord>>)
      requires ValidChecks() && HasCheck(check) && LabelsPlaced(Forest(), labelOffsets)
      ensures CheckForest.InBounds(Forest())
      ensures r == ExceptionsFor(Forest(), Forest().checks[check.index].catches, labelOffsets, writer.State())
    {
      hide CheckForest.InBounds, ProcHandle.Forest, ProcHandle.ValidChecks, ProcHandle.HasCheck, CatchNumbers;
      ForestInBounds();
      CatchesOfCheck(check);
      ghost var f, ids := Forest(), CatchNumbers(check.catches);
      var exceptions := [];
      var i := 0;
      while i < |check.catches|
        invariant 0 <= i <= |check.catches|
        invariant ExceptionsFor(f, ids[..i], labelOffsets, writer.State()) == Ok(exceptions)
      {
        assert ids[..i + 1][..i] == ids[..i];
        var handle := check.catches[i];
        var exceptionType := writer.GetTypeOffset(handle.exceptionType);
        if exceptionType.Err? {
          ExceptionsFail(f, ids, labelOffsets, writer.State(), i + 1);
          return Err(exceptionType.condition);
        }
        var start, end := labelOffsets[handle.start], labelOffsets[handle.end];
        exceptions := exceptions + [ExceptionRecord(exceptionType.value, start, ToU32((end as int) - start))];
        i := i + 1;
      }
      assert ids[..i] == ids;
      return Ok(exceptions);
    }

    /** Defines each check, with its catches. */
    method BuildTables(checkLevels: seq<CheckHandle>, labelOffsets: Labels, writer: ObjectWriter)
        returns (r: Result<CheckTable>)
      requires ValidChecks() && CaughtKnown() && LabelsPlaced(Forest(), labelOffsets)
      requires forall i :: 0 <= i < |checkLevels| ==> HasCheck(checkLevels[i])
      ensures CheckForest.InBounds(Forest())
      ensures forall i :: 0 <= i < |checkLevels| ==> CheckNumbers(checkLevels)[i] < |Forest().checks|
      ensures r == TablesFor(Forest(), CheckNumbers(checkLevels), labelOffsets, writer.State())
    {
      hide CheckForest.InBounds, LabelsPlaced, ExceptionsFor, ProcHandle.Forest, ProcHandle.ValidChecks;
      ForestInBounds();
      NumbersOfForest(checkLevels);
      ghost var f, ids := Forest(), CheckNumbers(checkLevels);
      var table, exceptions := [], [];
      var i := 0;
      while i < |checkLevels|
        invariant 0 <= i <= |checkLevels|
        invariant TablesFor(f, ids[..i], labelOffsets, writer.State()) == Ok(CheckTable(table, exceptions))
      {
        assert ids[..i + 1][..i] == ids[..i];
        var check := checkLevels[i];
        CheckPlaced(check, labelOffsets);
        var start, end := labelOffsets[check.start], labelOffsets[check.end];
        assert CaughtCached(block.cache.symbols, checks[check.index]);
        var caughtLocal := block.cache.symbols[check.caughtRef].slot;
        var record := CheckRecord(start, ToU32((end as int) - start), ToU16(|exceptions|), ToU16(|check.catches|),
                                  ToU16(caughtLocal));
        var more := BuildExceptions(check, labelOffsets, writer);
        if more.Err? {
          TablesFail(f, ids, labelOffsets, writer.State(), i + 1);
          return Err(more.condition);
        }
        table, exceptions := table + [record], exceptions + more.value;
        i := i + 1;
      }
      assert ids[..i] == ids;
      return Ok(CheckTable(table, exceptions));
    }

    lemma NumbersOfForest(handles: seq<CheckHandle>)
      requires forall i :: 0 <= i < |handles| ==> HasCheck(handles[i])
      ensures forall i :: 0 <= i < |handles| ==> CheckNumbers(handles)[i] < |Forest().checks|
    {
    }

    lemma CheckPlaced(check: CheckHandle, labelOffsets: Labels)
      requires ValidChecks() && HasCheck(check) && LabelsPlaced(Forest(), labelOffsets)
      ensures check.index < |Forest().checks| && Forest().checks[check.index] == check.Value()
      ensures check.start in labelOffsets && check.end in labelOffsets
    {
      assert Forest().checks[check.index] == check.Value();
    }

    method BuildLexicals(writer: ObjectWriter) returns (r: Result<seq<LexicalRecord>>)
      ensures r == LexicalRecords(frame.lexicals, writer.State())
    {
      var records := [];
      var i := 0;
      while i < |frame.lexicals|
        invariant 0 <= i <= |frame.lexicals|
        invariant LexicalRecords(frame.lexicals[..i], writer.State()) == Ok(records)
      {
        assert frame.lexicals[..i + 1][..i] == frame.lexicals[..i];
        var lexical := frame.lexicals[i];
        var address := writer.GetSectionAddress(lexical.call, CallSection);
        if address.Err? {
          LexicalsFail(frame.lexicals, writer.State(), i + 1);
          return Err(address.condition);
        }
        records := records + [LexicalRecord(address.value, lexical.offset, TargetByte(lexical.target))];
        i := i + 1;
      }
      assert frame.lexicals[..i] == frame.lexicals;
      return Ok(records);
    }

    /** Writes the header, the code and the trailer. */
    method WriteLayout(p: Procedure) returns (bytes: seq<Byte>)
      ensures bytes == Layout(p)
    {
      hide CheckBytes, ExceptionBytes, LexicalBytes, U16Bytes, U32Bytes, TableBytes;
      var trailer := [];
      if p.checks != [] || p.exceptions != [] {
        trailer := U16Bytes(ToU16(|p.checks|)) + U16Bytes(ToU16(|p.exceptions|)) + U16Bytes(0);
        var checkBytes := WriteTable(p.checks, CheckBytes);
        var exceptionBytes := WriteTable(p.exceptions, ExceptionBytes);
        trailer := trailer + checkBytes + exceptionBytes;
      }
      var header := U16Bytes(ToU16(p.arity)) + U16Bytes(ToU16(p.numLocals)) + U16Bytes(ToU16(|p.lexicals|))
                    + U32Bytes(ToU32(|trailer|));
      var lexicalBytes := WriteTable(p.lexicals, LexicalBytes);
      header := header + lexicalBytes;
      bytes := U32Bytes(ToU32(|header| + |p.code| + |trailer|)) + (header + p.code + trailer);
    }

    /** Writes the code of the fragment and patches its jumps. */
    method BuildCode(writer: ObjectWriter) returns (r: Result<seq<Byte>>, labelOffsets: Labels, ghost order: seq<U32>)
      requires ValidLoops() && forall t :: t in PatchOffsets(fragment.statements) ==> t in tables.jumpLabels
      ensures Emit(fragment.statements, writer.State()).Ok? ==> Visits(order, fragment.statements)
      ensures Emit(fragment.statements, writer.State()).Err? ==>
                order == [] && r == Emit(fragment.statements, writer.State())
      ensures Emit(fragment.statements, writer.State()).Ok? ==>
                r == ApplyPatches(Emit(fragment.statements, writer.State()).value, order,
                                  PatchOffsets(fragment.statements),
                                  tables.jumpLabels, LabelOffsets(fragment.statements))
      ensures r.Ok? ==> labelOffsets == LabelOffsets(fragment.statements)
    {
      hide Emit, ApplyPatches, LabelOffsets, PatchOffsets;
      order := [];
      var builder := new BytecodeBuilder();
      var emitted, offsets, patchOffsets := fragment.Build(writer, builder);
      labelOffsets := offsets;
      if emitted.Err? {
        return Err(emitted.condition), labelOffsets, order;
      }
      var patched;
      patched, order := PatchJumps(builder, patchOffsets, labelOffsets);
      r := if patched.Err? then Err(patched.condition) else Ok(builder.code);
    }

    /** Builds the procedure. The order in which jumps are patched is a ghost result; which order it
        is does not matter to whether building succeeds. */
    method Build(writer: ObjectWriter) returns (r: Result<seq<Byte>>, ghost order: seq<U32>)
      requires Valid() && CaughtKnown() && (Closed(State()) ==> Sound(State()))
      ensures Closed(State()) && Emit(State().stmts, writer.State()).Ok? ==> Visits(order, State().stmts)
      ensures !(Closed(State()) && Emit(State().stmts, writer.State()).Ok?) ==> order == []
      ensures r.Ok? <==> Closed(State()) && LookupsSucceed(State(), writer.State()) && JumpsReach(State())
      ensures r == var p := Assemble(State(), writer.State(), order);
                   if p.Ok? then Ok(Layout(p.value)) else Err(p.condition)
    {
      hide Sound, Layout, ProcHandle.Forest, Emit;
      order := [];
      var valid := ValidateFragment();
      if valid.Err? {
        return Err(valid.condition), order;
      }
      if loopStack != [] {
        return Err(AssemblerInvariant), order;
      }
      assert State().forest.stack == CheckNumbers(checkStack) by { StackOfForest(); }
      if checkStack != [] {
        return Err(AssemblerInvariant), order;
      }
      r, order := BuildClosed(writer);
      ClosedAccepts(State(), writer.State(), order);
    }

    lemma StackOfForest()
      ensures Forest().stack == CheckNumbers(checkStack)
    {
    }

    lemma SizeOfForest()
      ensures |Forest().checks| == |checks|
    {
    }

    method BuildClosed(writer: ObjectWriter) returns (r: Result<seq<Byte>>, ghost order: seq<U32>)
      requires Valid() && CaughtKnown() && Closed(State()) && Sound(State())
      ensures Emit(State().stmts, writer.State()).Ok? ==> Visits(order, State().stmts)
      ensures Emit(State().stmts, writer.State()).Err? ==> order == []
      ensures r == var p := Assemble(State(), writer.State(), order);
                   if p.Ok? then Ok(Layout(p.value)) else Err(p.condition)
    {
      hide CheckForest.InBounds, LabelsPlaced, TablesFor, Emit, ApplyPatches, LexicalRecords, Layout,
           CheckForest.BuildLevels, LabelOffsets, PatchOffsets, Closed, NoRepeats, ProcHandle.Forest,
           ProcHandle.ValidChecks, CheckNumbers;
      var code, labelOffsets;
      code, labelOffsets, order := BuildCode(writer);
      if code.Err? {
        return Err(code.condition), order;
      }
      var checkLevels := BuildCheckLevels();
      var table := BuildTables(checkLevels, labelOffsets, writer);
      if table.Err? {
        return Err(table.condition), order;
      }
      var lexicals := BuildLexicals(writer);
      if lexicals.Err? {
        return Err(lexicals.condition), order;
      }
      var bytes := WriteLayout(Procedure(frame.arity, frame.numLocals, lexicals.value, code.value, table.value.checks,
                                         table.value.exceptions));
      return Ok(bytes), order;
    }

    constructor (block: BlockHandle, frame: ProcFrame)
      ensures this.block == block && this.frame == frame
      ensures ValidLoops() && LoopState() == Loops.START.state
      ensures ValidChecks() && Forest() == CheckForest.NO_CHECKS && CaughtKnown()
    {
      this.block := block;
      this.frame := frame;
      var t := new JumpTable();
      tables := t;
      fragment := new CodeFragment(t);
      loops, loopStack := [], [];
      checks, checkStack, checkRoots, checkDepth, catches := [], [], [], 0, [];
    }
  }

  ghost function Grown(order: seq<U32>, t: U32, keys: set<U32>, remaining: set<U32>): (r: seq<U32>)
    requires NoRepeats(order) && t in keys && t !in remaining && remaining <= keys
    requires forall u :: u in order <==> u in keys && u !in remaining + {t}
    ensures r == order + [t] && NoRepeats(r) && forall u :: u in r <==> u in keys && u !in remaining
  {
    order + [t]
  }

  /** When a patch fails, the targets not visited yet do not change the outcome. */
  lemma {:induction false} CompleteOrder(code: seq<Byte>, done: seq<U32>, remaining: set<U32>, patches: map<U32, U16>,
                                         jumps: JumpLabels, labels: Labels)
      returns (order: seq<U32>)
    requires remaining <= patches.Keys && forall t :: t in patches ==> t in jumps
    requires NoRepeats(done) && forall t :: t in done <==> t in patches && t !in remaining
    requires ApplyPatches(code, done, patches, jumps, labels).Err?
    ensures NoRepeats(order) && forall t :: t in order <==> t in patches
    ensures ApplyPatches(code, order, patches, jumps, labels) == ApplyPatches(code, done, patches, jumps, labels)
    decreases |remaining|
  {
    hide CanPatch, Patched;
    if remaining == {} {
      order := done;
    } else {
      var t :| t in remaining;
      var more := Grown(done, t, patches.Keys, remaining - {t});
      assert more[..|done|] == done;
      order := CompleteOrder(code, more, remaining - {t}, patches, jumps, labels);
    }
  }

  method WriteTable<T>(records: seq<T>, write: T -> seq<Byte>) returns (bytes: seq<Byte>)
    ensures bytes == TableBytes(records, write)
  {
    bytes := [];
    var i := 0;
    while i < |records|
      invariant 0 <= i <= |records|
      invariant bytes == TableBytes(records[..i], write)
    {
      assert records[..i + 1][..i] == records[..i];
      bytes := bytes + write(records[i]);
      i := i + 1;
    }
    assert records[..i] == records;
  }

  lemma {:induction false} ExceptionsFail(f: CheckForest.Forest, ids: seq<nat>, labels: Labels, idx: Index, n: nat)
    requires LabelsPlaced(f, labels) && forall i :: 0 <= i < |ids| ==> ids[i] < |f.catches|
    requires n <= |ids| && ExceptionsFor(f, ids[..n], labels, idx).Err?
    ensures ExceptionsFor(f, ids, labels, idx) == ExceptionsFor(f, ids[..n], labels, idx)
    decreases |ids|
  {
    if n < |ids| {
      var m := |ids| - 1;
      assert ids[..m][..n] == ids[..n];
      ExceptionsFail(f, ids[..m], labels, idx, n);
    } else {
      assert ids[..n] == ids;
    }
  }

  lemma {:induction false} TablesFail(f: CheckForest.Forest, ids: seq<nat>, labels: Labels, idx: Index, n: nat)
    requires CheckForest.InBounds(f) && LabelsPlaced(f, labels) && forall i :: 0 <= i < |ids| ==> ids[i] < |f.checks|
    requires n <= |ids| && TablesFor(f, ids[..n], labels, idx).Err?
    ensures TablesFor(f, ids, labels, idx) == TablesFor(f, ids[..n], labels, idx)
    decreases |ids|
  {
    hide CheckForest.InBounds, LabelsPlaced, ExceptionsFor;
    if n < |ids| {
      var m := |ids| - 1;
      assert ids[..m][..n] == ids[..n];
      TablesFail(f, ids[..m], labels, idx, n);
    } else {
      assert ids[..n] == ids;
    }
  }

  lemma {:induction false} LexicalsFail(lexicals: seq<Scopes.ProcLexical>, idx: Index, n: nat)
    requires n <= |lexicals| && LexicalRecords(lexicals[..n], idx).Err?
    ensures LexicalRecords(lexicals, idx) == LexicalRecords(lexicals[..n], idx)
    decreases |lexicals|
  {
    if n < |lexicals| {
      var m := |lexicals| - 1;
      assert lexicals[..m][..n] == lexicals[..n];
      LexicalsFail(lexicals[..m], idx, n);
    } else {
      assert lexicals[..n] == lexicals;
    }
  }

  lemma ClosedAccepts(p: ProcState, idx: Index, order: seq<U32>)
    requires Closed(p) && Sound(p)
    requires if Emit(p.stmts, idx).Ok? then Visits(order, p.stmts) else order == []
    ensures Assemble(p, idx, order).Ok? <==> LookupsSucceed(p, idx) && JumpsReach(p)
  {
    hide Encode, Sound, JumpsReach, TypesTracked, NoRepeats, ApplyPatches, TablesFor, LexicalRecords;
    if Emit(p.stmts, idx).Ok? {
      AcceptsExactlyTheClosed(p, idx, order);
    } else {
      EmitSucceeds(p.stmts, idx);
    }
  }
}
