/** Building a procedure: when it succeeds, and what the bytes it produces do. */
module Assembly {
  import opened Activations
  import opened BigEndian
  import opened Bytecode
  import opened CheckForest
  import opened CheckTables
  import opened ControlFlow
  import opened Emission
  import opened ExceptionHandlers
  import Fragments
  import opened Instructions
  import opened Intervals
  import opened JumpTables
  import opened Operands
  import opened Placements
  import opened ProcLayout
  import Scopes
  import opened SymbolIndex
  import opened Symbols
  import TypeDefs
  import opened Wrappers

  /** What has been collected for a procedure when it is built. */
  datatype ProcState = ProcState(
    arity: nat,
    numLocals: nat,
    lexicals: seq<Scopes.ProcLexical>,
    stmts: seq<Instruction>,
    tables: Tables,
    openLoops: nat,
    forest: Forest)

  /** The fragment is not empty and ends by leaving it, and no loop or check is left open. */
  predicate Closed(p: ProcState) {
    && p.stmts != []
    && IsTerminator(p.stmts[|p.stmts| - 1])
    && p.openLoops == 0
    && p.forest.stack == []
  }

  /** What the assembler takes for granted: jump targets are registered, checks and catches have
      their labels placed, and the forest of checks is one. */
  ghost predicate Sound(p: ProcState) {
    && InBounds(p.forest)
    && (forall t :: t in PatchOffsets(p.stmts) ==> t in p.tables.jumpLabels)
    && LabelsPlaced(p.forest, LabelOffsets(p.stmts))
    && (forall i :: 0 <= i < |BuildLevels(p.forest)| ==> BuildLevels(p.forest)[i] < |p.forest.checks|)
  }

  function TargetByte(target: Scopes.LexicalTarget): Byte {
    match target
    case InvalidTarget => 0
    case ArgumentTarget => 1
    case LocalTarget => 2
    case LexicalTarget => 3
  }

  function LexicalRecords(lexicals: seq<Scopes.ProcLexical>, idx: Index): Result<seq<LexicalRecord>> {
    if lexicals == [] then Ok([])
    else
      var n := |lexicals| - 1;
      var before :- LexicalRecords(lexicals[..n], idx);
      var address :- SectionAddress(idx, lexicals[n].call, CallSection);
      Ok(before + [LexicalRecord(address, lexicals[n].offset, TargetByte(lexicals[n].target))])
  }

  /** The patch pass visits the jump targets in some order. */
  function Assemble(p: ProcState, idx: Index, order: seq<U32>): Result<Procedure>
    requires Closed(p) ==> Sound(p) && forall t :: t in order ==> t in PatchOffsets(p.stmts)
  {
    if !Closed(p) then Err(AssemblerInvariant)
    else
      var emitted :- Emit(p.stmts, idx);
      var code :- ApplyPatches(emitted, order, PatchOffsets(p.stmts), p.tables.jumpLabels, LabelOffsets(p.stmts));
      var table :- TablesFor(p.forest, BuildLevels(p.forest), LabelOffsets(p.stmts), idx);
      var lexicals :- LexicalRecords(p.lexicals, idx);
      Ok(Procedure(p.arity, p.numLocals, lexicals, code, table.checks, table.exceptions))
  }

  // ---------- when building succeeds ----------

  lemma {:induction false} LexicalsSucceed(lexicals: seq<Scopes.ProcLexical>, idx: Index)
    ensures LexicalRecords(lexicals, idx).Ok?
       <==> forall i :: 0 <= i < |lexicals| ==> SectionAddress(idx, lexicals[i].call, CallSection).Ok?
    ensures LexicalRecords(lexicals, idx).Ok? ==>
              var r := LexicalRecords(lexicals, idx).value;
              && |r| == |lexicals|
              && (forall i :: 0 <= i < |lexicals| ==>
                    r[i] == LexicalRecord(SectionAddress(idx, lexicals[i].call, CallSection).value, lexicals[i].offset,
                                          TargetByte(lexicals[i].target)))
  {
    if lexicals != [] {
      LexicalsSucceed(lexicals[..|lexicals| - 1], idx);
    }
  }

  /** Every lookup in the writer that the procedure needs succeeds. */
  ghost predicate LookupsSucceed(p: ProcState, idx: Index)
    requires Sound(p)
  {
    && (forall i :: 0 <= i < |p.stmts| ==> Encode(p.stmts[i], idx).Ok?)
    && TypesTracked(p.forest, BuildLevels(p.forest), idx)
    && (forall i :: 0 <= i < |p.lexicals| ==> SectionAddress(idx, p.lexicals[i].call, CallSection).Ok?)
  }

  /** Every jump and branch goes to a label of the fragment, and not too far. */
  ghost predicate JumpsReach(p: ProcState)
    requires Sound(p)
  {
    forall i :: 0 <= i < |p.stmts| && IsTransfer(p.stmts[i]) ==> JumpReaches(p, p.stmts[i].target)
  }

  ghost predicate JumpReaches(p: ProcState, t: U32)
    requires Sound(p)
  {
    && t in p.tables.jumpLabels && HasLabel(p.stmts, p.tables.jumpLabels[t])
    && t in PatchOffsets(p.stmts) && p.tables.jumpLabels[t] in LabelOffsets(p.stmts)
    && CanPatch(Offset(p.stmts, |p.stmts|), PatchOffsets(p.stmts)[t], LabelOffsets(p.stmts)[p.tables.jumpLabels[t]])
  }

  /** Building accepts exactly the closed programs, whatever the order of the patches: given that
      the lookups in the writer succeed, those that are not empty and end by leaving the
      fragment, with no loop or check open, and whose jumps all reach a label of the fragment. */
  lemma AcceptsExactlyTheClosed(p: ProcState, idx: Index, order: seq<U32>)
    requires Sound(p) && Visits(order, p.stmts)
    ensures Assemble(p, idx, order).Ok? <==>
              && p.stmts != [] && IsTerminator(p.stmts[|p.stmts| - 1])
              && p.openLoops == 0 && p.forest.stack == []
              && LookupsSucceed(p, idx) && JumpsReach(p)
  {
    hide Encode, CanPatch, TablesFor, InBounds, LabelsPlaced, LexicalRecords;
    if Closed(p) {
      EmitSucceeds(p.stmts, idx);
      TablesRight(p.forest, BuildLevels(p.forest), LabelOffsets(p.stmts), idx);
      LexicalsSucceed(p.lexicals, idx);
      if Emit(p.stmts, idx).Ok? {
        PatchesSucceed(Emit(p.stmts, idx).value, order, PatchOffsets(p.stmts), p.tables.jumpLabels,
                       LabelOffsets(p.stmts));
        ReachablePatches(p, order);
      }
    }
  }

  lemma ReachablePatches(p: ProcState, order: seq<U32>)
    requires Sound(p) && Visits(order, p.stmts)
    ensures JumpsReach(p) <==> forall t :: t in order ==>
              Patchable(Offset(p.stmts, |p.stmts|), t, PatchOffsets(p.stmts), p.tables.jumpLabels,
                        LabelOffsets(p.stmts))
  {
    hide Encode, CanPatch, InBounds, LabelsPlaced;
    PatchOffsetsKeys(p.stmts);
    LabelOffsetsKeys(p.stmts);
    forall t | t in order
      ensures JumpReaches(p, t)
         <==> Patchable(Offset(p.stmts, |p.stmts|), t, PatchOffsets(p.stmts), p.tables.jumpLabels,
                        LabelOffsets(p.stmts))
      ensures HasTarget(p.stmts, t)
    {
    }
    forall i | 0 <= i < |p.stmts| && IsTransfer(p.stmts[i])
      ensures p.stmts[i].target in order
    {
      assert HasTarget(p.stmts, p.stmts[i].target);
    }
  }

  /** In code of at most 32 KiB no jump is too far. */
  lemma ShortCodeReaches(p: ProcState, t: U32)
    requires Sound(p) && DistinctLabels(p.stmts) && DistinctTargets(p.stmts) && Offset(p.stmts, |p.stmts|) <= 0x8000
    requires t in PatchOffsets(p.stmts)
    ensures JumpReaches(p, t) <==> HasLabel(p.stmts, p.tables.jumpLabels[t])
  {
    hide Encode, Offset, PatchOffsets, LabelOffsets, DistinctLabels, DistinctTargets, BuildLevels, InBounds,
         LabelsPlaced;
    PatchOffsetsKeys(p.stmts);
    LabelOffsetsKeys(p.stmts);
    var i := FindTransfer(p.stmts, t);
    if HasLabel(p.stmts, p.tables.jumpLabels[t]) {
      var l := FindLabel(p.stmts, p.tables.jumpLabels[t]);
    }
  }

  // ---------- touching ----------

  /** After its fragment, a procedure touches the types of its catches. */
  function TouchTypes(idx: Index, catches: seq<Catch>): Index {
    if catches == [] then idx
    else InsertType(TouchTypes(idx, catches[..|catches| - 1]), catches[|catches| - 1].exceptionType)
  }

  lemma {:induction false} TouchTypesTracks(idx: Index, catches: seq<Catch>)
    requires Consistent(idx)
    ensures Consistent(TouchTypes(idx, catches)) && Extends(idx, TouchTypes(idx, catches))
    ensures forall c :: 0 <= c < |catches| ==> catches[c].exceptionType in TouchTypes(idx, catches).typeOffsets
  {
    hide Consistent, Extends, InsertType;
    if catches == [] {
      ExtendsItself(idx);
    } else {
      var n := |catches| - 1;
      var before := TouchTypes(idx, catches[..n]);
      TouchTypesTracks(idx, catches[..n]);
      TypeConsistent(before, catches[n].exceptionType);
      ExtendsTransitive(idx, before, TouchTypes(idx, catches));
      forall c | 0 <= c < n
        ensures catches[c].exceptionType in TouchTypes(idx, catches).typeOffsets
      {
        TypeStays(before, TouchTypes(idx, catches), catches[..n][c]);
      }
    }
  }

  /** Once a procedure has been touched, whatever else the writer has tracked in the meantime, the
      lookups of its instructions and catches succeed: all of them exactly when no opcode is at
      odds with its operand, no namespace is loaded that nothing else made the writer track, and
      the activations of its lexicals are tracked. */
  lemma TouchedLookupsSucceed(p: ProcState, idx: Index, more: nat -> seq<Insertion>, touched: Index, final: Index)
    requires Sound(p) && Consistent(idx) && TouchAll(idx, p.stmts, more) == Ok(touched)
    requires Consistent(final) && Extends(TouchTypes(touched, p.forest.catches), final)
    requires forall i :: 0 <= i < |p.stmts| && SymbolOf(p.stmts[i]).Some? ==> Agrees(final, SymbolOf(p.stmts[i]).value)
    ensures LookupsSucceed(p, final) <==>
              && (forall i :: 0 <= i < |p.stmts| ==> Encodable(p.stmts[i]) || LoadsTrackedNamespace(p.stmts[i], final))
              && (forall i :: 0 <= i < |p.lexicals| ==> SectionAddress(final, p.lexicals[i].call, CallSection).Ok?)
  {
    hide Consistent, Extends, Encode, Encodable, LoadsTrackedNamespace, TouchAll, Agrees, SymbolOf;
    TouchEntersSubjects(idx, p.stmts, more, 0);
    TouchTypesTracks(touched, p.forest.catches);
    ExtendsTransitive(touched, TouchTypes(touched, p.forest.catches), final);
    forall i | 0 <= i < |p.stmts|
      ensures Encode(p.stmts[i], final).Ok? <==> Encodable(p.stmts[i]) || LoadsTrackedNamespace(p.stmts[i], final)
    {
      TouchCoversBuild(idx, p.stmts, more, final, i);
    }
    forall c | 0 <= c < |p.forest.catches|
      ensures p.forest.catches[c].exceptionType in final.typeOffsets
    {
      TypeStays(TouchTypes(touched, p.forest.catches), final, p.forest.catches[c]);
    }
  }

  lemma TypeStays(a: Index, b: Index, catch: Catch)
    requires Extends(a, b) && catch.exceptionType in a.typeOffsets
    ensures catch.exceptionType in b.typeOffsets
  {
  }

  // ---------- what the built procedure does ----------

  /** Each label is in front of an instruction of the code: its offset is inside the code, and a
      reader finds an instruction there. */
  lemma LabelsStartInstructions(code: seq<Byte>, stmts: seq<Instruction>, jumps: JumpLabels, idx: Index, i: nat)
    requires Assembled(code, stmts, jumps, idx) && i < |stmts| && IsTerminator(stmts[|stmts| - 1])
    ensures Offset(stmts, i) < |code|
    ensures Fetch(code, Offset(stmts, i)).Some?
  {
    hide Encode, OperandSize, Assembled, Fetch;
    SkipLabelsFacts(stmts, i);
    FetchStatement(code, stmts, jumps, idx, SkipLabels(stmts, i));
    FetchInside(code, Offset(stmts, i));
  }

  lemma FetchInside(code: seq<Byte>, at: nat)
    requires Fetch(code, at).Some?
    ensures at < |code|
  {
  }

  /** The record of a lexical names the activation by the address of its call, the slot, and a byte that the
      interpreter takes for the kind of variable that it is; there are no others than arguments and locals. */
  ghost predicate LexicalFound(record: LexicalRecord, lexical: Scopes.ProcLexical, idx: Index) {
    && Ok(record.activationCall) == SectionAddress(idx, lexical.call, CallSection)
    && record.targetOffset == lexical.offset
    && TargetAt(record.lexicalTarget) ==
         if lexical.target.ArgumentTarget? || lexical.target.LocalTarget? then Some(lexical.target) else None
  }

  /** The variable that a captured argument or local is. */
  function Origin(lexical: Scopes.ProcLexical): Scopes.Meaning {
    Scopes.Slot(lexical.target, lexical.offset, lexical.call)
  }

  /** Its record leads the interpreter to exactly that variable, unless the call of the activation is imported, in
      which case it leads nowhere. */
  lemma RecordLeads(record: LexicalRecord, lexical: Scopes.ProcLexical, idx: Index)
    requires LexicalFound(record, lexical, idx) && Consistent(idx) && Addressable(idx)
    requires lexical.target.ArgumentTarget? || lexical.target.LocalTarget?
    ensures lexical.call in idx.entries
    ensures VariableOf(record, idx) ==
              if idx.entries[lexical.call].DescriptorEntry? then Some(Origin(lexical)) else None
  {
    hide Consistent;
    EntryHolds(idx, lexical.call);
  }

  lemma EntryHolds(idx: Index, url: TypeDefs.Url)
    requires Consistent(idx) && url in idx.entries
    ensures EntryOwned(idx, url)
    ensures idx.entries[url].DescriptorEntry? ==>
              idx.entries[url].index < |idx.symbols| && DefinitionOwned(idx, idx.entries[url].index)
  {
    assert EntryOwned(idx, url);
  }

  /** So it is for all lexicals of a procedure that is built. */
  lemma BuiltLexicalsLead(p: ProcState, idx: Index, order: seq<U32>, i: nat)
    requires Sound(p) && Visits(order, p.stmts) && Assemble(p, idx, order).Ok?
    requires Consistent(idx) && Addressable(idx) && i < |p.lexicals|
    ensures var records := Assemble(p, idx, order).value.lexicals;
            && |records| == |p.lexicals| && p.lexicals[i].call in idx.entries
            && (p.lexicals[i].target.ArgumentTarget? || p.lexicals[i].target.LocalTarget? ==>
                  VariableOf(records[i], idx) ==
                    if idx.entries[p.lexicals[i].call].DescriptorEntry? then Some(Origin(p.lexicals[i])) else None)
  {
    hide Consistent, Addressable, Assemble, TablesFor, LabelsPlaced, BuildLevels, VariableOf, NoRepeats, PassesOver;
    BuiltParts(p, idx, order);
    LexicalsSucceed(p.lexicals, idx);
    var record := Assemble(p, idx, order).value.lexicals[i];
    assert LexicalFound(record, p.lexicals[i], idx);
    if p.lexicals[i].target.ArgumentTarget? || p.lexicals[i].target.LocalTarget? {
      RecordLeads(record, p.lexicals[i], idx);
    }
  }

  /** The code and the tables of a procedure that was built. */
  lemma BuiltParts(p: ProcState, idx: Index, order: seq<U32>)
    requires Sound(p) && Visits(order, p.stmts) && Assemble(p, idx, order).Ok?
    ensures var proc := Assemble(p, idx, order).value;
            && Closed(p)
            && PassesOver(proc.code, p.stmts, p.tables.jumpLabels, idx, order)
            && TablesFor(p.forest, BuildLevels(p.forest), LabelOffsets(p.stmts), idx)
                == Ok(CheckTable(proc.checks, proc.exceptions))
            && LexicalRecords(p.lexicals, idx) == Ok(proc.lexicals)
  {
    hide Emit, ApplyPatches, TablesFor, InBounds, LabelsPlaced, LexicalRecords, BuildLevels, NoRepeats;
  }

  /** The offsets of the fragment's operands, and of the labels its jumps go to, fit into 16 bits. */
  ghost predicate JumpsLow(p: ProcState) {
    OperandsLow(p.stmts) && LabelsLow(p.stmts, p.tables.jumpLabels)
  }

  /** While its operands lie in the first 64 KiB, a procedure is built into code that is what its
      fragment means exactly when the labels that its jumps go to lie there as well. */
  lemma BuiltExactlyWhenLow(p: ProcState, idx: Index, order: seq<U32>)
    requires Sound(p) && Visits(order, p.stmts) && Assemble(p, idx, order).Ok?
    requires DistinctLabels(p.stmts) && DistinctTargets(p.stmts) && OperandsLow(p.stmts)
    ensures Assembled(Assemble(p, idx, order).value.code, p.stmts, p.tables.jumpLabels, idx)
       <==> LabelsLow(p.stmts, p.tables.jumpLabels)
  {
    hide Encode, Assembled, PassesOver, TablesFor, InBounds, LabelsPlaced, DistinctLabels, DistinctTargets, Assemble,
         OperandsLow, LabelsLow;
    BuiltParts(p, idx, order);
    AssembledExactlyWhenLow(Assemble(p, idx, order).value.code, p.stmts, p.tables.jumpLabels, idx, order);
  }

  /** From the fragment to the bytes and back: when a procedure with distinct labels and targets is
      built, what a reader recovers from the bytes runs as the fragment does, for every outcome of
      its tests and every exception, given handlers that correspond; the recovered tables, lexicals
      and counts are those of the procedure. */
  lemma BuiltProcedureRuns(p: ProcState, idx: Index, order: seq<U32>, before: seq<Byte>, after: seq<Byte>,
                           inCode: Handlers, inFragment: Handlers, oracle: seq<Choice>)
    requires Sound(p) && Visits(order, p.stmts) && Assemble(p, idx, order).Ok?
              && HandlersMatch(p.stmts, inCode, inFragment)
    ensures DistinctLabels(p.stmts) && DistinctTargets(p.stmts) && JumpsLow(p)
              && Fits(Assemble(p, idx, order).value) ==>
              var r := ReadProcedure(before + Layout(Assemble(p, idx, order).value) + after, |before|);
              && r == Assemble(p, idx, order)
              && r.value.arity == p.arity && r.value.numLocals == p.numLocals && |r.value.lexicals| == |p.lexicals|
              && (forall i :: 0 <= i < |p.lexicals| ==> LexicalFound(r.value.lexicals[i], p.lexicals[i], idx))
              && SameRuns(r.value.code, p.stmts, p.tables.jumpLabels, idx, inCode, inFragment, 0, oracle)
              && (Consistent(idx) && Addressable(idx) ==>
                    RunDenotes(ByteRun(r.value.code, inCode, 0, oracle),
                               SymbolicRun(p.stmts, p.tables.jumpLabels, inFragment, idx, 0, oracle), p.stmts, idx))
  {
    hide Encode, Assembled, ByteRun, SymbolicRun, Fits, InBounds, LabelsPlaced, TablesFor, ReadProcedure, Layout,
         DistinctLabels, DistinctTargets, OperandsLow, LabelsLow, HandlersMatch;
    var proc := Assemble(p, idx, order).value;
    if DistinctLabels(p.stmts) && DistinctTargets(p.stmts) && JumpsLow(p) && Fits(proc) {
      LayoutRoundTrip(proc, before, after);
      LexicalsSucceed(p.lexicals, idx);
      BuiltExactlyWhenLow(p, idx, order);
      assert Offset(p.stmts, 0) == 0;
      RunsAgree(proc.code, p.stmts, p.tables.jumpLabels, idx, inCode, inFragment, 0, oracle);
      if Consistent(idx) && Addressable(idx) {
        RunsDenote(proc.code, p.stmts, p.tables.jumpLabels, idx, inCode, inFragment, 0, oracle);
      }
    }
  }

  /** Whether a procedure is built does not depend on the order in which its jumps are patched. What
      is built depends on it exactly when patches overlap and write different bytes, which they
      never do while the operands lie in the first 64 KiB. */
  lemma OrderDoesNotMatter(p: ProcState, idx: Index, order: seq<U32>)
    requires Sound(p) && Visits(order, p.stmts)
    ensures forall other :: Visits(other, p.stmts) ==> (Assemble(p, idx, other).Ok? <==> Assemble(p, idx, order).Ok?)
    ensures Assemble(p, idx, order).Ok? ==>
              && AllPatchable(Offset(p.stmts, |p.stmts|), order, PatchOffsets(p.stmts), p.tables.jumpLabels,
                              LabelOffsets(p.stmts))
              && (OperandsLow(p.stmts) ==>
                    PatchesAgree(Offset(p.stmts, |p.stmts|), order, PatchOffsets(p.stmts), p.tables.jumpLabels,
                                 LabelOffsets(p.stmts)))
              && (PatchesAgree(Offset(p.stmts, |p.stmts|), order, PatchOffsets(p.stmts), p.tables.jumpLabels,
                               LabelOffsets(p.stmts))
                  <==> forall other :: Visits(other, p.stmts) ==> Assemble(p, idx, other) == Assemble(p, idx, order))
  {
    hide Encode, Emit, ApplyPatches, PatchesAgree, TablesFor, InBounds, LabelsPlaced, LexicalRecords, LookupsSucceed,
         JumpsReach, OperandsLow, BuildLevels, PatchOffsets, LabelOffsets, NoRepeats;
    forall other | Visits(other, p.stmts)
      ensures Assemble(p, idx, other).Ok? <==> Assemble(p, idx, order).Ok?
      ensures Rearranges(other, order)
    {
      AcceptsExactlyTheClosed(p, idx, order);
      AcceptsExactlyTheClosed(p, idx, other);
    }
    if Assemble(p, idx, order).Ok? {
      var emitted := Emit(p.stmts, idx).value;
      EmitSucceeds(p.stmts, idx);
      PatchesSucceed(emitted, order, PatchOffsets(p.stmts), p.tables.jumpLabels, LabelOffsets(p.stmts));
      if OperandsLow(p.stmts) {
        LowPatchesAgree(|emitted|, p.stmts, order, p.tables.jumpLabels);
      }
      OrderExactly(emitted, order, PatchOffsets(p.stmts), p.tables.jumpLabels, LabelOffsets(p.stmts));
      SameWhenPatchedSame(p, idx, order);
    }
  }

  lemma SameWhenPatchedSame(p: ProcState, idx: Index, order: seq<U32>)
    requires Sound(p) && Visits(order, p.stmts) && Assemble(p, idx, order).Ok?
    requires forall other :: Visits(other, p.stmts) ==> Assemble(p, idx, other).Ok?
    ensures (forall other :: Visits(other, p.stmts) ==> Assemble(p, idx, other) == Assemble(p, idx, order)) <==>
              (forall other :: Rearranges(other, order) ==>
                 ApplyPatches(Emit(p.stmts, idx).value, other, PatchOffsets(p.stmts), p.tables.jumpLabels,
                              LabelOffsets(p.stmts))
                 == ApplyPatches(Emit(p.stmts, idx).value, order, PatchOffsets(p.stmts), p.tables.jumpLabels,
                                 LabelOffsets(p.stmts)))
  {
    hide Encode, Emit, ApplyPatches, TablesFor, InBounds, LabelsPlaced, LexicalRecords, BuildLevels, PatchOffsets,
         LabelOffsets, NoRepeats;
    forall other: seq<U32>
      ensures Rearranges(other, order) <==> Visits(other, p.stmts)
    {
    }
    forall other | Visits(other, p.stmts)
      ensures Assemble(p, idx, other) == Assemble(p, idx, order) <==>
                ApplyPatches(Emit(p.stmts, idx).value, other, PatchOffsets(p.stmts), p.tables.jumpLabels,
                             LabelOffsets(p.stmts))
                == ApplyPatches(Emit(p.stmts, idx).value, order, PatchOffsets(p.stmts), p.tables.jumpLabels,
                                LabelOffsets(p.stmts))
    {
    }
  }

  /** The start label of the catch that an exception entry is for stands in front of an instruction of
      the code. The entry names that instruction exactly when it lies in the first 64 KiB. */
  lemma HandlersAreInstructions(p: ProcState, idx: Index, order: seq<U32>, i: nat, j: nat) returns (l: nat)
    requires Sound(p) && Visits(order, p.stmts) && Assemble(p, idx, order).Ok?
    requires DistinctLabels(p.stmts) && DistinctTargets(p.stmts) && JumpsLow(p)
    requires var proc := Assemble(p, idx, order).value; CountsFit(p.forest, CheckTable(proc.checks, proc.exceptions))
    requires i < |BuildLevels(p.forest)| && j < |p.forest.checks[BuildLevels(p.forest)[i]].catches|
    ensures var proc := Assemble(p, idx, order).value;
            && i < |proc.checks| && proc.checks[i].firstException + j < |proc.exceptions|
            && l < |p.stmts|
            && p.stmts[l] == Label(p.forest.catches[p.forest.checks[BuildLevels(p.forest)[i]].catches[j]].start)
            && Offset(p.stmts, l) < |proc.code| && Fetch(proc.code, Offset(p.stmts, l)).Some?
            && (proc.exceptions[proc.checks[i].firstException + j].catchOffset == Offset(p.stmts, l)
                <==> Offset(p.stmts, l) < 0x1_0000)
  {
    hide Encode, Emit, ApplyPatches, LexicalRecords, TablesFor, DistinctLabels, DistinctTargets, Assembled, BuildLevels,
         CountsFit, Fetch, OperandsLow, LabelsLow;
    var proc := Assemble(p, idx, order).value;
    var catch := p.forest.catches[p.forest.checks[BuildLevels(p.forest)[i]].catches[j]];
    EntryLandsOnLabel(p.forest, p.stmts, BuildLevels(p.forest), idx, CheckTable(proc.checks, proc.exceptions), i, j);
    l := FindLabel(p.stmts, catch.start);
    BuiltExactlyWhenLow(p, idx, order);
    LabelsStartInstructions(proc.code, p.stmts, p.tables.jumpLabels, idx, l);
  }

  // ---------- procedures that are made by a run of edits, splices and checks ----------

  /** The procedure has the fragment, the tables and the checks that a run leaves. */
  ghost predicate MadeBy(p: ProcState, ops: seq<PlaceOp>) {
    && FromNothing(ops)
    && var placing := PlacedBy(ops);
       && |placing.session.fragments| > 0
       && p.stmts == placing.session.fragments[0]
       && p.tables == placing.session.tables
       && p.forest == placing.growing.forest
  }

  /** Every splice of the run landed inside the checks that its own checks were declared in. */
  ghost predicate MadeRight(p: ProcState, ops: seq<PlaceOp>) {
    MadeBy(p, ops) && AllLand(ops)
  }

  /** What a run of edits, splices and checks takes care of: labels and targets are distinct, jump
      targets registered and the forest of checks is one. It is left to the client to place the
      labels of all checks and catches in the procedure's own fragment. */
  lemma MadeIsSound(p: ProcState, ops: seq<PlaceOp>)
    requires MadeBy(p, ops)
    ensures DistinctLabels(p.stmts) && DistinctTargets(p.stmts)
    ensures Nested(p.forest, PlacedBy(ops).growing.parents)
    ensures LabelsPlaced(p.forest, LabelOffsets(p.stmts)) <==> Sound(p)
  {
    hide Labelled, FromNothing, PlacedBy, DistinctLabels, DistinctTargets, Nested, LabelsPlaced,
         BuildLevels, Fragments.Tidy;
    var placing := PlacedBy(ops);
    LabelledFacts(placing);
    Fragments.TidyMain(placing.session);
    NestedFacts(p.forest, placing.growing.parents);
    BuildLevelsSorted(p.forest, placing.growing.parents);
    PatchOffsetsKeys(p.stmts);
    forall i | 0 <= i < |BuildLevels(p.forest)|
      ensures BuildLevels(p.forest)[i] < |p.forest.checks|
    {
      assert BuildLevels(p.forest)[i] in BuildLevels(p.forest);
    }
  }

  /** The intervals of the checks in the procedure's own fragment, by position. */
  lemma MadeIntervals(p: ProcState, ops: seq<PlaceOp>)
    requires MadeBy(p, ops) && p.forest.stack == [] && LabelsPlaced(p.forest, LabelOffsets(p.stmts))
    ensures var placing := PlacedBy(ops);
            && Spans(p.forest, placing.growing.parents, Starts(placing), Ends(placing))
            && PlacedAt(p.forest, p.stmts, Starts(placing), Ends(placing))
            && (WellNested(placing.growing.parents, Starts(placing), Ends(placing)) <==> AllLand(ops))
            && (AllLand(ops) && ChecksLow(p.stmts, p.forest) ==>
                  WellNested(placing.growing.parents, StartOffsets(p.stmts, p.forest), EndOffsets(p.stmts, p.forest)))
  {
    hide Labelled, FromNothing, PlacedBy, AllLand, DistinctLabels, Nested, WellNested, ChecksLow,
         InBounds;
    var placing := PlacedBy(ops);
    LabelledFacts(placing);
    LabelOffsetsKeys(p.stmts);
    assert AllInMain(placing);
    MainNested(placing);
    RunNestedExactly(ops);
    if AllLand(ops) {
      EmittedIntervalsNested(ops);
    }
  }

  /** What is asked of the labels and counts of a procedure so that 16-bit fields can hold them. */
  ghost predicate HandlersLow(p: ProcState, proc: Procedure) {
    && ChecksLow(p.stmts, p.forest)
    && CatchesLow(p.stmts, p.forest)
    && CountsFit(p.forest, CheckTable(proc.checks, proc.exceptions))
  }

  lemma MadeIsBuilt(p: ProcState, ops: seq<PlaceOp>, idx: Index, order: seq<U32>)
    requires MadeRight(p, ops) && LabelsPlaced(p.forest, LabelOffsets(p.stmts))
              && Visits(order, p.stmts)
    requires Sound(p) && Assemble(p, idx, order).Ok?
    requires var proc := Assemble(p, idx, order).value;
             ChecksLow(p.stmts, p.forest) && CountsFit(p.forest, CheckTable(proc.checks, proc.exceptions))
    ensures var proc := Assemble(p, idx, order).value;
            Built(p.forest, PlacedBy(ops).growing.parents, p.stmts, idx, CheckTable(proc.checks, proc.exceptions))
  {
    hide Assemble, TablesFor, LabelsPlaced, Nested, WellNested, DistinctLabels, DistinctTargets, PassesOver,
         BuildLevels, ChecksLow, CountsFit, AllLand, FromNothing, PlacedBy;
    BuiltParts(p, idx, order);
    MadeIsSound(p, ops);
    MadeIntervals(p, ops);
  }

  /** However a procedure is put together from edits, splices and checks, and built: an exception raised
      at any of its instructions goes to the innermost check around it that can catch it. */
  lemma BuiltHandlersInnermost(p: ProcState, ops: seq<PlaceOp>, idx: Index, order: seq<U32>,
                               matches: U32 -> bool, at: U32, i: nat, j: nat)
    requires MadeRight(p, ops) && LabelsPlaced(p.forest, LabelOffsets(p.stmts))
              && Visits(order, p.stmts)
    ensures Sound(p)
    ensures Assemble(p, idx, order).Ok? && HandlersLow(p, Assemble(p, idx, order).value) ==>
              var proc := Assemble(p, idx, order).value;
              var parents := PlacedBy(ops).growing.parents;
              && SlicesInside(proc.checks, proc.exceptions)
              && (FirstMatch(CheckTable(proc.checks, proc.exceptions), at, matches, i, j) ==>
                    && i < |BuildLevels(p.forest)|
                    && Ordered(parents) && |parents| == |p.forest.checks|
                    && j < |p.forest.checks[BuildLevels(p.forest)[i]].catches|
                    && CaughtInnermost(p.forest, parents, StartOffsets(p.stmts, p.forest),
                                       EndOffsets(p.stmts, p.forest),
                                       idx, at, matches, BuildLevels(p.forest)[i], j))
  {
    hide Assemble, LabelsPlaced, Nested, WellNested, FirstMatch, CaughtInnermost, SlicesInside, DistinctLabels,
         DistinctTargets, BuildLevels, AllLand, FromNothing, PlacedBy, Built;
    MadeIsSound(p, ops);
    if Assemble(p, idx, order).Ok? && HandlersLow(p, Assemble(p, idx, order).value) {
      var proc := Assemble(p, idx, order).value;
      var parents := PlacedBy(ops).growing.parents;
      var table := CheckTable(proc.checks, proc.exceptions);
      MadeIsBuilt(p, ops, idx, order);
      BuiltMeans(p.forest, parents, p.stmts, idx, table, matches, at);
      if FirstMatch(table, at, matches, i, j) {
        FirstMatchIsInnermost(p.forest, parents, p.stmts, idx, table, matches, at, i, j);
      }
    }
  }

  /** What such a procedure means: its fragment, with its handlers. */
  ghost function HandlersOf(p: ProcState, ops: seq<PlaceOp>): Handlers
    requires MadeBy(p, ops)
    requires Spans(p.forest, PlacedBy(ops).growing.parents, Starts(PlacedBy(ops)), Ends(PlacedBy(ops)))
  {
    var placing := PlacedBy(ops);
    FragmentHandlers(p.forest, placing.growing.parents, placing.growing.owners, Starts(placing), Ends(placing), p.stmts)
  }

  lemma MadeHandlersMatch(p: ProcState, ops: seq<PlaceOp>, idx: Index, order: seq<U32>)
    requires MadeRight(p, ops) && LabelsPlaced(p.forest, LabelOffsets(p.stmts))
              && Visits(order, p.stmts)
    requires Sound(p) && Assemble(p, idx, order).Ok? && HandlersLow(p, Assemble(p, idx, order).value)
    requires Consistent(idx) && Addressable(idx)
    ensures var proc := Assemble(p, idx, order).value;
            var placing := PlacedBy(ops);
            && SlicesInside(proc.checks, proc.exceptions)
            && Spans(p.forest, placing.growing.parents, Starts(placing), Ends(placing))
            && HandlersMatch(p.stmts, TableHandlers(CheckTable(proc.checks, proc.exceptions), idx), HandlersOf(p, ops))
  {
    hide Assemble, LabelsPlaced, Nested, WellNested, SlicesInside, DistinctLabels, DistinctTargets, BuildLevels,
         AllLand, FromNothing, PlacedBy, Built, Consistent, Addressable, HandlersMatch, Spans, PlacedAt, ChecksLow,
         CatchesLow, CountsFit;
    var proc := Assemble(p, idx, order).value;
    var placing := PlacedBy(ops);
    var table := CheckTable(proc.checks, proc.exceptions);
    ClosedWhenBuilt(p, idx, order);
    MadeIsSound(p, ops);
    MadeIntervals(p, ops);
    MadeIsBuilt(p, ops, idx, order);
    BuiltMeans(p.forest, placing.growing.parents, p.stmts, idx, table, (_) => true, 0);
    TablesHandleAsFragment(p.forest, placing.growing.parents, placing.growing.owners, p.stmts, Starts(placing),
                           Ends(placing), idx, table);
  }

  lemma ClosedWhenBuilt(p: ProcState, idx: Index, order: seq<U32>)
    requires Sound(p) && Visits(order, p.stmts) && Assemble(p, idx, order).Ok?
    ensures p.forest.stack == [] && p.stmts != [] && IsTerminator(p.stmts[|p.stmts| - 1])
  {
  }

  /** The whole way: however a procedure is put together from edits, splices and checks, when it is
      built, the code and the tables that a reader recovers from the bytes run as the fragment
      with its checks does, for every outcome of its tests and every exception it raises. An
      exception is caught by the innermost check around it that has a catch for it, and stored in
      the slot of that check. */
  lemma EditedProcedureRuns(p: ProcState, ops: seq<PlaceOp>, idx: Index, order: seq<U32>, before: seq<Byte>,
                            after: seq<Byte>, oracle: seq<Choice>)
    requires MadeRight(p, ops) && LabelsPlaced(p.forest, LabelOffsets(p.stmts))
              && Visits(order, p.stmts)
    requires Consistent(idx) && Addressable(idx)
    ensures Sound(p)
    ensures Assemble(p, idx, order).Ok? && JumpsLow(p) && HandlersLow(p, Assemble(p, idx, order).value)
            && Fits(Assemble(p, idx, order).value) ==>
              var r := ReadProcedure(before + Layout(Assemble(p, idx, order).value) + after, |before|);
              var placing := PlacedBy(ops);
              && r.Ok? && SlicesInside(r.value.checks, r.value.exceptions)
              && Spans(p.forest, placing.growing.parents, Starts(placing), Ends(placing))
              && SameRuns(r.value.code, p.stmts, p.tables.jumpLabels, idx,
                          TableHandlers(CheckTable(r.value.checks, r.value.exceptions), idx), HandlersOf(p, ops), 0,
                          oracle)
              && RunDenotes(ByteRun(r.value.code, TableHandlers(CheckTable(r.value.checks, r.value.exceptions), idx), 0,
                                    oracle),
                            SymbolicRun(p.stmts, p.tables.jumpLabels, HandlersOf(p, ops), idx, 0, oracle), p.stmts,
                            idx)
  {
    hide Assemble, LabelsPlaced, SlicesInside, DistinctLabels, DistinctTargets, AllLand,
         FromNothing, PlacedBy, JumpsLow,
         HandlersLow, Consistent, Addressable, HandlersMatch, Spans, SameRuns, Fits, ReadProcedure, Layout, NoRepeats;
    MadeIsSound(p, ops);
    if Assemble(p, idx, order).Ok? && JumpsLow(p) && HandlersLow(p, Assemble(p, idx, order).value)
        && Fits(Assemble(p, idx, order).value) {
      var proc := Assemble(p, idx, order).value;
      MadeHandlersMatch(p, ops, idx, order);
      BuiltProcedureRuns(p, idx, order, before, after, TableHandlers(CheckTable(proc.checks, proc.exceptions), idx),
                         HandlersOf(p, ops), oracle);
    }
  }
}
