/** Where the assembler stops meaning what the fragment says: code that outgrows 16-bit offsets,
    and fragments that are spliced twice. */
module Limits {
  import opened Assembly
  import opened BigEndian
  import opened Bytecode
  import opened CheckForest
  import CheckTables
  import opened Emission
  import opened Fragments
  import opened Instructions
  import opened JumpTables
  import opened SymbolIndex
  import opened Wrappers

  // ---------- jumps that are not patched ----------

  /** A patch covers one of the bytes of the statement. */
  ghost predicate PatchTouches(stmts: seq<Instruction>, i: nat, t: U32)
    requires i < |stmts| && t in PatchOffsets(stmts)
  {
    exists k: nat :: Offset(stmts, i) <= k < Offset(stmts, i) + Size(stmts[i]) && PatchCovers(PatchOffsets(stmts)[t], k)
  }

  /** The bytes of a transfer decide whether it goes to its label. */
  lemma TransferBytes(code: seq<Byte>, stmts: seq<Instruction>, jumps: JumpLabels, idx: Index, order: seq<U32>, i: nat,
                      l: nat)
    requires PassesOver(code, stmts, jumps, idx, order)
    requires DistinctLabels(stmts) && i < |stmts| && IsTransfer(stmts[i]) && GoesTo(stmts, jumps, stmts[i].target, l)
    ensures var emitted := Emit(stmts, idx).value;
            var at := Offset(stmts, i);
            && at + 3 <= |code| == |emitted|
            && emitted[at + 1] == emitted[at + 2] == 0
            && (TransferAt(code, stmts, jumps, idx, i) <==>
                  code[at] == emitted[at] && ReadI16([code[at + 1], code[at + 2]]) == Offset(stmts, l) - (at + 3))
  {
    hide Encode, ApplyPatches, Emit, ReadI16, Offset, PatchOffsets, LabelOffsets;
    var emitted := Emit(stmts, idx).value;
    var at := Offset(stmts, i);
    EmitAt(stmts, idx, i);
    EncodedShape(stmts[i], idx);
    PatchesSucceed(emitted, order, PatchOffsets(stmts), jumps, LabelOffsets(stmts));
    var bytes := emitted[at..at + 3];
    assert bytes[0] == emitted[at] && bytes[1] == emitted[at + 1] && bytes[2] == emitted[at + 2];
    assert code[at + 1..at + 3] == [code[at + 1], code[at + 2]];
    forall k | GoesTo(stmts, jumps, stmts[i].target, k)
      ensures k == l
    {
    }
  }

  /** A jump that the patches miss keeps the distance it was emitted with: it leads to the
      instruction after it, so it is right exactly when its label is there. */
  lemma UnpatchedFallsThrough(code: seq<Byte>, stmts: seq<Instruction>, jumps: JumpLabels, idx: Index, order: seq<U32>,
                              i: nat, l: nat)
    requires PassesOver(code, stmts, jumps, idx, order)
    requires DistinctLabels(stmts) && i < |stmts| && IsTransfer(stmts[i]) && GoesTo(stmts, jumps, stmts[i].target, l)
    requires forall t :: t in order ==> !PatchTouches(stmts, i, t)
    ensures TransferAt(code, stmts, jumps, idx, i) <==> Offset(stmts, l) == Offset(stmts, i) + 3
  {
    hide Encode, ApplyPatches, Emit, Offset, PatchOffsets, LabelOffsets, TransferAt, PatchCovers, DistinctLabels,
         PatchedByte;
    var emitted := Emit(stmts, idx).value;
    var at := Offset(stmts, i);
    TransferBytes(code, stmts, jumps, idx, order, i, l);
    forall k: nat | at <= k < at + 3
      ensures code[k] == emitted[k]
    {
      forall t | t in order
        ensures !PatchCovers(PatchOffsets(stmts)[t], k)
      {
      }
      PatchesDecide(emitted, order, PatchOffsets(stmts), jumps, LabelOffsets(stmts), k);
      PatchesMiss(emitted, order, PatchOffsets(stmts), jumps, LabelOffsets(stmts), k);
    }
  }

  /** When a target occurs twice, as it does when a fragment with a jump is spliced twice, only its
      last jump is patched. */
  lemma CopiedJumpLost(code: seq<Byte>, stmts: seq<Instruction>, jumps: JumpLabels, idx: Index, order: seq<U32>,
                       i: nat, j: nat, l: nat)
    requires PassesOver(code, stmts, jumps, idx, order) && DistinctLabels(stmts) && OperandsLow(stmts)
    requires i < j < |stmts| && IsTransfer(stmts[i]) && IsTransfer(stmts[j]) && stmts[i].target == stmts[j].target
    requires GoesTo(stmts, jumps, stmts[i].target, l)
    ensures TransferAt(code, stmts, jumps, idx, i) <==> Offset(stmts, l) == Offset(stmts, i) + 3
  {
    hide Encode, PassesOver, TransferAt, DistinctLabels, PatchOffsets, Offset;
    forall t | t in PatchOffsets(stmts)
      ensures !PatchTouches(stmts, i, t)
    {
      var k := PatchOffsetIsLast(stmts, t);
      if k < i {
        OffsetMonotone(stmts, k, i);
      } else if i < k {
        OffsetMonotone(stmts, i, k);
      }
    }
    assert forall t :: t in order ==> t in PatchOffsets(stmts) by { PassVisits(code, stmts, jumps, idx, order); }
    UnpatchedFallsThrough(code, stmts, jumps, idx, order, i, l);
  }

  lemma PassVisits(code: seq<Byte>, stmts: seq<Instruction>, jumps: JumpLabels, idx: Index, order: seq<U32>)
    requires PassesOver(code, stmts, jumps, idx, order)
    ensures forall t :: t in order <==> t in PatchOffsets(stmts)
  {
  }

  // ---------- fragments that are spliced twice ----------

  /** A fragment may be spliced twice exactly when there is no label and no jump in it. */
  lemma SplicedTwice(stmts: seq<Instruction>, fragment: seq<Instruction>, at: int, again: int)
    requires Once(NamesIn(stmts))
    ensures Once(NamesIn(InsertAt(InsertAt(stmts, at, fragment), again, fragment))) <==> NamesIn(fragment) == multiset{}
  {
    hide NamesIn;
    NamesInsert(stmts, at, fragment);
    NamesInsert(InsertAt(stmts, at, fragment), again, fragment);
    var all := NamesIn(InsertAt(InsertAt(stmts, at, fragment), again, fragment));
    if NamesIn(fragment) == multiset{} {
      assert all == NamesIn(stmts);
    } else {
      var x :| x in NamesIn(fragment);
      assert all[x] >= 2;
    }
  }

  /** Of a jump that is spliced twice, the first copy falls through. */
  lemma SplicedJumpLost(stmts: seq<Instruction>, fragment: seq<Instruction>, at: int, again: int, q: nat,
                        code: seq<Byte>, jumps: JumpLabels, idx: Index, order: seq<U32>, l: nat)
      returns (i: nat)
    requires q < |fragment| && IsTransfer(fragment[q])
    requires var all := InsertAt(InsertAt(stmts, at, fragment), again, fragment);
             && PassesOver(code, all, jumps, idx, order) && DistinctLabels(all) && OperandsLow(all)
             && GoesTo(all, jumps, fragment[q].target, l)
    ensures var all := InsertAt(InsertAt(stmts, at, fragment), again, fragment);
            && i < |all| && all[i] == fragment[q]
            && (TransferAt(code, all, jumps, idx, i) <==> Offset(all, l) == Offset(all, i) + 3)
  {
    hide PassesOver, DistinctLabels, OperandsLow, TransferAt, Offset;
    var once := InsertAt(stmts, at, fragment);
    var all := InsertAt(once, again, fragment);
    var spot := if 0 <= at < |stmts| then at else |stmts|;
    var second := if 0 <= again < |once| then again else |once|;
    assert once[spot + q] == fragment[q];
    var moved := if second <= spot + q then spot + q + |fragment| else spot + q;
    assert all[moved] == fragment[q] && all[second + q] == fragment[q];
    i := if moved < second + q then moved else second + q;
    CopiedJumpLost(code, all, jumps, idx, order, i, if moved < second + q then second + q else moved, l);
  }

  const COPIED_JUMP := [Jump(0)]

  /** A jump over one instruction, spliced twice. */
  function CopiedJump(): ProcState {
    ProcState(0, 0, [], InsertAt(InsertAt([], 0, COPIED_JUMP), 0, COPIED_JUMP) + [Noop, Label("end"), Return],
              ServeAll([ForJump, ForLabel("end"), ForPatch(0, "end")]), 0, NO_CHECKS)
  }

  const COPIED := [Jump(0), Jump(0), Noop, Label("end"), Return]

  lemma CopiedJumpState()
    ensures CopiedJump().stmts == COPIED
    ensures CopiedJump().tables.jumpLabels == map[0 := "end"]
  {
    var requests := [ForJump, ForLabel("end"), ForPatch(0, "end")];
    assert requests[..2] == [ForJump, ForLabel("end")] && [ForJump, ForLabel("end")][..1] == [ForJump];
    assert [ForJump][..0] == [];
    assert ServeAll([ForJump]) == Serve(NO_TABLES, ForJump);
    assert ServeAll(requests[..2]) == Serve(ServeAll([ForJump]), ForLabel("end"));
  }

  lemma PatchOffsetsOneMore(stmts: seq<Instruction>, i: nat)
    requires i < |stmts|
    ensures var offsets := PatchOffsets(stmts[..i]);
            PatchOffsets(stmts[..i + 1]) ==
              if IsTransfer(stmts[i]) then offsets[stmts[i].target := ToU16(Offset(stmts, i) + 1)] else offsets
  {
    hide Encode, Offset;
    assert stmts[..i + 1][..i] == stmts[..i];
    OffsetPrefix(stmts, i + 1, i);
  }

  lemma CopiedJumpPatches()
    ensures PatchOffsets(COPIED) == map[0 := 4]
  {
    assert PatchOffsets([]) == map[];
    hide PatchOffsets, Encode, Offset, LabelOffsets;
    CopiedJumpLabels();
    assert COPIED[..0] == [];
    PatchOffsetsOneMore(COPIED, 0);
    PatchOffsetsOneMore(COPIED, 1);
    PatchOffsetsOneMore(COPIED, 2);
    PatchOffsetsOneMore(COPIED, 3);
    PatchOffsetsOneMore(COPIED, 4);
    assert COPIED[..5] == COPIED;
  }

  lemma CopiedJumpLabels()
    ensures LabelOffsets(COPIED) == map["end" := 7]
    ensures Offset(COPIED, 0) == 0 && Offset(COPIED, 1) == 3 && Offset(COPIED, 3) == 7 && Offset(COPIED, 5) == 8
  {
    hide Encode, LabelOffsets;
    assert Offset(COPIED, 1) == 3 && Offset(COPIED, 2) == 6 && Offset(COPIED, 3) == 7 && Offset(COPIED, 4) == 7;
    LabelOffsetAt(COPIED, 3);
    LabelOffsetsKeys(COPIED);
    assert forall name :: HasLabel(COPIED, name) <==> name == "end";
  }

  lemma EmitOneMore(stmts: seq<Instruction>, ins: Instruction, idx: Index, code: seq<Byte>, bytes: seq<Byte>)
    requires Emit(stmts, idx) == Ok(code) && Encode(ins, idx) == Ok(bytes)
    ensures Emit(stmts + [ins], idx) == Ok(code + bytes)
  {
    hide Encode;
    assert (stmts + [ins])[..|stmts|] == stmts;
  }

  lemma CopiedJumpEmits(idx: Index)
    ensures Emit(COPIED, idx) == Ok([OP_JUMP, 0, 0, OP_JUMP, 0, 0, OP_NOOP, OP_RETURN])
  {
    EncodesEasily(idx);
    assert Emit([], idx) == Ok([]);
    hide Encode, Emit;
    EmitOneMore([], Jump(0), idx, [], [OP_JUMP, 0, 0]);
    assert [] + [Jump(0)] == COPIED[..1] && [] + [OP_JUMP, 0, 0] == [OP_JUMP, 0, 0];
    EmitOneMore(COPIED[..1], Jump(0), idx, [OP_JUMP, 0, 0], [OP_JUMP, 0, 0]);
    assert COPIED[..1] + [Jump(0)] == COPIED[..2];
    EmitOneMore(COPIED[..2], Noop, idx, [OP_JUMP, 0, 0] + [OP_JUMP, 0, 0], [OP_NOOP]);
    assert COPIED[..2] + [Noop] == COPIED[..3];
    EmitOneMore(COPIED[..3], Label("end"), idx, [OP_JUMP, 0, 0] + [OP_JUMP, 0, 0] + [OP_NOOP], []);
    assert COPIED[..3] + [Label("end")] == COPIED[..4];
    EmitOneMore(COPIED[..4], Return, idx, [OP_JUMP, 0, 0] + [OP_JUMP, 0, 0] + [OP_NOOP] + [], [OP_RETURN]);
    assert COPIED[..4] + [Return] == COPIED;
    assert [OP_JUMP, 0, 0] + [OP_JUMP, 0, 0] + [OP_NOOP] + [] + [OP_RETURN]
        == [OP_JUMP, 0, 0, OP_JUMP, 0, 0, OP_NOOP, OP_RETURN];
  }

  lemma EncodesEasily(idx: Index)
    ensures Encode(Jump(0), idx) == Ok([OP_JUMP, 0, 0]) && Encode(Noop, idx) == Ok([OP_NOOP])
    ensures Encode(Return, idx) == Ok([OP_RETURN]) && Encode(Label("end"), idx) == Ok([])
  {
  }

  /** The parts of a procedure without checks and lexicals that building looks at. */
  lemma NoChecksReady(p: ProcState, idx: Index, order: seq<U32>)
    requires p.forest == NO_CHECKS && p.lexicals == [] && p.openLoops == 0
    requires forall t :: t in PatchOffsets(p.stmts) ==> t in p.tables.jumpLabels
    ensures Assembly.Sound(p)
    ensures Visits(order, p.stmts) && Closed(p)
              && (exists code :: PassesOver(code, p.stmts, p.tables.jumpLabels, idx, order)) ==>
              Assemble(p, idx, order).Ok?
    ensures Visits(order, p.stmts) && Assemble(p, idx, order).Ok? ==>
              var proc := Assemble(p, idx, order).value;
              && PassesOver(proc.code, p.stmts, p.tables.jumpLabels, idx, order)
              && proc == ProcLayout.Procedure(p.arity, p.numLocals, [], proc.code, [], [])
  {
    hide Encode, Emit, ApplyPatches, PatchOffsets, NoRepeats;
    assert BuildLevels(p.forest) == [];
    assert CheckTables.LabelsPlaced(p.forest, LabelOffsets(p.stmts));
  }

  /** Building accepts it, but the first of the two jumps leads to the second. */
  lemma CopiedJumpAccepted(idx: Index)
    ensures var p := CopiedJump();
            && Assembly.Sound(p) && Visits([0], p.stmts)
            && Assemble(p, idx, [0]).Ok?
            && Assemble(p, idx, [0]).value.code == [OP_JUMP, 0, 0, OP_JUMP, 0, 1, OP_NOOP, OP_RETURN]
            && !Assembled(Assemble(p, idx, [0]).value.code, p.stmts, p.tables.jumpLabels, idx)
  {
    hide Encode, Emit, ApplyPatches, PatchOffsets, LabelOffsets, Offset, TransferAt, CopiedJump, Patched, Assemble;
    var p := CopiedJump();
    CopiedJumpState();
    CopiedJumpPatches();
    CopiedJumpLabels();
    CopiedJumpEmits(idx);
    var code := [OP_JUMP, 0, 0, OP_JUMP, 0, 1, OP_NOOP, OP_RETURN];
    CopiedJumpPatched();
    OneTarget([OP_JUMP, 0, 0, OP_JUMP, 0, 0, OP_NOOP, OP_RETURN], 0, PatchOffsets(p.stmts), p.tables.jumpLabels,
              LabelOffsets(p.stmts));
    CopiedJumpShape();
    NoChecksReady(p, idx, [0]);
    assert PassesOver(code, p.stmts, p.tables.jumpLabels, idx, [0]);
    assert Assemble(p, idx, [0]).value.code == code;
    assert GoesTo(p.stmts, p.tables.jumpLabels, 0, 3);
    CopiedJumpLost(code, p.stmts, p.tables.jumpLabels, idx, [0], 0, 1, 3);
  }

  lemma CopiedJumpPatched()
    ensures Patched([OP_JUMP, 0, 0, OP_JUMP, 0, 0, OP_NOOP, OP_RETURN], 4, 7)
         == [OP_JUMP, 0, 0, OP_JUMP, 0, 1, OP_NOOP, OP_RETURN]
  {
  }

  lemma CopiedJumpShape()
    ensures var p := CopiedJump();
            && p.forest == NO_CHECKS && p.lexicals == [] && p.openLoops == 0 && Closed(p)
            && DistinctLabels(p.stmts) && OperandsLow(p.stmts)
  {
    CopiedJumpState();
    CopiedJumpLabels();
    CopiedJumpDistinct();
    hide Offset, ServeAll, DistinctLabels;
  }

  /** A patch pass with one target. */
  lemma OneTarget(code: seq<Byte>, t: U32, patches: map<U32, U16>, jumps: JumpLabels, labels: map<string, U16>)
    requires t in patches && t in jumps && jumps[t] in labels && CanPatch(|code|, patches[t], labels[jumps[t]])
    ensures ApplyPatches(code, [t], patches, jumps, labels) == Ok(Patched(code, patches[t], labels[jumps[t]]))
  {
    hide CanPatch, Patched;
    assert [t][..0] == [];
    assert ApplyPatches(code, [], patches, jumps, labels) == Ok(code);
  }

  lemma CopiedJumpDistinct()
    ensures DistinctLabels(COPIED)
  {
  }

  // ---------- operands beyond the first 64 KiB ----------

  /** A jump whose operand lies beyond the first 64 KiB is not patched, because the 16-bit patch offset
      says some place before it. The last byte of its operand stays zero; the two bytes before that
      are at 0xFFFF or 0x1_0000 at the earliest, and other patches reach no further than 0x1_0000.
      Beyond that the jump falls through. */
  lemma FarJumpFallsThrough(code: seq<Byte>, stmts: seq<Instruction>, jumps: JumpLabels, idx: Index, order: seq<U32>,
                            i: nat, l: nat)
    requires PassesOver(code, stmts, jumps, idx, order)
    requires DistinctLabels(stmts) && i < |stmts| && IsTransfer(stmts[i]) && GoesTo(stmts, jumps, stmts[i].target, l)
    requires Offset(stmts, i) + 1 >= 0x1_0000
    ensures var emitted := Emit(stmts, idx).value;
            var at := Offset(stmts, i);
            && at + 3 <= |emitted|
            && AllPatchable(|emitted|, order, PatchOffsets(stmts), jumps, LabelOffsets(stmts))
            && var opcode := PatchedByte(emitted, order, PatchOffsets(stmts), jumps, LabelOffsets(stmts), at);
               var high := PatchedByte(emitted, order, PatchOffsets(stmts), jumps, LabelOffsets(stmts), at + 1);
               && (TransferAt(code, stmts, jumps, idx, i) <==>
                     opcode == emitted[at] && ReadI16([high, 0]) == Offset(stmts, l) - (at + 3))
               && (at > 0x1_0000 ==> opcode == emitted[at] && high == 0)
    ensures (forall t :: t in order ==> PatchOffsets(stmts)[t] + 2 <= Offset(stmts, i)) ==>
              (TransferAt(code, stmts, jumps, idx, i) <==> Offset(stmts, l) == Offset(stmts, i) + 3)
    ensures Offset(stmts, i) > 0x1_0000 ==>
              (TransferAt(code, stmts, jumps, idx, i) <==> Offset(stmts, l) == Offset(stmts, i) + 3)
  {
    hide Encode, ApplyPatches, Emit, Offset, PatchOffsets, LabelOffsets, TransferAt, DistinctLabels, PatchedByte,
         CanPatch;
    var emitted := Emit(stmts, idx).value;
    var at := Offset(stmts, i);
    TransferBytes(code, stmts, jumps, idx, order, i, l);
    forall k: nat | at <= k < at + 3
      ensures AllPatchable(|emitted|, order, PatchOffsets(stmts), jumps, LabelOffsets(stmts))
      ensures code[k] == PatchedByte(emitted, order, PatchOffsets(stmts), jumps, LabelOffsets(stmts), k)
      ensures (forall t :: t in order ==> !PatchCovers(PatchOffsets(stmts)[t], k)) ==> code[k] == emitted[k]
    {
      PatchesDecide(emitted, order, PatchOffsets(stmts), jumps, LabelOffsets(stmts), k);
      if forall t :: t in order ==> !PatchCovers(PatchOffsets(stmts)[t], k) {
        PatchesMiss(emitted, order, PatchOffsets(stmts), jumps, LabelOffsets(stmts), k);
      }
    }
  }

  /** Instead the patch goes 64 KiB further up, or a multiple of that. Unless a later patch covers the same byte,
      it overwrites what it finds there with a byte of a distance between two truncated offsets, and
      then the code is not what the fragment means unless that byte was there before. */
  lemma WrappedPatchOverwrites(code: seq<Byte>, stmts: seq<Instruction>, jumps: JumpLabels, idx: Index,
                               before: seq<U32>, after: seq<U32>, i: nat, l: nat, k: nat)
    requires i < |stmts| && IsTransfer(stmts[i]) && GoesTo(stmts, jumps, stmts[i].target, l)
    requires PassesOver(code, stmts, jumps, idx, before + [stmts[i].target] + after)
    requires DistinctLabels(stmts) && DistinctTargets(stmts) && Offset(stmts, i) + 1 >= 0x1_0000
    requires PatchCovers(ToU16(Offset(stmts, i) + 1), k)
    requires forall t :: t in after && t in PatchOffsets(stmts) ==> !PatchCovers(PatchOffsets(stmts)[t], k)
    ensures var emitted := Emit(stmts, idx).value;
            var distance := Distance(ToU16(Offset(stmts, i) + 1), ToU16(Offset(stmts, l)));
            && k < |code| == |emitted| && -0x8000 <= distance < 0x8000
            && code[k] == I16Bytes(distance)[k - ToU16(Offset(stmts, i) + 1)]
            && (forall j :: 0 <= j < |stmts| && !IsTransfer(stmts[j])
                            && Offset(stmts, j) <= k < Offset(stmts, j) + Size(stmts[j]) ==>
                  (code[k] != emitted[k] ==> !Assembled(code, stmts, jumps, idx)))
  {
    hide Encode, ApplyPatches, Emit, Offset, PatchOffsets, LabelOffsets, DistinctLabels, DistinctTargets, NoRepeats,
         I16Bytes, Size;
    var emitted, patches, labels := Emit(stmts, idx).value, PatchOffsets(stmts), LabelOffsets(stmts);
    var t := stmts[i].target;
    var order := before + [t] + after;
    assert t in order;
    PatchesSucceed(emitted, order, patches, jumps, labels);
    PatchOffsetAt(stmts, i);
    LabelOffsetAt(stmts, l);
    PatchesDecide(emitted, order, patches, jumps, labels, k);
    LastCovering(emitted, before, t, after, patches, jumps, labels, k);
    forall j | 0 <= j < |stmts| && !IsTransfer(stmts[j]) && Offset(stmts, j) <= k < Offset(stmts, j) + Size(stmts[j])
      ensures PlainAt(code, stmts, idx, j) ==> code[k] == emitted[k]
    {
      EmitAt(stmts, idx, j);
      var at := Offset(stmts, j);
      if PlainAt(code, stmts, idx, j) {
        assert code[at..at + Size(stmts[j])][k - at] == emitted[at..at + Size(stmts[j])][k - at];
      }
    }
  }

  lemma {:induction false} LastCovering(code: seq<Byte>, before: seq<U32>, t: U32, after: seq<U32>,
                                        patches: map<U32, U16>, jumps: JumpLabels, labels: map<string, U16>, k: nat)
    requires AllPatchable(|code|, before + [t] + after, patches, jumps, labels) && k < |code|
    requires t in patches && PatchCovers(patches[t], k)
    requires forall u :: u in after && u in patches ==> !PatchCovers(patches[u], k)
    ensures t in before + [t] + after
    ensures PatchedByte(code, before + [t] + after, patches, jumps, labels, k)
              == WrittenAt(t, patches, jumps, labels, k)
    decreases |after|
  {
    hide WrittenAt, CanPatch;
    var order := before + [t] + after;
    assert order[|before|] == t;
    if after != [] {
      var n := |after| - 1;
      assert order[|order| - 1] == after[n] && after[n] in after && after[n] in order;
      assert order[..|order| - 1] == before + [t] + after[..n];
      LastCovering(code, before, t, after[..n], patches, jumps, labels, k);
    }
  }

  // ---------- long code ----------

  /** A fragment with `n` idle instructions in front of its last one. */
  function Padded(head: seq<Instruction>, n: nat, last: Instruction): (r: seq<Instruction>)
    ensures |r| == |head| + n + 1 && r[|r| - 1] == last
    ensures forall i :: 0 <= i < |head| ==> r[i] == head[i]
    ensures forall i :: |head| <= i < |head| + n ==> r[i] == Noop
  {
    head + seq(n, _ => Noop) + [last]
  }

  lemma {:induction false} PaddingAddsNothing(head: seq<Instruction>, n: nat)
    ensures var stmts := head + seq(n, _ => Noop);
            && PatchOffsets(stmts) == PatchOffsets(head)
            && LabelOffsets(stmts) == LabelOffsets(head)
            && Offset(stmts, |stmts|) == Offset(head, |head|) + n
  {
    var stmts := head + seq(n, _ => Noop);
    if n == 0 {
      assert stmts == head;
    } else {
      PaddingAddsNothing(head, n - 1);
      assert stmts[..|stmts| - 1] == head + seq(n - 1, _ => Noop);
      OffsetPrefix(stmts, |stmts| - 1, |stmts| - 1);
    }
  }

  lemma PaddedTables(head: seq<Instruction>, n: nat, t: U32)
    ensures var stmts := Padded(head, n, Jump(t));
            && Offset(stmts, |head| + n) == Offset(head, |head|) + n
            && Offset(stmts, |stmts|) == Offset(head, |head|) + n + 3
            && PatchOffsets(stmts) == PatchOffsets(head)[t := ToU16(Offset(head, |head|) + n + 1)]
            && LabelOffsets(stmts) == LabelOffsets(head)
  {
    var stmts := Padded(head, n, Jump(t));
    var m := |head| + n;
    assert stmts[..m] == head + seq(n, _ => Noop);
    PaddingAddsNothing(head, n);
    OffsetPrefix(stmts, m, m);
  }

  function PaddedState(head: seq<Instruction>, n: nat, last: Instruction, tables: Tables): ProcState {
    ProcState(0, 0, [], Padded(head, n, last), tables, 0, NO_CHECKS)
  }

  /** Such a procedure can be emitted when its head consists of labels and jumps. */
  lemma PaddedEmits(head: seq<Instruction>, n: nat, t: U32, idx: Index)
    requires forall i :: 0 <= i < |head| ==> head[i].Label? || head[i].Jump?
    ensures Emit(Padded(head, n, Jump(t)), idx).Ok?
  {
    hide Padded;
    var stmts := Padded(head, n, Jump(t));
    EmitSucceeds(stmts, idx);
    forall i | 0 <= i < |stmts|
      ensures Encode(stmts[i], idx).Ok?
    {
    }
  }

  /** It is built when its jumps can be patched. */
  lemma PaddedBuilds(head: seq<Instruction>, n: nat, t: U32, tables: Tables, idx: Index, order: seq<U32>)
    requires forall i :: 0 <= i < |head| ==> head[i].Label? || head[i].Jump?
    requires var stmts := Padded(head, n, Jump(t));
             Visits(order, stmts)
             && AllPatchable(Offset(stmts, |stmts|), order, PatchOffsets(stmts), tables.jumpLabels, LabelOffsets(stmts))
    ensures var p := PaddedState(head, n, Jump(t), tables);
            && Assembly.Sound(p) && Assemble(p, idx, order).Ok?
            && PassesOver(Assemble(p, idx, order).value.code, p.stmts, tables.jumpLabels, idx, order)
  {
    hide Emit, ApplyPatches, PatchOffsets, LabelOffsets, Padded, Offset, CanPatch, NoRepeats;
    var p := PaddedState(head, n, Jump(t), tables);
    PaddedEmits(head, n, t, idx);
    EmitSucceeds(p.stmts, idx);
    var emitted := Emit(p.stmts, idx).value;
    PatchesSucceed(emitted, order, PatchOffsets(p.stmts), tables.jumpLabels, LabelOffsets(p.stmts));
    NoChecksReady(p, idx, order);
    var code := ApplyPatches(emitted, order, PatchOffsets(p.stmts), tables.jumpLabels, LabelOffsets(p.stmts)).value;
    assert PassesOver(code, p.stmts, tables.jumpLabels, idx, order);
  }

  const TOP := [Label("top")]

  /** A loop around 64 KiB of instructions and one more. */
  function LongLoop(): ProcState {
    PaddedState(TOP, 0x1_0001, Jump(0), Tables(1, map["top" := {0}], map[0 := "top"]))
  }

  lemma TopTables()
    ensures PatchOffsets(TOP) == map[] && LabelOffsets(TOP) == map["top" := 0] && Offset(TOP, 1) == 0
  {
    assert TOP[..0] == [];
    assert Offset(TOP, 0) == 0;
  }

  /** The loop is accepted, but does not go back: its jump leads out of the code. */
  lemma LongLoopAccepted(idx: Index)
    ensures var p := LongLoop();
            && Assembly.Sound(p)
            && Visits([0], p.stmts)
            && Assemble(p, idx, [0]).Ok?
            && !Assembled(Assemble(p, idx, [0]).value.code, p.stmts, p.tables.jumpLabels, idx)
  {
    hide Encode, TransferAt, Emit, ApplyPatches, LabelOffsets, PatchOffsets, Offset, Padded, DistinctLabels, PassesOver,
         Assemble, PatchedByte, AllPatchable;
    var n := 0x1_0001;
    var p := LongLoop();
    LongLoopDistinct();
    LongLoopPatchable();
    TopTables();
    PaddedTables(TOP, n, 0);
    PaddedBuilds(TOP, n, 0, p.tables, idx, [0]);
    assert GoesTo(p.stmts, p.tables.jumpLabels, 0, 0);
    assert p.stmts[n + 1] == Jump(0);
    FarJumpFallsThrough(Assemble(p, idx, [0]).value.code, p.stmts, p.tables.jumpLabels, idx, [0], n + 1, 0);
    assert Offset(p.stmts, 0) == 0 by { StartsAtZero(p.stmts); }
  }

  lemma StartsAtZero(stmts: seq<Instruction>)
    ensures Offset(stmts, 0) == 0
  {
  }

  lemma LongLoopPatchable()
    ensures var p := LongLoop();
            && Visits([0], p.stmts)
            && AllPatchable(Offset(p.stmts, |p.stmts|), [0], PatchOffsets(p.stmts), p.tables.jumpLabels,
                            LabelOffsets(p.stmts))
  {
    hide LabelOffsets, PatchOffsets, Offset, Padded;
    TopTables();
    PaddedTables(TOP, 0x1_0001, 0);
  }

  lemma LongLoopDistinct()
    ensures DistinctLabels(LongLoop().stmts)
  {
    hide Padded;
  }

  const TWO_LABELS := [Label("a"), Jump(0), Label("b")]

  /** Two jumps of which the second is 64 KiB behind the first. */
  function OverlappingJumps(): ProcState {
    PaddedState(TWO_LABELS, 0xFFFD, Jump(1), Tables(2, map["a" := {0}, "b" := {1}], map[0 := "a", 1 := "b"]))
  }

  lemma TwoLabelsTables()
    ensures PatchOffsets(TWO_LABELS) == map[0 := 1] && LabelOffsets(TWO_LABELS) == map["a" := 0, "b" := 3]
    ensures Offset(TWO_LABELS, 3) == 3
  {
    assert TWO_LABELS[..2] == [Label("a"), Jump(0)];
    assert [Label("a"), Jump(0)][..1] == [Label("a")] && [Label("a")][..0] == [];
    assert Offset(TWO_LABELS, 0) == 0 && Offset(TWO_LABELS, 1) == 0 && Offset(TWO_LABELS, 2) == 3;
  }

  /** Their patches overlap, so what is built depends on which of them is patched last. */
  lemma OrderMatters(idx: Index)
    ensures var p := OverlappingJumps();
            && Assembly.Sound(p)
            && Visits([0, 1], p.stmts) && Visits([1, 0], p.stmts)
            && Assemble(p, idx, [0, 1]).Ok? && Assemble(p, idx, [1, 0]).Ok?
            && Assemble(p, idx, [0, 1]) != Assemble(p, idx, [1, 0])
  {
    hide Encode, Emit, ApplyPatches, LabelOffsets, PatchOffsets, Offset, Padded, Assemble, I16Bytes;
    var n := 0xFFFD;
    var p := OverlappingJumps();
    OverlappingPatchable([0, 1]);
    OverlappingPatchable([1, 0]);
    PaddedBuilds(TWO_LABELS, n, 1, p.tables, idx, [0, 1]);
    PaddedBuilds(TWO_LABELS, n, 1, p.tables, idx, [1, 0]);
    var emitted, patches, labels := Emit(p.stmts, idx).value, PatchOffsets(p.stmts), LabelOffsets(p.stmts);
    EmitSucceeds(p.stmts, idx);
    PatchesDecide(emitted, [0, 1], patches, p.tables.jumpLabels, labels, 1);
    PatchesDecide(emitted, [1, 0], patches, p.tables.jumpLabels, labels, 1);
    OverlappingDiffer();
  }

  lemma OverlappingDiffer()
    ensures I16Bytes(-3)[0] == 0xFF && I16Bytes(0)[0] == 0
  {
  }

  lemma OverlappingPatchable(order: seq<U32>)
    requires order == [0, 1] || order == [1, 0]
    ensures var p := OverlappingJumps();
            && PatchOffsets(p.stmts) == map[0 := 1, 1 := 1] && LabelOffsets(p.stmts) == map["a" := 0, "b" := 3]
            && Offset(p.stmts, |p.stmts|) == 0x1_0003
            && Visits(order, p.stmts)
            && AllPatchable(Offset(p.stmts, |p.stmts|), order, PatchOffsets(p.stmts), p.tables.jumpLabels,
                            LabelOffsets(p.stmts))
  {
    hide LabelOffsets, PatchOffsets, Offset, Padded;
    TwoLabelsTables();
    PaddedTables(TWO_LABELS, 0xFFFD, 1);
  }
}
