/** The two passes over a fragment: emitting its instructions, and patching the distances of its jumps. */
module Emission {
  import opened BigEndian
  import opened Bytecode
  import opened Instructions
  import opened SymbolIndex
  import opened Wrappers

  // ---------- the emit pass ----------

  function Emit(stmts: seq<Instruction>, idx: Index): Result<seq<Byte>> {
    if stmts == [] then Ok([])
    else
      var n := |stmts| - 1;
      var code :- Emit(stmts[..n], idx);
      var bytes :- Encode(stmts[n], idx);
      Ok(code + bytes)
  }

  /** Where the i-th statement starts. */
  function Offset(stmts: seq<Instruction>, i: nat): nat
    requires i <= |stmts|
  {
    if i == 0 then 0 else Offset(stmts, i - 1) + Size(stmts[i - 1])
  }

  /** The label offsets of the emit pass, cast to 16 bits; a repeated label keeps its last place. */
  function LabelOffsets(stmts: seq<Instruction>): map<string, U16> {
    if stmts == [] then map[]
    else
      var n := |stmts| - 1;
      var offsets := LabelOffsets(stmts[..n]);
      if stmts[n].Label? then offsets[stmts[n].name := ToU16(Offset(stmts, n))] else offsets
  }

  /** Where the distance of each jump target is to be patched in. */
  function PatchOffsets(stmts: seq<Instruction>): map<U32, U16> {
    if stmts == [] then map[]
    else
      var n := |stmts| - 1;
      var offsets := PatchOffsets(stmts[..n]);
      if IsTransfer(stmts[n]) then offsets[stmts[n].target := ToU16(Offset(stmts, n) + 1)] else offsets
  }

  lemma {:induction false} OffsetPrefix(stmts: seq<Instruction>, n: nat, i: nat)
    requires i <= n <= |stmts|
    ensures Offset(stmts[..n], i) == Offset(stmts, i)
  {
    if i != 0 {
      OffsetPrefix(stmts, n, i - 1);
    }
  }

  lemma {:induction false} OffsetMonotone(stmts: seq<Instruction>, i: nat, j: nat)
    requires i <= j <= |stmts|
    ensures Offset(stmts, i) <= Offset(stmts, j)
    ensures i < j && !stmts[i].Label? ==> Offset(stmts, i) < Offset(stmts, j)
    ensures i < j ==> Offset(stmts, i) + Size(stmts[i]) <= Offset(stmts, j)
    decreases j - i
  {
    hide Encode;
    if i < j {
      OffsetMonotone(stmts, i + 1, j);
    }
  }

  lemma {:induction false} EmitSucceeds(stmts: seq<Instruction>, idx: Index)
    ensures Emit(stmts, idx).Ok? <==> forall i :: 0 <= i < |stmts| ==> Encode(stmts[i], idx).Ok?
    ensures Emit(stmts, idx).Ok? ==> |Emit(stmts, idx).value| == Offset(stmts, |stmts|)
  {
    hide Encode;
    if stmts != [] {
      var n := |stmts| - 1;
      EmitSucceeds(stmts[..n], idx);
      assert forall i :: 0 <= i < n ==> stmts[..n][i] == stmts[i];
      if Encode(stmts[n], idx).Ok? {
        EncodedShape(stmts[n], idx);
        OffsetPrefix(stmts, n, n);
      }
    }
  }

  /** The bytes of the i-th statement sit at its offset. */
  lemma {:induction false} EmitAt(stmts: seq<Instruction>, idx: Index, i: nat)
    requires Emit(stmts, idx).Ok? && i < |stmts|
    ensures Encode(stmts[i], idx).Ok?
    ensures Offset(stmts, i) + Size(stmts[i]) <= |Emit(stmts, idx).value|
    ensures Emit(stmts, idx).value[Offset(stmts, i)..Offset(stmts, i) + Size(stmts[i])] == Encode(stmts[i], idx).value
    decreases |stmts|
  {
    hide Encode, Size, OperandSize;
    var n := |stmts| - 1;
    EmitSucceeds(stmts, idx);
    EmitSucceeds(stmts[..n], idx);
    EncodedShape(stmts[n], idx);
    OffsetPrefix(stmts, n, n);
    if i < n {
      EmitAt(stmts[..n], idx, i);
      OffsetPrefix(stmts, n, i);
    }
  }

  predicate DistinctLabels(stmts: seq<Instruction>) {
    forall i, j :: 0 <= i < j < |stmts| && stmts[i].Label? && stmts[j].Label? ==> stmts[i].name != stmts[j].name
  }

  predicate DistinctTargets(stmts: seq<Instruction>) {
    forall i, j :: 0 <= i < j < |stmts| && IsTransfer(stmts[i]) && IsTransfer(stmts[j]) ==>
        stmts[i].target != stmts[j].target
  }

  predicate HasLabel(stmts: seq<Instruction>, name: string) {
    Label(name) in stmts
  }

  predicate HasTarget(stmts: seq<Instruction>, target: U32) {
    exists i :: 0 <= i < |stmts| && IsTransfer(stmts[i]) && stmts[i].target == target
  }

  lemma {:induction false} LabelOffsetsKeys(stmts: seq<Instruction>)
    ensures forall name :: name in LabelOffsets(stmts) <==> HasLabel(stmts, name)
  {
    if stmts != [] {
      var n := |stmts| - 1;
      LabelOffsetsKeys(stmts[..n]);
      assert stmts == stmts[..n] + [stmts[n]];
    }
  }

  lemma {:induction false} LabelOffsetAt(stmts: seq<Instruction>, i: nat)
    requires DistinctLabels(stmts) && i < |stmts| && stmts[i].Label?
    ensures stmts[i].name in LabelOffsets(stmts)
    ensures LabelOffsets(stmts)[stmts[i].name] == ToU16(Offset(stmts, i))
    decreases |stmts|
  {
    hide Encode;
    var n := |stmts| - 1;
    if i < n {
      LabelOffsetAt(stmts[..n], i);
      OffsetPrefix(stmts, n, i);
    }
  }

  lemma {:induction false} PatchOffsetsKeys(stmts: seq<Instruction>)
    ensures forall t :: t in PatchOffsets(stmts) <==> HasTarget(stmts, t)
  {
    if stmts != [] {
      var n := |stmts| - 1;
      PatchOffsetsKeys(stmts[..n]);
      forall t
        ensures HasTarget(stmts, t) <==> HasTarget(stmts[..n], t) || (IsTransfer(stmts[n]) && stmts[n].target == t)
      {
        if i :| 0 <= i < |stmts| && IsTransfer(stmts[i]) && stmts[i].target == t {
          assert i < n ==> stmts[..n][i] == stmts[i];
        }
        if i :| 0 <= i < n && IsTransfer(stmts[..n][i]) && stmts[..n][i].target == t {
          assert stmts[..n][i] == stmts[i];
        }
      }
    }
  }

  lemma {:induction false} PatchOffsetAt(stmts: seq<Instruction>, i: nat)
    requires DistinctTargets(stmts) && i < |stmts| && IsTransfer(stmts[i])
    ensures stmts[i].target in PatchOffsets(stmts)
    ensures PatchOffsets(stmts)[stmts[i].target] == ToU16(Offset(stmts, i) + 1)
    decreases |stmts|
  {
    hide Encode;
    var n := |stmts| - 1;
    if i < n {
      PatchOffsetAt(stmts[..n], i);
      OffsetPrefix(stmts, n, i);
    }
  }

  // ---------- the patch pass ----------

  /** What the tables of a procedure say about each jump target: the label it was patched to, or an empty name. */
  type JumpLabels = map<U32, string>

  /** The patch pass visits the targets in the order of a hash map, that is in any order. */
  function ApplyPatches(code: seq<Byte>, order: seq<U32>, patches: map<U32, U16>, jumps: JumpLabels,
                        labels: map<string, U16>): Result<seq<Byte>>
    requires forall t :: t in order ==> t in patches && t in jumps
  {
    if order == [] then Ok(code)
    else
      var n := |order| - 1;
      var t := order[n];
      var code :- ApplyPatches(code, order[..n], patches, jumps, labels);
      if jumps[t] !in labels then Err(AssemblerInvariant)
      else if !CanPatch(|code|, patches[t], labels[jumps[t]]) then Err(ObjectInvariant)
      else Ok(Patched(code, patches[t], labels[jumps[t]]))
  }

  predicate Patchable(size: nat, t: U32, patches: map<U32, U16>, jumps: JumpLabels, labels: map<string, U16>)
    requires t in patches && t in jumps
  {
    jumps[t] in labels && CanPatch(size, patches[t], labels[jumps[t]])
  }

  lemma LastOf<T>(s: seq<T>)
    requires s != []
    ensures s == s[..|s| - 1] + [s[|s| - 1]]
    ensures forall t :: t in s <==> t in s[..|s| - 1] || t == s[|s| - 1]
  {
    assert s == s[..|s| - 1] + [s[|s| - 1]];
  }

  lemma {:induction false} PatchesSucceed(code: seq<Byte>, order: seq<U32>, patches: map<U32, U16>, jumps: JumpLabels,
                                          labels: map<string, U16>)
    requires forall t :: t in order ==> t in patches && t in jumps
    ensures ApplyPatches(code, order, patches, jumps, labels).Ok?
       <==> forall t :: t in order ==> Patchable(|code|, t, patches, jumps, labels)
    ensures ApplyPatches(code, order, patches, jumps, labels).Ok?
        ==> |ApplyPatches(code, order, patches, jumps, labels).value| == |code|
  {
    hide CanPatch, Patched;
    if order != [] {
      var n := |order| - 1;
      var t := order[n];
      LastOf(order);
      PatchesSucceed(code, order[..n], patches, jumps, labels);
      var before := ApplyPatches(code, order[..n], patches, jumps, labels);
      var after := ApplyPatches(code, order, patches, jumps, labels);
      if before.Ok? {
        assert |before.value| == |code|;
        assert after.Ok? <==> Patchable(|code|, t, patches, jumps, labels);
      } else {
        assert after.Err?;
        var u :| u in order[..n] && !Patchable(|code|, u, patches, jumps, labels);
        assert u in order;
      }
    }
  }

  /** When the emit pass fails it is with the condition of the first statement that cannot be encoded. */
  lemma {:induction false} EmitFailure(stmts: seq<Instruction>, idx: Index) returns (i: nat)
    requires Emit(stmts, idx).Err?
    ensures i < |stmts| && Encode(stmts[i], idx) == Err(Emit(stmts, idx).condition)
    ensures forall j :: 0 <= j < i ==> Encode(stmts[j], idx).Ok?
  {
    hide Encode;
    var n := |stmts| - 1;
    if Emit(stmts[..n], idx).Err? {
      i := EmitFailure(stmts[..n], idx);
      assert forall j :: 0 <= j < n ==> stmts[..n][j] == stmts[j];
    } else {
      i := n;
      EmitSucceeds(stmts[..n], idx);
      assert forall j :: 0 <= j < n ==> stmts[..n][j] == stmts[j];
    }
  }

  /** When the patch pass fails it is at the first target that cannot be patched, with one condition for a label
      that the fragment does not have and another for one that is too far away. */
  lemma {:induction false} PatchFailure(code: seq<Byte>, order: seq<U32>, patches: map<U32, U16>, jumps: JumpLabels,
                                        labels: map<string, U16>) returns (i: nat)
    requires forall t :: t in order ==> t in patches && t in jumps
    requires ApplyPatches(code, order, patches, jumps, labels).Err?
    ensures i < |order| && !Patchable(|code|, order[i], patches, jumps, labels)
    ensures forall j :: 0 <= j < i ==> Patchable(|code|, order[j], patches, jumps, labels)
    ensures ApplyPatches(code, order, patches, jumps, labels)
         == Err(if jumps[order[i]] in labels then ObjectInvariant else AssemblerInvariant)
  {
    hide CanPatch, Patched;
    var n := |order| - 1;
    LastOf(order);
    PatchesSucceed(code, order[..n], patches, jumps, labels);
    if ApplyPatches(code, order[..n], patches, jumps, labels).Err? {
      i := PatchFailure(code, order[..n], patches, jumps, labels);
      assert forall j :: 0 <= j < n ==> order[..n][j] == order[j];
    } else {
      i := n;
      forall j | 0 <= j < n
        ensures Patchable(|code|, order[j], patches, jumps, labels)
      {
        assert order[..n][j] in order[..n];
      }
    }
  }

  // ---------- what the patch pass leaves in each byte ----------

  predicate PatchCovers(patch: U16, k: nat) {
    patch <= k < patch + 2
  }

  /** The byte that patching a target writes at `k`. */
  function WrittenAt(t: U32, patches: map<U32, U16>, jumps: JumpLabels, labels: map<string, U16>, k: nat): Byte
    requires t in patches && t in jumps && jumps[t] in labels && PatchCovers(patches[t], k)
    requires -0x8000 <= Distance(patches[t], labels[jumps[t]]) < 0x8000
  {
    I16Bytes(Distance(patches[t], labels[jumps[t]]))[k - patches[t]]
  }

  predicate AllPatchable(size: nat, order: seq<U32>, patches: map<U32, U16>, jumps: JumpLabels,
                         labels: map<string, U16>) {
    forall t :: t in order ==> t in patches && t in jumps && Patchable(size, t, patches, jumps, labels)
  }

  /** The byte at `k` after the targets have been patched in this order: of the targets whose patch
      covers it the last one decides. */
  function PatchedByte(code: seq<Byte>, order: seq<U32>, patches: map<U32, U16>, jumps: JumpLabels,
                       labels: map<string, U16>, k: nat): Byte
    requires AllPatchable(|code|, order, patches, jumps, labels) && k < |code|
  {
    if order == [] then code[k]
    else
      var n := |order| - 1;
      if PatchCovers(patches[order[n]], k) then WrittenAt(order[n], patches, jumps, labels, k)
      else PatchedByte(code, order[..n], patches, jumps, labels, k)
  }

  lemma PatchedAt(code: seq<Byte>, patch: U16, dest: U16, k: nat)
    requires CanPatch(|code|, patch, dest) && k < |code|
    ensures Patched(code, patch, dest)[k] ==
              if PatchCovers(patch, k) then I16Bytes(Distance(patch, dest))[k - patch] else code[k]
  {
  }

  lemma {:induction false} PatchesDecide(code: seq<Byte>, order: seq<U32>, patches: map<U32, U16>, jumps: JumpLabels,
                                         labels: map<string, U16>, k: nat)
    requires forall t :: t in order ==> t in patches && t in jumps
    requires ApplyPatches(code, order, patches, jumps, labels).Ok? && k < |code|
    ensures AllPatchable(|code|, order, patches, jumps, labels)
    ensures |ApplyPatches(code, order, patches, jumps, labels).value| == |code|
    ensures ApplyPatches(code, order, patches, jumps, labels).value[k]
              == PatchedByte(code, order, patches, jumps, labels, k)
  {
    hide CanPatch, Patched, PatchCovers, I16Bytes;
    PatchesSucceed(code, order, patches, jumps, labels);
    if order != [] {
      var n := |order| - 1;
      PatchesDecide(code, order[..n], patches, jumps, labels, k);
      var before := ApplyPatches(code, order[..n], patches, jumps, labels).value;
      PatchedAt(before, patches[order[n]], labels[jumps[order[n]]], k);
    }
  }

  /** A byte that no patch covers stays as it was emitted. */
  lemma {:induction false} PatchesMiss(code: seq<Byte>, order: seq<U32>, patches: map<U32, U16>, jumps: JumpLabels,
                                       labels: map<string, U16>, k: nat)
    requires AllPatchable(|code|, order, patches, jumps, labels) && k < |code|
    requires forall t :: t in order ==> !PatchCovers(patches[t], k)
    ensures PatchedByte(code, order, patches, jumps, labels, k) == code[k]
  {
    if order != [] {
      PatchesMiss(code, order[..|order| - 1], patches, jumps, labels, k);
    }
  }

  /** When every patch that covers a byte writes the same, the order does not matter. */
  lemma {:induction false} OnePatchDecides(code: seq<Byte>, order: seq<U32>, patches: map<U32, U16>, jumps: JumpLabels,
                                           labels: map<string, U16>, k: nat, t: U32)
    requires AllPatchable(|code|, order, patches, jumps, labels) && k < |code|
    requires t in order && PatchCovers(patches[t], k)
    requires forall u :: u in order && PatchCovers(patches[u], k) ==>
               WrittenAt(u, patches, jumps, labels, k) == WrittenAt(t, patches, jumps, labels, k)
    ensures PatchedByte(code, order, patches, jumps, labels, k) == WrittenAt(t, patches, jumps, labels, k)
  {
    hide WrittenAt;
    LastOf(order);
    var n := |order| - 1;
    if !PatchCovers(patches[order[n]], k) {
      OnePatchDecides(code, order[..n], patches, jumps, labels, k, t);
    }
  }

  // ---------- assembled code ----------

  /** A jump to target `t` goes to this label statement. */
  ghost predicate GoesTo(stmts: seq<Instruction>, jumps: JumpLabels, t: U32, l: nat) {
    t in jumps && l < |stmts| && stmts[l] == Label(jumps[t])
  }

  /** The code of a transfer holds its opcode and a distance. */
  ghost predicate HoldsDistance(code: seq<Byte>, stmts: seq<Instruction>, idx: Index, i: nat, distance: int)
    requires i < |stmts| && IsTransfer(stmts[i])
  {
    var at := Offset(stmts, i);
    && at + 3 <= |code|
    && Encode(stmts[i], idx) == Ok([code[at], 0, 0])
    && ReadI16(code[at + 1..at + 3]) == distance
  }

  /** The code of a transfer holds its opcode and the distance to its label. */
  ghost predicate TransferAt(code: seq<Byte>, stmts: seq<Instruction>, jumps: JumpLabels, idx: Index, i: nat)
    requires i < |stmts| && IsTransfer(stmts[i])
  {
    && (exists l :: GoesTo(stmts, jumps, stmts[i].target, l))
    && (forall l :: GoesTo(stmts, jumps, stmts[i].target, l) ==>
          HoldsDistance(code, stmts, idx, i, Offset(stmts, l) - (Offset(stmts, i) + 3)))
  }

  ghost predicate PlainAt(code: seq<Byte>, stmts: seq<Instruction>, idx: Index, i: nat)
    requires i < |stmts|
  {
    var at := Offset(stmts, i);
    && at + Size(stmts[i]) <= |code|
    && Encode(stmts[i], idx) == Ok(code[at..at + Size(stmts[i])])
  }

  /** The code is what the fragment means, statement by statement. */
  ghost predicate Assembled(code: seq<Byte>, stmts: seq<Instruction>, jumps: JumpLabels, idx: Index) {
    && |code| == Offset(stmts, |stmts|)
    && forall i :: 0 <= i < |stmts| ==>
         if IsTransfer(stmts[i]) then TransferAt(code, stmts, jumps, idx, i) else PlainAt(code, stmts, idx, i)
  }

  // ---------- what 16-bit offsets can say ----------

  /** Patch offsets are 16 bits wide; these are the fragments in which every one is where it says. */
  ghost predicate OperandsLow(stmts: seq<Instruction>) {
    forall i :: 0 <= i < |stmts| && IsTransfer(stmts[i]) ==> Offset(stmts, i) + 1 < 0x1_0000
  }

  /** Label offsets are 16 bits wide as well. */
  ghost predicate LabelLow(stmts: seq<Instruction>, name: string) {
    forall l :: 0 <= l < |stmts| && stmts[l] == Label(name) ==> Offset(stmts, l) < 0x1_0000
  }

  /** Every label that a jump of the fragment goes to lies in the first 64 KiB. */
  ghost predicate LabelsLow(stmts: seq<Instruction>, jumps: JumpLabels) {
    forall i :: 0 <= i < |stmts| && IsTransfer(stmts[i]) && stmts[i].target in jumps ==>
        LabelLow(stmts, jumps[stmts[i].target])
  }

  lemma ShortIsLow(stmts: seq<Instruction>, jumps: JumpLabels)
    requires Offset(stmts, |stmts|) < 0x1_0000
    ensures OperandsLow(stmts) && LabelsLow(stmts, jumps)
    ensures forall name :: LabelLow(stmts, name)
  {
    hide Offset;
    forall i | 0 <= i < |stmts|
      ensures Offset(stmts, i) + Size(stmts[i]) < 0x1_0000
    {
      OffsetMonotone(stmts, i, |stmts|);
      OffsetMonotone(stmts, i, i + 1);
    }
  }

  lemma FindTransfer(stmts: seq<Instruction>, t: U32) returns (i: nat)
    requires DistinctTargets(stmts) && t in PatchOffsets(stmts)
    ensures i < |stmts| && IsTransfer(stmts[i]) && stmts[i].target == t
    ensures PatchOffsets(stmts)[t] == ToU16(Offset(stmts, i) + 1) && Offset(stmts, i) + 3 <= Offset(stmts, |stmts|)
  {
    PatchOffsetsKeys(stmts);
    i :| 0 <= i < |stmts| && IsTransfer(stmts[i]) && stmts[i].target == t;
    PatchOffsetAt(stmts, i);
    OffsetMonotone(stmts, i, |stmts|);
  }

  lemma LabelOnce(stmts: seq<Instruction>, l: nat)
    requires DistinctLabels(stmts) && l < |stmts| && stmts[l].Label?
    ensures forall k :: 0 <= k < |stmts| && stmts[k] == stmts[l] ==> k == l
  {
  }

  lemma FindLabel(stmts: seq<Instruction>, name: string) returns (l: nat)
    requires DistinctLabels(stmts) && name in LabelOffsets(stmts)
    ensures l < |stmts| && stmts[l] == Label(name)
    ensures forall k :: 0 <= k < |stmts| && stmts[k] == Label(name) ==> k == l
    ensures LabelOffsets(stmts)[name] == ToU16(Offset(stmts, l)) && Offset(stmts, l) <= Offset(stmts, |stmts|)
    ensures LabelOffsets(stmts)[name] == Offset(stmts, l) <==> LabelLow(stmts, name)
  {
    hide LabelOffsets, Offset, DistinctLabels;
    LabelOffsetsKeys(stmts);
    l :| 0 <= l < |stmts| && stmts[l] == Label(name);
    LabelOnce(stmts, l);
    LabelOffsetAt(stmts, l);
    OffsetMonotone(stmts, l, |stmts|);
  }

  // ---------- the patch pass assembles ----------

  /** While operands lie low, the only patch that covers a byte of a statement is that of the
      statement itself, and it does not cover the opcode. */
  lemma PatchesOwnBytes(stmts: seq<Instruction>, i: nat, k: nat, t: U32)
    requires DistinctTargets(stmts) && OperandsLow(stmts) && i < |stmts| && t in PatchOffsets(stmts)
    requires Offset(stmts, i) <= k < Offset(stmts, i) + Size(stmts[i])
    ensures PatchCovers(PatchOffsets(stmts)[t], k) <==>
              IsTransfer(stmts[i]) && stmts[i].target == t && Offset(stmts, i) < k
  {
    hide Offset, PatchOffsets, Encode;
    var j := FindTransfer(stmts, t);
    if j < i {
      OffsetMonotone(stmts, j, i);
    } else if i < j {
      OffsetMonotone(stmts, i, j);
    }
  }

  /** What the patch pass leaves of a statement: a transfer holds the distance to where the table
      of labels has its label, and everything else is as it was emitted. */
  ghost predicate PatchedStatement(code: seq<Byte>, stmts: seq<Instruction>, jumps: JumpLabels, idx: Index, i: nat)
    requires i < |stmts|
  {
    if IsTransfer(stmts[i]) then
      && stmts[i].target in jumps && jumps[stmts[i].target] in LabelOffsets(stmts)
      && HoldsDistance(code, stmts, idx, i, LabelOffsets(stmts)[jumps[stmts[i].target]] - (Offset(stmts, i) + 3))
    else PlainAt(code, stmts, idx, i)
  }

  /** The patch pass, given that it succeeds. */
  ghost predicate PassesOver(code: seq<Byte>, stmts: seq<Instruction>, jumps: JumpLabels, idx: Index, order: seq<U32>) {
    && Visits(order, stmts)
    && (forall t :: t in order ==> t in jumps)
    && Emit(stmts, idx).Ok?
    && ApplyPatches(Emit(stmts, idx).value, order, PatchOffsets(stmts), jumps, LabelOffsets(stmts)) == Ok(code)
  }

  lemma PassLeaves(code: seq<Byte>, stmts: seq<Instruction>, jumps: JumpLabels, idx: Index, order: seq<U32>, i: nat)
    requires DistinctTargets(stmts) && OperandsLow(stmts) && PassesOver(code, stmts, jumps, idx, order) && i < |stmts|
    ensures |code| == Offset(stmts, |stmts|) && PatchedStatement(code, stmts, jumps, idx, i)
  {
    hide Encode, Emit, ApplyPatches, PatchOffsets, LabelOffsets, DistinctTargets, OperandsLow, Offset, PatchCovers,
         WrittenAt, Size, PatchedByte;
    var emitted := Emit(stmts, idx).value;
    var at := Offset(stmts, i);
    EmitSucceeds(stmts, idx);
    EmitAt(stmts, idx, i);
    PatchesSucceed(emitted, order, PatchOffsets(stmts), jumps, LabelOffsets(stmts));
    if IsTransfer(stmts[i]) {
      PatchOffsetsKeys(stmts);
      assert HasTarget(stmts, stmts[i].target);
      PassPatches(code, stmts, jumps, idx, order, i);
    } else {
      forall k: nat | at <= k < at + Size(stmts[i])
        ensures code[k] == emitted[k]
      {
        forall t | t in order
          ensures !PatchCovers(PatchOffsets(stmts)[t], k)
        {
          PatchesOwnBytes(stmts, i, k, t);
        }
        PatchesDecide(emitted, order, PatchOffsets(stmts), jumps, LabelOffsets(stmts), k);
        PatchesMiss(emitted, order, PatchOffsets(stmts), jumps, LabelOffsets(stmts), k);
      }
      assert code[at..at + Size(stmts[i])] == emitted[at..at + Size(stmts[i])];
    }
  }

  lemma PassPatches(code: seq<Byte>, stmts: seq<Instruction>, jumps: JumpLabels, idx: Index, order: seq<U32>, i: nat)
    requires DistinctTargets(stmts) && OperandsLow(stmts) && PassesOver(code, stmts, jumps, idx, order)
    requires i < |stmts| && IsTransfer(stmts[i]) && stmts[i].target in PatchOffsets(stmts)
    ensures PatchedStatement(code, stmts, jumps, idx, i)
  {
    hide Encode, Emit, ApplyPatches, PatchOffsets, LabelOffsets, DistinctTargets, Offset, PatchedByte, I16Bytes,
         ReadI16;
    var emitted, patches, labels := Emit(stmts, idx).value, PatchOffsets(stmts), LabelOffsets(stmts);
    var at, t := Offset(stmts, i), stmts[i].target;
    EmitSucceeds(stmts, idx);
    EmitAt(stmts, idx, i);
    EncodedShape(stmts[i], idx);
    PatchOffsetAt(stmts, i);
    PatchesSucceed(emitted, order, patches, jumps, labels);
    forall k: nat, u | at <= k < at + 3 && u in order
      ensures PatchCovers(patches[u], k) <==> u == t && at < k
    {
      PatchesOwnBytes(stmts, i, k, u);
    }
    PatchesDecide(emitted, order, patches, jumps, labels, at);
    PatchesMiss(emitted, order, patches, jumps, labels, at);
    assert emitted[at] == emitted[at..at + 3][0];
    var d := Distance(patches[t], labels[jumps[t]]);
    forall k: nat | at < k < at + 3
      ensures code[k] == I16Bytes(d)[k - (at + 1)]
    {
      PatchesDecide(emitted, order, patches, jumps, labels, k);
      OnePatchDecides(emitted, order, patches, jumps, labels, k, t);
    }
    assert code[at + 1..at + 3] == I16Bytes(d);
    I16RoundTrip(d);
  }

  /** A patched transfer goes where it should exactly when its label lies in the first 64 KiB. */
  lemma TransferExactly(code: seq<Byte>, stmts: seq<Instruction>, jumps: JumpLabels, idx: Index, i: nat)
    requires DistinctLabels(stmts) && i < |stmts| && IsTransfer(stmts[i])
              && PatchedStatement(code, stmts, jumps, idx, i)
    ensures TransferAt(code, stmts, jumps, idx, i) <==> LabelLow(stmts, jumps[stmts[i].target])
  {
    hide Encode, Offset, LabelOffsets, DistinctLabels, LabelLow, ReadI16;
    var l := FindLabel(stmts, jumps[stmts[i].target]);
    assert GoesTo(stmts, jumps, stmts[i].target, l);
  }

  /** Emitting and then patching, in whatever order, assembles a fragment whose operands lie in the
      first 64 KiB exactly when the labels that its jumps go to lie there as well. */
  lemma AssembledExactlyWhenLow(code: seq<Byte>, stmts: seq<Instruction>, jumps: JumpLabels, idx: Index,
                                order: seq<U32>)
    requires DistinctLabels(stmts) && DistinctTargets(stmts) && OperandsLow(stmts)
    requires PassesOver(code, stmts, jumps, idx, order)
    ensures Assembled(code, stmts, jumps, idx) <==> LabelsLow(stmts, jumps)
  {
    hide Encode, DistinctLabels, DistinctTargets, OperandsLow, PassesOver, TransferAt, PlainAt, LabelLow, HoldsDistance;
    EmitSucceeds(stmts, idx);
    if stmts == [] {
      PassesOverNothing(code, stmts, jumps, idx, order);
    }
    forall i | 0 <= i < |stmts|
      ensures |code| == Offset(stmts, |stmts|) && PatchedStatement(code, stmts, jumps, idx, i)
      ensures IsTransfer(stmts[i]) ==>
                (TransferAt(code, stmts, jumps, idx, i) <==> LabelLow(stmts, jumps[stmts[i].target]))
    {
      PassLeaves(code, stmts, jumps, idx, order, i);
      if IsTransfer(stmts[i]) {
        TransferExactly(code, stmts, jumps, idx, i);
      }
    }
  }

  lemma PassesOverNothing(code: seq<Byte>, stmts: seq<Instruction>, jumps: JumpLabels, idx: Index, order: seq<U32>)
    requires stmts == [] && PassesOver(code, stmts, jumps, idx, order)
    ensures code == []
  {
    EmitSucceeds(stmts, idx);
    PatchesSucceed(Emit(stmts, idx).value, order, PatchOffsets(stmts), jumps, LabelOffsets(stmts));
  }

  // ---------- the order of the patches ----------

  predicate NoRepeats<T(==)>(s: seq<T>) {
    forall i, j :: 0 <= i < j < |s| ==> s[i] != s[j]
  }

  /** An order in which the patch pass may visit the targets. */
  ghost predicate Visits(order: seq<U32>, stmts: seq<Instruction>) {
    NoRepeats(order) && forall t :: t in order <==> t in PatchOffsets(stmts)
  }

  /** Where the patches of several targets overlap they write the same. */
  ghost predicate PatchesAgree(size: nat, order: seq<U32>, patches: map<U32, U16>, jumps: JumpLabels,
                               labels: map<string, U16>)
    requires AllPatchable(size, order, patches, jumps, labels)
  {
    forall t, u, k: nat :: t in order && u in order && PatchCovers(patches[t], k) && PatchCovers(patches[u], k) ==>
      WrittenAt(t, patches, jumps, labels, k) == WrittenAt(u, patches, jumps, labels, k)
  }

  ghost predicate Rearranges(other: seq<U32>, order: seq<U32>) {
    NoRepeats(other) && forall t :: t in other <==> t in order
  }

  /** The target last, the others as they were. */
  lemma MoveLast(order: seq<U32>, t: U32) returns (other: seq<U32>)
    requires NoRepeats(order) && t in order
    ensures Rearranges(other, order) && other != [] && other[|other| - 1] == t
  {
    var i :| 0 <= i < |order| && order[i] == t;
    var rest := order[..i] + order[i + 1..];
    other := rest + [t];
    forall k | 0 <= k < |rest|
      ensures rest[k] == order[if k < i then k else k + 1]
    {
    }
    forall u
      ensures u in other <==> u in order
    {
      if u in order {
        var k :| 0 <= k < |order| && order[k] == u;
        assert k != i ==> rest[if k < i then k else k - 1] == u;
      }
    }
  }

  lemma AgreeingOrders(code: seq<Byte>, order: seq<U32>, other: seq<U32>, patches: map<U32, U16>, jumps: JumpLabels,
                       labels: map<string, U16>)
    requires AllPatchable(|code|, order, patches, jumps, labels) && PatchesAgree(|code|, order, patches, jumps, labels)
    requires Rearranges(other, order)
    ensures ApplyPatches(code, other, patches, jumps, labels) == ApplyPatches(code, order, patches, jumps, labels)
  {
    hide CanPatch, WrittenAt, PatchCovers, ApplyPatches, PatchedByte, NoRepeats;
    PatchesSucceed(code, order, patches, jumps, labels);
    PatchesSucceed(code, other, patches, jumps, labels);
    var a := ApplyPatches(code, order, patches, jumps, labels).value;
    var b := ApplyPatches(code, other, patches, jumps, labels).value;
    forall k: nat | k < |code|
      ensures a[k] == b[k]
    {
      PatchesDecide(code, order, patches, jumps, labels, k);
      PatchesDecide(code, other, patches, jumps, labels, k);
      if t :| t in order && PatchCovers(patches[t], k) {
        OnePatchDecides(code, order, patches, jumps, labels, k, t);
        OnePatchDecides(code, other, patches, jumps, labels, k, t);
      } else {
        PatchesMiss(code, order, patches, jumps, labels, k);
        PatchesMiss(code, other, patches, jumps, labels, k);
      }
    }
    assert a == b;
  }

  lemma LastDecides(code: seq<Byte>, order: seq<U32>, patches: map<U32, U16>, jumps: JumpLabels,
                    labels: map<string, U16>, t: U32, k: nat)
    requires NoRepeats(order) && AllPatchable(|code|, order, patches, jumps, labels)
    requires t in order && PatchCovers(patches[t], k) && k < |code|
    requires forall other :: Rearranges(other, order) ==>
               ApplyPatches(code, other, patches, jumps, labels) == ApplyPatches(code, order, patches, jumps, labels)
    ensures PatchedByte(code, order, patches, jumps, labels, k) == WrittenAt(t, patches, jumps, labels, k)
  {
    hide CanPatch, WrittenAt, PatchCovers, ApplyPatches, NoRepeats;
    var other := MoveLast(order, t);
    PatchesSucceed(code, order, patches, jumps, labels);
    PatchesDecide(code, order, patches, jumps, labels, k);
    PatchesDecide(code, other, patches, jumps, labels, k);
  }

  /** The result of the patch pass does not depend on the order exactly when overlapping patches agree. */
  lemma OrderExactly(code: seq<Byte>, order: seq<U32>, patches: map<U32, U16>, jumps: JumpLabels,
                     labels: map<string, U16>)
    requires NoRepeats(order) && AllPatchable(|code|, order, patches, jumps, labels)
    ensures PatchesAgree(|code|, order, patches, jumps, labels) <==>
              (forall other :: Rearranges(other, order) ==>
                 ApplyPatches(code, other, patches, jumps, labels) == ApplyPatches(code, order, patches, jumps, labels))
  {
    hide WrittenAt, ApplyPatches, PatchedByte, NoRepeats;
    if PatchesAgree(|code|, order, patches, jumps, labels) {
      forall other | Rearranges(other, order)
        ensures ApplyPatches(code, other, patches, jumps, labels) == ApplyPatches(code, order, patches, jumps, labels)
      {
        AgreeingOrders(code, order, other, patches, jumps, labels);
      }
    } else {
      var t, u, k: nat :| t in order && u in order && PatchCovers(patches[t], k) && PatchCovers(patches[u], k)
        && WrittenAt(t, patches, jumps, labels, k) != WrittenAt(u, patches, jumps, labels, k);
      if forall other :: Rearranges(other, order) ==>
           ApplyPatches(code, other, patches, jumps, labels) == ApplyPatches(code, order, patches, jumps, labels) {
        assert k < |code|;
        LastDecides(code, order, patches, jumps, labels, t, k);
        LastDecides(code, order, patches, jumps, labels, u, k);
      }
    }
  }

  lemma {:induction false} PatchOffsetIsLast(stmts: seq<Instruction>, t: U32) returns (k: nat)
    requires t in PatchOffsets(stmts)
    ensures k < |stmts| && IsTransfer(stmts[k]) && stmts[k].target == t
    ensures PatchOffsets(stmts)[t] == ToU16(Offset(stmts, k) + 1)
    ensures forall j :: k < j < |stmts| && IsTransfer(stmts[j]) ==> stmts[j].target != t
  {
    var n := |stmts| - 1;
    if IsTransfer(stmts[n]) && stmts[n].target == t {
      k := n;
    } else {
      k := PatchOffsetIsLast(stmts[..n], t);
      OffsetPrefix(stmts, n, k);
      assert forall j :: k < j < n ==> stmts[..n][j] == stmts[j];
    }
  }

  /** Operands in the first 64 KiB do not overlap. */
  lemma LowPatchesAgree(size: nat, stmts: seq<Instruction>, order: seq<U32>, jumps: JumpLabels)
    requires OperandsLow(stmts) && AllPatchable(size, order, PatchOffsets(stmts), jumps, LabelOffsets(stmts))
    ensures PatchesAgree(size, order, PatchOffsets(stmts), jumps, LabelOffsets(stmts))
  {
    hide Offset, PatchOffsets, LabelOffsets, WrittenAt, AllPatchable;
    forall t, u, k: nat | t in PatchOffsets(stmts) && u in PatchOffsets(stmts)
                       && PatchCovers(PatchOffsets(stmts)[t], k) && PatchCovers(PatchOffsets(stmts)[u], k)
      ensures t == u
    {
      var i := PatchOffsetIsLast(stmts, t);
      var j := PatchOffsetIsLast(stmts, u);
      if i < j {
        OffsetMonotone(stmts, i, j);
      } else if j < i {
        OffsetMonotone(stmts, j, i);
      }
    }
    assert forall t :: t in order ==> t in PatchOffsets(stmts) by { PatchableKnown(size, stmts, order, jumps); }
  }

  lemma PatchableKnown(size: nat, stmts: seq<Instruction>, order: seq<U32>, jumps: JumpLabels)
    requires AllPatchable(size, order, PatchOffsets(stmts), jumps, LabelOffsets(stmts))
    ensures forall t :: t in order ==> t in PatchOffsets(stmts)
  {
  }

  // ---------- one assembled code ----------

  /** A fragment has one assembled code. */
  lemma AssembledUnique(code: seq<Byte>, other: seq<Byte>, stmts: seq<Instruction>, jumps: JumpLabels, idx: Index)
    requires Assembled(code, stmts, jumps, idx) && Assembled(other, stmts, jumps, idx)
    ensures code == other
  {
    hide Assembled;
    SameUpTo(code, other, stmts, jumps, idx, |stmts|);
    assert code[..|code|] == code && other[..|code|] == other;
  }

  lemma {:induction false} SameUpTo(code: seq<Byte>, other: seq<Byte>, stmts: seq<Instruction>, jumps: JumpLabels,
                                    idx: Index, n: nat)
    requires Assembled(code, stmts, jumps, idx) && Assembled(other, stmts, jumps, idx) && n <= |stmts|
    ensures |code| == |other| == Offset(stmts, |stmts|) && Offset(stmts, n) <= |code|
    ensures code[..Offset(stmts, n)] == other[..Offset(stmts, n)]
  {
    hide Encode, TransferAt, PlainAt;
    OffsetMonotone(stmts, n, |stmts|);
    if n > 0 {
      OffsetMonotone(stmts, n - 1, n);
      SameUpTo(code, other, stmts, jumps, idx, n - 1);
      var at, next := Offset(stmts, n - 1), Offset(stmts, n);
      SameStatement(code, other, stmts, jumps, idx, n - 1);
      assert code[..next] == code[..at] + code[at..next];
      assert other[..next] == other[..at] + other[at..next];
    }
  }

  lemma SameStatement(code: seq<Byte>, other: seq<Byte>, stmts: seq<Instruction>, jumps: JumpLabels, idx: Index, i: nat)
    requires |code| == |other| && i < |stmts| && Offset(stmts, i) + Size(stmts[i]) <= |code|
    requires if IsTransfer(stmts[i]) then TransferAt(code, stmts, jumps, idx, i) else PlainAt(code, stmts, idx, i)
    requires if IsTransfer(stmts[i]) then TransferAt(other, stmts, jumps, idx, i) else PlainAt(other, stmts, idx, i)
    ensures var at := Offset(stmts, i);
            code[at..at + Size(stmts[i])] == other[at..at + Size(stmts[i])]
  {
    hide Encode, ReadI16, Offset;
    var at := Offset(stmts, i);
    if IsTransfer(stmts[i]) {
      var l :| GoesTo(stmts, jumps, stmts[i].target, l);
      ReadI16Injective(code[at + 1..at + 3], other[at + 1..at + 3]);
      assert code[at..at + 3] == [code[at]] + code[at + 1..at + 3];
      assert other[at..at + 3] == [other[at]] + other[at + 1..at + 3];
    }
  }
}
