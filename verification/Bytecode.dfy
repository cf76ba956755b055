/** The bytecode format: opcodes, operand sizes, the builder that writes code and the iterator that reads it. */
module Bytecode {
  import opened BigEndian
  import opened Wrappers

  const OP_NOOP: Byte := 1
  const OP_UNDEF: Byte := 2
  const OP_NIL: Byte := 3
  const OP_TRUE: Byte := 4
  const OP_FALSE: Byte := 5
  const OP_I8: Byte := 6
  const OP_I64: Byte := 9
  const OP_U8: Byte := 10
  const OP_U16: Byte := 11
  const OP_U32: Byte := 12
  const OP_U64: Byte := 13
  const OP_F32: Byte := 14
  const OP_F64: Byte := 15
  const OP_C32: Byte := 16
  const OP_BYTES: Byte := 17
  const OP_STRING: Byte := 18
  const OP_STATIC: Byte := 19
  const OP_SYNTHETIC: Byte := 20
  const OP_DESCRIPTOR: Byte := 21
  const OP_LOAD: Byte := 22
  const OP_STORE: Byte := 23
  const OP_VA_LOAD: Byte := 24
  const OP_VA_SIZE: Byte := 25
  const OP_POP: Byte := 26
  const OP_DUP: Byte := 27
  const OP_PICK: Byte := 28
  const OP_DROP: Byte := 29
  const OP_ADD: Byte := 30
  const OP_SUB: Byte := 31
  const OP_MUL: Byte := 32
  const OP_DIV: Byte := 33
  const OP_NEG: Byte := 34
  const OP_CMP: Byte := 35
  const OP_TYPE_CMP: Byte := 36
  const OP_LOGICAL_AND: Byte := 37
  const OP_LOGICAL_OR: Byte := 38
  const OP_LOGICAL_NOT: Byte := 39
  const OP_BITWISE_AND: Byte := 40
  const OP_BITWISE_OR: Byte := 41
  const OP_BITWISE_XOR: Byte := 42
  const OP_BITWISE_NOT: Byte := 43
  const OP_BITWISE_SHR: Byte := 44
  const OP_BITWISE_SHL: Byte := 45
  const OP_IF_NIL: Byte := 46
  const OP_IF_NOTNIL: Byte := 47
  const OP_IF_TRUE: Byte := 48
  const OP_IF_FALSE: Byte := 49
  const OP_IF_ZERO: Byte := 50
  const OP_IF_NOTZERO: Byte := 51
  const OP_IF_GT: Byte := 52
  const OP_IF_GE: Byte := 53
  const OP_IF_LT: Byte := 54
  const OP_IF_LE: Byte := 55
  const OP_JUMP: Byte := 56
  const OP_IMPORT: Byte := 67
  const OP_CALL_STATIC: Byte := 68
  const OP_CALL_VIRTUAL: Byte := 69
  const OP_CALL_STUB: Byte := 70
  const OP_CALL_CONCEPT: Byte := 71
  const OP_CALL_EXISTENTIAL: Byte := 72
  const OP_TRAP: Byte := 73
  const OP_RETURN: Byte := 74
  const OP_RAISE: Byte := 75
  const OP_NEW: Byte := 76
  const OP_TYPE_OF: Byte := 77
  const OP_INTERRUPT: Byte := 78
  const OP_HALT: Byte := 79
  const OP_ABORT: Byte := 80
  const OP_LAST: Byte := 81

  /** The conditional branches; OP_IF_NIL up to OP_IF_LE are consecutive. */
  predicate IsBranch(op: Byte) {
    OP_IF_NIL <= op <= OP_IF_LE
  }

  /** The opcodes whose operand is a signed 16-bit distance. */
  predicate HasDistance(op: Byte) {
    IsBranch(op) || op == OP_JUMP
  }

  /** The opcodes after which the interpreter does not continue with the following instruction. */
  predicate Leaves(op: Byte) {
    op in {OP_RETURN, OP_RAISE, OP_INTERRUPT, OP_HALT, OP_ABORT}
  }

  function OperandSize(op: Byte): nat {
    if OP_I8 <= op <= OP_I64 || OP_U8 <= op <= OP_U64 then
      [1, 2, 4, 8][if op <= OP_I64 then op - OP_I8 else op - OP_U8]
    else if op == OP_SYNTHETIC then 1
    else if HasDistance(op) || op == OP_PICK || op == OP_DROP then 2
    else if op in {OP_F32, OP_C32, OP_BYTES, OP_STRING, OP_STATIC, OP_IMPORT} then 4
    else if op in {OP_DESCRIPTOR, OP_LOAD, OP_STORE, OP_TRAP} then 5
    else if OP_CALL_STATIC <= op <= OP_CALL_EXISTENTIAL || op == OP_NEW then 7
    else if op == OP_F64 then 8
    else 0
  }

  datatype OpCell = OpCell(opcode: Byte, operands: seq<Byte>, next: nat)

  /** Reads the instruction at `curr`; None when there is nothing to read, or not all of it. */
  function Fetch(code: seq<Byte>, curr: nat): (r: Option<OpCell>)
    ensures r.Some? ==>
              && curr < r.value.next <= |code|
              && |r.value.operands| == OperandSize(r.value.opcode)
              && code[curr..r.value.next] == [r.value.opcode] + r.value.operands
  {
    if |code| <= curr || code[curr] == 0 then
      None
    else
      var op := code[curr];
      var next := curr + 1 + OperandSize(op);
      if |code| < next then None else Some(OpCell(op, code[curr + 1..next], next))
  }

  /** An instruction is read exactly when it is what the bytes from `curr` on begin with, all of it is
      there, its opcode is not zero and it has as many operands as the opcode says. */
  lemma FetchExactly(code: seq<Byte>, curr: nat, op: Byte, operands: seq<Byte>, next: nat)
    ensures Fetch(code, curr) == Some(OpCell(op, operands, next)) <==>
              && op != 0 && |operands| == OperandSize(op)
              && next == curr + 1 + |operands| <= |code|
              && code[curr..next] == [op] + operands
  {
    hide OperandSize;
    if next == curr + 1 + |operands| <= |code| && code[curr..next] == [op] + operands {
      assert code[curr] == code[curr..next][0] && code[curr + 1..next] == code[curr..next][1..];
    }
  }

  /** Moves a position by a signed distance, refusing to leave [0, size]. */
  function Move(size: nat, curr: nat, delta: I16): Option<nat>
    requires curr <= size
  {
    if delta < 0 then
      if curr + delta < 0 then None else Some(curr + delta)
    else
      if delta > size - curr then None else Some(curr + delta)
  }

  /** The distance from the end of the operand at `patch` to the position `dest`. */
  function Distance(patch: U16, dest: U16): int {
    dest - (patch + 2)
  }

  predicate CanPatch(size: nat, patch: U16, dest: U16) {
    && patch + 1 < size
    && dest <= size
    && -0x8000 <= Distance(patch, dest) < 0x8000
  }

  /** A position can be patched exactly when it is inside the code with room for an operand, and there is an
      operand that makes the interpreter move from there to the destination. */
  lemma PatchableExactly(size: nat, patch: U16, dest: U16)
    ensures CanPatch(size, patch, dest) <==>
              && patch + 2 <= size
              && exists operand: seq<Byte> :: |operand| == 2 && Move(size, patch + 2, ReadI16(operand)) == Some(dest)
  {
    if CanPatch(size, patch, dest) {
      I16RoundTrip(Distance(patch, dest));
      assert Move(size, patch + 2, ReadI16(I16Bytes(Distance(patch, dest)))) == Some(dest);
    }
  }

  function Patched(code: seq<Byte>, patch: U16, dest: U16): (r: seq<Byte>)
    requires CanPatch(|code|, patch, dest)
    ensures |r| == |code|
    ensures ReadI16(r[patch..patch + 2]) == Distance(patch, dest)
    ensures forall k :: 0 <= k < |code| && !(patch <= k < patch + 2) ==> r[k] == code[k]
  {
    var bytes := I16Bytes(Distance(patch, dest));
    I16RoundTrip(Distance(patch, dest));
    var r := code[..patch] + bytes + code[patch + 2..];
    assert r[patch..patch + 2] == bytes;
    r
  }

  /** Appends opcodes and operands to a growing code vector, and patches distances into it. */
  class BytecodeBuilder {
    var code: seq<Byte>

    constructor ()
      ensures code == []
    {
      code := [];
    }

    method WriteOpcode(op: Byte) returns (s: Status)
      modifies this
      ensures s.Ok? <==> 0 < op < OP_LAST
      ensures code == if s.Ok? then old(code) + [op] else old(code)
    {
      if 0 < op < OP_LAST {
        WriteU8(op);
        return OK;
      }
      return Err(ObjectInvariant);
    }

    method WriteU8(v: Byte)
      modifies this
      ensures code == old(code) + [v]
    {
      code := code + [v];
    }

    method WriteU16(v: U16)
      modifies this
      ensures code == old(code) + U16Bytes(v)
    {
      code := code + U16Bytes(v);
    }

    method WriteU32(v: U32)
      modifies this
      ensures code == old(code) + U32Bytes(v)
    {
      code := code + U32Bytes(v);
    }

    /** Reserves a two-byte operand; its position is cast to 16 bits. */
    method MakePatch() returns (patch: U16)
      modifies this
      ensures patch == ToU16(|old(code)|)
      ensures code == old(code) + [0, 0]
    {
      patch := ToU16(|code|);
      WriteU16(0);
    }

    /** Writes a jump or branch opcode and reserves its distance. */
    method Jump(op: Byte) returns (patch: U16)
      requires HasDistance(op)
      modifies this
      ensures patch == ToU16(|old(code)| + 1)
      ensures code == old(code) + [op, 0, 0]
    {
      var _ := WriteOpcode(op);
      patch := MakePatch();
    }

    /** The current position, cast to 16 bits. */
    method MakeLabel() returns (dest: U16)
      ensures dest == ToU16(|code|)
    {
      dest := ToU16(|code|);
    }

    method Patch(patch: U16, dest: U16) returns (s: Status)
      modifies this
      ensures s == FailIf(!CanPatch(|old(code)|, patch, dest), ObjectInvariant)
      ensures code == if s.Ok? then Patched(old(code), patch, dest) else old(code)
    {
      if patch + 1 >= |code| {
        return Err(ObjectInvariant);
      }
      if dest > |code| {
        return Err(ObjectInvariant);
      }
      var delta := dest - (patch + 2);
      if delta < -0x8000 || delta > 0x7FFF {
        return Err(ObjectInvariant);
      }
      code := code[..patch] + I16Bytes(delta) + code[patch + 2..];
      return OK;
    }
  }
}
