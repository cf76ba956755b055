/** The interpreter's side of the bytecode: what it does at an opcode, which tests it takes a branch
    on, and how it takes operands apart. */
module Interpreter {
  import opened BigEndian
  import opened Bytecode
  import opened Symbols
  import opened Wrappers

  // ---------- what it does at an opcode ----------

  /** A value on the data stack, as far as the tests of branches look at it. */
  datatype Value = Nil | Undef | Bool(b: bool) | Number(n: real) | NotANumber | OtherValue

  datatype Computation = Arithmetic | Comparison | Logical | Bitwise | OfTypes

  datatype Action =
    | Proceed
    | Push(value: Value)
    | PushWord(size: nat)
    | PushLiteral
    | PushSynthetic
    | PushDescriptor
    | LoadVariable
    | StoreVariable
    | PushRest
    | PushRestSize
    | ArrangeStack
    | Compute(computation: Computation)
    | TestAndJump
    | JumpAlways
    | Invoke
    | Construct
    | ReturnToCaller
    | RaiseException
    | InterruptRun
    | HaltRun
    | AbortRun
    | OtherAction

  /** What it does at each opcode that the assembler writes. */
  function ActionAt(op: Byte): Action {
    if op < OP_IF_NIL then DataAction(op) else ControlAction(op)
  }

  function DataAction(op: Byte): Action {
    if op == OP_NOOP then Proceed
    else if op == OP_UNDEF then Push(Undef)
    else if op == OP_NIL then Push(Nil)
    else if op == OP_TRUE then Push(Bool(true))
    else if op == OP_FALSE then Push(Bool(false))
    else if op == OP_U8 then PushWord(1)
    else if op == OP_U16 then PushWord(2)
    else if op == OP_U32 then PushWord(4)
    else if op == OP_U64 then PushWord(8)
    else if op in {OP_BYTES, OP_STRING} then PushLiteral
    else if op == OP_SYNTHETIC then PushSynthetic
    else if op == OP_DESCRIPTOR then PushDescriptor
    else if op == OP_LOAD then LoadVariable
    else if op == OP_STORE then StoreVariable
    else if op == OP_VA_LOAD then PushRest
    else if op == OP_VA_SIZE then PushRestSize
    else if op in {OP_POP, OP_DUP, OP_PICK, OP_DROP} then ArrangeStack
    else if op in {OP_ADD, OP_SUB, OP_MUL, OP_DIV, OP_NEG} then Compute(Arithmetic)
    else if op == OP_CMP then Compute(Comparison)
    else if op == OP_TYPE_CMP then Compute(OfTypes)
    else if op in {OP_LOGICAL_AND, OP_LOGICAL_OR, OP_LOGICAL_NOT} then Compute(Logical)
    else if op in BITWISE then Compute(Bitwise)
    else OtherAction
  }

  function ControlAction(op: Byte): Action {
    if op in TESTS then TestAndJump
    else if op == OP_JUMP then JumpAlways
    else if op in {OP_CALL_STATIC, OP_CALL_VIRTUAL, OP_CALL_STUB, OP_CALL_CONCEPT, OP_CALL_EXISTENTIAL} then Invoke
    else if op == OP_RETURN then ReturnToCaller
    else if op == OP_RAISE then RaiseException
    else if op == OP_NEW then Construct
    else if op == OP_TYPE_OF then Compute(OfTypes)
    else if op == OP_INTERRUPT then InterruptRun
    else if op == OP_HALT then HaltRun
    else if op == OP_ABORT then AbortRun
    else OtherAction
  }

  const BITWISE := {OP_BITWISE_AND, OP_BITWISE_OR, OP_BITWISE_XOR, OP_BITWISE_NOT, OP_BITWISE_SHR, OP_BITWISE_SHL}

  const TESTS := {OP_IF_NIL, OP_IF_NOTNIL, OP_IF_TRUE, OP_IF_FALSE, OP_IF_ZERO, OP_IF_NOTZERO, OP_IF_GT, OP_IF_GE,
                  OP_IF_LT, OP_IF_LE}

  /** Whether a branch is taken when it pops this value; there is no answer for a value that its test is
      not about, and the interpreter gives up. */
  function Holds(op: Byte, v: Value): Option<bool> {
    if op == OP_IF_NIL then Some(v.Nil?)
    else if op == OP_IF_NOTNIL then Some(!v.Nil?)
    else if op == OP_IF_TRUE then if v.Bool? then Some(v.b) else None
    else if op == OP_IF_FALSE then if v.Bool? then Some(!v.b) else None
    else if v.NotANumber? then Some(op == OP_IF_NOTZERO)
    else if !v.Number? then None
    else if op == OP_IF_ZERO then Some(v.n == 0.0)
    else if op == OP_IF_NOTZERO then Some(v.n != 0.0)
    else if op == OP_IF_GT then Some(v.n > 0.0)
    else if op == OP_IF_GE then Some(v.n >= 0.0)
    else if op == OP_IF_LT then Some(v.n < 0.0)
    else if op == OP_IF_LE then Some(v.n <= 0.0)
    else None
  }

  /** The branches are exactly the opcodes at which the interpreter tests a value, and no two of them make
      the same test. */
  lemma TestsDiffer(op: Byte, other: Byte)
    ensures IsBranch(op) <==> ActionAt(op) == TestAndJump
    ensures IsBranch(op) && IsBranch(other) && op != other ==> exists v :: Holds(op, v) != Holds(other, v)
  {
    if IsBranch(op) && IsBranch(other) && op != other {
      var values := [Nil, Bool(true), Number(0.0), Number(1.0), Number(-1.0)];
      assert exists i :: 0 <= i < |values| && Holds(op, values[i]) != Holds(other, values[i]) by {
        assert values[0] == Nil && values[1] == Bool(true) && values[2] == Number(0.0) && values[3] == Number(1.0)
            && values[4] == Number(-1.0);
      }
    }
  }

  /** After these actions control is not at the following instruction: it has moved, or the activation or the whole run
      has ended. An exception may be caught in the same activation. */
  predicate GoesElsewhere(action: Action) {
    action in {JumpAlways, ReturnToCaller, RaiseException, InterruptRun, HaltRun, AbortRun}
  }

  lemma LeavesElsewhere(op: Byte)
    ensures Leaves(op) || op == OP_JUMP <==> GoesElsewhere(ActionAt(op))
  {
  }

  // ---------- how it takes operands apart ----------

  function Flags(operands: seq<Byte>): Byte
    requires operands != []
  {
    operands[0]
  }

  /** The address behind the flags. */
  function FlaggedAddress(operands: seq<Byte>): U32
    requires |operands| >= 5
  {
    ReadU32(operands[1..5])
  }

  function PlacementOf(operands: seq<Byte>): U16
    requires |operands| == 7
  {
    ReadU16(operands[5..7])
  }

  /** What a load or store accesses: a slot of the activation, or an address in a section. */
  datatype Place = ActivationSlot(kind: SymbolType) | InSection(section: Section) | NoPlace

  function LoadPlace(flag: Byte): Place {
    match flag
    case 1 => ActivationSlot(Argument)
    case 2 => ActivationSlot(Local)
    case 3 => ActivationSlot(Lexical)
    case 4 => InSection(FieldSection)
    case 5 => InSection(StaticSection)
    case 6 => InSection(InstanceSection)
    case 7 => InSection(EnumSection)
    case 8 => InSection(ProtocolSection)
    case 9 => InSection(NamespaceSection)
    case _ => NoPlace
  }

  function StorePlace(flag: Byte): Place {
    match flag
    case 1 => ActivationSlot(Argument)
    case 2 => ActivationSlot(Local)
    case 3 => ActivationSlot(Lexical)
    case 4 => InSection(FieldSection)
    case 5 => InSection(StaticSection)
    case _ => NoPlace
  }

  /** Where a symbol of this kind is found when a procedure runs. */
  function PlaceFor(kind: SymbolType): Place {
    match kind
    case Argument => ActivationSlot(kind)
    case Local => ActivationSlot(kind)
    case Lexical => ActivationSlot(kind)
    case _ => if LinkageOf(kind) == NoSection then NoPlace else InSection(LinkageOf(kind))
  }

  ghost predicate CanLoad(kind: SymbolType) {
    PlaceFor(kind) != NoPlace && exists flag: Byte :: LoadPlace(flag) == PlaceFor(kind)
  }

  ghost predicate CanStore(kind: SymbolType) {
    PlaceFor(kind) != NoPlace && exists flag: Byte :: StorePlace(flag) == PlaceFor(kind)
  }

  function DescriptorSection(flag: Byte): Section {
    match flag
    case 1 => TypeSection
    case 2 => ExistentialSection
    case 3 => LiteralSection
    case 4 => CallSection
    case 5 => FieldSection
    case 6 => StaticSection
    case 7 => ActionSection
    case 8 => ClassSection
    case 9 => StructSection
    case 10 => InstanceSection
    case 11 => ConceptSection
    case 12 => EnumSection
    case 13 => ProtocolSection
    case 14 => NamespaceSection
    case 15 => BindingSection
    case _ => NoSection
  }

  /** The section in which the interpreter looks up what it calls. */
  function CalledSection(op: Byte): Section {
    if op == OP_CALL_STUB || op == OP_CALL_CONCEPT then ActionSection else CallSection
  }
}
