/** What the operands of executed instructions denote: the interpreter's side of the encoding. */
module Operands {
  import opened BigEndian
  import opened Bytecode
  import opened ControlFlow
  import opened Emission
  import opened Instructions
  import opened Interpreter
  import opened Symbols
  import opened SymbolIndex
  import opened TypeDefs
  import opened Wrappers

  // ---------- what the operands stand for ----------

  /** The place and address are those of the symbol. */
  ghost predicate Refers(idx: Index, place: Place, address: U32, symbol: Symbol) {
    match place
    case ActivationSlot(kind) => symbol.kind == kind && address == symbol.slot
    case InSection(section) => section == LinkageOf(symbol.kind) && Denoted(idx, section, address) == Some(symbol.url)
    case NoPlace => false
  }

  /** What the interpreter does at the opcode is what the instruction is for, and what it reads from the
      operands is what the instruction names. The distance of a jump is another matter. */
  ghost predicate Denotes(idx: Index, op: Byte, operands: seq<Byte>, ins: Instruction) {
    match ins
    case Jump(_) => ActionAt(op) == JumpAlways
    case Branch(o, _) => op == o && ActionAt(op) == TestAndJump
    case _ => |operands| == OperandSize(op) && (OpcodeDenotes(op, ins) || OperandsDenote(idx, op, operands, ins))
  }

  /** The instructions that consist of an opcode. */
  ghost predicate OpcodeDenotes(op: Byte, ins: Instruction) {
    match ins
    case Noop => ActionAt(op) == Proceed
    case NilImmediate => ActionAt(op) == Push(Nil)
    case UndefImmediate => ActionAt(op) == Push(Undef)
    case BoolImmediate(b) => ActionAt(op) == Push(Bool(b))
    case ArithmeticOperation(o) => op == o && ActionAt(op) == Compute(Arithmetic)
    case CompareOperation(o) => op == o && ActionAt(op) == Compute(Comparison)
    case LogicalOperation(o) => op == o && ActionAt(op) == Compute(Logical)
    case BitwiseOperation(o) => op == o && ActionAt(op) == Compute(Bitwise)
    case TypeOperation(o) => op == o && ActionAt(op) == Compute(OfTypes)
    case VaLoad => ActionAt(op) == PushRest
    case VaSize => ActionAt(op) == PushRestSize
    case Return => ActionAt(op) == ReturnToCaller
    case Raise => ActionAt(op) == RaiseException
    case Interrupt => ActionAt(op) == InterruptRun
    case Halt => ActionAt(op) == HaltRun
    case Abort => ActionAt(op) == AbortRun
    case _ => false
  }

  /** The instructions that have operands. */
  ghost predicate OperandsDenote(idx: Index, op: Byte, operands: seq<Byte>, ins: Instruction)
    requires |operands| == OperandSize(op)
  {
    match ins
    case U8Immediate(v) => ActionAt(op) == PushWord(1) && operands == [v]
    case U16Immediate(v) => ActionAt(op) == PushWord(2) && ReadU16(operands) == v
    case U32Immediate(v) => ActionAt(op) == PushWord(4) && ReadU32(operands) == v
    case U64Immediate(hi, lo) =>
      ActionAt(op) == PushWord(8) && ReadU32(operands[..4]) == hi && ReadU32(operands[4..]) == lo
    case StackOperation(o, offset) =>
      op == o && ActionAt(op) == ArrangeStack && (op == OP_PICK || op == OP_DROP ==> ReadU16(operands) == offset)
    case LoadLiteral(o, literal) =>
      && op == o && ActionAt(op) == PushLiteral
      && ReadU32(operands) < |idx.literals| && idx.literals[ReadU32(operands)] == literal
    case LoadData(symbol) =>
      ActionAt(op) == LoadVariable && Refers(idx, LoadPlace(Flags(operands)), FlaggedAddress(operands), symbol)
    case StoreData(symbol) =>
      ActionAt(op) == StoreVariable && Refers(idx, StorePlace(Flags(operands)), FlaggedAddress(operands), symbol)
    case LoadDescriptor(symbol) =>
      && ActionAt(op) == PushDescriptor
      && Refers(idx, InSection(DescriptorSection(Flags(operands))), FlaggedAddress(operands), symbol)
    case LoadType(t) =>
      && ActionAt(op) == PushDescriptor && DescriptorSection(Flags(operands)) == TypeSection
      && FlaggedAddress(operands) < |idx.types| && idx.types[FlaggedAddress(operands)] == t
    case LoadSynthetic(synthetic) =>
      ActionAt(op) == PushSynthetic && Some(synthetic) == SyntheticOf(operands[0])
    case Call(o, symbol, placement, flags) =>
      && op == o && ActionAt(op) == Invoke && Flags(operands) == flags && PlacementOf(operands) == placement
      && Denoted(idx, CalledSection(op), FlaggedAddress(operands)) == Some(symbol.url)
    case New(symbol, placement, flags) =>
      && ActionAt(op) == Construct && Flags(operands) == flags && PlacementOf(operands) == placement
      && Denoted(idx, CallSection, FlaggedAddress(operands)) == Some(symbol.url)
    case _ => false
  }

  function SyntheticOf(operand: Byte): Option<SyntheticType> {
    match operand
    case 1 => Some(This)
    case 2 => Some(Rest)
    case _ => None
  }

  /** No vector of the writer is longer than an address can say. */
  ghost predicate Addressable(idx: Index) {
    && (forall section :: |idx.Vector(section)| <= 0x8000_0000)
    && |idx.links| < 0x8000_0000
    && |idx.types| < 0x1_0000_0000
    && |idx.literals| < 0x1_0000_0000
  }

  lemma ReadFlagged(head: seq<Byte>, flag: Byte, address: U32, tail: seq<Byte>)
    requires |head| == 1
    ensures var operands := (head + [flag] + U32Bytes(address) + tail)[1..];
            |operands| == 5 + |tail| && Flags(operands) == flag && FlaggedAddress(operands) == address
            && operands[5..] == tail
  {
    hide U32Bytes, ReadU32;
    var operands := (head + [flag] + U32Bytes(address) + tail)[1..];
    assert operands == [flag] + U32Bytes(address) + tail;
    assert operands[1..5] == U32Bytes(address);
    U32RoundTrip(address);
  }

  lemma PlaceRefers(idx: Index, op: Byte, flag: Byte, symbol: Symbol, place: Place)
    requires Consistent(idx) && Addressable(idx)
    requires WithAddress([op, flag], DataAddress(symbol, idx)).Ok?
    requires place ==
               if InActivation(symbol.kind) then ActivationSlot(symbol.kind) else InSection(LinkageOf(symbol.kind))
    ensures var operands := WithAddress([op, flag], DataAddress(symbol, idx)).value[1..];
            |operands| == 5 && Flags(operands) == flag && Refers(idx, place, FlaggedAddress(operands), symbol)
  {
    hide Consistent, SectionAddress, Denoted, U32Bytes, FlaggedAddress;
    var address := DataAddress(symbol, idx).value;
    ReadFlagged([op], flag, address, []);
    assert [op] + [flag] + U32Bytes(address) + [] == [op, flag] + U32Bytes(address);
    if !InActivation(symbol.kind) {
      AddressDenotes(idx, symbol.url, LinkageOf(symbol.kind));
    }
  }

  lemma CallDenotes(idx: Index, op: Byte, flags: Byte, url: Url, section: Section, placement: U16)
    requires Consistent(idx) && Addressable(idx)
    requires WithPlacement(WithAddress([op, flags], SectionAddress(idx, url, section)), placement).Ok?
    ensures var operands := WithPlacement(WithAddress([op, flags], SectionAddress(idx, url, section)),
                                          placement).value[1..];
            |operands| == 7 && Flags(operands) == flags && PlacementOf(operands) == placement
            && Denoted(idx, section, FlaggedAddress(operands)) == Some(url)
  {
    hide Consistent, SectionAddress, Denoted, U32Bytes, U16Bytes, FlaggedAddress, ReadU16;
    var address := SectionAddress(idx, url, section).value;
    ReadFlagged([op], flags, address, U16Bytes(placement));
    assert [op] + [flags] + U32Bytes(address) + U16Bytes(placement)
        == [op, flags] + U32Bytes(address) + U16Bytes(placement);
    var operands := ([op, flags] + U32Bytes(address) + U16Bytes(placement))[1..];
    assert operands[5..7] == operands[5..];
    U16RoundTrip(placement);
    AddressDenotes(idx, url, section);
  }

  lemma TableDenotes(idx: Index)
    requires Consistent(idx) && Addressable(idx)
    ensures forall l :: LiteralAddress(idx, l).Ok? ==>
              LiteralAddress(idx, l).value < |idx.literals| && idx.literals[LiteralAddress(idx, l).value] == l
    ensures forall t :: TypeOffset(idx, t).Ok? ==>
              TypeOffset(idx, t).value < |idx.types| && idx.types[TypeOffset(idx, t).value] == t
  {
  }

  /** Every encoded instruction denotes what was meant: at its opcode the interpreter does what the
      instruction is for, and behind its operands it finds the slot, symbol, type, literal, placement or
      number that the instruction names. */
  lemma EncodingDenotes(ins: Instruction, idx: Index)
    requires Consistent(idx) && Addressable(idx) && !ins.Label? && Encode(ins, idx).Ok?
    ensures var bytes := Encode(ins, idx).value;
            bytes != [] && |bytes[1..]| == OperandSize(bytes[0]) && Denotes(idx, bytes[0], bytes[1..], ins)
  {
    hide Consistent, Addressable, Encode, OperandSize, Denotes;
    EncodedShape(ins, idx);
    if ins.LoadData? || ins.StoreData? || ins.LoadDescriptor? {
      DataDenotes(ins, idx);
    } else if ins.Call? || ins.New? {
      InvocationDenotes(ins, idx);
    } else if ins.LoadLiteral? || ins.LoadType? {
      TablesDenote(ins, idx);
    } else if Size(ins) == 1 || IsTransfer(ins) {
      OpcodeAloneDenotes(ins, idx);
    } else {
      NumbersDenote(ins, idx);
    }
  }

  lemma DataDenotes(ins: Instruction, idx: Index)
    requires Consistent(idx) && Addressable(idx) && Encode(ins, idx).Ok?
              && (ins.LoadData? || ins.StoreData? || ins.LoadDescriptor?)
    ensures var bytes := Encode(ins, idx).value;
            bytes != [] && Denotes(idx, bytes[0], bytes[1..], ins)
  {
    hide Consistent, Addressable, Encode, Refers, FlaggedAddress, LoadPlace, StorePlace, DescriptorSection;
    AccessDenotes(ins, idx);
  }

  lemma InvocationDenotes(ins: Instruction, idx: Index)
    requires Consistent(idx) && Addressable(idx) && Encode(ins, idx).Ok? && (ins.Call? || ins.New?)
    ensures var bytes := Encode(ins, idx).value;
            bytes != [] && Denotes(idx, bytes[0], bytes[1..], ins)
  {
    hide Consistent, Addressable, Denoted, SectionAddress, FlaggedAddress, PlacementOf, U32Bytes, U16Bytes;
    EncodedShape(ins, idx);
    hide OperandSize;
    if ins.Call? {
      CallDenotes(idx, ins.opcode, ins.flags, ins.symbol.url, CallTarget(ins.opcode, ins.symbol.kind).value,
                  ins.placement);
    } else {
      CallDenotes(idx, OP_NEW, ins.flags, ins.symbol.url, CallSection, ins.placement);
    }
  }

  lemma OpcodeAloneDenotes(ins: Instruction, idx: Index)
    requires !ins.Label? && Encode(ins, idx).Ok? && (Size(ins) == 1 || IsTransfer(ins))
    ensures var bytes := Encode(ins, idx).value;
            bytes != [] && Denotes(idx, bytes[0], bytes[1..], ins)
  {
    hide Encode, Denotes;
    if ins.StackOperation? {
      PoppedOrDoubled(ins, idx);
      assert [ins.opcode][1..] == [];
    } else if ins.ArithmeticOperation? || ins.CompareOperation? || ins.LogicalOperation? || ins.BitwiseOperation?
               || ins.TypeOperation? || ins.Branch? {
      OperationDenotes(ins, idx);
    } else if ins.Noop? || ins.NilImmediate? || ins.UndefImmediate? || ins.BoolImmediate? || ins.Jump? {
      ImmediateDenotes(ins, idx);
    } else {
      ControlDenotes(ins, idx);
    }
  }

  lemma ImmediateDenotes(ins: Instruction, idx: Index)
    requires ins.Noop? || ins.NilImmediate? || ins.UndefImmediate? || ins.BoolImmediate? || ins.Jump?
    ensures Encode(ins, idx).Ok?
    ensures var bytes := Encode(ins, idx).value;
            bytes != [] && Denotes(idx, bytes[0], bytes[1..], ins)
  {
    EncodedShape(ins, idx);
    hide OperandsDenote, OperandSize;
  }

  lemma ControlActions()
    ensures ActionAt(OP_VA_LOAD) == PushRest && ActionAt(OP_VA_SIZE) == PushRestSize
    ensures ActionAt(OP_RETURN) == ReturnToCaller && ActionAt(OP_RAISE) == RaiseException
    ensures ActionAt(OP_INTERRUPT) == InterruptRun && ActionAt(OP_HALT) == HaltRun && ActionAt(OP_ABORT) == AbortRun
  {
  }

  lemma ControlDenotes(ins: Instruction, idx: Index)
    requires ins.VaLoad? || ins.VaSize? || ins.Return? || ins.Raise? || ins.Interrupt? || ins.Halt? || ins.Abort?
    ensures Encode(ins, idx).Ok?
    ensures var bytes := Encode(ins, idx).value;
            bytes != [] && Denotes(idx, bytes[0], bytes[1..], ins)
  {
    ControlActions();
    EncodedShape(ins, idx);
    hide OperandsDenote, OperandSize, ActionAt;
  }

  lemma OperationDenotes(ins: Instruction, idx: Index)
    requires ins.ArithmeticOperation? || ins.CompareOperation? || ins.LogicalOperation? || ins.BitwiseOperation?
              || ins.TypeOperation? || ins.Branch?
    requires Encode(ins, idx).Ok?
    ensures var bytes := Encode(ins, idx).value;
            bytes != [] && Denotes(idx, bytes[0], bytes[1..], ins)
  {
    EncodedShape(ins, idx);
    OpcodesExactly(ins, idx);
    hide OperandSize, OperandsDenote, ActionAt;
  }

  /** The interpreter decodes the flag of a load, a store or a descriptor to the kind of place that the
      symbol is in, and finds the symbol there under the address. */
  lemma AccessDenotes(ins: Instruction, idx: Index)
    requires Consistent(idx) && Addressable(idx) && Encode(ins, idx).Ok?
              && (ins.LoadData? || ins.StoreData? || ins.LoadDescriptor?)
    ensures var bytes := Encode(ins, idx).value;
            && |bytes| == 6
            && bytes[0] == (if ins.LoadData? then OP_LOAD else if ins.StoreData? then OP_STORE else OP_DESCRIPTOR)
            && var place := if ins.LoadData? then LoadPlace(Flags(bytes[1..]))
                            else if ins.StoreData? then StorePlace(Flags(bytes[1..]))
                            else InSection(DescriptorSection(Flags(bytes[1..])));
               Refers(idx, place, FlaggedAddress(bytes[1..]), ins.symbol)
  {
    hide Consistent, Addressable, DataAddress, U32Bytes, FlaggedAddress, SectionAddress;
    var kind := ins.symbol.kind;
    var place := if InActivation(kind) then ActivationSlot(kind) else InSection(LinkageOf(kind));
    match ins
    case LoadData(symbol) => PlaceRefers(idx, OP_LOAD, LoadFlag(kind).value, symbol, place);
    case StoreData(symbol) => PlaceRefers(idx, OP_STORE, StoreFlag(kind).value, symbol, place);
    case LoadDescriptor(symbol) => PlaceRefers(idx, OP_DESCRIPTOR, SectionByte(LinkageOf(kind)), symbol, place);
  }

  lemma TablesDenote(ins: Instruction, idx: Index)
    requires Consistent(idx) && Addressable(idx) && Encode(ins, idx).Ok? && (ins.LoadLiteral? || ins.LoadType?)
    ensures var bytes := Encode(ins, idx).value;
            bytes != [] && |bytes[1..]| == OperandSize(bytes[0]) && Denotes(idx, bytes[0], bytes[1..], ins)
  {
    TableDenotes(idx);
    hide Consistent, Addressable, U32Bytes, ReadU32, LiteralAddress, TypeOffset;
    var bytes := Encode(ins, idx).value;
    if ins.LoadLiteral? {
      U32RoundTrip(LiteralAddress(idx, ins.literal).value);
      assert bytes[1..] == U32Bytes(LiteralAddress(idx, ins.literal).value);
    } else {
      var offset := TypeOffset(idx, ins.typeDef).value;
      ReadFlagged([OP_DESCRIPTOR], SectionByte(TypeSection), offset, []);
      assert bytes == [OP_DESCRIPTOR] + [SectionByte(TypeSection)] + U32Bytes(offset) + [];
    }
  }

  lemma PoppedOrDoubled(ins: Instruction, idx: Index)
    requires ins.StackOperation? && Size(ins) == 1 && Encode(ins, idx).Ok?
    ensures Encode(ins, idx) == Ok([ins.opcode]) && Denotes(idx, ins.opcode, [], ins)
  {
    assert OperandsDenote(idx, ins.opcode, [], ins);
  }

  /** The instructions whose operands are numbers. */
  lemma NumbersDenote(ins: Instruction, idx: Index)
    requires ins.U8Immediate? || ins.U16Immediate? || ins.U32Immediate? || ins.U64Immediate? || ins.LoadSynthetic?
              || (ins.StackOperation? && Size(ins) == 3)
    requires Encode(ins, idx).Ok?
    ensures var bytes := Encode(ins, idx).value;
            bytes != [] && Denotes(idx, bytes[0], bytes[1..], ins)
  {
    EncodedShape(ins, idx);
    hide OperandSize, U32Bytes, U16Bytes, ReadU16, ReadU32;
    var bytes := Encode(ins, idx).value;
    if ins.U16Immediate? {
      U16RoundTrip(ins.u16);
      assert bytes[1..] == U16Bytes(ins.u16);
    } else if ins.U32Immediate? {
      U32RoundTrip(ins.u32);
      assert bytes[1..] == U32Bytes(ins.u32);
    } else if ins.U64Immediate? {
      WidestDenotes(ins.hi, ins.lo);
    } else if ins.StackOperation? {
      U16RoundTrip(ins.offset);
      assert bytes[1..] == U16Bytes(ins.offset);
    }
  }

  lemma WidestDenotes(hi: U32, lo: U32)
    ensures var operands := ([OP_U64] + U64Bytes(hi, lo))[1..];
            |operands| == 8 && ReadU32(operands[..4]) == hi && ReadU32(operands[4..]) == lo
  {
    hide U32Bytes, ReadU32;
    U32RoundTrip(hi);
    U32RoundTrip(lo);
    var operands := ([OP_U64] + U64Bytes(hi, lo))[1..];
    assert operands == U32Bytes(hi) + U32Bytes(lo);
    assert operands[..4] == U32Bytes(hi) && operands[4..] == U32Bytes(lo);
  }

  /** So wherever a run of assembled code stands, what the interpreter fetches there denotes the
      statement at that place. */
  lemma ExecutedDenotes(code: seq<Byte>, stmts: seq<Instruction>, jumps: JumpLabels, idx: Index, j: nat)
    requires Consistent(idx) && Addressable(idx)
    requires Assembled(code, stmts, jumps, idx) && j < |stmts| && !stmts[j].Label?
    ensures var cell := Fetch(code, Offset(stmts, j));
            cell.Some? && Denotes(idx, cell.value.opcode, cell.value.operands, stmts[j])
  {
    hide Consistent, Addressable, Encode, OperandSize, Denotes, Fetch, Assembled;
    FetchStatement(code, stmts, jumps, idx, j);
    StatementBytes(code, stmts, jumps, idx, j);
    EncodingDenotes(stmts[j], idx);
    var cell := Fetch(code, Offset(stmts, j)).value;
    if IsTransfer(stmts[j]) {
      DistanceAside(idx, cell.opcode, Encode(stmts[j], idx).value[1..], cell.operands, stmts[j]);
    }
  }

  lemma DistanceAside(idx: Index, op: Byte, operands: seq<Byte>, others: seq<Byte>, ins: Instruction)
    requires IsTransfer(ins) && Denotes(idx, op, operands, ins)
    ensures Denotes(idx, op, others, ins)
  {
  }

  // ---------- whole runs ----------

  /** The instructions that a run of code executes denote, one for one, the statements that the run of the
      fragment executes. */
  ghost predicate RunDenotes(byte: Run, symbolic: Run, stmts: seq<Instruction>, idx: Index) {
    && |byte.events| == |symbolic.places|
    && (forall k :: 0 <= k < |byte.events| ==>
          symbolic.places[k] < |stmts| && Denotes(idx, byte.events[k].opcode, byte.events[k].operands,
                                                  stmts[symbolic.places[k]]))
  }

  /** A run of a fragment executes the statements at its places. */
  lemma {:induction false} EventsOfPlaces(stmts: seq<Instruction>, jumps: JumpLabels, handlers: Handlers, idx: Index,
                                          i: nat, oracle: seq<Choice>)
    requires i <= |stmts|
    ensures var run := SymbolicRun(stmts, jumps, handlers, idx, i, oracle);
            && |run.events| == |run.places|
            && (forall k :: 0 <= k < |run.places| ==>
                  && run.places[k] < |stmts| && !stmts[run.places[k]].Label?
                  && run.events[k] == EventOf(stmts[run.places[k]], idx))
    decreases |oracle|
  {
    hide EventOf, SymbolicNext, Offset;
    if oracle != [] {
      var j := SkipLabels(stmts, i);
      if j < |stmts| {
        SkipLabelsFacts(stmts, i);
        var place := PlaceOf(SymbolicNext(stmts, jumps, handlers, j, oracle[0]));
        if place.Some? && place.value <= |stmts| {
          EventsOfPlaces(stmts, jumps, handlers, idx, place.value, oracle[1..]);
        }
      }
    }
  }

  lemma EventDenotes(ins: Instruction, idx: Index)
    requires Consistent(idx) && Addressable(idx) && !ins.Label? && Encode(ins, idx).Ok?
    ensures Denotes(idx, EventOf(ins, idx).opcode, EventOf(ins, idx).operands, ins)
  {
    hide Consistent, Addressable, Encode, OperandSize, Denotes;
    EncodingDenotes(ins, idx);
    if IsTransfer(ins) {
      DistanceAside(idx, Encode(ins, idx).value[0], Encode(ins, idx).value[1..], [], ins);
    }
  }

  /** Whatever values its branches test and whatever is raised: assembled code runs as the fragment does, and
      each instruction it executes denotes the statement that the fragment executes. */
  lemma RunsDenote(code: seq<Byte>, stmts: seq<Instruction>, jumps: JumpLabels, idx: Index, inCode: Handlers,
                   inFragment: Handlers, i: nat, oracle: seq<Choice>)
    requires Consistent(idx) && Addressable(idx)
    requires Assembled(code, stmts, jumps, idx) && HandlersMatch(stmts, inCode, inFragment)
    requires i < |stmts| && IsTerminator(stmts[|stmts| - 1])
    ensures SameRuns(code, stmts, jumps, idx, inCode, inFragment, i, oracle)
    ensures RunDenotes(ByteRun(code, inCode, Offset(stmts, i), oracle),
                       SymbolicRun(stmts, jumps, inFragment, idx, i, oracle), stmts, idx)
  {
    hide Consistent, Addressable, Assembled, Encode, Denotes, EventOf, ByteRun, SymbolicRun, HandlersMatch, Offset;
    RunsAgree(code, stmts, jumps, idx, inCode, inFragment, i, oracle);
    EventsOfPlaces(stmts, jumps, inFragment, idx, i, oracle);
    var places := SymbolicRun(stmts, jumps, inFragment, idx, i, oracle).places;
    forall k | 0 <= k < |places|
      ensures var event := EventOf(stmts[places[k]], idx);
              Denotes(idx, event.opcode, event.operands, stmts[places[k]])
    {
      StatementBytes(code, stmts, jumps, idx, places[k]);
      EventDenotes(stmts[places[k]], idx);
    }
  }
}
