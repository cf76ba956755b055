/** The symbolic instructions of a fragment, how each one is encoded, and what each one
    makes the object writer track beforehand. */
module Instructions {
  import opened BigEndian
  import opened Bytecode
  import opened Interpreter
  import opened Symbols
  import opened SymbolIndex
  import opened TypeDefs
  import opened Wrappers

  datatype SyntheticType = This | Rest | OtherSynthetic

  datatype Instruction =
    | Noop
    | NilImmediate
    | UndefImmediate
    | BoolImmediate(b: bool)
    | U8Immediate(u8: Byte)
    | U16Immediate(u16: U16)
    | U32Immediate(u32: U32)
    | U64Immediate(hi: U32, lo: U32)
    | ArithmeticOperation(opcode: Byte)
    | CompareOperation(opcode: Byte)
    | LogicalOperation(opcode: Byte)
    | BitwiseOperation(opcode: Byte)
    | TypeOperation(opcode: Byte)
    | StackOperation(opcode: Byte, offset: U16)
    | LoadLiteral(opcode: Byte, literal: Literal)
    | LoadData(symbol: Symbol)
    | LoadDescriptor(symbol: Symbol)
    | LoadSynthetic(synthetic: SyntheticType)
    | LoadType(typeDef: TypeDef)
    | StoreData(symbol: Symbol)
    | Label(name: string)
    | Jump(target: U32)
    | Branch(opcode: Byte, target: U32)
    | Call(opcode: Byte, symbol: Symbol, placement: U16, flags: Byte)
    | Return
    | Raise
    | New(symbol: Symbol, placement: U16, flags: Byte)
    | VaLoad
    | VaSize
    | Interrupt
    | Halt
    | Abort

  predicate IsTransfer(ins: Instruction) {
    ins.Jump? || ins.Branch?
  }

  /** The instructions a procedure may end with. */
  predicate IsTerminator(ins: Instruction) {
    ins.Jump? || ins.Return? || ins.Interrupt? || ins.Abort? || ins.Halt?
  }

  // ---------- encoding ----------

  function Plain(valid: bool, op: Byte): Result<seq<Byte>> {
    if valid then Ok([op]) else Err(AssemblerInvariant)
  }

  function WithAddress(head: seq<Byte>, address: Result<U32>): Result<seq<Byte>> {
    if address.Err? then Err(address.condition) else Ok(head + U32Bytes(address.value))
  }

  function WithPlacement(head: Result<seq<Byte>>, placement: U16): Result<seq<Byte>> {
    if head.Err? then head else Ok(head.value + U16Bytes(placement))
  }

  /** The flag byte of a load, with the section to look the symbol up in. */
  function LoadFlag(kind: SymbolType): Option<Byte> {
    match kind
    case Argument => Some(1)
    case Local => Some(2)
    case Lexical => Some(3)
    case Field => Some(4)
    case Static => Some(5)
    case Instance => Some(6)
    case Enum => Some(7)
    case Protocol => Some(8)
    case Namespace => Some(9)
    case _ => None
  }

  function StoreFlag(kind: SymbolType): Option<Byte> {
    match kind
    case Argument => Some(1)
    case Local => Some(2)
    case Lexical => Some(3)
    case Field => Some(4)
    case Static => Some(5)
    case _ => None
  }

  predicate InActivation(kind: SymbolType) {
    kind.Argument? || kind.Local? || kind.Lexical?
  }

  /** Variables of an activation are addressed by slot, everything else through the writer. */
  function DataAddress(symbol: Symbol, idx: Index): Result<U32> {
    if InActivation(symbol.kind) then Ok(symbol.slot)
    else SectionAddress(idx, symbol.url, LinkageOf(symbol.kind))
  }

  predicate HasDescriptor(kind: SymbolType) {
    || kind.Action? || kind.Call? || kind.Class? || kind.Concept? || kind.Enum? || kind.Existential?
    || kind.Field? || kind.Instance? || kind.Namespace? || kind.Struct?
  }

  /** The section a call opcode looks its symbol up in; two of the opcodes insist on the kind of the symbol. */
  function CallTarget(op: Byte, kind: SymbolType): Option<Section> {
    if op == OP_CALL_VIRTUAL then if kind.Call? then Some(CallSection) else None
    else if op == OP_CALL_STUB then if kind.Action? then Some(ActionSection) else None
    else if op == OP_CALL_EXISTENTIAL || op == OP_CALL_STATIC then Some(CallSection)
    else if op == OP_CALL_CONCEPT then Some(ActionSection)
    else None
  }

  /** The bytes of an instruction; the distance of a jump or branch is still zero. */
  function Encode(ins: Instruction, idx: Index): Result<seq<Byte>> {
    match ins
    case Noop => Ok([OP_NOOP])
    case NilImmediate => Ok([OP_NIL])
    case UndefImmediate => Ok([OP_UNDEF])
    case BoolImmediate(b) => Ok([if b then OP_TRUE else OP_FALSE])
    case U8Immediate(v) => Ok([OP_U8, v])
    case U16Immediate(v) => Ok([OP_U16] + U16Bytes(v))
    case U32Immediate(v) => Ok([OP_U32] + U32Bytes(v))
    case U64Immediate(hi, lo) => Ok([OP_U64] + U64Bytes(hi, lo))
    case ArithmeticOperation(op) => Plain(OP_ADD <= op <= OP_NEG, op)
    case CompareOperation(op) => Plain(op == OP_CMP, op)
    case LogicalOperation(op) => Plain(OP_LOGICAL_AND <= op <= OP_LOGICAL_NOT, op)
    case BitwiseOperation(op) => Plain(OP_BITWISE_AND <= op <= OP_BITWISE_SHL, op)
    case TypeOperation(op) => Plain(op == OP_TYPE_CMP || op == OP_TYPE_OF, op)
    case StackOperation(op, offset) =>
      if op == OP_POP || op == OP_DUP then Ok([op])
      else if op == OP_PICK || op == OP_DROP then Ok([op] + U16Bytes(offset))
      else Err(AssemblerInvariant)
    case LoadLiteral(op, literal) =>
      if op == OP_BYTES || op == OP_STRING then WithAddress([op], LiteralAddress(idx, literal))
      else Err(AssemblerInvariant)
    case LoadData(symbol) =>
      if LoadFlag(symbol.kind) == None then Err(InvalidBinding)
      else WithAddress([OP_LOAD, LoadFlag(symbol.kind).value], DataAddress(symbol, idx))
    case LoadDescriptor(symbol) =>
      if !HasDescriptor(symbol.kind) then Err(InvalidBinding)
      else WithAddress([OP_DESCRIPTOR, SectionByte(LinkageOf(symbol.kind))], DataAddress(symbol, idx))
    case LoadSynthetic(synthetic) =>
      if synthetic.OtherSynthetic? then Err(AssemblerInvariant)
      else Ok([OP_SYNTHETIC, if synthetic.This? then 1 else 2])
    case LoadType(t) => WithAddress([OP_DESCRIPTOR, SectionByte(TypeSection)], TypeOffset(idx, t))
    case StoreData(symbol) =>
      if StoreFlag(symbol.kind) == None then Err(InvalidBinding)
      else WithAddress([OP_STORE, StoreFlag(symbol.kind).value], DataAddress(symbol, idx))
    case Label(_) => Ok([])
    case Jump(_) => Ok([OP_JUMP, 0, 0])
    case Branch(op, _) => if IsBranch(op) then Ok([op, 0, 0]) else Err(AssemblerInvariant)
    case Call(op, symbol, placement, flags) =>
      var section := CallTarget(op, symbol.kind);
      if section == None then Err(AssemblerInvariant)
      else WithPlacement(WithAddress([op, flags], SectionAddress(idx, symbol.url, section.value)), placement)
    case Return => Ok([OP_RETURN])
    case Raise => Ok([OP_RAISE])
    case New(symbol, placement, flags) =>
      WithPlacement(WithAddress([OP_NEW, flags], SectionAddress(idx, symbol.url, CallSection)), placement)
    case VaLoad => Ok([OP_VA_LOAD])
    case VaSize => Ok([OP_VA_SIZE])
    case Interrupt => Ok([OP_INTERRUPT])
    case Halt => Ok([OP_HALT])
    case Abort => Ok([OP_ABORT])
  }

  /** The size of an instruction is a matter of its shape, not of the addresses in it. */
  function Size(ins: Instruction): nat {
    match ins
    case U8Immediate(_) => 2
    case U16Immediate(_) => 3
    case U32Immediate(_) => 5
    case U64Immediate(_, _) => 9
    case StackOperation(op, _) => if op == OP_PICK || op == OP_DROP then 3 else 1
    case LoadLiteral(_, _) => 5
    case LoadData(_) => 6
    case LoadDescriptor(_) => 6
    case LoadSynthetic(_) => 2
    case LoadType(_) => 6
    case StoreData(_) => 6
    case Label(_) => 0
    case Jump(_) => 3
    case Branch(_, _) => 3
    case Call(_, _, _, _) => 8
    case New(_, _, _) => 8
    case _ => 1
  }

  /** What an encoded instruction tells a reader: its opcode fixes its length and how control leaves it. */
  lemma EncodedShape(ins: Instruction, idx: Index)
    requires Encode(ins, idx).Ok?
    ensures |Encode(ins, idx).value| == Size(ins)
    ensures !ins.Label? ==>
              var bytes := Encode(ins, idx).value;
              && 0 < bytes[0] < OP_LAST
              && 1 + OperandSize(bytes[0]) == Size(ins)
              && (HasDistance(bytes[0]) <==> IsTransfer(ins))
              && (IsTransfer(ins) ==> bytes == [bytes[0], 0, 0])
              && (bytes[0] == OP_JUMP <==> ins.Jump?)
              && (ins.Branch? ==> bytes[0] == ins.opcode)
              && (bytes[0] == OP_RAISE <==> ins.Raise?)
              && (Leaves(bytes[0]) <==> ins.Return? || ins.Raise? || ins.Interrupt? || ins.Halt? || ins.Abort?)
  {
    hide U16Bytes, U32Bytes, U64Bytes, SectionAddress, DataAddress, LiteralAddress, TypeOffset;
    U64Size();
  }

  /** A procedure may end with exactly the instructions after which the interpreter never is at the following
      one, except with a raise. */
  lemma TerminatorsExactly(ins: Instruction, idx: Index)
    requires !ins.Label? && Encode(ins, idx).Ok?
    ensures Encode(ins, idx).value != []
    ensures var action := ActionAt(Encode(ins, idx).value[0]);
            IsTerminator(ins) <==> GoesElsewhere(action) && action != RaiseException
  {
    EncodedShape(ins, idx);
    hide Encode, OperandSize;
    LeavesElsewhere(Encode(ins, idx).value[0]);
  }

  lemma U64Size()
    ensures forall hi: U32, lo: U32 :: |U64Bytes(hi, lo)| == 8
  {
  }

  // ---------- touching ----------

  /** What an instruction asks the writer to track. */
  function Subject(ins: Instruction): Option<Insertion> {
    match ins
    case LoadLiteral(_, literal) => Some(OfLiteral(literal))
    case LoadData(symbol) =>
      if symbol.kind in {SymbolType.Enum, Field, Instance, Protocol, Static} then Some(OfSymbol(symbol)) else None
    case LoadDescriptor(symbol) => Some(OfSymbol(symbol))
    case LoadType(t) => Some(OfType(t))
    case StoreData(symbol) => if symbol.kind in {SymbolType.Field, Static} then Some(OfSymbol(symbol)) else None
    case Call(_, symbol, _, _) =>
      if symbol.kind in {SymbolType.Action, SymbolType.Call} then Some(OfSymbol(symbol)) else None
    case New(symbol, _, _) => Some(OfSymbol(symbol))
    case _ => None
  }

  /** A descriptor load of something that has none, and a construction by something that is no call, cannot be
      touched. */
  predicate Touchable(ins: Instruction) {
    && (ins.LoadDescriptor? ==> HasDescriptor(ins.symbol.kind) || ins.symbol.kind.Protocol?)
    && (ins.New? ==> ins.symbol.kind.Call?)
  }

  function Touch(idx: Index, ins: Instruction): Result<Index> {
    if !Touchable(ins) then Err(AssemblerInvariant)
    else match Subject(ins)
      case None => Ok(idx)
      case Some(insertion) => Ok(Insert(idx, insertion))
  }

  /** Touches the instructions in order. Touching one may track more than its own subject
      (the receiver of a method, the types of its parameters): `more(i)` is what follows the i-th. */
  function TouchAll(idx: Index, stmts: seq<Instruction>, more: nat -> seq<Insertion>): Result<Index>
    decreases |stmts|
  {
    if stmts == [] then Ok(idx)
    else
      var before :- TouchAll(idx, stmts[..|stmts| - 1], more);
      var after :- Touch(before, stmts[|stmts| - 1]);
      Ok(InsertAll(after, more(|stmts| - 1)))
  }

  /** The touch pass with what it leaves behind when it fails: whatever was tracked up to the first
      instruction that cannot be touched. */
  function TouchUpTo(idx: Index, stmts: seq<Instruction>, more: nat -> seq<Insertion>): (Status, Index)
    decreases |stmts|
  {
    if stmts == [] then (OK, idx)
    else
      var n := |stmts| - 1;
      var (status, before) := TouchUpTo(idx, stmts[..n], more);
      if status.Err? then (status, before)
      else match Touch(before, stmts[n])
        case Err(condition) => (Err(condition), before)
        case Ok(after) => (OK, InsertAll(after, more(n)))
  }

  lemma {:induction false} TouchUpToAll(idx: Index, stmts: seq<Instruction>, more: nat -> seq<Insertion>)
    ensures var (status, after) := TouchUpTo(idx, stmts, more);
            TouchAll(idx, stmts, more) == if status.Ok? then Ok(after) else Err(status.condition)
    decreases |stmts|
  {
    hide Touch, InsertAll;
    if stmts != [] {
      TouchUpToAll(idx, stmts[..|stmts| - 1], more);
    }
  }

  /** The pass stops where it first fails. */
  lemma {:induction false} TouchStops(idx: Index, stmts: seq<Instruction>, more: nat -> seq<Insertion>, n: nat)
    requires n < |stmts| && TouchUpTo(idx, stmts[..n], more).0.Ok? && !Touchable(stmts[n])
    ensures TouchUpTo(idx, stmts, more) == (Err(AssemblerInvariant), TouchUpTo(idx, stmts[..n], more).1)
    decreases |stmts|
  {
    hide Touchable, InsertAll, Subject;
    var m := |stmts| - 1;
    if n < m {
      assert stmts[..m][..n] == stmts[..n];
      TouchStops(idx, stmts[..m], more, n);
    }
  }

  /** The symbol an instruction looks up, if it looks one up. */
  function SymbolOf(ins: Instruction): Option<Symbol> {
    if ins.LoadData? || ins.LoadDescriptor? || ins.StoreData? || ins.Call? || ins.New? then Some(ins.symbol) else None
  }

  /** A url stands for one symbol: it is not entered in a section other than the symbol's own. */
  predicate Agrees(idx: Index, symbol: Symbol) {
    symbol.url in idx.entries ==> EntrySection(idx, symbol.url) == Some(LinkageOf(symbol.kind))
  }

  /** Whether an instruction suits the interpreter, once everything it refers to is tracked: what the
      interpreter does at its opcode is what the instruction is for, and there is a place, or a section with
      descriptors, for a symbol of its kind. */
  ghost predicate Encodable(ins: Instruction) {
    match ins
    case ArithmeticOperation(op) => ActionAt(op) == Compute(Arithmetic)
    case CompareOperation(op) => ActionAt(op) == Compute(Comparison)
    case LogicalOperation(op) => ActionAt(op) == Compute(Logical)
    case BitwiseOperation(op) => ActionAt(op) == Compute(Bitwise)
    case TypeOperation(op) => ActionAt(op) == Compute(OfTypes)
    case StackOperation(op, _) => ActionAt(op) == ArrangeStack
    case LoadLiteral(op, _) => ActionAt(op) == PushLiteral
    case LoadData(symbol) => CanLoad(symbol.kind) && !symbol.kind.Namespace?
    case LoadDescriptor(symbol) =>
      LinkageOf(symbol.kind) !in {NoSection, StaticSection, ProtocolSection, BindingSection}
    case LoadSynthetic(synthetic) => !synthetic.OtherSynthetic?
    case StoreData(symbol) => CanStore(symbol.kind)
    case Branch(op, _) => ActionAt(op) == TestAndJump
    case Call(op, symbol, _, _) => ActionAt(op) == Invoke && LinkageOf(symbol.kind) == CalledSection(op)
    case New(symbol, _, _) => LinkageOf(symbol.kind) == CallSection
    case _ => true
  }

  /** A load or store has a flag for exactly the kinds of symbols that the interpreter has a place for. */
  lemma FlagsExactly(kind: SymbolType)
    ensures LoadFlag(kind).Some? <==> CanLoad(kind)
    ensures StoreFlag(kind).Some? <==> CanStore(kind)
    ensures LoadFlag(kind).Some? ==> LoadPlace(LoadFlag(kind).value) == PlaceFor(kind)
    ensures StoreFlag(kind).Some? ==> StorePlace(StoreFlag(kind).value) == PlaceFor(kind)
  {
    if LoadFlag(kind).Some? {
      assert LoadPlace(LoadFlag(kind).value) == PlaceFor(kind);
    }
    if StoreFlag(kind).Some? {
      assert StorePlace(StoreFlag(kind).value) == PlaceFor(kind);
    }
  }

  /** An operation, a branch or a call is encoded only with an opcode at which the interpreter does what it is
      for, and an operation or a branch with each of them. */
  lemma OpcodesExactly(ins: Instruction, idx: Index)
    ensures ins.ArithmeticOperation? || ins.CompareOperation? || ins.LogicalOperation? || ins.BitwiseOperation?
              || ins.TypeOperation? || ins.StackOperation? || ins.Branch? ==>
              (Encode(ins, idx).Ok? <==> Encodable(ins))
    ensures ins.Call? && Encode(ins, idx).Ok? ==> ActionAt(ins.opcode) == Invoke
  {
    hide U16Bytes, U32Bytes, SectionAddress, LinkageOf, CalledSection;
  }

  /** A load of a namespace is not touched, so it depends on the namespace being tracked for another reason. */
  predicate LoadsTrackedNamespace(ins: Instruction, idx: Index) {
    ins.LoadData? && ins.symbol.kind.Namespace? && ins.symbol.url in idx.entries
  }

  /** The touch pass refuses the descriptors and constructions that could not be encoded, and nothing else. It
      lets the descriptor of a protocol pass, which cannot be encoded either. */
  lemma TouchableExactly(ins: Instruction)
    ensures Touchable(ins) <==>
              (ins.LoadDescriptor? || ins.New? ==> Encodable(ins) || (ins.LoadDescriptor? && ins.symbol.kind.Protocol?))
  {
  }

  /** The touch pass succeeds exactly when it refuses no instruction. */
  lemma {:induction false} TouchSucceeds(idx: Index, stmts: seq<Instruction>, more: nat -> seq<Insertion>)
    ensures TouchAll(idx, stmts, more).Ok? <==> forall i :: 0 <= i < |stmts| ==> Touchable(stmts[i])
    decreases |stmts|
  {
    hide Touchable, Subject, Insert, InsertAll;
    if stmts != [] {
      TouchSucceeds(idx, stmts[..|stmts| - 1], more);
    }
  }

  /** Nothing more is touched than what is looked up: of the instructions that suit the interpreter those that make the
      writer track nothing are the ones that need nothing tracked, and loads of namespaces. */
  lemma TouchesWhatIsLookedUp(ins: Instruction)
    requires Encodable(ins) || (ins.LoadData? && ins.symbol.kind.Namespace?)
    ensures Subject(ins).None? <==> Encode(ins, EMPTY).Ok? || (ins.LoadData? && ins.symbol.kind.Namespace?)
  {
    hide U16Bytes, U32Bytes, U64Bytes;
    if SymbolOf(ins).Some? {
      FlagsExactly(ins.symbol.kind);
      hide CanLoad, CanStore;
    } else if Subject(ins).None? {
      OthersEncode(ins, EMPTY);
    }
  }

  predicate Entered(idx: Index, insertion: Insertion) {
    match insertion
    case OfSymbol(symbol) => symbol.url in idx.entries
    case OfType(t) => t in idx.typeOffsets
    case OfLiteral(literal) => literal in idx.literalOffsets
    case OfImport(location) => location in idx.importOffsets
  }

  lemma InsertEnters(idx: Index, ins: Instruction)
    requires Consistent(idx) && Touch(idx, ins).Ok?
    ensures Consistent(Touch(idx, ins).value) && Extends(idx, Touch(idx, ins).value)
    ensures Subject(ins).Some? ==> Entered(Touch(idx, ins).value, Subject(ins).value)
  {
    hide Consistent, Extends, Insert, Touchable, Subject;
    if Subject(ins).Some? {
      InsertConsistent(idx, Subject(ins).value);
      if Subject(ins).value.OfSymbol? {
        SubjectTracked(ins);
      }
      NowEntered(idx, Subject(ins).value);
    } else {
      ExtendsItself(idx);
    }
  }

  lemma SubjectTracked(ins: Instruction)
    requires Touchable(ins) && Subject(ins).Some? && Subject(ins).value.OfSymbol?
    ensures Tracked(Subject(ins).value.symbol.kind)
  {
  }

  lemma NowEntered(idx: Index, insertion: Insertion)
    requires insertion.OfSymbol? ==> Tracked(insertion.symbol.kind)
    ensures Entered(Insert(idx, insertion), insertion)
  {
  }

  /** After the touch pass the subject of every instruction is entered, and stays entered. */
  lemma {:induction false} TouchEntersSubjects(idx: Index, stmts: seq<Instruction>, more: nat -> seq<Insertion>, i: nat)
    requires Consistent(idx) && TouchAll(idx, stmts, more).Ok?
    ensures Consistent(TouchAll(idx, stmts, more).value) && Extends(idx, TouchAll(idx, stmts, more).value)
    ensures i < |stmts| ==> Touchable(stmts[i])
    ensures i < |stmts| && Subject(stmts[i]).Some? ==>
              Entered(TouchAll(idx, stmts, more).value, Subject(stmts[i]).value)
    decreases |stmts|
  {
    hide Consistent, Extends, Entered, InsertAll, Subject;
    if stmts == [] {
      ExtendsItself(idx);
    } else {
      var n := |stmts| - 1;
      var before := TouchAll(idx, stmts[..n], more).value;
      TouchEntersSubjects(idx, stmts[..n], more, i);
      InsertEnters(before, stmts[n]);
      var after := Touch(before, stmts[n]).value;
      RunConsistent(after, more(n));
      var last := InsertAll(after, more(n));
      ExtendsTransitive(before, after, last);
      ExtendsTransitive(idx, before, last);
      if i < |stmts| && Subject(stmts[i]).Some? {
        if i < n {
          assert stmts[..n][i] == stmts[i];
          EntersStay(before, last, Subject(stmts[i]).value);
        } else {
          EntersStay(after, last, Subject(stmts[i]).value);
        }
      }
    }
  }

  /** When a symbol can be addressed, given that its url stands for it alone. */
  predicate AddressedWhenEntered(idx: Index, symbol: Symbol) {
    forall section :: SectionAddress(idx, symbol.url, section).Ok?
                 <==> symbol.url in idx.entries && section == LinkageOf(symbol.kind)
  }

  lemma AccessEncodes(ins: Instruction, idx: Index)
    requires (ins.LoadData? || ins.StoreData? || ins.LoadDescriptor?) && AddressedWhenEntered(idx, ins.symbol)
    requires Touchable(ins) && (Subject(ins).Some? ==> Entered(idx, Subject(ins).value))
    ensures Encode(ins, idx).Ok? <==> Encodable(ins) || LoadsTrackedNamespace(ins, idx)
  {
    FlagsExactly(ins.symbol.kind);
    hide CanLoad, CanStore, SectionAddress, U32Bytes;
    assert !InActivation(ins.symbol.kind) ==> (DataAddress(ins.symbol, idx).Ok? <==> ins.symbol.url in idx.entries);
  }

  lemma CallEncodes(ins: Instruction, idx: Index)
    requires (ins.Call? || ins.New?) && AddressedWhenEntered(idx, ins.symbol)
    requires Touchable(ins) && (Subject(ins).Some? ==> Entered(idx, Subject(ins).value))
    ensures Encode(ins, idx).Ok? <==> Encodable(ins)
  {
    hide SectionAddress, U32Bytes, U16Bytes;
  }

  lemma EntersStay(a: Index, b: Index, insertion: Insertion)
    requires Extends(a, b) && Entered(a, insertion)
    ensures Entered(b, insertion)
  {
  }

  lemma EncodesWhenEntered(ins: Instruction, idx: Index)
    requires Consistent(idx) && (SymbolOf(ins).Some? ==> Agrees(idx, SymbolOf(ins).value))
    requires Touchable(ins) && (Subject(ins).Some? ==> Entered(idx, Subject(ins).value))
    ensures Encode(ins, idx).Ok? <==> Encodable(ins) || LoadsTrackedNamespace(ins, idx)
  {
    hide Consistent, Encode, Encodable, Touchable, Subject, Entered, SectionAddress;
    if SymbolOf(ins).Some? {
      var url := ins.symbol.url;
      forall section
        ensures SectionAddress(idx, url, section).Ok? <==> url in idx.entries && section == LinkageOf(ins.symbol.kind)
      {
        AddressedInOwnSection(idx, url, section);
      }
      if ins.Call? || ins.New? {
        CallEncodes(ins, idx);
      } else {
        AccessEncodes(ins, idx);
      }
    } else {
      OthersEncode(ins, idx);
    }
  }

  lemma OthersEncode(ins: Instruction, idx: Index)
    requires SymbolOf(ins).None? && (Subject(ins).Some? ==> Entered(idx, Subject(ins).value))
    ensures Encode(ins, idx).Ok? <==> Encodable(ins)
  {
    OpcodesExactly(ins, idx);
    hide U16Bytes, U32Bytes, U64Bytes, ActionAt;
    assert ins.LoadLiteral? ==> (Encodable(ins) <==> ins.opcode in {OP_BYTES, OP_STRING}) by {
      LiteralOpcodes();
    }
  }

  /** The condition with which an instruction is refused: an invalid binding for a symbol that cannot be
      accessed in this way, and an invariant for an opcode that does not suit or anything that is not tracked. */
  lemma RefusedWith(ins: Instruction, idx: Index)
    requires Encode(ins, idx).Err?
    ensures Encode(ins, idx).condition ==
              if (ins.LoadData? && !CanLoad(ins.symbol.kind)) || (ins.StoreData? && !CanStore(ins.symbol.kind))
                 || (ins.LoadDescriptor? && !Encodable(ins))
              then InvalidBinding else AssemblerInvariant
  {
    hide U16Bytes, U32Bytes, U64Bytes;
    if ins.LoadData? || ins.StoreData? {
      FlagsExactly(ins.symbol.kind);
      hide CanLoad, CanStore;
    }
  }

  lemma LiteralOpcodes()
    ensures forall op: Byte :: ActionAt(op) == PushLiteral <==> op in {OP_BYTES, OP_STRING}
  {
  }

  /** The touch pass covers the build pass: whatever is inserted after it, an instruction of the
      fragment fails to be encoded exactly when its opcode does not suit its operand, or it loads
      a namespace that nothing else made the writer track. */
  lemma TouchCoversBuild(idx: Index, stmts: seq<Instruction>, more: nat -> seq<Insertion>, final: Index, i: nat)
    requires Consistent(idx) && TouchAll(idx, stmts, more).Ok?
    requires Consistent(final) && Extends(TouchAll(idx, stmts, more).value, final)
    requires i < |stmts| && (SymbolOf(stmts[i]).Some? ==> Agrees(final, SymbolOf(stmts[i]).value))
    ensures Encode(stmts[i], final).Ok? <==> Encodable(stmts[i]) || LoadsTrackedNamespace(stmts[i], final)
  {
    TouchEntersSubjects(idx, stmts, more, i);
    var after := TouchAll(idx, stmts, more).value;
    if Subject(stmts[i]).Some? {
      EntersStay(after, final, Subject(stmts[i]).value);
    }
    EncodesWhenEntered(stmts[i], final);
  }
}
