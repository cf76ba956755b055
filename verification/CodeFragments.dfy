/** Code fragments: lists of symbolic instructions that are edited in place and then written out. */
module CodeFragments {
  import opened BigEndian
  import opened Bytecode
  import opened Emission
  import Fragments
  import opened Instructions
  import JumpTables
  import opened ObjectWriters
  import SymbolIndex
  import opened Symbols
  import opened Wrappers

  // ---------- writing one instruction ----------

  /** What the fragment has to remember about an instruction that was written. */
  datatype Fixup = NoFixup | LabelAt(name: string, dest: U16) | PatchAt(target: U32, patch: U16)

  function FixupOf(ins: Instruction, at: nat): Fixup {
    if ins.Label? then LabelAt(ins.name, ToU16(at))
    else if IsTransfer(ins) then PatchAt(ins.target, ToU16(at + 1))
    else NoFixup
  }

  /** The code has grown by the bytes of the instruction, or the instruction has none. */
  ghost predicate Written<T>(before: seq<Byte>, after: seq<Byte>, encoded: Result<seq<Byte>>, r: Result<T>) {
    if r.Ok? then encoded.Ok? && after == before + encoded.value else encoded == Err(r.condition)
  }

  method WriteAddressed(builder: BytecodeBuilder, op: Byte, flag: Byte, address: U32)
    requires 0 < op < OP_LAST
    modifies builder
    ensures builder.code == old(builder.code) + ([op, flag] + U32Bytes(address))
  {
    var _ := builder.WriteOpcode(op);
    builder.WriteU8(flag);
    builder.WriteU32(address);
  }

  method ApplyImmediate(ins: Instruction, builder: BytecodeBuilder)
    requires ins.Noop? || ins.NilImmediate? || ins.UndefImmediate? || ins.BoolImmediate?
          || ins.U8Immediate? || ins.U16Immediate? || ins.U32Immediate? || ins.U64Immediate?
    modifies builder
    ensures forall idx :: Encode(ins, idx).Ok? && builder.code == old(builder.code) + Encode(ins, idx).value
  {
    var opcode :=
      match ins
      case Noop => OP_NOOP
      case NilImmediate => OP_NIL
      case UndefImmediate => OP_UNDEF
      case BoolImmediate(b) => if b then OP_TRUE else OP_FALSE
      case U8Immediate(_) => OP_U8
      case U16Immediate(_) => OP_U16
      case U32Immediate(_) => OP_U32
      case _ => OP_U64;
    var _ := builder.WriteOpcode(opcode);
    match ins {
      case U8Immediate(v) => builder.WriteU8(v);
      case U16Immediate(v) => builder.WriteU16(v);
      case U32Immediate(v) => builder.WriteU32(v);
      case U64Immediate(hi, lo) =>
        builder.WriteU32(hi);
        builder.WriteU32(lo);
      case _ =>
    }
  }

  predicate IsOperation(ins: Instruction) {
    || ins.ArithmeticOperation? || ins.CompareOperation? || ins.LogicalOperation? || ins.BitwiseOperation?
    || ins.TypeOperation? || ins.StackOperation?
  }

  predicate IsMemoryAccess(ins: Instruction) {
    ins.LoadLiteral? || ins.LoadData? || ins.LoadDescriptor? || ins.LoadSynthetic? || ins.LoadType? || ins.StoreData?
  }

  method ApplyOperation(ins: Instruction, builder: BytecodeBuilder) returns (s: Status)
    requires IsOperation(ins)
    modifies builder
    ensures forall idx :: Written(old(builder.code), builder.code, Encode(ins, idx), s)
  {
    var op := ins.opcode;
    var valid :=
      match ins
      case ArithmeticOperation(_) => OP_ADD <= op <= OP_NEG
      case CompareOperation(_) => op == OP_CMP
      case LogicalOperation(_) => OP_LOGICAL_AND <= op <= OP_LOGICAL_NOT
      case BitwiseOperation(_) => OP_BITWISE_AND <= op <= OP_BITWISE_SHL
      case TypeOperation(_) => op == OP_TYPE_CMP || op == OP_TYPE_OF
      case _ => op == OP_POP || op == OP_DUP || op == OP_PICK || op == OP_DROP;
    if !valid {
      return Err(AssemblerInvariant);
    }
    var _ := builder.WriteOpcode(op);
    if op == OP_PICK || op == OP_DROP {
      builder.WriteU16(ins.offset);
    }
    return OK;
  }

  method AddressOf(symbol: Symbol, writer: ObjectWriter) returns (r: Result<U32>)
    ensures r == DataAddress(symbol, writer.State())
  {
    if InActivation(symbol.kind) {
      return Ok(symbol.slot);
    }
    r := writer.GetSectionAddress(symbol.url, LinkageOf(symbol.kind));
  }

  /** Writes the load or store of a variable or symbol. */
  method ApplyAccess(symbol: Symbol, op: Byte, flag: Option<Byte>, writer: ObjectWriter, builder: BytecodeBuilder)
      returns (s: Status)
    requires 0 < op < OP_LAST
    modifies builder
    ensures Written(old(builder.code), builder.code,
                    if flag == None then Err(InvalidBinding)
                    else WithAddress([op, flag.value], DataAddress(symbol, writer.State())), s)
  {
    if flag == None {
      return Err(InvalidBinding);
    }
    var address :- AddressOf(symbol, writer);
    WriteAddressed(builder, op, flag.value, address);
    return OK;
  }

  method ApplyConstant(ins: Instruction, writer: ObjectWriter, builder: BytecodeBuilder) returns (s: Status)
    requires ins.LoadLiteral? || ins.LoadSynthetic? || ins.LoadType?
    modifies builder
    ensures Written(old(builder.code), builder.code, Encode(ins, writer.State()), s)
  {
    hide SymbolIndex.LiteralAddress, SymbolIndex.TypeOffset;
    match ins {
      case LoadLiteral(op, literal) =>
        if op != OP_BYTES && op != OP_STRING {
          return Err(AssemblerInvariant);
        }
        var address :- writer.GetLiteralAddress(literal);
        var _ := builder.WriteOpcode(op);
        builder.WriteU32(address);
      case LoadSynthetic(synthetic) =>
        if synthetic.OtherSynthetic? {
          return Err(AssemblerInvariant);
        }
        var _ := builder.WriteOpcode(OP_SYNTHETIC);
        builder.WriteU8(if synthetic.This? then 1 else 2);
      case LoadType(t) =>
        var address :- writer.GetTypeOffset(t);
        WriteAddressed(builder, OP_DESCRIPTOR, SectionByte(TypeSection), address);
    }
    return OK;
  }

  method ApplyLoad(ins: Instruction, writer: ObjectWriter, builder: BytecodeBuilder) returns (s: Status)
    requires IsMemoryAccess(ins)
    modifies builder
    ensures Written(old(builder.code), builder.code, Encode(ins, writer.State()), s)
  {
    hide DataAddress, Written, WithAddress;
    if ins.LoadData? {
      s := ApplyAccess(ins.symbol, OP_LOAD, LoadFlag(ins.symbol.kind), writer, builder);
    } else if ins.LoadDescriptor? {
      var section := if HasDescriptor(ins.symbol.kind) then Some(SectionByte(LinkageOf(ins.symbol.kind))) else None;
      s := ApplyAccess(ins.symbol, OP_DESCRIPTOR, section, writer, builder);
    } else if ins.StoreData? {
      s := ApplyAccess(ins.symbol, OP_STORE, StoreFlag(ins.symbol.kind), writer, builder);
    } else {
      s := ApplyConstant(ins, writer, builder);
    }
  }

  method ApplyCall(ins: Instruction, writer: ObjectWriter, builder: BytecodeBuilder) returns (s: Status)
    requires ins.Call? || ins.New?
    modifies builder
    ensures Written(old(builder.code), builder.code, Encode(ins, writer.State()), s)
  {
    var op := if ins.Call? then ins.opcode else OP_NEW;
    var section := if ins.Call? then CallTarget(ins.opcode, ins.symbol.kind) else Some(CallSection);
    if section == None {
      return Err(AssemblerInvariant);
    }
    var address :- writer.GetSectionAddress(ins.symbol.url, section.value);
    WriteAddressed(builder, op, ins.flags, address);
    builder.WriteU16(ins.placement);
    return OK;
  }

  method ApplyTransfer(op: Byte, target: U32, builder: BytecodeBuilder) returns (r: Result<Fixup>)
    modifies builder
    ensures r.Ok? <==> HasDistance(op)
    ensures r.Ok? ==>
              && builder.code == old(builder.code) + [op, 0, 0]
              && r.value == PatchAt(target, ToU16(|old(builder.code)| + 1))
    ensures r.Err? ==> r.condition == AssemblerInvariant
  {
    if op != OP_JUMP && !IsBranch(op) {
      return Err(AssemblerInvariant);
    }
    var patch := builder.Jump(op);
    return Ok(PatchAt(target, patch));
  }

  /** The instructions that consist of an opcode. */
  function PlainOpcode(ins: Instruction): (op: Option<Byte>)
    ensures op.Some? ==> 0 < op.value < OP_LAST && forall idx :: Encode(ins, idx) == Ok([op.value])
  {
    match ins
    case Return => Some(OP_RETURN)
    case Raise => Some(OP_RAISE)
    case VaLoad => Some(OP_VA_LOAD)
    case VaSize => Some(OP_VA_SIZE)
    case Interrupt => Some(OP_INTERRUPT)
    case Halt => Some(OP_HALT)
    case Abort => Some(OP_ABORT)
    case _ => None
  }

  /** Writes one instruction; a label or a jump also reports where it is. */
  method Apply(ins: Instruction, writer: ObjectWriter, builder: BytecodeBuilder) returns (r: Result<Fixup>)
    modifies builder
    ensures Written(old(builder.code), builder.code, Encode(ins, writer.State()), r)
    ensures r.Ok? ==> r.value == FixupOf(ins, |old(builder.code)|)
  {
    if ins.Label? {
      var dest := builder.MakeLabel();
      return Ok(LabelAt(ins.name, dest));
    }
    if ins.Jump? {
      r := ApplyTransfer(OP_JUMP, ins.target, builder);
      return;
    }
    if ins.Branch? {
      if ins.opcode == OP_JUMP {
        return Err(AssemblerInvariant);
      }
      r := ApplyTransfer(ins.opcode, ins.target, builder);
      return;
    }
    var s := ApplyOther(ins, writer, builder);
    return if s.Ok? then Ok(NoFixup) else Err(s.condition);
  }

  method ApplyOther(ins: Instruction, writer: ObjectWriter, builder: BytecodeBuilder) returns (s: Status)
    requires !ins.Label? && !IsTransfer(ins)
    modifies builder
    ensures Written(old(builder.code), builder.code, Encode(ins, writer.State()), s)
  {
    hide Encode;
    s := OK;
    if PlainOpcode(ins).Some? {
      s := builder.WriteOpcode(PlainOpcode(ins).value);
    } else if IsOperation(ins) {
      s := ApplyOperation(ins, builder);
    } else if IsMemoryAccess(ins) {
      s := ApplyLoad(ins, writer, builder);
    } else if ins.Call? || ins.New? {
      s := ApplyCall(ins, writer, builder);
    } else {
      ApplyImmediate(ins, builder);
    }
  }

  // ---------- the tables of a procedure ----------

  class JumpTable {
    var nextId: U32
    var labelTargets: map<string, set<U32>>
    var jumpLabels: map<U32, string>

    function State(): JumpTables.Tables
      reads this
    {
      JumpTables.Tables(nextId, labelTargets, jumpLabels)
    }

    constructor ()
      ensures State() == JumpTables.NO_TABLES
    {
      nextId, labelTargets, jumpLabels := 0, map[], map[];
    }

    method MakeLabel(userLabel: string) returns (r: Result<string>)
      modifies this
      ensures (r, State()) == JumpTables.MakeLabel(old(State()), userLabel)
    {
      var labelName := userLabel;
      if labelName == "" {
        if nextId == JumpTables.MAX_ID {
          return Err(AssemblerInvariant);
        }
        labelName := JumpTables.AutoLabel(nextId);
        if labelName in labelTargets {
          return Err(AssemblerInvariant);
        }
        nextId := nextId + 1;
      } else if labelName in labelTargets {
        return Err(AssemblerInvariant);
      }
      labelTargets := labelTargets[labelName := {}];
      return Ok(labelName);
    }

    method MakeJump() returns (r: Result<U32>)
      modifies this
      ensures (r, State()) == JumpTables.MakeJump(old(State()))
    {
      if nextId == JumpTables.MAX_ID {
        return Err(AssemblerInvariant);
      }
      var targetId := nextId;
      nextId := nextId + 1;
      jumpLabels := jumpLabels[targetId := ""];
      return Ok(targetId);
    }

    method PatchTarget(target: U32, name: string) returns (s: Status)
      modifies this
      ensures (s, State()) == JumpTables.PatchTarget(old(State()), target, name)
    {
      if name !in labelTargets {
        return Err(AssemblerInvariant);
      }
      if target !in jumpLabels {
        return Err(AssemblerInvariant);
      }
      labelTargets := labelTargets[name := labelTargets[name] + {target}];
      jumpLabels := jumpLabels[target := name];
      return OK;
    }
  }

  // ---------- fragments ----------

  class CodeFragment {
    const tables: JumpTable
    var statements: seq<Instruction>

    constructor (tables: JumpTable)
      ensures this.tables == tables && statements == []
    {
      this.tables := tables;
      statements := [];
    }

    /** Another, empty fragment of the same procedure. */
    method MakeFragment() returns (fragment: CodeFragment)
      ensures fresh(fragment) && fragment.tables == tables && fragment.statements == []
    {
      fragment := new CodeFragment(tables);
    }

    method AppendInstruction(ins: Instruction)
      modifies this
      ensures statements == old(statements) + [ins]
    {
      statements := statements + [ins];
    }

    /** An index that is not inside the fragment, even a negative one, appends. */
    method InsertInstruction(index: int, ins: Instruction)
      modifies this
      ensures statements == Fragments.InsertAt(old(statements), index, [ins])
      ensures !(0 <= index < |old(statements)|) ==> statements == old(statements) + [ins]
    {
      if index < 0 || index >= |statements| {
        AppendInstruction(ins);
        return;
      }
      statements := statements[..index] + [ins] + statements[index..];
    }

    method AppendLabel(userLabel: string) returns (r: Result<string>)
      modifies this, tables
      ensures (r, tables.State()) == JumpTables.MakeLabel(old(tables.State()), userLabel)
      ensures statements == if r.Ok? then old(statements) + [Label(r.value)] else old(statements)
    {
      var labelName :- tables.MakeLabel(userLabel);
      statements := statements + [Label(labelName)];
      return Ok(labelName);
    }

    method InsertLabel(index: int, userLabel: string) returns (r: Result<string>)
      modifies this, tables
      ensures (r, tables.State()) == JumpTables.MakeLabel(old(tables.State()), userLabel)
      ensures statements == if r.Ok? then Fragments.InsertAt(old(statements), index, [Label(r.value)])
                else old(statements)
      ensures r.Ok? && !(0 <= index < |old(statements)|) ==> statements == old(statements) + [Label(r.value)]
    {
      if index < 0 || index >= |statements| {
        r := AppendLabel(userLabel);
        return;
      }
      var labelName :- tables.MakeLabel(userLabel);
      statements := statements[..index] + [Label(labelName)] + statements[index..];
      return Ok(labelName);
    }

    /** The other fragment is copied and stays as it is. */
    method AppendFragment(fragment: CodeFragment)
      modifies this
      ensures statements == old(statements) + old(fragment.statements)
    {
      statements := statements + fragment.statements;
    }

    method InsertFragment(index: int, fragment: CodeFragment)
      modifies this
      ensures statements == Fragments.InsertAt(old(statements), index, old(fragment.statements))
      ensures !(0 <= index < |old(statements)|) ==> statements == old(statements) + old(fragment.statements)
    {
      if index < 0 || index >= |statements| {
        AppendFragment(fragment);
        return;
      }
      statements := statements[..index] + fragment.statements + statements[index..];
    }

    method RemoveStatement(index: nat)
      requires index < |statements|
      modifies this
      ensures statements == Fragments.RemoveAt(old(statements), index)
    {
      statements := statements[..index] + statements[index + 1..];
    }

    /** An opcode that is no jump uses up a target id all the same. */
    method MakeJump(op: Byte) returns (r: Result<U32>)
      modifies this, tables
      ensures var made := JumpTables.MakeJump(old(tables.State()));
              && tables.State() == made.1
              && r == (if HasDistance(op) then made.0 else Err(AssemblerInvariant))
      ensures statements == if r.Ok? then old(statements) + [Fragments.JumpOf(op, r.value)] else old(statements)
    {
      var targetId :- tables.MakeJump();
      if op == OP_JUMP {
        statements := statements + [Jump(targetId)];
      } else if IsBranch(op) {
        statements := statements + [Branch(op, targetId)];
      } else {
        return Err(AssemblerInvariant);
      }
      return Ok(targetId);
    }

    method PatchTarget(target: U32, name: string) returns (s: Status)
      requires name != ""
      modifies tables
      ensures (s, tables.State()) == JumpTables.PatchTarget(old(tables.State()), target, name)
    {
      s := tables.PatchTarget(target, name);
    }

    /** Touches every statement, up to the first that cannot be touched; `more(i)` is what touching
        the i-th tracks beyond its own subject. */
    method Touch(writer: ObjectWriter, more: nat -> seq<SymbolIndex.Insertion>) returns (s: Status)
      modifies writer
      ensures (s, writer.State()) == TouchUpTo(old(writer.State()), statements, more)
    {
      hide SymbolIndex.Insert, SymbolIndex.InsertAll, Subject, Touchable;
      ghost var before := writer.State();
      var i := 0;
      while i < |statements|
        invariant 0 <= i <= |statements|
        invariant TouchUpTo(before, statements[..i], more) == (OK, writer.State())
      {
        assert statements[..i + 1][..i] == statements[..i];
        if !Touchable(statements[i]) {
          TouchStops(before, statements, more, i);
          return Err(AssemblerInvariant);
        }
        if Subject(statements[i]).Some? {
          writer.Insert(Subject(statements[i]).value);
        }
        writer.InsertAll(more(i));
        i := i + 1;
      }
      assert statements[..i] == statements;
      return OK;
    }

    /** Writes every statement, and notes where labels are and where distances are to be patched. */
    method Build(writer: ObjectWriter, builder: BytecodeBuilder)
      returns (s: Status, labelOffsets: map<string, U16>, patchOffsets: map<U32, U16>)
      requires builder.code == []
      modifies builder
      ensures s.Ok? ==> Emit(statements, writer.State()) == Ok(builder.code)
      ensures s.Ok? ==> labelOffsets == LabelOffsets(statements) && patchOffsets == PatchOffsets(statements)
      ensures s.Err? ==> Emit(statements, writer.State()) == Err(s.condition)
    {
      hide Encode;
      labelOffsets, patchOffsets := map[], map[];
      var i := 0;
      while i < |statements|
        invariant 0 <= i <= |statements|
        invariant Emit(statements[..i], writer.State()) == Ok(builder.code)
        invariant labelOffsets == LabelOffsets(statements[..i]) && patchOffsets == PatchOffsets(statements[..i])
      {
        var ins := statements[i];
        ghost var upto := statements[..i + 1];
        assert upto[..i] == statements[..i];
        EmitSucceeds(statements[..i], writer.State());
        OffsetPrefix(upto, i, i);
        var r := Apply(ins, writer, builder);
        if r.Err? {
          EmitFails(statements, writer.State(), i + 1);
          return Err(r.condition), labelOffsets, patchOffsets;
        }
        match r.value {
          case LabelAt(name, dest) => labelOffsets := labelOffsets[name := dest];
          case PatchAt(target, patch) => patchOffsets := patchOffsets[target := patch];
          case NoFixup =>
        }
        i := i + 1;
      }
      assert statements[..i] == statements;
      return OK, labelOffsets, patchOffsets;
    }
  }

  /** A failure of a prefix is the failure of the whole. */
  lemma {:induction false} EmitFails(stmts: seq<Instruction>, idx: SymbolIndex.Index, n: nat)
    requires n <= |stmts| && Emit(stmts[..n], idx).Err?
    ensures Emit(stmts, idx) == Emit(stmts[..n], idx)
    decreases |stmts|
  {
    hide Encode;
    if n < |stmts| {
      var m := |stmts| - 1;
      assert stmts[..m][..n] == stmts[..n];
      EmitFails(stmts[..m], idx, n);
    } else {
      assert stmts[..n] == stmts;
    }
  }
}
