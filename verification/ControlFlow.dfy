/** What it means to run a fragment and to run its assembled code, and that the two runs are the same. */
module ControlFlow {
  import opened BigEndian
  import opened Bytecode
  import opened Emission
  import opened Instructions
  import opened Interpreter
  import opened SymbolIndex
  import opened TypeDefs
  import opened Wrappers

  /** An executed instruction: its opcode, and its operands unless they are a distance. */
  datatype Event = Event(opcode: Byte, operands: seq<Byte>)

  datatype Outcome = Running | Stopped | Fault

  /** The instructions executed, where each one was found, the slots in which caught exceptions were
      stored, and how the run stands. */
  datatype Run = Run(events: seq<Event>, places: seq<nat>, caught: seq<nat>, outcome: Outcome) {
    function After(event: Event, place: nat, slots: seq<nat>): Run {
      Run([event] + events, [place] + places, slots + caught, outcome)
    }
  }

  const RUNNING := Run([], [], [], Running)
  const STOPPED := Run([], [], [], Stopped)
  const FAULT := Run([], [], [], Fault)

  /** An exception is known by the types that it is an instance of. */
  type Exception = TypeDef -> bool

  /** What an instruction finds on the data stack: the value that a branch tests, or what is raised. */
  datatype Choice = Choice(tested: Value, raised: Exception)

  /** Where an activation goes on when it catches an exception, and the slot that it stores it in. */
  datatype Handler = Handler(place: nat, slot: nat)

  /** The handler, if there is one, for an exception raised at a place. */
  type Handlers = (nat, Exception) -> Option<Handler>

  // ---------- running bytecode ----------

  datatype Next = Goto(place: nat) | Handled(handler: Handler) | Leave | Stray

  /** The slot that is written on the way, if an exception is caught. */
  function SlotsOf(next: Next): seq<nat> {
    if next.Handled? then [next.handler.slot] else []
  }

  function Caught(handler: Option<Handler>): Next {
    if handler.None? then Leave else Handled(handler.value)
  }

  /** Where the interpreter goes after the instruction at `curr`. An exception that this activation does
      not catch makes it leave, and so does a value that a branch cannot test. */
  function ByteNext(code: seq<Byte>, handlers: Handlers, curr: nat, cell: OpCell, choice: Choice): Next
    requires cell.next <= |code| && |cell.operands| == OperandSize(cell.opcode)
  {
    if cell.opcode == OP_RAISE then Caught(handlers(curr, choice.raised))
    else if Leaves(cell.opcode) then Leave
    else if IsBranch(cell.opcode) && Holds(cell.opcode, choice.tested) == None then Leave
    else if cell.opcode == OP_JUMP || (IsBranch(cell.opcode) && Holds(cell.opcode, choice.tested).value) then
      match Move(|code|, cell.next, ReadI16(cell.operands))
      case None => Stray
      case Some(place) => Goto(place)
    else Goto(cell.next)
  }

  /** Runs code from `curr`. Each executed instruction uses up one choice of the oracle; the run is
      cut off when the oracle is used up. */
  function ByteRun(code: seq<Byte>, handlers: Handlers, curr: nat, oracle: seq<Choice>): Run
    decreases |oracle|
  {
    if oracle == [] then RUNNING
    else match Fetch(code, curr)
      case None => FAULT
      case Some(cell) =>
        var next := ByteNext(code, handlers, curr, cell, oracle[0]);
        var rest :=
          match next
          case Leave => STOPPED
          case Stray => FAULT
          case Goto(place) => ByteRun(code, handlers, place, oracle[1..])
          case Handled(handler) => ByteRun(code, handlers, handler.place, oracle[1..]);
        rest.After(Event(cell.opcode, if HasDistance(cell.opcode) then [] else cell.operands), curr, SlotsOf(next))
  }

  // ---------- running a fragment ----------

  /** The first statement from `i` on that is not a label. */
  function SkipLabels(stmts: seq<Instruction>, i: nat): (j: nat)
    requires i <= |stmts|
    ensures i <= j <= |stmts|
    decreases |stmts| - i
  {
    if i < |stmts| && stmts[i].Label? then SkipLabels(stmts, i + 1) else i
  }

  ghost function Follow(stmts: seq<Instruction>, jumps: JumpLabels, t: U32): Next {
    if l: nat :| GoesTo(stmts, jumps, t, l) then Goto(l) else Stray
  }

  ghost function SymbolicNext(stmts: seq<Instruction>, jumps: JumpLabels, handlers: Handlers, j: nat,
                              choice: Choice): Next
    requires j < |stmts|
  {
    match stmts[j]
    case Raise => Caught(handlers(j, choice.raised))
    case Return => Leave
    case Interrupt => Leave
    case Halt => Leave
    case Abort => Leave
    case Jump(t) => Follow(stmts, jumps, t)
    case Branch(op, t) =>
      (match Holds(op, choice.tested)
       case None => Leave
       case Some(taken) => if taken then Follow(stmts, jumps, t) else Goto(j + 1))
    case _ => Goto(j + 1)
  }

  ghost function EventOf(ins: Instruction, idx: Index): Event {
    var bytes := Encode(ins, idx);
    if bytes.Err? || bytes.value == [] then Event(0, [])
    else Event(bytes.value[0], if IsTransfer(ins) then [] else bytes.value[1..])
  }

  /** Runs a fragment from statement `i`: labels are passed over, and a jump to target `t` goes
      to the label that the procedure's table gives for `t`. */
  ghost function SymbolicRun(stmts: seq<Instruction>, jumps: JumpLabels, handlers: Handlers, idx: Index, i: nat,
                             oracle: seq<Choice>): Run
    requires i <= |stmts|
    decreases |oracle|
  {
    if oracle == [] then RUNNING
    else
      var j := SkipLabels(stmts, i);
      if j == |stmts| then FAULT
      else
        var next := SymbolicNext(stmts, jumps, handlers, j, oracle[0]);
        var rest :=
          match next
          case Leave => STOPPED
          case Stray => FAULT
          case Goto(k) => if k <= |stmts| then SymbolicRun(stmts, jumps, handlers, idx, k, oracle[1..]) else FAULT
          case Handled(h) =>
            if h.place <= |stmts| then SymbolicRun(stmts, jumps, handlers, idx, h.place, oracle[1..]) else FAULT;
        rest.After(EventOf(stmts[j], idx), j, SlotsOf(next))
  }

  // ---------- the two runs are the same ----------

  lemma {:induction false} SkipLabelsFacts(stmts: seq<Instruction>, i: nat)
    requires i <= |stmts|
    ensures var j := SkipLabels(stmts, i);
            && Offset(stmts, j) == Offset(stmts, i)
            && (j < |stmts| ==> !stmts[j].Label?)
    ensures i < |stmts| && !stmts[|stmts| - 1].Label? ==> SkipLabels(stmts, i) < |stmts|
    decreases |stmts| - i
  {
    if i < |stmts| && stmts[i].Label? {
      SkipLabelsFacts(stmts, i + 1);
    }
  }

  /** The bytes of a statement: those of its encoding, but for the distance of a jump. */
  lemma StatementBytes(code: seq<Byte>, stmts: seq<Instruction>, jumps: JumpLabels, idx: Index, j: nat)
    requires Assembled(code, stmts, jumps, idx) && j < |stmts| && !stmts[j].Label?
    ensures var at := Offset(stmts, j);
            var end := Offset(stmts, j + 1);
            && at < end == at + Size(stmts[j]) <= |code|
            && Encode(stmts[j], idx).Ok? && Encode(stmts[j], idx).value != []
            && code[at] == Encode(stmts[j], idx).value[0]
            && (!IsTransfer(stmts[j]) ==> code[at + 1..end] == Encode(stmts[j], idx).value[1..])
  {
    OffsetMonotone(stmts, j + 1, |stmts|);
    EncodedShape(stmts[j], idx);
    hide Encode, OperandSize, Size;
    var at := Offset(stmts, j);
    assert Offset(stmts, j + 1) == at + Size(stmts[j]);
    hide Offset;
    if IsTransfer(stmts[j]) {
      HeldOpcode(code, stmts, jumps, idx, j);
    } else {
      var bytes := code[at..at + Size(stmts[j])];
      assert code[at] == bytes[0] && code[at + 1..at + Size(stmts[j])] == bytes[1..];
    }
  }

  lemma HeldOpcode(code: seq<Byte>, stmts: seq<Instruction>, jumps: JumpLabels, idx: Index, j: nat)
    requires j < |stmts| && IsTransfer(stmts[j]) && TransferAt(code, stmts, jumps, idx, j)
    ensures Offset(stmts, j) < |code| && Encode(stmts[j], idx) == Ok([code[Offset(stmts, j)], 0, 0])
  {
    hide Encode, Offset;
  }

  /** The instruction that a reader finds at the offset of a statement. */
  lemma FetchStatement(code: seq<Byte>, stmts: seq<Instruction>, jumps: JumpLabels, idx: Index, j: nat)
    requires Assembled(code, stmts, jumps, idx) && j < |stmts| && !stmts[j].Label?
    ensures var at := Offset(stmts, j);
            var cell := Fetch(code, at);
            && cell.Some?
            && EventOf(stmts[j], idx) ==
                 Event(cell.value.opcode, if HasDistance(cell.value.opcode) then [] else cell.value.operands)
            && cell.value.next == Offset(stmts, j + 1)
            && (HasDistance(cell.value.opcode) <==> IsTransfer(stmts[j]))
            && (cell.value.opcode == OP_JUMP <==> stmts[j].Jump?)
            && (stmts[j].Branch? ==> cell.value.opcode == stmts[j].opcode)
            && (cell.value.opcode == OP_RAISE <==> stmts[j].Raise?)
            && (Leaves(cell.value.opcode) <==>
                  var s := stmts[j]; s.Return? || s.Raise? || s.Interrupt? || s.Halt? || s.Abort?)
            && (IsTransfer(stmts[j]) ==> cell.value.operands == code[at + 1..at + 3])
  {
    StatementBytes(code, stmts, jumps, idx, j);
    EncodedShape(stmts[j], idx);
    hide Encode, OperandSize, Assembled, Offset, Size, Leaves, HasDistance, Fetch;
    FetchAt(code, Offset(stmts, j), Offset(stmts, j + 1));
  }

  /** An instruction that is all there is fetched. */
  lemma FetchAt(code: seq<Byte>, at: nat, next: nat)
    requires at < next <= |code| && code[at] != 0 && next == at + 1 + OperandSize(code[at])
    ensures Fetch(code, at) == Some(OpCell(code[at], code[at + 1..next], next))
  {
    hide OperandSize;
  }

  lemma JumpLands(code: seq<Byte>, stmts: seq<Instruction>, jumps: JumpLabels, idx: Index, j: nat)
    requires |code| == Offset(stmts, |stmts|)
    requires j < |stmts| && IsTransfer(stmts[j]) && TransferAt(code, stmts, jumps, idx, j)
    ensures Offset(stmts, j) + 3 == Offset(stmts, j + 1) <= |code|
    ensures Follow(stmts, jumps, stmts[j].target).Goto?
    ensures var l := Follow(stmts, jumps, stmts[j].target).place;
            && l < |stmts|
            && Move(|code|, Offset(stmts, j + 1), ReadI16(code[Offset(stmts, j) + 1..Offset(stmts, j) + 3]))
                == Some(Offset(stmts, l))
  {
    hide Encode, ReadI16, PlainAt;
    var l := Follow(stmts, jumps, stmts[j].target).place;
    assert GoesTo(stmts, jumps, stmts[j].target, l);
    OffsetMonotone(stmts, l, |stmts|);
    OffsetMonotone(stmts, j + 1, |stmts|);
  }

  function OffsetsOf(stmts: seq<Instruction>, places: seq<nat>): seq<nat>
    requires forall p :: p in places ==> p <= |stmts|
  {
    seq(|places|, k requires 0 <= k < |places| => assert places[k] in places; Offset(stmts, places[k]))
  }

  /** One step of the two runs from corresponding places leads to corresponding places. */
  ghost predicate Corresponds(stmts: seq<Instruction>, byte: Next, symbolic: Next) {
    match symbolic
    case Leave => byte == Leave
    case Stray => false
    case Goto(k) => k < |stmts| && byte == Goto(Offset(stmts, k))
    case Handled(h) => h.place < |stmts| && byte == Handled(Handler(Offset(stmts, h.place), h.slot))
  }

  /** The handlers for an exception raised by a statement are corresponding ones. */
  ghost predicate HandlersMatch(stmts: seq<Instruction>, inCode: Handlers, inFragment: Handlers) {
    forall j: nat, raised: Exception :: j < |stmts| && stmts[j].Raise? ==>
      Corresponds(stmts, Caught(inCode(Offset(stmts, j), raised)), Caught(inFragment(j, raised)))
  }

  lemma StepsCorrespond(code: seq<Byte>, stmts: seq<Instruction>, jumps: JumpLabels, idx: Index,
                        inCode: Handlers, inFragment: Handlers, j: nat, choice: Choice)
    requires Assembled(code, stmts, jumps, idx) && HandlersMatch(stmts, inCode, inFragment)
    requires j < |stmts| && !stmts[j].Label? && IsTerminator(stmts[|stmts| - 1])
    requires Fetch(code, Offset(stmts, j)).Some?
    ensures Corresponds(stmts, ByteNext(code, inCode, Offset(stmts, j), Fetch(code, Offset(stmts, j)).value, choice),
                        SymbolicNext(stmts, jumps, inFragment, j, choice))
  {
    hide Encode, OperandSize, TransferAt, PlainAt, Move, Holds, ReadI16, Offset, EventOf, Fetch, Caught;
    FetchStatement(code, stmts, jumps, idx, j);
    if IsTransfer(stmts[j]) {
      hide HandlersMatch;
      JumpLands(code, stmts, jumps, idx, j);
    }
  }

  /** From a statement and from its offset, the two runs execute the same instructions at
      corresponding places, store caught exceptions in the same slots and stand the same, and neither
      has faulted. */
  ghost predicate SameRuns(code: seq<Byte>, stmts: seq<Instruction>, jumps: JumpLabels, idx: Index,
                           inCode: Handlers, inFragment: Handlers, i: nat, oracle: seq<Choice>)
    requires i <= |stmts|
  {
    var byte := ByteRun(code, inCode, Offset(stmts, i), oracle);
    var symbolic := SymbolicRun(stmts, jumps, inFragment, idx, i, oracle);
    && byte.events == symbolic.events
    && byte.caught == symbolic.caught
    && byte.outcome == symbolic.outcome != Fault
    && (forall p :: p in symbolic.places ==> p < |stmts| && !stmts[p].Label?)
    && byte.places == OffsetsOf(stmts, symbolic.places)
  }

  lemma ConsOffsets(stmts: seq<Instruction>, j: nat, places: seq<nat>)
    requires j <= |stmts| && forall p :: p in places ==> p <= |stmts|
    ensures forall p :: p in [j] + places ==> p <= |stmts|
    ensures OffsetsOf(stmts, [j] + places) == [Offset(stmts, j)] + OffsetsOf(stmts, places)
  {
    hide Offset;
    forall p | p in [j] + places
      ensures p <= |stmts|
    {
      assert p == j || p in places;
    }
    var all := [j] + places;
    forall k | 0 <= k < |all|
      ensures OffsetsOf(stmts, all)[k] == ([Offset(stmts, j)] + OffsetsOf(stmts, places))[k]
    {
      assert all[k] == if k == 0 then j else places[k - 1];
    }
  }

  /** The place that a step leads to, unless the run ends. */
  function PlaceOf(next: Next): Option<nat> {
    match next
    case Goto(place) => Some(place)
    case Handled(handler) => Some(handler.place)
    case _ => None
  }

  lemma StepSame(code: seq<Byte>, stmts: seq<Instruction>, jumps: JumpLabels, idx: Index, inCode: Handlers,
                 inFragment: Handlers, i: nat, oracle: seq<Choice>, j: nat)
    requires oracle != [] && i <= |stmts| && j == SkipLabels(stmts, i) < |stmts| && !stmts[j].Label?
    requires Offset(stmts, i) == Offset(stmts, j) && Fetch(code, Offset(stmts, j)).Some?
    requires var cell := Fetch(code, Offset(stmts, j)).value;
             && EventOf(stmts[j], idx) == Event(cell.opcode, if HasDistance(cell.opcode) then [] else cell.operands)
             && Corresponds(stmts, ByteNext(code, inCode, Offset(stmts, j), cell, oracle[0]),
                            SymbolicNext(stmts, jumps, inFragment, j, oracle[0]))
    requires var place := PlaceOf(SymbolicNext(stmts, jumps, inFragment, j, oracle[0]));
             place.Some? ==>
               && place.value < |stmts|
               && SameRuns(code, stmts, jumps, idx, inCode, inFragment, place.value, oracle[1..])
    ensures SameRuns(code, stmts, jumps, idx, inCode, inFragment, i, oracle)
  {
    hide ByteNext, SymbolicNext, Fetch, EventOf, OffsetsOf, SkipLabels, Offset, HasDistance;
    var place := PlaceOf(SymbolicNext(stmts, jumps, inFragment, j, oracle[0]));
    var places :=
      if place.Some? then SymbolicRun(stmts, jumps, inFragment, idx, place.value, oracle[1..]).places else [];
    ConsOffsets(stmts, j, places);
    NoOffsets(stmts);
  }

  lemma NoOffsets(stmts: seq<Instruction>)
    ensures OffsetsOf(stmts, []) == []
  {
  }

  /** Assembly preserves control flow. For every oracle the code executes the instructions that
      the fragment executes, one for one and in order, each at the offset of its statement, also
      when exceptions are raised and caught by corresponding handlers; and no run ever faults, so
      execution stays inside the code and on instruction boundaries. */
  lemma {:induction false} RunsAgree(code: seq<Byte>, stmts: seq<Instruction>, jumps: JumpLabels, idx: Index,
                                     inCode: Handlers, inFragment: Handlers, i: nat, oracle: seq<Choice>)
    requires Assembled(code, stmts, jumps, idx) && HandlersMatch(stmts, inCode, inFragment)
    requires i < |stmts| && IsTerminator(stmts[|stmts| - 1])
    ensures SameRuns(code, stmts, jumps, idx, inCode, inFragment, i, oracle)
    decreases |oracle|
  {
    hide Encode, OperandSize, Assembled, ByteNext, SymbolicNext, Fetch, HandlersMatch;
    if oracle != [] {
      var j := SkipLabels(stmts, i);
      hide SameRuns;
      SkipLabelsFacts(stmts, i);
      FetchStatement(code, stmts, jumps, idx, j);
      StepsCorrespond(code, stmts, jumps, idx, inCode, inFragment, j, oracle[0]);
      var place := PlaceOf(SymbolicNext(stmts, jumps, inFragment, j, oracle[0]));
      if place.Some? {
        RunsAgree(code, stmts, jumps, idx, inCode, inFragment, place.value, oracle[1..]);
      }
      StepSame(code, stmts, jumps, idx, inCode, inFragment, i, oracle, j);
    }
  }
}
