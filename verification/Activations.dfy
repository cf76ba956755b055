/** The lexicals of a procedure: what their records mean to the interpreter, which fetches them from the
    activations on the call stack when the procedure is called. */
module Activations {
  import opened BigEndian
  import opened ProcLayout
  import opened Scopes
  import opened SymbolIndex
  import opened Symbols
  import opened TypeDefs
  import opened Wrappers

  /** What kind of variable the byte of a record stands for; the interpreter refuses any other byte. */
  function TargetAt(b: Byte): Option<LexicalTarget> {
    match b
    case 1 => Some(ArgumentTarget)
    case 2 => Some(LocalTarget)
    case _ => None
  }

  /** An activation of a call of the object: the index of the call, and its variables. */
  datatype Frame<V> = Frame(call: nat, arguments: nat -> V, locals: nat -> V)

  /** The nearest activation of a call, from the top of the stack. */
  function Nearest<V>(stack: seq<Frame<V>>, call: nat): (r: Option<Frame<V>>)
    ensures r.Some? ==> r.value.call == call
  {
    if stack == [] then None else if stack[0].call == call then Some(stack[0]) else Nearest(stack[1..], call)
  }

  /** The value that a record leads to, or a failure. */
  function Fetched<V>(stack: seq<Frame<V>>, record: LexicalRecord): Option<V> {
    match Nearest(stack, record.activationCall)
    case None => None
    case Some(frame) =>
      match TargetAt(record.lexicalTarget)
      case Some(ArgumentTarget) => Some(frame.arguments(record.targetOffset))
      case Some(LocalTarget) => Some(frame.locals(record.targetOffset))
      case _ => None
  }

  /** Fetches the lexicals of a procedure that is called, or fails. */
  method ImportLexicals<V>(records: seq<LexicalRecord>, stack: seq<Frame<V>>) returns (r: Option<seq<V>>)
    ensures r.Some? <==> forall i :: 0 <= i < |records| ==> Fetched(stack, records[i]).Some?
    ensures r.Some? ==> |r.value| == |records| && forall i :: 0 <= i < |records| ==>
                          Some(r.value[i]) == Fetched(stack, records[i])
  {
    var lexicals := [];
    var i := 0;
    while i < |records|
      invariant 0 <= i == |lexicals| <= |records|
      invariant forall k :: 0 <= k < i ==> Some(lexicals[k]) == Fetched(stack, records[k])
    {
      var lexical := records[i];
      var found := false;
      var n := 0;
      while n < |stack| && !found
        invariant 0 <= n <= |stack| && |lexicals| == if found then i + 1 else i
        invariant forall k :: 0 <= k < i ==> Some(lexicals[k]) == Fetched(stack, records[k])
        invariant !found ==> Nearest(stack, lexical.activationCall) == Nearest(stack[n..], lexical.activationCall)
        invariant found ==> Some(lexicals[i]) == Fetched(stack, lexical)
      {
        assert stack[n..][1..] == stack[n + 1..];
        if stack[n].call == lexical.activationCall {
          if lexical.lexicalTarget == 1 {
            lexicals := lexicals + [stack[n].arguments(lexical.targetOffset)];
          } else if lexical.lexicalTarget == 2 {
            lexicals := lexicals + [stack[n].locals(lexical.targetOffset)];
          } else {
            assert Fetched(stack, records[i]).None?;
            return None;
          }
          found := true;
        }
        n := n + 1;
      }
      if !found {
        assert Fetched(stack, records[i]).None?;
        return None;
      }
      i := i + 1;
    }
    return Some(lexicals);
  }

  /** The call at this index of the object has this url. */
  predicate IsCall(idx: Index, call: nat, url: Url) {
    call < |idx.Vector(CallSection)| && idx.Vector(CallSection)[call].url == url
  }

  /** The value of a variable of the nearest activation of the call with its url. */
  function ValueOf<V>(stack: seq<Frame<V>>, variable: Meaning, idx: Index): Option<V> {
    if !variable.Slot? then None
    else if stack == [] then None
    else if IsCall(idx, stack[0].call, variable.call) then
      match variable.target
      case ArgumentTarget => Some(stack[0].arguments(variable.offset))
      case LocalTarget => Some(stack[0].locals(variable.offset))
      case _ => None
    else ValueOf(stack[1..], variable, idx)
  }

  /** The variable that a record stands for. */
  function VariableOf(record: LexicalRecord, idx: Index): Option<Meaning> {
    if record.activationCall < |idx.Vector(CallSection)| && TargetAt(record.lexicalTarget).Some? then
      Some(Slot(TargetAt(record.lexicalTarget).value, record.targetOffset,
                idx.Vector(CallSection)[record.activationCall].url))
    else
      None
  }

  /** Different calls have different urls. */
  lemma CallsDiffer(idx: Index, i: nat, j: nat)
    requires Consistent(idx) && i < |idx.Vector(CallSection)| && j < |idx.Vector(CallSection)|
    ensures idx.Vector(CallSection)[i].url == idx.Vector(CallSection)[j].url <==> i == j
  {
    assert SymbolDefined(idx, CallSection, i) && SymbolDefined(idx, CallSection, j);
  }

  /** What the interpreter fetches for a record is the value of the variable that the record stands for. */
  lemma {:induction false} FetchesVariable<V>(stack: seq<Frame<V>>, record: LexicalRecord, idx: Index)
    requires Consistent(idx) && VariableOf(record, idx).Some?
    ensures Fetched(stack, record) == ValueOf(stack, VariableOf(record, idx).value, idx)
  {
    hide Consistent;
    if stack != [] {
      if stack[0].call < |idx.Vector(CallSection)| {
        CallsDiffer(idx, stack[0].call, record.activationCall);
      }
      FetchesVariable(stack[1..], record, idx);
    }
  }
}
