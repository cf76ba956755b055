/** A captured variable on its whole way: from the name that is resolved, by way of the load that is encoded and the
    record that is built, to the variable that the interpreter fetches. */
module Captures {
  import opened Activations
  import opened Assembly
  import opened BigEndian
  import opened Bytecode
  import opened Emission
  import opened Instructions
  import opened Interpreter
  import opened Operands
  import opened Scopes
  import opened SymbolIndex
  import opened Symbols
  import opened TypeDefs
  import opened Wrappers

  /** What a reference to a cached variable makes an instruction load. */
  function VariableSymbol(url: Url, cached: CachedSymbol): Symbol {
    Symbol(cached.kind, url, false, cached.slot)
  }

  /** A reference that means a variable of another activation is a lexical of this one. */
  lemma MeansLexical(v: View, url: Url)
    requires v.scopes != [] && url in v.cache
    requires MeaningOf(v, url).Slot? && v.scopes[0].proc.Some? && MeaningOf(v, url).call != v.scopes[0].proc.value
    ensures v.cache[url].kind.Lexical? && v.cache[url].slot < |v.lexicals|
    ensures MeaningOf(v, url) == Origin(v.lexicals[v.cache[url].slot])
  {
  }

  /** The load of a lexical is encoded with the slot of the lexical, which the interpreter takes for one. */
  lemma LexicalLoadDenotes(symbol: Symbol, idx: Index)
    requires symbol.kind.Lexical?
    ensures Encode(LoadData(symbol), idx).Ok?
    ensures var bytes := Encode(LoadData(symbol), idx).value;
            && |bytes| == 6 && ActionAt(bytes[0]) == LoadVariable
            && LoadPlace(Flags(bytes[1..])) == ActivationSlot(Lexical) && FlaggedAddress(bytes[1..]) == symbol.slot
  {
    hide U32Bytes, FlaggedAddress;
    ReadFlagged([OP_LOAD], 3, symbol.slot, []);
    assert [OP_LOAD] + [3] + U32Bytes(symbol.slot) + [] == [OP_LOAD, 3] + U32Bytes(symbol.slot);
  }

  /** A safe capture, whatever the blocks of the procedure go on to declare and resolve: when the procedure is built,
      the load of the captured name goes to a lexical slot, and what the interpreter fetches into that
      slot is the local of the nearest activation of the procedure that declares it. */
  lemma CaptureFetched<V>(v: View, name: string, turns: seq<Turn>, last: seq<Scope>, p: ProcState, idx: Index,
                          order: seq<U32>, stack: seq<Frame<V>>)
    requires WellScoped(v) && VariableHasProc(v, name) && SlotsSound(Definition(v.scopes), v)
              && |v.lexicals| + 1 < 0x1_0000_0000
    requires Captures(v, name) && CaptureIsSafe(v, name)
    requires Scopes.LegalRun(Definition(v.scopes), v.scopes[0].proc, Resolve(v, name).1, turns)
    requires last != [] && last[0].proc == v.scopes[0].proc
    requires var run := StepAll(Definition(v.scopes), v.scopes[0].proc, Resolve(v, name).1, turns);
             p.lexicals == run.lexicals
    requires Sound(p) && Visits(order, p.stmts) && Assemble(p, idx, order).Ok? && Consistent(idx) && Addressable(idx)
    requires v.scopes[FirstBound(v.scopes, name).value].proc.Some?
    requires Captured(v, name).call in idx.entries && idx.entries[Captured(v, name).call].DescriptorEntry?
    ensures var reference := Resolve(v, name).0.value;
            var cache := StepAll(Definition(v.scopes), v.scopes[0].proc, Resolve(v, name).1, turns).cache;
            && reference.Reference? && reference.binding.url in cache
            && var symbol := VariableSymbol(reference.binding.url, cache[reference.binding.url]);
               var load := Encode(LoadData(symbol), idx);
               var records := Assemble(p, idx, order).value.lexicals;
               && load.Ok? && |load.value| == 6 && LoadPlace(Flags(load.value[1..])) == ActivationSlot(Lexical)
               && var slot := FlaggedAddress(load.value[1..]);
                  && slot < |records|
                  && Fetched(stack, records[slot]) == ValueOf(stack, Origin(Captured(v, name)), idx)
  {
    hide Consistent, Addressable, Assemble, SlotsSound, Scopes.LegalRun, StepAll, WellScoped, Encode, FlaggedAddress,
         LoadPlace, Fetched, ValueOf, VariableOf, MeaningOf, Definition, CaptureIsSafe;
    CaptureLasts(v, name, turns, last);
    CapturedScope(v, name);
    var (r, after) := Resolve(v, name);
    var run := StepAll(Definition(v.scopes), v.scopes[0].proc, after, turns);
    var url := r.value.binding.url;
    CapturedCached(v, name, turns);
    MeansLexical(run.(scopes := last), url);
    var slot := run.cache[url].slot;
    LexicalLoadDenotes(VariableSymbol(url, run.cache[url]), idx);
    BuiltLexicalsLead(p, idx, order, slot);
    FetchesVariable(stack, Assemble(p, idx, order).value.lexicals[slot], idx);
  }

  /** The cache goes on having the symbol of a captured name. */
  lemma CapturedCached(v: View, name: string, turns: seq<Turn>)
    requires WellScoped(v) && VariableHasProc(v, name) && SlotsSound(Definition(v.scopes), v)
              && |v.lexicals| + 1 < 0x1_0000_0000
    requires Captures(v, name) && CaptureIsSafe(v, name)
    requires Scopes.LegalRun(Definition(v.scopes), v.scopes[0].proc, Resolve(v, name).1, turns)
    ensures Resolve(v, name).0.Ok? && Resolve(v, name).0.value.Reference?
    ensures Resolve(v, name).0.value.binding.url
         in StepAll(Definition(v.scopes), v.scopes[0].proc, Resolve(v, name).1, turns).cache
  {
    hide SlotsSound, Scopes.LegalRun, StepAll, WellScoped, Definition, Own;
    CapturedScope(v, name);
    CaptureFaithful(v, name);
    CaptureSound(v, name);
    RunSound(Definition(v.scopes), v.scopes[0].proc, Resolve(v, name).1, turns);
  }
}
