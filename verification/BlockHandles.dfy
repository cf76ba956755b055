/** The symbol cache, the frame of a procedure, and the blocks that declare and resolve names. */
module BlockHandles {
  import opened BigEndian
  import JumpTables
  import opened Scopes
  import opened Symbols
  import opened TypeDefs
  import opened Wrappers

  class SymbolCache {
    var symbols: Cache

    constructor ()
      ensures symbols == map[]
    {
      symbols := map[];
    }

    method InsertSymbol(url: Url, symbol: CachedSymbol) returns (s: Status)
      modifies this
      ensures (s, symbols) == Scopes.InsertSymbol(old(symbols), url, symbol)
      ensures s.Ok? <==> url !in old(symbols) || old(symbols)[url].kind.Typename?
    {
      if url in symbols && !symbols[url].kind.Typename? {
        return Err(SymbolAlreadyDefined);
      }
      symbols := symbols[url := symbol];
      return OK;
    }
  }

  /** The variables of a procedure. */
  class ProcFrame {
    const activation: Url
    const arity: nat
    var numLocals: nat
    var lexicals: seq<ProcLexical>

    constructor (activation: Url, arity: nat)
      ensures this.activation == activation && this.arity == arity && numLocals == 0 && lexicals == []
    {
      this.activation := activation;
      this.arity := arity;
      numLocals := 0;
      lexicals := [];
    }

    method AllocateLocal() returns (slot: U32)
      modifies this`numLocals
      ensures (slot, numLocals) == Scopes.AllocateLocal(old(numLocals))
    {
      if numLocals >= MAX_LOCALS {
        return INVALID_SLOT;
      }
      slot := numLocals;
      numLocals := numLocals + 1;
    }

    method AllocateLexical(target: LexicalTarget, offset: U32, call: Url) returns (slot: U32)
      modifies this`lexicals
      ensures slot == ToU32(|old(lexicals)|)
      ensures lexicals == old(lexicals) + [ProcLexical(target, offset, call)]
    {
      slot := ToU32(|lexicals|);
      lexicals := lexicals + [ProcLexical(target, offset, call)];
    }
  }

  class BlockHandle {
    const parent: BlockHandle?
    const proc: ProcFrame?
    const definition: Option<Url>
    const cache: SymbolCache
    const outside: Surroundings
    var bindings: map<string, SymbolBinding>

    /** The block and its ancestors. */
    ghost const chain: seq<BlockHandle>

    ghost function Proc(): Option<Url> {
      if proc == null then None else Some(proc.activation)
    }

    ghost function ToScope(): Scope
      reads this
    {
      Scope(Proc(), definition, bindings)
    }

    ghost function View(): (v: View)
      reads this, chain, cache, proc
      ensures |v.scopes| == |chain|
    {
      var scopes := seq(|chain|, i requires 0 <= i < |chain| reads this, chain => chain[i].ToScope());
      if proc == null then Scopes.View(scopes, 0, [], cache.symbols, outside)
      else Scopes.View(scopes, proc.numLocals, proc.lexicals, cache.symbols, outside)
    }

    /** A block of a procedure is right inside a block of the same procedure, or inside blocks of others. */
    ghost predicate Fits(parent: BlockHandle) {
      && (proc == null || parent.proc == proc || forall i :: 0 <= i < |parent.chain| ==> parent.chain[i].proc != proc)
      && (forall i :: 0 <= i < |parent.chain| && parent.chain[i].Proc() == Proc() ==> parent.chain[i].proc == proc)
    }

    ghost predicate Valid()
      decreases |chain|
    {
      && chain != [] && chain[0] == this
      && (parent == null ==> |chain| == 1)
      && (parent != null ==>
            && chain[1..] == parent.chain && this !in parent.chain
            && cache == parent.cache && outside == parent.outside
            && Fits(parent)
            && parent.Valid())
    }

    /** A block that is inside no other, and in no procedure. */
    constructor Root(definition: Option<Url>, cache: SymbolCache, outside: Surroundings,
                     bindings: map<string, SymbolBinding>)
      ensures Valid() && chain == [this] && proc == null
      ensures this.definition == definition && this.cache == cache && this.outside == outside
                && this.bindings == bindings
    {
      parent, proc := null, null;
      this.definition := definition;
      this.cache := cache;
      this.outside := outside;
      this.bindings := bindings;
      chain := [this];
    }

    /** The block of a definition that is no procedure, like a class. */
    constructor OfDefinition(definition: Url, parent: BlockHandle)
      requires parent.Valid()
      ensures Valid() && chain == [this] + parent.chain && proc == null
      ensures this.definition == Some(definition) && bindings == map[]
    {
      this.parent := parent;
      proc := null;
      this.definition := Some(definition);
      cache := parent.cache;
      outside := parent.outside;
      bindings := map[];
      chain := [this] + parent.chain;
    }

    /** A block of a procedure inside another block, either of the same procedure or the body of a new one. */
    constructor (parent: BlockHandle, proc: ProcFrame)
      requires parent.Valid()
      requires parent.proc == proc || forall i :: 0 <= i < |parent.chain| ==> parent.chain[i].proc != proc
      requires forall i :: 0 <= i < |parent.chain| && parent.chain[i].Proc() == Some(proc.activation) ==>
                parent.chain[i].proc == proc
      ensures Valid()
      ensures chain == [this] + parent.chain && this.proc == proc && definition == Some(proc.activation)
      ensures bindings == map[]
    {
      this.parent := parent;
      this.proc := proc;
      definition := Some(proc.activation);
      cache := parent.cache;
      outside := parent.outside;
      bindings := map[];
      chain := [this] + parent.chain;
    }

    function GetDefinition(): Url
      requires Valid()
      decreases |chain|
    {
      if definition.Some? then definition.value
      else if parent == null then Url("", [])
      else parent.GetDefinition()
    }

    function MakeSymbolUrl(name: string): Url
      requires Valid()
    {
      var enclosing := GetDefinition();
      Url(enclosing.location, enclosing.path + [name])
    }

    lemma ParentView()
      requires Valid() && parent != null
      ensures View().scopes == [ToScope()] + parent.View().scopes
    {
    }

    lemma DefinitionFound()
      requires Valid()
      ensures GetDefinition() == Definition(View().scopes)
      decreases |chain|
    {
      assert View().scopes[0] == ToScope();
      if definition.None? {
        if parent == null {
          assert View().scopes[1..] == [];
        } else {
          parent.DefinitionFound();
          ParentView();
        }
      }
    }

    lemma ValidWellScoped()
      requires Valid()
      ensures WellScoped(View())
      ensures chain != [] && chain[0] == this
      ensures forall i :: 0 <= i < |chain| ==> (chain[i].Proc() == Proc() <==> chain[i].proc == proc)
      decreases |chain|
    {
      if parent != null {
        parent.ValidWellScoped();
        ParentView();
        assert forall i :: 0 < i < |chain| ==> chain[i] == parent.chain[i - 1];
        if parent.Proc() == Proc() {
          InnerContiguous([ToScope()], parent.View().scopes);
        }
      }
    }

    /** The i-th ancestor is what following the parents leads to. */
    lemma Ancestor(i: nat)
      requires Valid() && i < |chain|
      ensures chain[i].Valid() && chain[i].chain == chain[i..] && chain[i].cache == cache && chain[i].outside == outside
      ensures chain[i].parent == if i + 1 < |chain| then chain[i + 1] else null
      decreases i
    {
      if i > 0 {
        parent.Ancestor(i - 1);
        assert chain[i] == parent.chain[i - 1];
      }
    }

    method GetOrImportSymbol(url: Url) returns (r: Result<CachedSymbol>)
      ensures r == var found := Find(cache.symbols, outside, url);
                   if found.None? then Err(ImportError) else Ok(found.value)
    {
      if url in cache.symbols {
        return Ok(cache.symbols[url]);
      }
      if url in outside.imports {
        return Ok(outside.imports[url]);
      }
      return Err(ImportError);
    }

    method ReferToSymbol(binding: SymbolBinding, allowed: SymbolType -> bool, otherwise: Condition)
        returns (r: Result<Reference>)
      ensures r == ReferTo(View(), binding, allowed, otherwise)
    {
      var symbol :- GetOrImportSymbol(binding.url);
      if allowed(symbol.kind) {
        return Ok(ReferenceTo(binding));
      }
      if symbol.kind.Binding? {
        return if binding.url in outside.aliases then Ok(outside.aliases[binding.url]) else Err(AssemblerInvariant);
      }
      return Err(otherwise);
    }

    /** Binds a name in this block; every other block stays as it is. */
    method Bind(name: string, binding: SymbolBinding)
      requires Valid()
      modifies this`bindings
      ensures View() == old(View()).Bind(name, binding)
    {
      ghost var before := View();
      bindings := bindings[name := binding];
      assert View().scopes == before.Bind(name, binding).scopes;
    }

    method DeclareVariable(name: string, hidden: bool, typeDef: TypeDef, isVariable: bool)
        returns (r: Result<Reference>)
      requires Valid() && proc != null
      modifies this`bindings, proc`numLocals, cache
      ensures (r, View()) == Scopes.DeclareVariable(old(View()), name, hidden, typeDef, isVariable)
    {
      ghost var before := View();
      assert before.scopes[0] == ToScope();
      DefinitionFound();
      if name in bindings {
        return Err(SymbolAlreadyDefined);
      }
      if typeDef in outside.badTypes {
        return Err(outside.badTypes[typeDef]);
      }
      var url := MakeSymbolUrl(name);
      var slot := proc.AllocateLocal();
      var status := cache.InsertSymbol(url, CachedSymbol(Local, slot, hidden));
      assert View().scopes == before.scopes;
      if status.Err? {
        return Err(status.condition);
      }
      var binding := SymbolBinding(if isVariable then Variable else Value, url, typeDef);
      Bind(name, binding);
      return Ok(Reference(binding));
    }

    method DeclareTemporary(typeDef: TypeDef, isVariable: bool) returns (r: Result<Reference>)
      requires Valid() && proc != null
      modifies this`bindings, proc`numLocals, cache
      ensures (r, View()) == Scopes.DeclareTemporary(old(View()), typeDef, isVariable)
    {
      ghost var before := View();
      assert before.scopes[0] == ToScope();
      DefinitionFound();
      var name := "$tmp" + JumpTables.Decimal(proc.numLocals);
      if name in bindings {
        return Err(AssemblerInvariant);
      }
      if typeDef in outside.badTypes {
        return Err(outside.badTypes[typeDef]);
      }
      var url := MakeSymbolUrl(name);
      var slot := proc.AllocateLocal();
      var status := cache.InsertSymbol(url, CachedSymbol(Local, slot, true));
      assert View().scopes == before.scopes;
      if status.Err? {
        return Err(status.condition);
      }
      var binding := SymbolBinding(if isVariable then Variable else Value, url, typeDef);
      Bind(name, binding);
      return Ok(Reference(binding));
    }

    /** Looks a name up in the blocks of the procedure, then in those around it, then in the global
        namespace; a variable of a procedure further out is captured. */
    method ResolveReference(name: string) returns (r: Result<Reference>)
      requires Valid() && VariableHasProc(View(), name)
      modifies this`bindings, cache
      modifies if proc == null then {} else {proc}
      ensures WellScoped(old(View()))
      ensures (r, View()) == Resolve(old(View()), name)
    {
      hide Valid, Resolve, Captures, Capture, WellScoped, ReferTo;
      ghost var before := View();
      ValidWellScoped();
      var block: BlockHandle? := this;
      ghost var i := 0;
      while block != null && block.proc == proc
        invariant i <= |chain| && block == if i < |chain| then chain[i] else null
        modifies {}
        invariant forall j :: 0 <= j < i ==> chain[j].proc == proc && name !in before.scopes[j].bindings
        decreases |chain| - i
      {
        Ancestor(i);
        assert before.scopes[i] == block.ToScope();
        if name in block.bindings {
          ResolvesInside(before, name, i);
          r := ReferToSymbol(block.bindings[name], Usable, MissingVariable);
          return;
        }
        block := block.parent;
        i := i + 1;
      }
      r := ResolveOutside(name, block, i);
    }

    /** Continues the search from the first block of another procedure. */
    method ResolveOutside(name: string, first: BlockHandle?, ghost edge: nat) returns (r: Result<Reference>)
      requires Valid() && WellScoped(View()) && VariableHasProc(View(), name)
      requires edge <= |chain| && first == if edge < |chain| then chain[edge] else null
      requires edge < |chain| ==> chain[edge].Proc() != Proc()
      requires forall j :: 0 <= j < edge ==> name !in View().scopes[j].bindings
      modifies this`bindings, cache
      modifies if proc == null then {} else {proc}
      ensures (r, View()) == Resolve(old(View()), name)
    {
      hide Valid, Resolve, Captures, Capture, WellScoped, ReferTo;
      ghost var before := View();
      ValidWellScoped();
      var block := first;
      ghost var i := edge;
      while block != null
        invariant edge <= i <= |chain| && block == if i < |chain| then chain[i] else null
        invariant View() == before
        invariant forall j :: 0 <= j < i ==> name !in before.scopes[j].bindings
        decreases |chain| - i
      {
        Ancestor(i);
        assert before.scopes[i] == block.ToScope();
        if name in block.bindings {
          assert FirstBound(before.scopes, name) == Some(i);
          assert before.scopes[edge] == chain[edge].ToScope() && before.scopes[0] == chain[0].ToScope();
          assert !Inside(before.scopes, i);
          r := ResolveOuter(name, block);
          return;
        }
        block := block.parent;
        i := i + 1;
      }
      ResolvesNowhere(before, name);
      if name in outside.globals {
        r := ReferToSymbol(outside.globals[name], Shared, MissingVariable);
        return;
      }
      return Err(MissingVariable);
    }

    /** Resolves a name that is bound in a block of another procedure. */
    method ResolveOuter(name: string, block: BlockHandle) returns (r: Result<Reference>)
      requires Valid() && WellScoped(View()) && VariableHasProc(View(), name)
      requires FirstBound(View().scopes, name).Some? && !Inside(View().scopes, FirstBound(View().scopes, name).value)
      requires block == chain[FirstBound(View().scopes, name).value]
      modifies this`bindings, cache
      modifies if proc == null then {} else {proc}
      ensures (r, View()) == Resolve(old(View()), name)
    {
      assert View().scopes[FirstBound(View().scopes, name).value] == block.ToScope();
      var binding := block.bindings[name];
      var symbol :- GetOrImportSymbol(binding.url);
      if !symbol.kind.Local? {
        r := ReferToSymbol(binding, Shared, InvalidBinding);
      } else if symbol.hidden {
        r := Err(InvalidBinding);
      } else {
        r := CaptureLocal(name, block, symbol.slot, binding.typeDef);
      }
    }

    method CaptureLocal(name: string, block: BlockHandle, offset: U32, typeDef: TypeDef) returns (r: Result<Reference>)
      requires Valid() && Captures(View(), name) && VariableHasProc(View(), name)
      requires var k := FirstBound(View().scopes, name).value;
               && block == chain[k] && typeDef == View().scopes[k].bindings[name].typeDef
               && offset == Captured(View(), name).offset
      requires proc != null
      modifies this`bindings, cache, proc
      ensures r == Ok(Scopes.Capture(old(View()), name).0) && View() == Scopes.Capture(old(View()), name).1
    {
      ghost var before := View();
      assert before.scopes[FirstBound(before.scopes, name).value] == block.ToScope();
      DefinitionFound();
      var activation := block.proc.activation;
      var url := MakeSymbolUrl(name);
      var slot := proc.AllocateLexical(LocalTarget, offset, activation);
      var _ := cache.InsertSymbol(url, CachedSymbol(Lexical, slot, false));
      assert View().scopes == before.scopes;
      var binding := SymbolBinding(Value, url, typeDef);
      Bind(name, binding);
      return Ok(Reference(binding));
    }
  }
}
