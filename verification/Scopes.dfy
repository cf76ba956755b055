/** Name resolution: blocks nested in procedures, and the capture of variables of outer procedures. */
module Scopes {
  import opened BigEndian
  import JumpTables
  import opened Symbols
  import opened TypeDefs
  import opened Wrappers

  datatype BindingKind = Descriptor | Placeholder | Value | Variable | NamespaceName

  datatype SymbolBinding = SymbolBinding(kind: BindingKind, url: Url, typeDef: TypeDef)

  datatype Reference = InvalidReference | Reference(binding: SymbolBinding)

  function ReferenceTo(binding: SymbolBinding): Reference {
    if binding.kind.Placeholder? then InvalidReference else Reference(binding)
  }

  // ---------- the symbol cache ----------

  /** What the assembler knows of a symbol; `slot` is the offset of a variable in its activation. */
  datatype CachedSymbol = CachedSymbol(kind: SymbolType, slot: U32, hidden: bool)

  type Cache = map<Url, CachedSymbol>

  /** A typename may be replaced by what it announced, anything else may not. */
  predicate CanInsert(cache: Cache, url: Url) {
    url in cache ==> cache[url].kind.Typename?
  }

  function InsertSymbol(cache: Cache, url: Url, symbol: CachedSymbol): (Status, Cache) {
    if CanInsert(cache, url) then (OK, cache[url := symbol]) else (Err(SymbolAlreadyDefined), cache)
  }

  /** What lies outside the blocks: the symbols that can be imported, what binding symbols stand
      for, the names of the global namespace, and the types that the type cache fails to make. */
  datatype Surroundings = Surroundings(
    imports: Cache,
    aliases: map<Url, Reference>,
    globals: map<string, SymbolBinding>,
    badTypes: map<TypeDef, Condition>)

  function Find(cache: Cache, outside: Surroundings, url: Url): Option<CachedSymbol> {
    if url in cache then Some(cache[url])
    else if url in outside.imports then Some(outside.imports[url])
    else None
  }

  // ---------- blocks and procedures ----------

  datatype LexicalTarget = InvalidTarget | ArgumentTarget | LocalTarget | LexicalTarget

  /** A variable of another activation: which slot of it, and the call that activates it. */
  datatype ProcLexical = ProcLexical(target: LexicalTarget, offset: U32, call: Url)

  const MAX_LOCALS := 0x7FFF_FFFF
  const INVALID_SLOT: U32 := 0xFFFF_FFFF

  /** A block, with the activation of the procedure it belongs to. */
  datatype Scope = Scope(proc: Option<Url>, definition: Option<Url>, bindings: map<string, SymbolBinding>)

  /** What a block sees: itself and its ancestors, the variables of its procedure, and the symbols. */
  datatype View = View(scopes: seq<Scope>, numLocals: nat, lexicals: seq<ProcLexical>, cache: Cache,
                       outside: Surroundings) {
    function Bind(name: string, binding: SymbolBinding): View
      requires scopes != []
    {
      this.(scopes := scopes[0 := scopes[0].(bindings := scopes[0].bindings[name := binding])])
    }
  }

  function AllocateLocal(numLocals: nat): (U32, nat) {
    if numLocals >= MAX_LOCALS then (INVALID_SLOT, numLocals) else (numLocals, numLocals + 1)
  }

  function Definition(scopes: seq<Scope>): Url {
    if scopes == [] then Url("", [])
    else if scopes[0].definition.Some? then scopes[0].definition.value
    else Definition(scopes[1..])
  }

  function MakeUrl(scopes: seq<Scope>, name: string): Url {
    var definition := Definition(scopes);
    Url(definition.location, definition.path + [name])
  }

  // ---------- declaring ----------

  function Declare(v: View, name: string, hidden: bool, typeDef: TypeDef, isVariable: bool, clash: Condition)
    : (Result<Reference>, View)
    requires v.scopes != []
  {
    if name in v.scopes[0].bindings then (Err(clash), v)
    else if typeDef in v.outside.badTypes then (Err(v.outside.badTypes[typeDef]), v)
    else
      var url := MakeUrl(v.scopes, name);
      var (slot, numLocals) := AllocateLocal(v.numLocals);
      var (status, cache) := InsertSymbol(v.cache, url, CachedSymbol(Local, slot, hidden));
      var v := v.(numLocals := numLocals, cache := cache);
      if status.Err? then (Err(status.condition), v)
      else
        var binding := SymbolBinding(if isVariable then Variable else Value, url, typeDef);
        (Ok(Reference(binding)), v.Bind(name, binding))
  }

  function DeclareVariable(v: View, name: string, hidden: bool, typeDef: TypeDef,
                           isVariable: bool): (Result<Reference>, View)
    requires v.scopes != []
  {
    Declare(v, name, hidden, typeDef, isVariable, SymbolAlreadyDefined)
  }

  function TemporaryName(numLocals: nat): string {
    "$tmp" + JumpTables.Decimal(numLocals)
  }

  function DeclareTemporary(v: View, typeDef: TypeDef, isVariable: bool): (Result<Reference>, View)
    requires v.scopes != []
  {
    Declare(v, TemporaryName(v.numLocals), true, typeDef, isVariable, AssemblerInvariant)
  }

  /** A temporary is a hidden local with the next slot; no other local changes. */
  lemma TemporaryCached(v: View, typeDef: TypeDef, isVariable: bool)
    requires v.scopes != []
    ensures var (r, after) := DeclareTemporary(v, typeDef, isVariable);
            && (r.Ok? ==>
                  && r.value.Reference? && r.value.binding.url in after.cache
                  && after.cache[r.value.binding.url] == CachedSymbol(Local, AllocateLocal(v.numLocals).0, true))
            && (forall url :: url in v.cache && v.cache[url].kind.Local? ==>
                url in after.cache && after.cache[url] == v.cache[url])
  {
  }

  // ---------- resolving ----------

  /** The symbols that any procedure may refer to. */
  predicate Shared(kind: SymbolType) {
    || kind.Call? || kind.Class? || kind.Concept? || kind.Enum? || kind.Existential? || kind.Instance?
    || kind.Namespace? || kind.Protocol? || kind.Static? || kind.Struct?
  }

  /** The symbols that the procedure they are bound in may refer to. */
  predicate Usable(kind: SymbolType) {
    Shared(kind) || kind.Argument? || kind.Constant? || kind.Lexical? || kind.Local? || kind.Synthetic?
  }

  /** The innermost scope that has the name. */
  function FirstBound(scopes: seq<Scope>, name: string): (r: Option<nat>)
    ensures r.Some? ==> r.value < |scopes| && name in scopes[r.value].bindings
    ensures r.Some? ==> forall j :: 0 <= j < r.value ==> name !in scopes[j].bindings
    ensures r.None? ==> forall j :: 0 <= j < |scopes| ==> name !in scopes[j].bindings
  {
    if scopes == [] then None
    else if name in scopes[0].bindings then Some(0)
    else match FirstBound(scopes[1..], name)
      case None => None
      case Some(k) => Some(k + 1)
  }

  /** No scope up to `k` belongs to another procedure. */
  predicate Inside(scopes: seq<Scope>, k: nat)
    requires k < |scopes|
  {
    forall j :: 0 <= j <= k ==> scopes[j].proc == scopes[0].proc
  }

  function AliasTarget(v: View, url: Url): Result<Reference> {
    if url in v.outside.aliases then Ok(v.outside.aliases[url]) else Err(AssemblerInvariant)
  }

  function ReferTo(v: View, binding: SymbolBinding, allowed: SymbolType -> bool,
                   otherwise: Condition): Result<Reference> {
    match Find(v.cache, v.outside, binding.url)
    case None => Err(ImportError)
    case Some(symbol) =>
      if allowed(symbol.kind) then Ok(ReferenceTo(binding))
      else if symbol.kind.Binding? then AliasTarget(v, binding.url)
      else Err(otherwise)
  }

  /** The name is bound to a variable of an outer procedure that may be captured. */
  predicate Captures(v: View, name: string) {
    var k := FirstBound(v.scopes, name);
    && k.Some? && !Inside(v.scopes, k.value)
    && var symbol := Find(v.cache, v.outside, v.scopes[k.value].bindings[name].url);
       symbol.Some? && symbol.value.kind.Local? && !symbol.value.hidden
  }

  /** The variable that a name is about to capture. */
  function Captured(v: View, name: string): ProcLexical
    requires Captures(v, name) && v.scopes[FirstBound(v.scopes, name).value].proc.Some?
  {
    var scope := v.scopes[FirstBound(v.scopes, name).value];
    ProcLexical(LocalTarget, Find(v.cache, v.outside, scope.bindings[name].url).value.slot, scope.proc.value)
  }

  /** Allocates a slot for the variable and binds the name to it in the current block. Whether the
      symbol cache took the new symbol is not looked at. */
  function Capture(v: View, name: string): (Reference, View)
    requires Captures(v, name) && v.scopes[FirstBound(v.scopes, name).value].proc.Some?
  {
    var url := MakeUrl(v.scopes, name);
    var slot := ToU32(|v.lexicals|);
    var cache := InsertSymbol(v.cache, url, CachedSymbol(Lexical, slot, false)).1;
    var binding := SymbolBinding(Value, url, v.scopes[FirstBound(v.scopes, name).value].bindings[name].typeDef);
    (Reference(binding), v.(lexicals := v.lexicals + [Captured(v, name)], cache := cache).Bind(name, binding))
  }

  /** The blocks of a procedure are next to each other. */
  ghost predicate Contiguous(scopes: seq<Scope>) {
    forall i, j, k :: 0 <= i < j < k < |scopes| && scopes[i].proc.Some? && scopes[i].proc == scopes[k].proc ==>
      scopes[j].proc == scopes[i].proc
  }

  ghost predicate WellScoped(v: View) {
    v.scopes != [] && Contiguous(v.scopes)
  }

  /** Only blocks of procedures bind variables, and only code of procedures captures them. */
  ghost predicate VariableHasProc(v: View, name: string) {
    Captures(v, name) ==> v.scopes[0].proc.Some? && v.scopes[FirstBound(v.scopes, name).value].proc.Some?
  }

  function Resolve(v: View, name: string): (Result<Reference>, View)
    requires WellScoped(v) && VariableHasProc(v, name)
  {
    match FirstBound(v.scopes, name)
    case Some(k) =>
      var binding := v.scopes[k].bindings[name];
      if Inside(v.scopes, k) then (ReferTo(v, binding, Usable, MissingVariable), v)
      else if Captures(v, name) then var (r, after) := Capture(v, name); (Ok(r), after)
      else (ReferTo(v, binding, Shared, InvalidBinding), v)
    case None =>
      if name in v.outside.globals then (ReferTo(v, v.outside.globals[name], Shared, MissingVariable), v)
      else (Err(MissingVariable), v)
  }

  lemma ResolvesInside(v: View, name: string, k: nat)
    requires WellScoped(v) && VariableHasProc(v, name)
    requires k < |v.scopes| && name in v.scopes[k].bindings && Inside(v.scopes, k)
    requires forall j :: 0 <= j < k ==> name !in v.scopes[j].bindings
    ensures Resolve(v, name) == (ReferTo(v, v.scopes[k].bindings[name], Usable, MissingVariable), v)
  {
    assert FirstBound(v.scopes, name) == Some(k);
  }

  lemma ResolvesNowhere(v: View, name: string)
    requires WellScoped(v) && VariableHasProc(v, name)
    requires forall j :: 0 <= j < |v.scopes| ==> name !in v.scopes[j].bindings
    ensures Resolve(v, name) == (if name in v.outside.globals then
                                 ReferTo(v, v.outside.globals[name], Shared, MissingVariable)
                                 else Err(MissingVariable), v)
  {
    assert FirstBound(v.scopes, name) == None;
  }

  // ---------- what references mean ----------

  /** What an access means when it is executed: a slot of the activation of some call, or some
      other symbol. */
  datatype Meaning = Slot(target: LexicalTarget, offset: U32, call: Url) | Entity(url: Url) | Nothing

  /** What code of the current procedure accesses when it refers to a url. */
  function MeaningOf(v: View, url: Url): Meaning
    requires v.scopes != []
  {
    match Find(v.cache, v.outside, url)
    case None => Nothing
    case Some(symbol) =>
      if symbol.kind.Lexical? then
        if symbol.slot < |v.lexicals| then
          var lexical := v.lexicals[symbol.slot];
          Slot(lexical.target, lexical.offset, lexical.call)
        else Nothing
      else if v.scopes[0].proc.None? then Entity(url)
      else if symbol.kind.Local? then Slot(LocalTarget, symbol.slot, v.scopes[0].proc.value)
      else if symbol.kind.Argument? then Slot(ArgumentTarget, symbol.slot, v.scopes[0].proc.value)
      else Entity(url)
  }

  /** The new lexical symbol is entered, or there is one already that means the same variable. */
  predicate CaptureIsSafe(v: View, name: string)
    requires Captures(v, name) && v.scopes[FirstBound(v.scopes, name).value].proc.Some?
  {
    var url := MakeUrl(v.scopes, name);
    || CanInsert(v.cache, url)
    || (v.cache[url].kind.Lexical? && v.cache[url].slot < |v.lexicals|
        && v.lexicals[v.cache[url].slot] == Captured(v, name))
    || (v.cache[url].kind.Lexical? && v.cache[url].slot == |v.lexicals|)
  }

  lemma CapturedScope(v: View, name: string)
    requires WellScoped(v) && VariableHasProc(v, name) && Captures(v, name)
    ensures var k := FirstBound(v.scopes, name).value;
            v.scopes[0].proc.Some? && v.scopes[k].proc.Some? && v.scopes[k].proc != v.scopes[0].proc
  {
    var k := FirstBound(v.scopes, name).value;
    assert v.scopes[k].proc == v.scopes[0].proc ==> forall j :: 0 < j < k ==> v.scopes[j].proc == v.scopes[0].proc;
    assert v.scopes[k].proc == v.scopes[0].proc ==> Inside(v.scopes, k);
  }

  /** Capture is faithful exactly when it is safe: then, and only then, the reference means the
      variable that the innermost enclosing block with the name declares. */
  lemma CaptureFaithful(v: View, name: string)
    requires WellScoped(v) && VariableHasProc(v, name) && Captures(v, name) && |v.lexicals| < 0x1_0000_0000
    ensures var k := FirstBound(v.scopes, name).value;
            && v.scopes[k].proc.Some?
            && var (r, after) := Resolve(v, name);
            && r.Ok? && r.value.Reference?
            && r.value.binding.kind.Value? && r.value.binding.typeDef == v.scopes[k].bindings[name].typeDef
            && after.scopes != []
            && (MeaningOf(after, r.value.binding.url)
                == Slot(LocalTarget, Find(v.cache, v.outside, v.scopes[k].bindings[name].url).value.slot,
                        v.scopes[k].proc.value)
                <==> CaptureIsSafe(v, name))
  {
    CapturedScope(v, name);
  }

  /** When the url of the new lexical is not taken, the capture uses the next slot, and that slot
      names the local, its activation and nothing else. */
  lemma FreshCapture(v: View, name: string)
    requires WellScoped(v) && VariableHasProc(v, name) && Captures(v, name) && |v.lexicals| < 0x1_0000_0000
    requires MakeUrl(v.scopes, name) !in v.cache
    ensures v.scopes[FirstBound(v.scopes, name).value].proc.Some?
    ensures var (r, after) := Resolve(v, name);
            && r == Ok(Reference(after.scopes[0].bindings[name]))
            && after.cache[r.value.binding.url] == CachedSymbol(Lexical, |v.lexicals|, false)
            && |after.lexicals| == |v.lexicals| + 1
            && after.lexicals[|v.lexicals|] == Captured(v, name)
            && after.scopes[1..] == v.scopes[1..] && after.numLocals == v.numLocals
  {
    CapturedScope(v, name);
  }

  /** What a name is bound to in the innermost block that has it, or else in the global namespace. */
  function BoundTo(v: View, name: string): Option<SymbolBinding> {
    match FirstBound(v.scopes, name)
    case Some(k) => Some(v.scopes[k].bindings[name])
    case None => if name in v.outside.globals then Some(v.outside.globals[name]) else None
  }

  /** The innermost block that has the name is one of the procedure at hand. */
  predicate BoundInside(v: View, name: string) {
    var k := FirstBound(v.scopes, name);
    k.Some? && forall j :: 0 <= j <= k.value ==> v.scopes[j].proc == v.scopes[0].proc
  }

  /** The kinds of symbols that an object has a section for, but for the members of other symbols and for aliases. */
  predicate Freestanding(kind: SymbolType) {
    LinkageOf(kind) !in {NoSection, ActionSection, FieldSection, BindingSection}
  }

  /** A variable of the procedure itself, of any kind that has a slot in its activation, resolves to its binding. */
  lemma SlotsResolve(v: View, name: string)
    requires WellScoped(v) && BoundInside(v, name) && MeaningOf(v, BoundTo(v, name).value.url).Slot?
    ensures Resolve(v, name) == (Ok(ReferenceTo(BoundTo(v, name).value)), v)
  {
  }

  /** Exactly when a name resolves: the innermost binding, or else the global one, is of a known symbol, and that is
      freestanding, or an alias that leads somewhere, or, in the procedure itself, one of its variables,
      a constant or a synthetic symbol, or, in a procedure further out, a local that is not hidden. */
  lemma ResolvesExactly(v: View, name: string)
    requires WellScoped(v) && VariableHasProc(v, name)
    ensures Resolve(v, name).0.Ok? <==>
              && BoundTo(v, name).Some?
              && var url := BoundTo(v, name).value.url;
                 var symbol := Find(v.cache, v.outside, url);
                 && symbol.Some?
                 && (|| Freestanding(symbol.value.kind)
                     || (symbol.value.kind.Binding? && url in v.outside.aliases)
                     || (BoundInside(v, name)
                         && symbol.value.kind in {SymbolType.Argument, Local, Lexical, Constant, Synthetic})
                     || (FirstBound(v.scopes, name).Some? && !BoundInside(v, name)
                         && symbol.value.kind.Local? && !symbol.value.hidden))
  {
    SharedExactly();
    hide Shared, Freestanding;
    if Captures(v, name) {
      CapturedScope(v, name);
    }
  }

  lemma SharedExactly()
    ensures forall kind :: Shared(kind) <==> Freestanding(kind)
  {
  }

  /** A name that resolves without being captured refers to what its innermost binding, or the global one, is bound
      to: the binding itself, or, if that is an alias, what the alias leads to. Nothing changes. */
  lemma ResolvesInnermost(v: View, name: string)
    requires WellScoped(v) && !Captures(v, name) && Resolve(v, name).0.Ok?
    ensures Resolve(v, name).1 == v
    ensures BoundTo(v, name).Some?
    ensures var binding := BoundTo(v, name).value;
            var symbol := Find(v.cache, v.outside, binding.url);
            && symbol.Some?
            && (if symbol.value.kind.Binding? then
                  binding.url in v.outside.aliases && Resolve(v, name).0.value == v.outside.aliases[binding.url]
                else
                  Resolve(v, name).0.value ==
                    if binding.kind.Placeholder? then InvalidReference else Reference(binding))
  {
  }

  /** The condition that is reported for a name that does not resolve. */
  lemma RefusedWith(v: View, name: string)
    requires WellScoped(v) && VariableHasProc(v, name) && Resolve(v, name).0.Err?
    ensures Resolve(v, name) ==
              (Err(if BoundTo(v, name).None? then MissingVariable
                   else
                     var url := BoundTo(v, name).value.url;
                     var symbol := Find(v.cache, v.outside, url);
                     if url !in v.cache && url !in v.outside.imports then ImportError
                     else if symbol.value.kind.Binding? then AssemblerInvariant
                     else if FirstBound(v.scopes, name).Some? && !BoundInside(v, name) then InvalidBinding
                     else MissingVariable), v)
  {
    if Captures(v, name) {
      CapturedScope(v, name);
    }
  }

  /** What only the procedure that has it may use. */
  predicate Invisible(symbol: Option<CachedSymbol>) {
    && symbol.Some?
    && if symbol.value.kind.Local? then symbol.value.hidden
       else !Freestanding(symbol.value.kind) && !symbol.value.kind.Binding?
  }

  /** A name bound in an outer procedure cannot be used exactly when it is a hidden local, or
      neither a local nor anything that procedures share. */
  lemma InvalidExactlyWhenInvisible(v: View, name: string)
    requires WellScoped(v) && VariableHasProc(v, name)
    ensures Resolve(v, name).0 == Err(InvalidBinding) <==>
              && FirstBound(v.scopes, name).Some?
              && !Inside(v.scopes, FirstBound(v.scopes, name).value)
              && Invisible(Find(v.cache, v.outside, v.scopes[FirstBound(v.scopes, name).value].bindings[name].url))
  {
    SharedExactly();
    if Captures(v, name) {
      CapturedScope(v, name);
    }
  }

  lemma {:induction false} FirstBoundIn(inner: seq<Scope>, outer: seq<Scope>, name: string)
    requires forall j :: 0 <= j < |inner| ==> name !in inner[j].bindings
    requires outer != [] && name in outer[0].bindings
    ensures FirstBound(inner + outer, name) == Some(|inner|)
  {
    if inner == [] {
      assert inner + outer == outer;
    } else {
      FirstBoundIn(inner[1..], outer, name);
      assert (inner + outer)[1..] == inner[1..] + outer;
    }
  }

  lemma CaptureScopes(v: View, name: string)
    requires WellScoped(v) && VariableHasProc(v, name) && Captures(v, name)
    ensures Resolve(v, name) == (Ok(Capture(v, name).0), Capture(v, name).1)
    ensures var after := Capture(v, name).1;
            && |after.scopes| == |v.scopes|
            && after.scopes[0].proc == v.scopes[0].proc
            && (forall k :: 0 < k < |v.scopes| ==> after.scopes[k] == v.scopes[k])
            && WellScoped(after)
  {
  }

  lemma InnerWellScoped(v: View, inner: seq<Scope>)
    requires WellScoped(v) && v.scopes[0].proc.Some?
    requires forall j :: 0 <= j < |inner| ==> inner[j].proc == v.scopes[0].proc
    ensures WellScoped(v.(scopes := inner + v.scopes))
  {
    InnerContiguous(inner, v.scopes);
  }

  lemma InnerContiguous(inner: seq<Scope>, outer: seq<Scope>)
    requires outer != [] && forall j :: 0 <= j < |inner| ==> inner[j].proc == outer[0].proc
    requires Contiguous(outer)
    ensures Contiguous(inner + outer)
  {
    var n := |inner|;
    var all := inner + outer;
    forall i, j, k | 0 <= i < j < k < |all| && all[i].proc.Some? && all[i].proc == all[k].proc
      ensures all[j].proc == all[i].proc
    {
      if n < j {
        assert all[if i < n then n else i].proc == all[k].proc;
        assert outer[if i < n then 0 else i - n].proc == outer[k - n].proc;
      }
    }
  }

  /** Resolving a captured name again, from the same block or from blocks of the same procedure
      inside it that do not bind the name, gives the same reference and allocates nothing. */
  lemma ResolveAgain(v: View, inner: seq<Scope>, name: string)
    requires WellScoped(v) && VariableHasProc(v, name) && Captures(v, name)
              && CanInsert(v.cache, MakeUrl(v.scopes, name))
    requires forall j :: 0 <= j < |inner| ==> inner[j].proc == v.scopes[0].proc && name !in inner[j].bindings
    ensures var (r, after) := Resolve(v, name);
            && WellScoped(after.(scopes := inner + after.scopes))
            && !Captures(after.(scopes := inner + after.scopes), name)
            && Resolve(after.(scopes := inner + after.scopes), name) == (r, after.(scopes := inner + after.scopes))
  {
    CapturedScope(v, name);
    CaptureScopes(v, name);
    InnerWellScoped(Resolve(v, name).1, inner);
    var (r, after) := Resolve(v, name);
    FirstBoundIn(inner, after.scopes, name);
    var scopes := inner + after.scopes;
    assert after.scopes[0].proc == v.scopes[0].proc;
    assert scopes[|inner|] == after.scopes[0];
    assert Inside(scopes, |inner|);
  }

  /** A variable can be declared exactly when its block does not have the name, its type can be made and
      the url of the variable, which all blocks of the procedure share, is not taken. Then the name
      means the next local slot. When only the url is taken the slot is used up all the same. */
  lemma DeclaresExactlyWhenFree(v: View, name: string, hidden: bool, typeDef: TypeDef, isVariable: bool)
    requires WellScoped(v) && v.scopes[0].proc.Some?
    ensures var (r, after) := DeclareVariable(v, name, hidden, typeDef, isVariable);
            var (slot, numLocals) := AllocateLocal(v.numLocals);
            && (r.Ok? <==>
                  && name !in v.scopes[0].bindings
                  && typeDef !in v.outside.badTypes
                  && (MakeUrl(v.scopes, name) in v.cache ==> v.cache[MakeUrl(v.scopes, name)].kind.Typename?))
            && (r.Err? ==> r.condition == if name !in v.scopes[0].bindings && typeDef in v.outside.badTypes
                                          then v.outside.badTypes[typeDef] else SymbolAlreadyDefined)
            && (r.Ok? ==> after.scopes != [] && FirstBound(after.scopes, name) == Some(0))
            && (r.Ok? ==> MeaningOf(after, r.value.binding.url) == Slot(LocalTarget, slot, v.scopes[0].proc.value))
            && after.numLocals ==
                 if name in v.scopes[0].bindings || typeDef in v.outside.badTypes then v.numLocals else numLocals
  {
  }

  /** What a declared name means from then on. In the blocks of the procedure it resolves to the reference that the
      declaration gave, a variable or a value as it was asked for, of the type it was asked for; blocks of
      procedures inside can capture it exactly when it is not hidden, and are refused it otherwise. */
  lemma DeclaredIsVisible(v: View, name: string, hidden: bool, t: TypeDef, isVariable: bool, clash: Condition,
                          inner: seq<Scope>)
    requires WellScoped(v) && v.scopes[0].proc.Some? && Declare(v, name, hidden, t, isVariable, clash).0.Ok?
    requires forall j :: 0 <= j < |inner| ==> name !in inner[j].bindings
    requires WellScoped(v.(scopes := inner + v.scopes)) && (inner != [] ==> inner[0].proc.Some?)
    ensures var (r, after) := Declare(v, name, hidden, t, isVariable, clash);
            var here := after.(scopes := inner + after.scopes);
            && r.value.Reference? && r.value.binding.typeDef == t
            && (r.value.binding.kind.Variable? <==> isVariable) && (r.value.binding.kind.Value? <==> !isVariable)
            && WellScoped(here) && VariableHasProc(here, name)
            && if forall j :: 0 <= j < |inner| ==> inner[j].proc == v.scopes[0].proc then
                 Resolve(here, name) == (r, here)
               else
                 && (Captures(here, name) <==> !hidden)
                 && (hidden ==> Resolve(here, name) == (Err(InvalidBinding), here))
  {
    hide Declare, Contiguous, FirstBound;
    DeclaredState(v, name, hidden, t, isVariable, clash);
    var (r, after) := Declare(v, name, hidden, t, isVariable, clash);
    var here := after.(scopes := inner + after.scopes);
    SameProcs(v.scopes, after.scopes, inner);
    FirstBoundIn(inner, after.scopes, name);
    assert here.scopes[|inner|] == after.scopes[0];
    assert forall j :: 0 <= j < |inner| ==> here.scopes[j] == inner[j];
    assert Inside(here.scopes, |inner|) <==> forall j :: 0 <= j < |inner| ==> inner[j].proc == v.scopes[0].proc;
  }

  lemma DeclaredState(v: View, name: string, hidden: bool, t: TypeDef, isVariable: bool, clash: Condition)
    requires v.scopes != [] && Declare(v, name, hidden, t, isVariable, clash).0.Ok?
    ensures var (r, after) := Declare(v, name, hidden, t, isVariable, clash);
            var binding := SymbolBinding(if isVariable then Variable else Value, MakeUrl(v.scopes, name), t);
            && r == Ok(Reference(binding))
            && after.scopes != [] && name in after.scopes[0].bindings && after.scopes[0].bindings[name] == binding
            && |after.scopes| == |v.scopes| && after.scopes[1..] == v.scopes[1..]
            && (forall i :: 0 <= i < |v.scopes| ==> after.scopes[i].proc == v.scopes[i].proc)
            && binding.url in after.cache
            && after.cache[binding.url] == CachedSymbol(Local, AllocateLocal(v.numLocals).0, hidden)
  {
  }

  lemma SameProcs(before: seq<Scope>, after: seq<Scope>, inner: seq<Scope>)
    requires |before| == |after| && forall i :: 0 <= i < |before| ==> before[i].proc == after[i].proc
    requires Contiguous(inner + before)
    ensures Contiguous(inner + after)
  {
    assert forall i :: 0 <= i < |inner + before| ==> (inner + before)[i].proc == (inner + after)[i].proc;
  }

  /** A procedure declares `x` in a block within its own, and then in its own block: the second
      declaration is refused, but uses up a slot. */
  lemma RefusedDeclarationUsesSlot(proc: Url, t: TypeDef, outside: Surroundings)
    requires t !in outside.badTypes
    ensures var block := Scope(Some(proc), Some(proc), map[]);
            var declared := DeclareVariable(View([block, block], 0, [], map[], outside), "x", false, t, false);
            var again := DeclareVariable(declared.1.(scopes := [block]), "x", false, t, false);
            && declared.0.Ok? && declared.1.numLocals == 1
            && again.0 == Err(SymbolAlreadyDefined) && again.1.numLocals == 2
  {
    var block := Scope(Some(proc), Some(proc), map[]);
    assert MakeUrl([block, block], "x") == MakeUrl([block], "x");
  }

  /** Sibling blocks share the urls of their variables. A procedure nested in another declares `x`
      in one block; when a sibling of that block then refers to the outer procedure's `x`, the
      capture is not safe, and the reference means the sibling's variable instead. */
  lemma SiblingShadowsCapture(inner: Url, outer: Url, t: TypeDef, outside: Surroundings)
    requires inner != outer && outside.imports == map[] && t !in outside.badTypes
    ensures var x := Url(outer.location, outer.path + ["x"]);
            var enclosing := Scope(Some(outer), Some(outer), map["x" := SymbolBinding(Value, x, t)]);
            var block := Scope(Some(inner), Some(inner), map[]);
            var start := View([block, enclosing], 0, [], map[x := CachedSymbol(Local, 0, false)], outside);
            var declared := DeclareVariable(start, "x", false, t, false);
            var sibling := declared.1.(scopes := [block, enclosing]);
            && declared.0.Ok?
            && WellScoped(sibling) && VariableHasProc(sibling, "x") && Captures(sibling, "x")
                && !CaptureIsSafe(sibling, "x")
            && var (r, after) := Resolve(sibling, "x");
               && r.Ok? && r.value.Reference? && after.scopes != []
               && MeaningOf(after, r.value.binding.url) == Slot(LocalTarget, 0, inner)
               && MeaningOf(after, r.value.binding.url) == MeaningOf(after, declared.0.value.binding.url)
  {
    var x := Url(outer.location, outer.path + ["x"]);
    var enclosing := Scope(Some(outer), Some(outer), map["x" := SymbolBinding(Value, x, t)]);
    var block := Scope(Some(inner), Some(inner), map[]);
    var scopes := [block, enclosing];
    assert MakeUrl(scopes, "x").path[..|inner.path|] == inner.path;
    assert x.path[..|outer.path|] == outer.path;
    assert scopes[1..] == [enclosing];
    assert FirstBound(scopes[1..], "x") == Some(0);
    assert FirstBound(scopes, "x") == Some(1);
  }

  // ---------- every run ----------

  datatype Access =
    | ForVariable(name: string, hidden: bool, typeDef: TypeDef, isVariable: bool)
    | ForTemporary(typeDef: TypeDef, isVariable: bool)
    | ForName(name: string)

  function Step(v: View, access: Access): View
    requires WellScoped(v) && (access.ForName? ==> VariableHasProc(v, access.name))
  {
    match access
    case ForVariable(name, hidden, t, isVariable) => DeclareVariable(v, name, hidden, t, isVariable).1
    case ForTemporary(t, isVariable) => DeclareTemporary(v, t, isVariable).1
    case ForName(name) => Resolve(v, name).1
  }

  /** The url of a variable of the procedure at hand. */
  predicate Own(definition: Url, url: Url) {
    url.location == definition.location && |url.path| > 0 && url.path[..|url.path| - 1] == definition.path
  }

  /** The locals of the procedure have slots of their own, its lexicals have records. */
  ghost predicate SlotsSound(definition: Url, v: View) {
    && v.numLocals < MAX_LOCALS
    && |v.lexicals| < 0x1_0000_0000
    && (forall url :: url in v.cache && Own(definition, url) && v.cache[url].kind.Local? ==>
        v.cache[url].slot < v.numLocals)
    && (forall url, other :: url in v.cache && other in v.cache && Own(definition, url) && Own(definition, other) ==>
          v.cache[url].kind.Local? && v.cache[other].kind.Local? && url != other ==>
              v.cache[url].slot != v.cache[other].slot)
    && (forall url :: url in v.cache && Own(definition, url) && v.cache[url].kind.Lexical? ==>
        v.cache[url].slot < |v.lexicals|)
  }

  /** No slot is given back, no record changes, and no symbol but a typename is replaced. */
  ghost predicate Grows(v: View, after: View) {
    && v.numLocals <= after.numLocals
    && v.lexicals <= after.lexicals
    && v.outside == after.outside
    && (forall url :: url in v.cache && !v.cache[url].kind.Typename? ==>
        url in after.cache && after.cache[url] == v.cache[url])
  }

  lemma OwnUrls(scopes: seq<Scope>, name: string)
    ensures Own(Definition(scopes), MakeUrl(scopes, name))
  {
    var url := MakeUrl(scopes, name);
    assert url.path[..|url.path| - 1] == Definition(scopes).path;
  }

  lemma InsertSound(definition: Url, v: View, after: View, url: Url, symbol: CachedSymbol)
    requires SlotsSound(definition, v) && CanInsert(v.cache, url) && Own(definition, url)
    requires after.cache == v.cache[url := symbol] && after.outside == v.outside
    requires (symbol.kind.Local? && symbol.slot == v.numLocals && after.numLocals == v.numLocals + 1
              && after.lexicals == v.lexicals)
          || (symbol.kind.Lexical? && symbol.slot == |v.lexicals| && after.numLocals == v.numLocals
              && v.lexicals < after.lexicals && |after.lexicals| == |v.lexicals| + 1)
    requires after.numLocals < MAX_LOCALS && |after.lexicals| < 0x1_0000_0000
    ensures SlotsSound(definition, after) && Grows(v, after)
  {
  }

  lemma DeclareSound(v: View, name: string, hidden: bool, t: TypeDef, isVariable: bool, clash: Condition)
    requires v.scopes != [] && SlotsSound(Definition(v.scopes), v)
    requires Declare(v, name, hidden, t, isVariable, clash).1.numLocals < MAX_LOCALS
    ensures SlotsSound(Definition(v.scopes), Declare(v, name, hidden, t, isVariable, clash).1)
    ensures Grows(v, Declare(v, name, hidden, t, isVariable, clash).1)
  {
    hide MakeUrl, Definition, Own;
    var url := MakeUrl(v.scopes, name);
    var after := Declare(v, name, hidden, t, isVariable, clash).1;
    OwnUrls(v.scopes, name);
    if name !in v.scopes[0].bindings && t !in v.outside.badTypes && CanInsert(v.cache, url) {
      InsertSound(Definition(v.scopes), v, after, url, CachedSymbol(Local, v.numLocals, hidden));
    } else {
      SameSound(Definition(v.scopes), v, after);
    }
  }

  lemma CaptureSound(v: View, name: string)
    requires v.scopes != [] && SlotsSound(Definition(v.scopes), v)
    requires Captures(v, name) && v.scopes[FirstBound(v.scopes, name).value].proc.Some?
    requires |v.lexicals| + 1 < 0x1_0000_0000
    ensures SlotsSound(Definition(v.scopes), Capture(v, name).1)
    ensures Grows(v, Capture(v, name).1)
  {
    hide MakeUrl, Definition, Own, Captures;
    var url := MakeUrl(v.scopes, name);
    var after := Capture(v, name).1;
    OwnUrls(v.scopes, name);
    if CanInsert(v.cache, url) {
      InsertSound(Definition(v.scopes), v, after, url, CachedSymbol(Lexical, |v.lexicals|, false));
    } else {
      SameSound(Definition(v.scopes), v, after);
    }
  }

  /** Whatever a block of the procedure declares or resolves, locals keep slots of their own,
      lexicals keep their records, and what was there before keeps its place. */
  lemma StepSound(v: View, access: Access)
    requires WellScoped(v) && (access.ForName? ==> VariableHasProc(v, access.name))
              && SlotsSound(Definition(v.scopes), v)
    requires var after := Step(v, access); after.numLocals < MAX_LOCALS && |after.lexicals| < 0x1_0000_0000
    ensures SlotsSound(Definition(v.scopes), Step(v, access))
    ensures Grows(v, Step(v, access))
  {
    hide SlotsSound, Grows, Own, MakeUrl, Definition, TemporaryName;
    var after := Step(v, access);
    var definition := Definition(v.scopes);
    match access
    case ForVariable(name, hidden, t, isVariable) => DeclareSound(v, name, hidden, t, isVariable, SymbolAlreadyDefined);
    case ForTemporary(t, isVariable) =>
        DeclareSound(v, TemporaryName(v.numLocals), true, t, isVariable, AssemblerInvariant);
    case ForName(name) =>
      if Captures(v, name) {
        CapturedScope(v, name);
        CaptureSound(v, name);
      } else {
        assert after == v;
        SameSound(definition, v, after);
      }
  }

  lemma SameSound(definition: Url, v: View, after: View)
    requires SlotsSound(definition, v)
    requires after.cache == v.cache && after.outside == v.outside && v.numLocals <= after.numLocals < MAX_LOCALS
    requires v.lexicals <= after.lexicals && |after.lexicals| < 0x1_0000_0000
    ensures SlotsSound(definition, after) && Grows(v, after)
  {
  }

  /** A declaration or a reference in some block of the procedure. */
  datatype Turn = Turn(scopes: seq<Scope>, access: Access)

  ghost predicate LegalTurn(definition: Url, proc: Option<Url>, v: View, turn: Turn) {
    var v := v.(scopes := turn.scopes);
    && WellScoped(v) && (turn.access.ForName? ==> VariableHasProc(v, turn.access.name))
    && turn.scopes[0].proc == proc && Definition(turn.scopes) == definition
    && var after := Step(v, turn.access); after.numLocals < MAX_LOCALS && |after.lexicals| < 0x1_0000_0000
  }

  ghost predicate LegalRun(definition: Url, proc: Option<Url>, v: View, turns: seq<Turn>)
    decreases |turns|
  {
    turns == [] || (&& LegalTurn(definition, proc, v, turns[0])
                    && LegalRun(definition, proc, Step(v.(scopes := turns[0].scopes), turns[0].access), turns[1..]))
  }

  ghost function StepAll(definition: Url, proc: Option<Url>, v: View, turns: seq<Turn>): View
    requires LegalRun(definition, proc, v, turns)
    decreases |turns|
  {
    if turns == [] then v
    else StepAll(definition, proc, Step(v.(scopes := turns[0].scopes), turns[0].access), turns[1..])
  }

  lemma GrowsTransitive(a: View, b: View, c: View)
    requires Grows(a, b) && Grows(b, c)
    ensures Grows(a, c)
  {
  }

  /** Over any run of a procedure's blocks, in any order, variables never share a slot and lexicals
      never lose their records. */
  lemma {:induction false} RunSound(definition: Url, proc: Option<Url>, v: View, turns: seq<Turn>)
    requires SlotsSound(definition, v) && LegalRun(definition, proc, v, turns)
    ensures SlotsSound(definition, StepAll(definition, proc, v, turns))
    ensures Grows(v, StepAll(definition, proc, v, turns))
    ensures turns != [] ==> StepAll(definition, proc, v, turns).scopes != []
    decreases |turns|
  {
    hide SlotsSound, Grows, Step, WellScoped;
    if turns == [] {
      SameGrows(v);
    } else {
      var here := v.(scopes := turns[0].scopes);
      var next := Step(here, turns[0].access);
      ScopesDoNotMatter(definition, v, here);
      StepSound(here, turns[0].access);
      StepScopes(here, turns[0].access);
      RunSound(definition, proc, next, turns[1..]);
      GrowsTransitive(v, here, next);
      GrowsTransitive(v, next, StepAll(definition, proc, next, turns[1..]));
    }
  }

  lemma SameGrows(v: View)
    ensures Grows(v, v)
  {
  }

  lemma ScopesDoNotMatter(definition: Url, v: View, here: View)
    requires SlotsSound(definition, v) && here == v.(scopes := here.scopes)
    ensures SlotsSound(definition, here) && Grows(v, here)
  {
  }

  lemma StepScopes(v: View, access: Access)
    requires WellScoped(v) && (access.ForName? ==> VariableHasProc(v, access.name))
    ensures |Step(v, access).scopes| == |v.scopes| > 0
  {
    if access.ForName? && Captures(v, access.name) {
      CapturedScope(v, access.name);
    }
  }

  lemma MeaningKept(definition: Url, v: View, after: View, url: Url)
    requires SlotsSound(definition, v) && Grows(v, after) && v.scopes != [] && after.scopes != []
    requires after.scopes[0].proc == v.scopes[0].proc
    requires url in v.cache && Own(definition, url) && !v.cache[url].kind.Typename?
    ensures MeaningOf(after, url) == MeaningOf(v, url)
  {
  }

  /** A captured variable stays captured: whatever the blocks of the procedure declare or resolve
      afterwards, the reference goes on meaning the same variable of the same activation. */
  lemma CaptureLasts(v: View, name: string, turns: seq<Turn>, last: seq<Scope>)
    requires WellScoped(v) && VariableHasProc(v, name) && SlotsSound(Definition(v.scopes), v)
              && |v.lexicals| + 1 < 0x1_0000_0000
    requires Captures(v, name) && CaptureIsSafe(v, name)
    requires LegalRun(Definition(v.scopes), v.scopes[0].proc, Resolve(v, name).1, turns)
    requires last != [] && last[0].proc == v.scopes[0].proc
    ensures v.scopes[FirstBound(v.scopes, name).value].proc.Some?
    ensures var (r, after) := Resolve(v, name);
            var final := StepAll(Definition(v.scopes), v.scopes[0].proc, after, turns).(scopes := last);
            var captured := Captured(v, name);
            && r.Ok? && r.value.Reference?
            && MeaningOf(final, r.value.binding.url) == Slot(captured.target, captured.offset, captured.call)
  {
    hide SlotsSound, Grows, WellScoped, LegalRun, Definition, Own;
    var definition, proc := Definition(v.scopes), v.scopes[0].proc;
    CapturedScope(v, name);
    CaptureFaithful(v, name);
    CaptureSound(v, name);
    var (r, after) := Resolve(v, name);
    var run := StepAll(definition, proc, after, turns);
    RunSound(definition, proc, after, turns);
    ScopesDoNotMatter(definition, run, run.(scopes := last));
    GrowsTransitive(after, run, run.(scopes := last));
    OwnUrls(v.scopes, name);
    MeaningKept(definition, after, run.(scopes := last), r.value.binding.url);
  }

  // ---------- temporaries ----------

  /** No temporary with this number or a higher one is known to the symbol cache. */
  ghost predicate TemporariesFree(definition: Url, v: View) {
    forall n: nat :: n >= v.numLocals ==> TemporaryUrl(definition, n) !in v.cache
  }

  function TemporaryUrl(definition: Url, n: nat): Url {
    Url(definition.location, definition.path + [TemporaryName(n)])
  }

  ghost predicate NamesTemporary(name: string) {
    exists n: nat :: name == TemporaryName(n)
  }

  lemma TemporariesDiffer(definition: Url, m: nat, n: nat)
    ensures TemporaryName(m) == TemporaryName(n) ==> m == n
    ensures TemporaryUrl(definition, m) == TemporaryUrl(definition, n) ==> m == n
  {
    if TemporaryName(m) == TemporaryName(n) {
      assert TemporaryName(m)[4..] == JumpTables.Decimal(m) && TemporaryName(n)[4..] == JumpTables.Decimal(n);
      JumpTables.DecimalInjective(m, n);
    }
    LastNames(definition, TemporaryName(m), TemporaryName(n));
  }

  lemma LastNames(definition: Url, a: string, b: string)
    ensures definition.path + [a] == definition.path + [b] ==> a == b
  {
    assert (definition.path + [a])[|definition.path|] == a && (definition.path + [b])[|definition.path|] == b;
  }

  /** A declaration or a reference of the client does not take the name of a temporary. */
  ghost predicate LeavesTemporaries(access: Access) {
    !access.ForTemporary? ==> !NamesTemporary(access.name)
  }

  /** What a step adds to the cache, if anything, is one symbol of the procedure at hand. */
  lemma StepAdds(v: View, access: Access)
    requires WellScoped(v) && (access.ForName? ==> VariableHasProc(v, access.name))
    ensures var after := Step(v, access);
            var name := if access.ForTemporary? then TemporaryName(v.numLocals) else access.name;
            && (forall url :: url in after.cache ==> url in v.cache || url == MakeUrl(v.scopes, name))
            && v.numLocals <= after.numLocals
            && (access.ForTemporary? && v.numLocals < MAX_LOCALS && MakeUrl(v.scopes, name) in after.cache ==>
                  v.numLocals < after.numLocals || MakeUrl(v.scopes, name) in v.cache)
  {
    if access.ForName? && Captures(v, access.name) {
      CapturedScope(v, access.name);
    }
  }

  lemma StepKeepsFree(definition: Url, v: View, access: Access)
    requires WellScoped(v) && (access.ForName? ==> VariableHasProc(v, access.name))
    requires Definition(v.scopes) == definition && LeavesTemporaries(access) && v.numLocals < MAX_LOCALS
    requires TemporariesFree(definition, v)
    ensures TemporariesFree(definition, Step(v, access))
  {
    hide WellScoped, Step, TemporaryName;
    StepAdds(v, access);
    var after := Step(v, access);
    forall n: nat | n >= after.numLocals
      ensures TemporaryUrl(definition, n) !in after.cache
    {
      var name := if access.ForTemporary? then TemporaryName(v.numLocals) else access.name;
      LastNames(definition, TemporaryName(n), name);
      TemporariesDiffer(definition, v.numLocals, n);
    }
  }

  /** A block binds only names that were declared or captured in blocks of its procedure, whose symbols are cached. */
  ghost predicate BindsOwn(v: View)
    requires v.scopes != []
  {
    forall name :: name in v.scopes[0].bindings && NamesTemporary(name) ==> MakeUrl(v.scopes, name) in v.cache
  }

  lemma {:induction false} RunKeepsFree(definition: Url, proc: Option<Url>, v: View, turns: seq<Turn>)
    requires LegalRun(definition, proc, v, turns) && TemporariesFree(definition, v) && v.numLocals < MAX_LOCALS
    requires forall i :: 0 <= i < |turns| ==> LeavesTemporaries(turns[i].access)
    ensures TemporariesFree(definition, StepAll(definition, proc, v, turns))
    ensures StepAll(definition, proc, v, turns).numLocals < MAX_LOCALS
    decreases |turns|
  {
    hide TemporariesFree, LeavesTemporaries, Step, WellScoped;
    if turns != [] {
      var here := v.(scopes := turns[0].scopes);
      FreeWherever(definition, v, here);
      StepKeepsFree(definition, here, turns[0].access);
      RunKeepsFree(definition, proc, Step(here, turns[0].access), turns[1..]);
    }
  }

  lemma FreeWherever(definition: Url, v: View, here: View)
    requires TemporariesFree(definition, v) && here == v.(scopes := here.scopes)
    ensures TemporariesFree(definition, here)
  {
  }

  /** Temporaries never get in each other's way: over any run of a procedure's blocks in which no client takes
      the name of a temporary, another temporary can be declared exactly when its type can be made. */
  lemma TemporariesNeverClash(definition: Url, proc: Option<Url>, v: View, turns: seq<Turn>, scopes: seq<Scope>,
                              t: TypeDef, isVariable: bool)
    requires LegalRun(definition, proc, v, turns) && TemporariesFree(definition, v) && v.numLocals < MAX_LOCALS
    requires forall i :: 0 <= i < |turns| ==> LeavesTemporaries(turns[i].access)
    requires scopes != [] && Definition(scopes) == definition
    requires BindsOwn(StepAll(definition, proc, v, turns).(scopes := scopes))
    ensures var last := StepAll(definition, proc, v, turns).(scopes := scopes);
            DeclareTemporary(last, t, isVariable).0.Ok? <==> t !in last.outside.badTypes
  {
    hide LegalRun, StepAll, TemporaryName;
    RunKeepsFree(definition, proc, v, turns);
    var last := StepAll(definition, proc, v, turns).(scopes := scopes);
    assert MakeUrl(scopes, TemporaryName(last.numLocals)) == TemporaryUrl(definition, last.numLocals);
    assert NamesTemporary(TemporaryName(last.numLocals));
  }

  /** The definition that names a block is that of the nearest block that has one. */
  lemma {:induction false} DefinitionNearest(scopes: seq<Scope>, k: nat)
    requires k < |scopes| && scopes[k].definition.Some? && forall j :: 0 <= j < k ==> scopes[j].definition.None?
    ensures Definition(scopes) == scopes[k].definition.value
    decreases k
  {
    if k > 0 {
      DefinitionNearest(scopes[1..], k - 1);
    }
  }
}
