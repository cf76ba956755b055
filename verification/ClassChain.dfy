/** The members, methods and stubs declared along a chain of classes, and the discipline of overriding. */
module ClassChain {
  import opened Wrappers

  /** What a class binds a name to. The base of a method is the class of the declaration that it
      overrides, counted from the root of the chain; a method that is not bound to a receiver can only
      have been imported. Bindings that are no descriptors, and descriptors of other symbols, can be
      in a class block as well. */
  datatype Declaration =
    | Field(hidden: bool)
    | Stub(hidden: bool)
    | Method(hidden: bool, isFinal: bool, base: Option<nat>, bound: bool)
    | OtherSymbol
    | NoDescriptor

  type Table = map<string, Declaration>

  /** The tables of a class and its superclasses, the most derived one first. */
  type Chain = seq<Table>

  // ---------- declaring ----------

  datatype Found = InClass | Above(rank: nat, declaration: Declaration) | Nowhere

  /** The nearest of these classes that binds the name to a descriptor. */
  function FindAbove(chain: Chain, name: string): (r: Found)
    ensures !r.InClass?
    ensures r.Above? ==> r.rank < |chain|
  {
    if chain == [] then Nowhere
    else if name in chain[0] && !chain[0][name].NoDescriptor? then Above(|chain| - 1, chain[0][name])
    else FindAbove(chain[1..], name)
  }

  /** The class itself counts whatever kind of binding it has. */
  function FindExistingOrOverridden(chain: Chain, name: string): Found
    requires chain != []
  {
    if name in chain[0] then InClass else FindAbove(chain[1..], name)
  }

  datatype Declared = MemberOf(hidden: bool) | StubOf(hidden: bool) | MethodOf(hidden: bool, isFinal: bool)

  /** What the first class of the chain binds the name to when it declares it. */
  function Declare(chain: Chain, name: string, what: Declared): Result<Declaration>
    requires chain != []
  {
    match FindExistingOrOverridden(chain, name)
    case InClass => Err(SymbolAlreadyDefined)
    case Nowhere =>
      Ok(match what
         case MemberOf(hidden) => Field(hidden)
         case StubOf(hidden) => Stub(hidden)
         case MethodOf(hidden, isFinal) => Method(hidden, isFinal, None, true))
    case Above(rank, declaration) =>
      if what.MethodOf? && (declaration.Stub? || (declaration.Method? && !declaration.isFinal)) then
        Ok(Method(what.hidden, what.isFinal, Some(rank), true))
      else
        Err(SymbolAlreadyDefined)
  }

  // ---------- preparing a call ----------

  /** What a call of a method refers to: the declaration of the class with this rank. */
  datatype Callable = MethodCall(rank: nat) | StubCall(rank: nat)

  /** The kind of the symbol that a class of the chain binds the name to. */
  function DeclarationAt(chain: Chain, rank: nat, name: string): Option<Declaration>
    requires rank < |chain|
  {
    var table := chain[|chain| - 1 - rank];
    if name in table then Some(table[name]) else None
  }

  function CallableFor(chain: Chain, name: string, declaration: Declaration): Result<Callable>
    requires chain != []
  {
    if declaration.Stub? then Ok(StubCall(|chain| - 1))
    else if !declaration.Method? || !declaration.bound then Err(AssemblerInvariant)
    else if declaration.base.None? then Ok(MethodCall(|chain| - 1))
    else if |chain| <= declaration.base.value then Err(AssemblerInvariant)
    else match DeclarationAt(chain, declaration.base.value, name)
      case Some(Stub(_)) => Ok(StubCall(declaration.base.value))
      case Some(Method(_, _, _, _)) => Ok(MethodCall(declaration.base.value))
      case _ => Err(AssemblerInvariant)
  }

  /** Calls the nearest method or stub, by way of the declaration it overrides. */
  function PrepareMethod(chain: Chain, name: string, inherited: bool): Result<Callable> {
    if chain == [] then Err(MissingMethod)
    else if name in chain[0] && (chain[0][name].Method? || chain[0][name].Stub?) then
      if chain[0][name].hidden && !inherited then Err(InvalidAccess) else CallableFor(chain, name, chain[0][name])
    else PrepareMethod(chain[1..], name, inherited)
  }

  predicate HasCallable(table: Table, name: string) {
    name in table && (table[name].Method? || table[name].Stub?)
  }

  /** The condition with which a call is refused: a missing method when no class of the chain has a method or stub of
      the name, invalid access when the nearest one is hidden, and otherwise an invariant. */
  lemma {:induction false} CallRefusedWith(chain: Chain, name: string, inherited: bool, i: nat)
    requires PrepareMethod(chain, name, inherited).Err?
    requires i <= |chain| && (i < |chain| ==> HasCallable(chain[i], name))
              && forall j :: 0 <= j < i ==> !HasCallable(chain[j], name)
    ensures PrepareMethod(chain, name, inherited).condition ==
              if i == |chain| then MissingMethod
              else if chain[i][name].hidden && !inherited then InvalidAccess
              else AssemblerInvariant
    decreases i
  {
    if i > 0 {
      assert !HasCallable(chain[0], name);
      CallRefusedWith(chain[1..], name, inherited, i - 1);
    }
  }

  // ---------- what is declared, and what that means ----------

  predicate Describes(table: Table, name: string) {
    name in table && !table[name].NoDescriptor?
  }

  /** The class at `i` is the nearest one that binds the name to a descriptor. */
  predicate NearestAt(chain: Chain, name: string, i: nat) {
    i < |chain| && Describes(chain[i], name) && forall j :: 0 <= j < i ==> !Describes(chain[j], name)
  }

  /** The nearest class of a chain whose first class does not describe the name is that of the rest. */
  lemma NearestBehind(chain: Chain, name: string, i: nat)
    requires chain != [] && !Describes(chain[0], name)
    ensures !NearestAt(chain, name, 0)
    ensures NearestAt(chain, name, i + 1) <==> NearestAt(chain[1..], name, i)
  {
    hide Describes;
    if i < |chain[1..]| {
      assert chain[1..][i] == chain[i + 1];
    }
    assert forall j :: 0 < j < |chain| ==> chain[j] == chain[1..][j - 1];
    assert forall j :: 0 <= j < |chain[1..]| ==> chain[1..][j] == chain[j + 1];
  }

  lemma {:induction false} FindsNearest(chain: Chain, name: string)
    ensures var found := FindAbove(chain, name);
            && (found.Nowhere? ==> forall i: nat :: !NearestAt(chain, name, i))
            && (found.Above? ==>
                  var i := |chain| - 1 - found.rank;
                  NearestAt(chain, name, i) && chain[i][name] == found.declaration)
  {
    if chain != [] && !Describes(chain[0], name) {
      FindsNearest(chain[1..], name);
      hide NearestAt;
      forall i: nat
        ensures NearestAt(chain, name, i) <==> i > 0 && NearestAt(chain[1..], name, i - 1)
      {
        NearestBehind(chain, name, if i > 0 then i - 1 else 0);
      }
    }
  }

  /** Exactly when a class can declare a name, and as what: if it does not bind the name itself, and of the
      classes above it the nearest one with a descriptor of that name, if there is one, has a stub or a method
      that is not final, while it is a method that is declared. The declaration is what was asked for, and a
      method has that nearest class for its base. */
  lemma DeclaresExactly(chain: Chain, name: string, what: Declared)
    requires chain != []
    ensures var r := Declare(chain, name, what);
            && (r.Ok? <==>
                  && name !in chain[0]
                  && forall i: nat :: NearestAt(chain[1..], name, i) ==>
                       what.MethodOf? && var d := chain[1..][i][name]; d.Stub? || (d.Method? && !d.isFinal))
            && (r.Err? ==> r.condition == SymbolAlreadyDefined)
            && (r.Ok? ==>
                  match what
                  case MemberOf(hidden) => r.value == Field(hidden)
                  case StubOf(hidden) => r.value == Stub(hidden)
                  case MethodOf(hidden, isFinal) =>
                    && r.value.Method? && r.value.hidden == hidden && r.value.isFinal == isFinal && r.value.bound
                    && forall i: nat :: i < |chain| - 1 ==>
                         (r.value.base == Some(|chain| - 2 - i) <==> NearestAt(chain[1..], name, i)))
  {
    FindsNearest(chain[1..], name);
    forall i: nat, j: nat | NearestAt(chain[1..], name, i) && NearestAt(chain[1..], name, j)
      ensures i == j
    {
    }
  }

  /** What a declaration means from then on: a method or a stub that was declared hidden can be called only by way of an
      inherited receiver, and any other one always; a class derived directly can override it exactly when it is a
      stub or a method that was not declared final, and cannot declare a field or a stub of that name. */
  lemma DeclaredGoverns(chain: Chain, name: string, what: Declared, inherited: bool, again: Declared)
    requires chain != [] && Declare(chain, name, what).Ok?
    ensures var after := chain[0 := chain[0][name := Declare(chain, name, what).value]];
            && (!what.MemberOf? ==>
                  (PrepareMethod(after, name, inherited).Ok? <==> !what.hidden || inherited)
                  && (what.hidden && !inherited ==> PrepareMethod(after, name, inherited) == Err(InvalidAccess)))
            && (Declare([map[]] + after, name, again).Ok? <==>
                  again.MethodOf? && (what.StubOf? || (what.MethodOf? && !what.isFinal)))
            && (what.MethodOf? && Declare([map[]] + after, name, again).Ok? ==>
                  Declare([map[]] + after, name, again).value.base == Some(|chain| - 1))
  {
    var d := Declare(chain, name, what).value;
    var after := chain[0 := chain[0][name := d]];
    FindsNearest(chain[1..], name);
    assert ([map[]] + after)[1..] == after;
    if d.Method? && d.base.Some? {
      var i := |chain[1..]| - 1 - d.base.value;
      assert after[|after| - 1 - d.base.value] == chain[1..][i];
    }
  }

  // ---------- the discipline ----------

  /** The declarations of a name, from the root to the most derived class. */
  function Declarations(chain: Chain, name: string): seq<(nat, Declaration)> {
    if chain == [] then []
    else Declarations(chain[1..], name) + if name in chain[0] then [(|chain| - 1, chain[0][name])] else []
  }

  /** A single field, or an optional stub followed by methods, of which only the most derived may be
      final; each method overrides the declaration before it. */
  predicate Disciplined(ds: seq<(nat, Declaration)>) {
    && (forall i :: 0 <= i < |ds| ==> !ds[i].1.OtherSymbol? && !ds[i].1.NoDescriptor?)
    && (forall i :: 0 < i < |ds| ==> ds[i].1.Method? && ds[i].1.base == Some(ds[i - 1].0))
    && (forall i :: 0 <= i < |ds| - 1 ==> ds[i].1.Stub? || (ds[i].1.Method? && !ds[i].1.isFinal))
    && (ds != [] && ds[0].1.Method? ==> ds[0].1.base == None)
  }

  lemma {:induction false} NearestIsLast(chain: Chain, name: string)
    requires Disciplined(Declarations(chain, name))
    ensures var ds := Declarations(chain, name);
            FindAbove(chain, name) == if ds == [] then Nowhere else Above(ds[|ds| - 1].0, ds[|ds| - 1].1)
  {
    if chain != [] {
      var rest := Declarations(chain[1..], name);
      if name in chain[0] {
        assert Declarations(chain, name)[|rest|] == (|chain| - 1, chain[0][name]);
      } else {
        assert Declarations(chain, name) == rest;
        NearestIsLast(chain[1..], name);
      }
    }
  }

  lemma DisciplinedFront(ds: seq<(nat, Declaration)>)
    requires ds != [] && Disciplined(ds)
    ensures Disciplined(ds[..|ds| - 1])
  {
  }

  lemma {:induction false} DisciplinedAbove(chain: Chain, name: string, i: nat)
    requires i <= |chain| && Disciplined(Declarations(chain, name))
    ensures Disciplined(Declarations(chain[i..], name))
    decreases i
  {
    if i > 0 {
      var rest := Declarations(chain[1..], name);
      if name in chain[0] {
        DisciplinedFront(Declarations(chain, name));
        assert Declarations(chain, name)[..|rest|] == rest;
      } else {
        assert Declarations(chain, name) == rest;
      }
      DisciplinedAbove(chain[1..], name, i - 1);
      assert chain[1..][i - 1..] == chain[i..];
    }
  }

  /** A declaration by the class at `i`, counted from the most derived one. */
  function DeclareAt(chain: Chain, i: nat, name: string, what: Declared): Chain
    requires i < |chain|
  {
    var r := Declare(chain[i..], name, what);
    if r.Err? then chain else chain[i := chain[i][name := r.value]]
  }

  lemma {:induction false} DeclarationsSplit(chain: Chain, name: string, i: nat)
    requires i <= |chain| && forall j :: 0 <= j < i ==> name !in chain[j]
    ensures Declarations(chain, name) == Declarations(chain[i..], name)
    decreases i
  {
    if i > 0 {
      DeclarationsSplit(chain[1..], name, i - 1);
      assert chain[1..][i - 1..] == chain[i..];
    }
  }

  lemma {:induction false} DeclarationsExtend(chain: Chain, name: string, i: nat)
    requires i <= |chain|
    ensures |Declarations(chain[i..], name)| <= |Declarations(chain, name)|
    ensures Declarations(chain, name)[..|Declarations(chain[i..], name)|] == Declarations(chain[i..], name)
    ensures (exists j :: 0 <= j < i && name in chain[j]) ==>
              |Declarations(chain[i..], name)| < |Declarations(chain, name)|
    decreases i
  {
    if i > 0 {
      DeclarationsExtend(chain[1..], name, i - 1);
      assert chain[1..][i - 1..] == chain[i..];
      assert forall j :: 0 < j < i ==> chain[1..][j - 1] == chain[j];
    }
  }

  /** A class that declares a name which no class derived from it has yet keeps the discipline. */
  lemma DeclareKeeps(chain: Chain, i: nat, name: string, what: Declared)
    requires i < |chain| && Disciplined(Declarations(chain, name))
    requires Declare(chain[i..], name, what).Ok? && forall j :: 0 <= j < i ==> name !in chain[j]
    ensures Disciplined(Declarations(DeclareAt(chain, i, name, what), name))
  {
    var after := DeclareAt(chain, i, name, what);
    DeclarationsSplit(after, name, i);
    assert chain[i..][1..] == chain[i + 1..] == after[i..][1..];
    DisciplinedAbove(chain, name, i + 1);
    DeclareFirstKeeps(chain[i..], name, what);
    assert after[i..] == chain[i..][0 := chain[i][name := Declare(chain[i..], name, what).value]];
  }

  lemma DeclareFirstKeeps(chain: Chain, name: string, what: Declared)
    requires chain != [] && Disciplined(Declarations(chain[1..], name)) && Declare(chain, name, what).Ok?
    ensures Disciplined(Declarations(chain[0 := chain[0][name := Declare(chain, name, what).value]], name))
  {
    var after := chain[0 := chain[0][name := Declare(chain, name, what).value]];
    NearestIsLast(chain[1..], name);
    assert after[1..] == chain[1..];
  }

  /** What every class derived from `i` declares stays where it is, behind the new declaration. */
  lemma {:induction false} DeclarationsAfter(chain: Chain, i: nat, name: string, d: Declaration)
    requires i < |chain| && name !in chain[i]
    ensures var ds := Declarations(chain, name);
            var k := |Declarations(chain[i + 1..], name)|;
            && k <= |ds|
            && Declarations(chain[i := chain[i][name := d]], name) == ds[..k] + [(|chain| - 1 - i, d)] + ds[k..]
    decreases i
  {
    var after := chain[i := chain[i][name := d]];
    if i == 0 {
      assert after[1..] == chain[1..];
    } else {
      DeclarationsAfter(chain[1..], i - 1, name, d);
      assert after[1..] == chain[1..][i - 1 := chain[1..][i - 1][name := d]];
      assert chain[1..][i..] == chain[i + 1..];
    }
  }

  lemma {:induction false} RanksBelow(chain: Chain, name: string)
    ensures forall k :: 0 <= k < |Declarations(chain, name)| ==> Declarations(chain, name)[k].0 < |chain|
  {
    if chain != [] {
      RanksBelow(chain[1..], name);
    }
  }

  /** A declaration keeps the discipline exactly when no class derived from the declaring one has
      the name already. */
  lemma KeepsExactlyWhenFirst(chain: Chain, i: nat, name: string, what: Declared)
    requires i < |chain| && Disciplined(Declarations(chain, name)) && Declare(chain[i..], name, what).Ok?
    ensures Disciplined(Declarations(DeclareAt(chain, i, name, what), name)) <==>
              forall j :: 0 <= j < i ==> name !in chain[j]
  {
    if forall j :: 0 <= j < i ==> name !in chain[j] {
      DeclareKeeps(chain, i, name, what);
    } else {
      var d := Declare(chain[i..], name, what).value;
      assert chain[i..][0] == chain[i];
      DeclarationsAfter(chain, i, name, d);
      DeclarationsExtend(chain, name, i);
      assert chain[i..][1..] == chain[i + 1..];
      assert Declarations(chain[i..], name) == Declarations(chain[i + 1..], name);
      var ds := Declarations(chain, name);
      var k := |Declarations(chain[i + 1..], name)|;
      var after := Declarations(DeclareAt(chain, i, name, what), name);
      assert k < |ds|;
      assert after[k + 1] == ds[k] && after[k] == (|chain| - 1 - i, d);
      if k > 0 {
        assert ds[k - 1] == Declarations(chain[i + 1..], name)[k - 1];
        RanksBelow(chain[i + 1..], name);
      }
    }
  }

  /** A class declares the method `m`; then its superclass declares a field of that name, which nothing
      keeps it from. */
  lemma SuperclassDeclaresLate()
    ensures var derived := DeclareAt([map[], map[]], 0, "m", MethodOf(false, false));
            && Disciplined(Declarations(derived, "m")) && "m" in derived[0]
            && Declare(derived[1..], "m", MemberOf(false)) == Ok(Field(false))
            && !Disciplined(Declarations(DeclareAt(derived, 1, "m", MemberOf(false)), "m"))
  {
    var chain: Chain := [map[], map[]];
    assert chain[0..] == chain && chain[1..] == [map[]] && chain[1..][1..] == [];
    assert Declare(chain, "m", MethodOf(false, false)) == Ok(Method(false, false, None, true));
    var derived := DeclareAt(chain, 0, "m", MethodOf(false, false));
    assert derived == [map["m" := Method(false, false, None, true)], map[]];
    assert derived[1..] == [map[]] && derived[1..][1..] == [];
    assert Declarations([map[]], "m") == [];
    assert Declarations(derived, "m") == [(1, Method(false, false, None, true))];
    KeepsExactlyWhenFirst(derived, 1, "m", MemberOf(false));
  }

  // ---------- every run ----------

  datatype Step = Step(i: nat, name: string, what: Declared)

  /** Ancestors finish declaring before their descendants do. */
  predicate InOrder(chain: Chain, step: Step) {
    step.i < |chain| && forall j :: 0 <= j < step.i ==> step.name !in chain[j]
  }

  predicate RunInOrder(chain: Chain, steps: seq<Step>)
    decreases |steps|
  {
    steps == [] || (InOrder(chain, steps[0])
                    && RunInOrder(DeclareAt(chain, steps[0].i, steps[0].name, steps[0].what), steps[1..]))
  }

  function DeclareAll(chain: Chain, steps: seq<Step>): Chain
    requires RunInOrder(chain, steps)
    decreases |steps|
  {
    if steps == [] then chain else DeclareAll(DeclareAt(chain, steps[0].i, steps[0].name, steps[0].what), steps[1..])
  }

  lemma {:induction false} OtherNames(before: Chain, after: Chain, name: string)
    requires |before| == |after|
    requires forall j :: 0 <= j < |before| ==>
               && (name in before[j] <==> name in after[j])
               && (name in before[j] ==> before[j][name] == after[j][name])
    ensures Declarations(before, name) == Declarations(after, name)
    decreases |before|
  {
    if before != [] {
      OtherNames(before[1..], after[1..], name);
    }
  }

  /** Over any run in which ancestors declare before their descendants, accepted or not, every name
      is declared along the chain as the discipline says. */
  lemma {:induction false} RunDisciplined(chain: Chain, steps: seq<Step>, name: string)
    requires Disciplined(Declarations(chain, name)) && RunInOrder(chain, steps)
    ensures Disciplined(Declarations(DeclareAll(chain, steps), name))
    decreases |steps|
  {
    hide Disciplined, Declare;
    if steps != [] {
      var step := steps[0];
      var next := DeclareAt(chain, step.i, step.name, step.what);
      if step.name != name {
        OtherNames(chain, next, name);
      } else if Declare(chain[step.i..], name, step.what).Ok? {
        DeclareKeeps(chain, step.i, name, step.what);
      }
      RunDisciplined(next, steps[1..], name);
    }
  }

  // ---------- calls ----------

  lemma {:induction false} DeclarationIn(chain: Chain, name: string, k: nat)
    requires k < |Declarations(chain, name)|
    ensures Declarations(chain, name)[k].0 < |chain|
    ensures DeclarationAt(chain, Declarations(chain, name)[k].0, name) == Some(Declarations(chain, name)[k].1)
  {
    var rest := Declarations(chain[1..], name);
    if k < |rest| {
      DeclarationIn(chain[1..], name, k);
    }
  }

  /** Where the discipline is kept, a name can be called exactly when it is declared as a method or
      stub and the nearest declaration may be accessed and is bound, and the call goes by way of the
      declaration that the nearest one overrides, if there is one. */
  lemma {:induction false} CallsNearest(chain: Chain, name: string, inherited: bool)
    requires Disciplined(Declarations(chain, name))
    ensures var ds := Declarations(chain, name);
            var n := |ds|;
            PrepareMethod(chain, name, inherited) ==
              if n == 0 || ds[n - 1].1.Field? then Err(MissingMethod)
              else if ds[n - 1].1.hidden && !inherited then Err(InvalidAccess)
              else if ds[n - 1].1.Method? && !ds[n - 1].1.bound then Err(AssemblerInvariant)
              else var target := if n == 1 then ds[0] else ds[n - 2];
                   Ok(if target.1.Stub? then StubCall(target.0) else MethodCall(target.0))
  {
    if chain != [] {
      var rest := Declarations(chain[1..], name);
      var ds := Declarations(chain, name);
      if name in chain[0] {
        assert ds[|rest|] == (|chain| - 1, chain[0][name]);
        if |rest| > 0 {
          DeclarationIn(chain, name, |rest| - 1);
        } else if chain[0][name].Field? {
          NothingAbove(chain[1..], name, inherited);
        }
      } else {
        assert ds == rest;
        CallsNearest(chain[1..], name, inherited);
        SameCall(chain, name, inherited);
      }
    }
  }

  lemma SameCall(chain: Chain, name: string, inherited: bool)
    requires chain != [] && name !in chain[0]
    ensures PrepareMethod(chain, name, inherited) == PrepareMethod(chain[1..], name, inherited)
  {
  }

  lemma {:induction false} NothingAbove(chain: Chain, name: string, inherited: bool)
    requires Declarations(chain, name) == []
    ensures PrepareMethod(chain, name, inherited) == Err(MissingMethod)
  {
    if chain != [] {
      NothingAbove(chain[1..], name, inherited);
    }
  }
}
