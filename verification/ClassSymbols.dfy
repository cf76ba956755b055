/** Class symbols, which declare their members, methods and stubs against their superclasses. */
module ClassSymbols {
  import opened ClassChain
  import opened Wrappers

  class ClassSymbol {
    const superClass: ClassSymbol?
    const imported: bool

    /** How many superclasses the class has. */
    const rank: nat

    var bindings: map<string, Declaration>
    var members: map<string, Declaration>
    var methods: map<string, Declaration>
    var stubs: map<string, Declaration>
    var isAbstract: bool

    /** The class and its superclasses. */
    ghost const chain: seq<ClassSymbol>

    ghost predicate Linked()
      decreases |chain|
    {
      && chain != [] && chain[0] == this && rank == |chain| - 1
      && (superClass == null ==> |chain| == 1)
      && (superClass != null ==> chain[1..] == superClass.chain && this !in superClass.chain && superClass.Linked())
    }

    /** The three maps sort what the block of the class binds. */
    ghost predicate Sorted()
      reads this
    {
      && (forall name :: name in members <==> name in bindings && bindings[name].Field?)
      && (forall name :: name in methods <==> name in bindings && bindings[name].Method?)
      && (forall name :: name in stubs <==> name in bindings && bindings[name].Stub?)
      && (forall name :: name in members ==> members[name] == bindings[name])
      && (forall name :: name in methods ==> methods[name] == bindings[name])
      && (forall name :: name in stubs ==> stubs[name] == bindings[name])
    }

    ghost predicate Valid()
      reads chain
    {
      Linked() && forall i :: 0 <= i < |chain| ==> chain[i].Sorted()
    }

    ghost function Tables(): (t: Chain)
      reads chain
      ensures |t| == |chain|
    {
      seq(|chain|, i requires 0 <= i < |chain| reads chain => chain[i].bindings)
    }

    constructor (superClass: ClassSymbol?)
      requires superClass != null ==> superClass.Valid()
      ensures Valid() && chain == [this] + if superClass == null then [] else superClass.chain
      ensures bindings == map[] && !isAbstract && !imported
    {
      this.superClass := superClass;
      imported := false;
      rank := if superClass == null then 0 else superClass.rank + 1;
      bindings, members, methods, stubs, isAbstract := map[], map[], map[], map[], false;
      chain := [this] + if superClass == null then [] else superClass.chain;
    }

    /** An imported class has what it was compiled with, and declares nothing more. */
    constructor Import(superClass: ClassSymbol?, table: Table)
      requires superClass != null ==> superClass.Valid()
      ensures Valid() && chain == [this] + if superClass == null then [] else superClass.chain
      ensures bindings == table && imported
    {
      this.superClass := superClass;
      imported := true;
      rank := if superClass == null then 0 else superClass.rank + 1;
      bindings := table;
      members := map name | name in table && table[name].Field? :: table[name];
      methods := map name | name in table && table[name].Method? :: table[name];
      stubs := map name | name in table && table[name].Stub? :: table[name];
      isAbstract := exists name :: name in table && table[name].Stub?;
      chain := [this] + if superClass == null then [] else superClass.chain;
    }

    lemma SuperTables()
      requires Valid() && superClass != null
      ensures superClass.Valid() && Tables()[1..] == superClass.Tables()
    {
      forall i | 0 <= i < |superClass.chain|
        ensures superClass.chain[i] == chain[i + 1] && superClass.chain[i].Sorted()
      {
        assert superClass.chain[i] == chain[1..][i];
      }
    }

    lemma SupersApart()
      requires Linked()
      ensures forall i :: 0 < i < |chain| ==> chain[i] != this
    {
      forall i | 0 < i < |chain|
        ensures chain[i] != this
      {
        assert chain[i] == superClass.chain[i - 1];
      }
    }

    /** The i-th superclass is what following the superclasses leads to. */
    lemma Ancestor(i: nat)
      requires Valid() && i < |chain|
      ensures chain[i].Linked() && chain[i].rank == |chain| - 1 - i
      ensures chain[i].superClass == if i + 1 < |chain| then chain[i + 1] else null
      decreases i
    {
      if superClass != null {
        SuperTables();
        assert superClass == superClass.chain[0] == chain[1];
        if i > 0 {
          superClass.Ancestor(i - 1);
          assert chain[i] == superClass.chain[i - 1];
        }
      }
    }

    method FindExistingOrOverriddenBinding(name: string) returns (r: Found)
      requires Valid()
      ensures r == FindExistingOrOverridden(Tables(), name)
    {
      if name in bindings {
        return InClass;
      }
      var current := superClass;
      ghost var i := 1;
      Ancestor(0);
      while current != null
        invariant 1 <= i <= |chain| && current == if i < |chain| then chain[i] else null
        invariant FindAbove(Tables()[1..], name) == FindAbove(Tables()[i..], name)
        decreases |chain| - i
      {
        Ancestor(i);
        assert Tables()[i..][0] == current.bindings && Tables()[i..][1..] == Tables()[i + 1..];
        if name in current.bindings && !current.bindings[name].NoDescriptor? {
          return Above(current.rank, current.bindings[name]);
        }
        current := current.superClass;
        i := i + 1;
      }
      return Nowhere;
    }

    /** Binds a name that the class does not bind yet; a class with a stub is abstract. */
    method Bind(name: string, declaration: Declaration)
      requires Valid() && name !in bindings
      requires declaration.Field? || declaration.Stub? || declaration.Method?
      modifies this
      ensures Valid() && isAbstract == (old(isAbstract) || declaration.Stub?)
      ensures Tables() == old(Tables())[0 := old(Tables())[0][name := declaration]]
    {
      ghost var before := Tables();
      SupersApart();
      Sort(name, declaration);
      assert Tables() == before[0 := before[0][name := declaration]];
    }

    method Sort(name: string, declaration: Declaration)
      requires Sorted() && name !in bindings
      requires declaration.Field? || declaration.Stub? || declaration.Method?
      modifies this
      ensures Sorted() && bindings == old(bindings)[name := declaration]
      ensures isAbstract == (old(isAbstract) || declaration.Stub?)
    {
      bindings := bindings[name := declaration];
      if declaration.Field? {
        members := members[name := declaration];
      } else if declaration.Stub? {
        stubs := stubs[name := declaration];
        isAbstract := true;
      } else {
        methods := methods[name := declaration];
      }
    }

    method DeclareMember(name: string, isHidden: bool) returns (s: Status)
      requires Valid()
      modifies this
      ensures Valid() && isAbstract == old(isAbstract)
      ensures imported ==> s == Err(AssemblerInvariant) && Tables() == old(Tables())
      ensures !imported ==> Matches(old(Tables()), name, MemberOf(isHidden), s, Tables())
    {
      if imported {
        return Err(AssemblerInvariant);
      }
      var found := FindExistingOrOverriddenBinding(name);
      if found != Nowhere {
        return Err(SymbolAlreadyDefined);
      }
      Bind(name, Field(isHidden));
      return OK;
    }

    method DeclareMethod(name: string, isHidden: bool, isFinal: bool) returns (s: Status)
      requires Valid()
      modifies this
      ensures Valid() && isAbstract == old(isAbstract)
      ensures imported ==> s == Err(AssemblerInvariant) && Tables() == old(Tables())
      ensures !imported ==> Matches(old(Tables()), name, MethodOf(isHidden, isFinal), s, Tables())
    {
      if imported {
        return Err(AssemblerInvariant);
      }
      var found := FindExistingOrOverriddenBinding(name);
      if found == InClass {
        return Err(SymbolAlreadyDefined);
      }
      var base := None;
      if found != Nowhere {
        if found.declaration.Stub? {
          base := Some(found.rank);
        } else if found.declaration.Method? {
          if found.declaration.isFinal {
            return Err(SymbolAlreadyDefined);
          }
          base := Some(found.rank);
        } else {
          return Err(SymbolAlreadyDefined);
        }
      }
      Bind(name, Method(isHidden, isFinal, base, true));
      return OK;
    }

    method DeclareStub(name: string, isHidden: bool) returns (s: Status)
      requires Valid()
      modifies this
      ensures Valid() && isAbstract == (old(isAbstract) || s.Ok?)
      ensures imported ==> s == Err(AssemblerInvariant) && Tables() == old(Tables())
      ensures !imported ==> Matches(old(Tables()), name, StubOf(isHidden), s, Tables())
    {
      if imported {
        return Err(AssemblerInvariant);
      }
      var found := FindExistingOrOverriddenBinding(name);
      if found != Nowhere {
        return Err(SymbolAlreadyDefined);
      }
      Bind(name, Stub(isHidden));
      return OK;
    }

    /** The declaration that the superclass of a rank has for a name. */
    method LookUp(baseRank: nat, name: string) returns (r: Option<Declaration>)
      requires Valid() && baseRank <= rank
      ensures baseRank < |Tables()| && r == DeclarationAt(Tables(), baseRank, name)
    {
      var current := this;
      ghost var i := 0;
      while current.rank != baseRank
        invariant 0 <= i < |chain| && current == chain[i] && baseRank <= current.rank
        invariant current.rank == |chain| - 1 - i
        decreases |chain| - i
      {
        Ancestor(i);
        Ancestor(i + 1);
        current := current.superClass;
        i := i + 1;
      }
      return if name in current.bindings then Some(current.bindings[name]) else None;
    }

    method PrepareMethod(name: string, inherited: bool) returns (r: Result<Callable>)
      requires Valid()
      ensures r == ClassChain.PrepareMethod(Tables(), name, inherited)
      decreases rank
    {
      assert Tables()[0] == bindings;
      if name in methods {
        if methods[name].hidden && !inherited {
          return Err(InvalidAccess);
        }
        if !methods[name].bound {
          return Err(AssemblerInvariant);
        }
        var base := methods[name].base;
        if base == None {
          return Ok(MethodCall(rank));
        }
        if base.value > rank {
          return Err(AssemblerInvariant);
        }
        var symbol := LookUp(base.value, name);
        if symbol.Some? && symbol.value.Stub? {
          return Ok(StubCall(base.value));
        }
        if symbol.Some? && symbol.value.Method? {
          return Ok(MethodCall(base.value));
        }
        return Err(AssemblerInvariant);
      }
      if name in stubs {
        if stubs[name].hidden && !inherited {
          return Err(InvalidAccess);
        }
        return Ok(StubCall(rank));
      }
      if superClass == null {
        assert Tables()[1..] == [];
        return Err(MissingMethod);
      }
      SuperTables();
      r := superClass.PrepareMethod(name, inherited);
    }
  }

  /** The class has declared what it was asked to, or refused to and changed nothing. */
  ghost predicate Matches(before: Chain, name: string, what: Declared, s: Status, after: Chain) {
    && before != []
    && after == DeclareAt(before, 0, name, what)
    && (var r := Declare(before, name, what); if r.Ok? then s == OK else s == Err(r.condition))
  }
}
