/** Editing fragments: a procedure's main fragment grows by appending, inserting and splicing
    others into it, while its labels and jump targets stay distinct. */
module Fragments {
  import opened BigEndian
  import opened Bytecode
  import opened Emission
  import opened Instructions
  import opened JumpTables
  import SymbolIndex
  import opened Wrappers

  /** Inserting at an index that is not inside the sequence appends. */
  function InsertAt<T>(s: seq<T>, at: int, xs: seq<T>): seq<T> {
    if 0 <= at < |s| then s[..at] + xs + s[at..] else s + xs
  }

  function RemoveAt<T>(s: seq<T>, at: nat): seq<T>
    requires at < |s|
  {
    s[..at] + s[at + 1..]
  }

  // ---------- the names in a fragment ----------

  datatype Name = LabelName(name: string) | TargetName(target: U32)

  function NameOf(ins: Instruction): multiset<Name> {
    if ins.Label? then multiset{LabelName(ins.name)}
    else if IsTransfer(ins) then multiset{TargetName(ins.target)}
    else multiset{}
  }

  /** The labels and targets that occur in a fragment, as often as they occur. */
  function NamesIn(stmts: seq<Instruction>): multiset<Name> {
    if stmts == [] then multiset{} else NamesIn(stmts[..|stmts| - 1]) + NameOf(stmts[|stmts| - 1])
  }

  lemma {:induction false} NamesAppend(a: seq<Instruction>, b: seq<Instruction>)
    ensures NamesIn(a + b) == NamesIn(a) + NamesIn(b)
  {
    hide NameOf;
    if b == [] {
      assert a + b == a;
    } else {
      var n := |b| - 1;
      NamesAppend(a, b[..n]);
      assert (a + b)[..|a + b| - 1] == a + b[..n];
    }
  }

  lemma NamesInsert(s: seq<Instruction>, at: int, xs: seq<Instruction>)
    ensures NamesIn(InsertAt(s, at, xs)) == NamesIn(s) + NamesIn(xs)
  {
    hide NameOf, NamesIn;
    if 0 <= at < |s| {
      NamesAppend(s[..at], xs);
      NamesAppend(s[..at] + xs, s[at..]);
      NamesAppend(s[..at], s[at..]);
      assert s == s[..at] + s[at..];
    } else {
      NamesAppend(s, xs);
    }
  }

  lemma NamesSingle(ins: Instruction)
    ensures NamesIn([ins]) == NameOf(ins)
  {
    assert [ins][..0] == [];
    assert NamesIn([ins]) == NamesIn([ins][..0]) + NameOf(ins);
  }

  lemma NamesRemove(s: seq<Instruction>, at: nat)
    requires at < |s|
    ensures NamesIn(s) == NamesIn(RemoveAt(s, at)) + NameOf(s[at])
  {
    hide NameOf, NamesIn;
    NamesInsert(RemoveAt(s, at), at, [s[at]]);
    NamesSingle(s[at]);
    assert s == InsertAt(RemoveAt(s, at), at, [s[at]]);
  }

  predicate Once<T>(m: multiset<T>) {
    forall x :: x in m ==> m[x] == 1
  }

  lemma OnceSplits<T>(a: multiset<T>, b: multiset<T>)
    requires Once(a + b)
    ensures Once(a) && Once(b)
    ensures forall c: multiset<T> :: c <= a ==> c !! b
  {
    forall x | x in a
      ensures a[x] == 1 && x !in b
    {
      assert x in a + b;
    }
    forall x | x in b
      ensures b[x] == 1
    {
      assert x in a + b;
    }
  }

  lemma NameOccurs(stmts: seq<Instruction>, i: nat)
    requires i < |stmts|
    ensures NameOf(stmts[i]) <= NamesIn(stmts)
  {
    NamesRemove(stmts, i);
  }

  /** When labels and targets occur once each they are distinct. */
  lemma {:induction false} OnceIsDistinct(stmts: seq<Instruction>)
    requires Once(NamesIn(stmts))
    ensures DistinctLabels(stmts) && DistinctTargets(stmts)
  {
    hide NameOf;
    if stmts != [] {
      var n := |stmts| - 1;
      OnceSplits(NamesIn(stmts[..n]), NameOf(stmts[n]));
      OnceIsDistinct(stmts[..n]);
      forall i | 0 <= i < n
        ensures NameOf(stmts[i]) !! NameOf(stmts[n])
      {
        NameOccurs(stmts[..n], i);
      }
      SnocDistinct(stmts);
    }
  }

  lemma SnocDistinct(stmts: seq<Instruction>)
    requires stmts != [] && DistinctLabels(stmts[..|stmts| - 1]) && DistinctTargets(stmts[..|stmts| - 1])
    requires forall i :: 0 <= i < |stmts| - 1 ==> NameOf(stmts[i]) !! NameOf(stmts[|stmts| - 1])
    ensures DistinctLabels(stmts) && DistinctTargets(stmts)
  {
    var n := |stmts| - 1;
    forall i, j | 0 <= i < j < |stmts|
      ensures stmts[i].Label? && stmts[j].Label? ==> stmts[i].name != stmts[j].name
      ensures IsTransfer(stmts[i]) && IsTransfer(stmts[j]) ==> stmts[i].target != stmts[j].target
    {
      if j < n {
        assert stmts[..n][i] == stmts[i] && stmts[..n][j] == stmts[j];
      } else {
        assert NameOf(stmts[i]) !! NameOf(stmts[n]);
        assert forall x :: x in NameOf(stmts[i]) ==> x !in NameOf(stmts[n]);
      }
    }
  }

  // ---------- the fragments of a procedure ----------

  /** The fragments being edited, of which the first is the procedure's own, and those that have
      been spliced into another. */
  datatype Session = Session(tables: Tables, fragments: seq<seq<Instruction>>, spliced: set<nat>)

  const NEW_SESSION := Session(NO_TABLES, [[]], {})

  datatype Edit =
    | AddPlain(f: nat, at: int, ins: Instruction)
    | AddLabel(f: nat, at: int, userLabel: string)
    | AddJump(f: nat, opcode: Byte)
    | Remove(f: nat, i: nat)
    | Patch(target: U32, name: string)
    | AddFragment
    | Splice(f: nat, at: int, g: nat)

  /** What a client may ask for. A fragment is spliced at most once, not into itself, and the
      procedure's own fragment is not spliced; bare instructions carry no label and no target. */
  predicate Legal(s: Session, edit: Edit) {
    match edit
    case AddPlain(f, _, ins) => f < |s.fragments| && NameOf(ins) == multiset{}
    case AddLabel(f, _, _) => f < |s.fragments|
    case AddJump(f, op) => f < |s.fragments| && HasDistance(op)
    case Remove(f, i) => f < |s.fragments| && i < |s.fragments[f]|
    case Patch(_, name) => name != ""
    case AddFragment => true
    case Splice(f, _, g) => f < |s.fragments| && g < |s.fragments| && f != g && g != 0 && g !in s.spliced
  }

  function JumpOf(op: Byte, target: U32): Instruction {
    if op == OP_JUMP then Jump(target) else Branch(op, target)
  }

  /** The jump that is made for an opcode is encoded with that opcode, and goes to its target. */
  lemma JumpKeepsOpcode(op: Byte, target: U32, idx: SymbolIndex.Index)
    requires HasDistance(op)
    ensures IsTransfer(JumpOf(op, target)) && JumpOf(op, target).target == target
    ensures Encode(JumpOf(op, target), idx) == Ok([op, 0, 0])
  {
  }

  function Change(s: Session, f: nat, stmts: seq<Instruction>): Session
    requires f < |s.fragments|
  {
    s.(fragments := s.fragments[f := stmts])
  }

  function Apply(s: Session, edit: Edit): Session
    requires Legal(s, edit)
  {
    match edit
    case AddPlain(f, at, ins) => Change(s, f, InsertAt(s.fragments[f], at, [ins]))
    case AddLabel(f, at, userLabel) =>
      var (name, tables) := MakeLabel(s.tables, userLabel);
      if name.Err? then s
      else Change(s.(tables := tables), f, InsertAt(s.fragments[f], at, [Label(name.value)]))
    case AddJump(f, op) =>
      var (target, tables) := MakeJump(s.tables);
      if target.Err? then s
      else Change(s.(tables := tables), f, s.fragments[f] + [JumpOf(op, target.value)])
    case Remove(f, i) => Change(s, f, RemoveAt(s.fragments[f], i))
    case Patch(target, name) => s.(tables := PatchTarget(s.tables, target, name).1)
    case AddFragment => s.(fragments := s.fragments + [[]])
    case Splice(f, at, g) =>
      Change(s, f, InsertAt(s.fragments[f], at, s.fragments[g])).(spliced := s.spliced + {g})
  }

  /** The names in the fragments that have not been spliced. */
  function LiveNames(fragments: seq<seq<Instruction>>, spliced: set<nat>): multiset<Name> {
    if fragments == [] then multiset{}
    else
      var n := |fragments| - 1;
      LiveNames(fragments[..n], spliced) + if n in spliced then multiset{} else NamesIn(fragments[n])
  }

  predicate Registered(t: Tables, name: Name) {
    match name
    case LabelName(l) => l in t.labelTargets
    case TargetName(j) => j in t.jumpLabels && j < t.nextId
  }

  /** Every label and target occurs at most once in the live fragments, and is in the tables. */
  ghost predicate Tidy(s: Session) {
    && |s.fragments| > 0
    && 0 !in s.spliced
    && Once(LiveNames(s.fragments, s.spliced))
    && (forall name :: name in LiveNames(s.fragments, s.spliced) ==> Registered(s.tables, name))
    && (forall j :: j in s.tables.jumpLabels ==> j < s.tables.nextId)
  }

  lemma AddToBoth<T>(a: multiset<T>, b: multiset<T>, c: multiset<T>, d: multiset<T>, e: multiset<T>)
    requires a + b == c + d
    ensures (a + e) + b == (c + e) + d
  {
    assert (a + e) + b == (a + b) + e;
    assert (c + e) + d == (c + d) + e;
  }

  lemma {:induction false} LiveChange(fragments: seq<seq<Instruction>>, spliced: set<nat>, f: nat,
                                      stmts: seq<Instruction>)
    requires f < |fragments|
    ensures f in spliced ==> LiveNames(fragments[f := stmts], spliced) == LiveNames(fragments, spliced)
    ensures f !in spliced ==>
              (LiveNames(fragments[f := stmts], spliced) + NamesIn(fragments[f])
               == LiveNames(fragments, spliced) + NamesIn(stmts))
    decreases |fragments|
  {
    hide NamesIn;
    var n := |fragments| - 1;
    if f == n {
      assert fragments[f := stmts][..n] == fragments[..n];
    } else {
      LiveChange(fragments[..n], spliced, f, stmts);
      assert fragments[f := stmts][..n] == fragments[..n][f := stmts];
      if f !in spliced {
        var rest := if n in spliced then multiset{} else NamesIn(fragments[n]);
        AddToBoth(LiveNames(fragments[..n][f := stmts], spliced), NamesIn(fragments[f]),
                  LiveNames(fragments[..n], spliced), NamesIn(stmts), rest);
      }
    }
  }

  lemma {:induction false} LiveSplice(fragments: seq<seq<Instruction>>, spliced: set<nat>, g: nat)
    requires g !in spliced
    ensures LiveNames(fragments, spliced)
         == LiveNames(fragments, spliced + {g}) + if g < |fragments| then NamesIn(fragments[g]) else multiset{}
    decreases |fragments|
  {
    hide NamesIn;
    if fragments != [] {
      var n := |fragments| - 1;
      LiveSplice(fragments[..n], spliced, g);
    }
  }

  lemma {:induction false} LivePart(fragments: seq<seq<Instruction>>, spliced: set<nat>, f: nat)
    requires f < |fragments| && f !in spliced
    ensures NamesIn(fragments[f]) <= LiveNames(fragments, spliced)
    decreases |fragments|
  {
    hide NamesIn;
    var n := |fragments| - 1;
    if f < n {
      LivePart(fragments[..n], spliced, f);
    }
  }

  /** A fragment loses nothing it had and gains the names of `gained`. */
  lemma LiveGains(fragments: seq<seq<Instruction>>, spliced: set<nat>, f: nat, stmts: seq<Instruction>,
                  gained: multiset<Name>)
    requires f < |fragments| && NamesIn(stmts) == NamesIn(fragments[f]) + gained
    ensures LiveNames(fragments[f := stmts], spliced)
         == LiveNames(fragments, spliced) + if f in spliced then multiset{} else gained
  {
    hide NamesIn, LiveNames;
    LiveChange(fragments, spliced, f, stmts);
    if f !in spliced {
      Cancel(LiveNames(fragments[f := stmts], spliced), NamesIn(fragments[f]), LiveNames(fragments, spliced), gained);
    }
  }

  lemma Cancel<T>(a: multiset<T>, b: multiset<T>, c: multiset<T>, d: multiset<T>)
    requires a + b == c + (b + d)
    ensures a == c + d
  {
    assert a + b == (c + d) + b;
    assert (a + b) - b == a;
    assert ((c + d) + b) - b == c + d;
  }

  lemma OnceGains<T>(m: multiset<T>, x: T)
    requires Once(m) && x !in m
    ensures Once(m + multiset{x})
  {
  }

  lemma OnceSub<T>(m: multiset<T>, n: multiset<T>)
    requires Once(n) && m <= n
    ensures Once(m) && forall x :: x in m ==> x in n
  {
    forall x | x in m
      ensures x in n && m[x] == 1
    {
      assert m[x] <= n[x];
    }
  }

  lemma GainNewTidy(s: Session, tables: Tables, f: nat, stmts: seq<Instruction>, name: Name)
    requires Tidy(s) && f < |s.fragments| && NamesIn(stmts) == NamesIn(s.fragments[f]) + multiset{name}
    requires name !in LiveNames(s.fragments, s.spliced)
    requires Registered(tables, name)
    requires forall n :: Registered(s.tables, n) ==> Registered(tables, n)
    requires forall j :: j in tables.jumpLabels ==> j < tables.nextId
    ensures Tidy(Change(s.(tables := tables), f, stmts))
  {
    hide NamesIn, LiveNames, Registered;
    LiveGains(s.fragments, s.spliced, f, stmts, multiset{name});
    if f !in s.spliced {
      OnceGains(LiveNames(s.fragments, s.spliced), name);
    }
  }

  lemma LoseTidy(s: Session, f: nat, stmts: seq<Instruction>, spliced: set<nat>)
    requires Tidy(s) && f < |s.fragments| && 0 !in spliced
    requires LiveNames(s.fragments[f := stmts], spliced) <= LiveNames(s.fragments, s.spliced)
    ensures Tidy(Change(s, f, stmts).(spliced := spliced))
  {
    hide NamesIn, LiveNames, Registered;
    OnceSub(LiveNames(s.fragments[f := stmts], spliced), LiveNames(s.fragments, s.spliced));
  }

  lemma SpliceTidy(s: Session, f: nat, at: int, g: nat)
    requires Tidy(s) && Legal(s, Splice(f, at, g))
    ensures Tidy(Apply(s, Splice(f, at, g)))
  {
    hide NamesIn, LiveNames, Registered;
    var stmts := InsertAt(s.fragments[f], at, s.fragments[g]);
    NamesInsert(s.fragments[f], at, s.fragments[g]);
    LiveSplice(s.fragments, s.spliced, g);
    LiveGains(s.fragments, s.spliced + {g}, f, stmts, NamesIn(s.fragments[g]));
    LoseTidy(s, f, stmts, s.spliced + {g});
  }

  lemma TablesTidy(s: Session, tables: Tables)
    requires Tidy(s)
    requires forall n :: Registered(s.tables, n) ==> Registered(tables, n)
    requires forall j :: j in tables.jumpLabels ==> j < tables.nextId
    ensures Tidy(s.(tables := tables))
  {
  }

  lemma PlainTidy(s: Session, f: nat, at: int, ins: Instruction)
    requires Tidy(s) && Legal(s, AddPlain(f, at, ins))
    ensures Tidy(Apply(s, AddPlain(f, at, ins)))
  {
    hide NamesIn, LiveNames, Registered;
    NamesInsert(s.fragments[f], at, [ins]);
    NamesSingle(ins);
    LiveGains(s.fragments, s.spliced, f, InsertAt(s.fragments[f], at, [ins]), multiset{});
    LoseTidy(s, f, InsertAt(s.fragments[f], at, [ins]), s.spliced);
  }

  lemma LabelTidy(s: Session, f: nat, at: int, userLabel: string)
    requires Tidy(s) && Legal(s, AddLabel(f, at, userLabel))
    ensures Tidy(Apply(s, AddLabel(f, at, userLabel)))
  {
    hide NamesIn, LiveNames;
    var (name, tables) := MakeLabel(s.tables, userLabel);
    if name.Ok? {
      var ins := Label(name.value);
      NamesInsert(s.fragments[f], at, [ins]);
      NamesSingle(ins);
      GainNewTidy(s, tables, f, InsertAt(s.fragments[f], at, [ins]), LabelName(name.value));
    }
  }

  lemma JumpTidy(s: Session, f: nat, op: Byte)
    requires Tidy(s) && Legal(s, AddJump(f, op))
    ensures Tidy(Apply(s, AddJump(f, op)))
  {
    hide NamesIn, LiveNames;
    var (target, tables) := MakeJump(s.tables);
    if target.Ok? {
      var ins := JumpOf(op, target.value);
      NamesAppend(s.fragments[f], [ins]);
      NamesSingle(ins);
      GainNewTidy(s, tables, f, s.fragments[f] + [ins], TargetName(target.value));
    }
  }

  lemma AddFragmentTidy(s: Session)
    requires Tidy(s)
    ensures Tidy(Apply(s, AddFragment))
  {
    assert (s.fragments + [[]])[..|s.fragments|] == s.fragments;
    assert LiveNames(s.fragments + [[]], s.spliced) == LiveNames(s.fragments, s.spliced);
  }

  /** Every edit keeps labels and targets distinct and registered. */
  lemma EditTidy(s: Session, edit: Edit)
    requires Tidy(s) && Legal(s, edit)
    ensures Tidy(Apply(s, edit))
  {
    hide NamesIn, LiveNames;
    match edit
    case AddPlain(f, at, ins) => PlainTidy(s, f, at, ins);
    case AddLabel(f, at, userLabel) => LabelTidy(s, f, at, userLabel);
    case AddJump(f, op) => JumpTidy(s, f, op);
    case Remove(f, i) =>
      RemoveLive(s, f, i);
      LoseTidy(s, f, RemoveAt(s.fragments[f], i), s.spliced);
    case Patch(target, name) => TablesTidy(s, PatchTarget(s.tables, target, name).1);
    case AddFragment => AddFragmentTidy(s);
    case Splice(f, at, g) => SpliceTidy(s, f, at, g);
  }

  lemma RemoveLive(s: Session, f: nat, i: nat)
    requires f < |s.fragments| && i < |s.fragments[f]|
    ensures LiveNames(s.fragments[f := RemoveAt(s.fragments[f], i)], s.spliced) <= LiveNames(s.fragments, s.spliced)
  {
    hide NamesIn, LiveNames;
    var after := s.fragments[f := RemoveAt(s.fragments[f], i)];
    NamesRemove(s.fragments[f], i);
    LiveGains(after, s.spliced, f, s.fragments[f], NameOf(s.fragments[f][i]));
    assert after[f := s.fragments[f]] == s.fragments;
  }

  // ---------- any run of edits ----------

  ghost predicate LegalRun(s: Session, edits: seq<Edit>)
    decreases |edits|
  {
    edits == [] || (Legal(s, edits[0]) && LegalRun(Apply(s, edits[0]), edits[1..]))
  }

  ghost function ApplyAll(s: Session, edits: seq<Edit>): Session
    requires LegalRun(s, edits)
    decreases |edits|
  {
    if edits == [] then s else ApplyAll(Apply(s, edits[0]), edits[1..])
  }

  lemma {:induction false} RunTidy(s: Session, edits: seq<Edit>)
    requires Tidy(s) && LegalRun(s, edits)
    ensures Tidy(ApplyAll(s, edits))
    decreases |edits|
  {
    hide Tidy, Legal, Apply;
    if edits != [] {
      EditTidy(s, edits[0]);
      RunTidy(Apply(s, edits[0]), edits[1..]);
    }
  }

  lemma NewSessionTidy()
    ensures Tidy(NEW_SESSION)
  {
    assert NEW_SESSION.fragments[..0] == [];
    assert LiveNames(NEW_SESSION.fragments, {}) == multiset{};
  }

  /** In a tidy session a label or target stands in one place of one live fragment. */
  lemma LiveTwice(s: Session, f: nat, i: nat, g: nat, j: nat)
    requires Tidy(s) && f < |s.fragments| && g < |s.fragments| && f !in s.spliced && g !in s.spliced
    requires i < |s.fragments[f]| && j < |s.fragments[g]| && s.fragments[f][i] == s.fragments[g][j]
    requires NameOf(s.fragments[f][i]) != multiset{}
    ensures f == g
  {
    hide NamesIn, LiveNames, Registered;
    NameOccurs(s.fragments[f], i);
    NameOccurs(s.fragments[g], j);
    var x :| x in NameOf(s.fragments[f][i]);
    if f != g {
      LiveParts(s.fragments, s.spliced, f, g);
      TwiceIsNotOnce(LiveNames(s.fragments, s.spliced), NamesIn(s.fragments[f]), NamesIn(s.fragments[g]), x);
    }
  }

  lemma TwiceIsNotOnce<T>(m: multiset<T>, a: multiset<T>, b: multiset<T>, x: T)
    requires a + b <= m && x in a && x in b
    ensures !Once(m)
  {
    assert 2 <= (a + b)[x] <= m[x];
  }

  lemma LiveParts(fragments: seq<seq<Instruction>>, spliced: set<nat>, f: nat, g: nat)
    requires f < |fragments| && g < |fragments| && f != g && f !in spliced && g !in spliced
    ensures NamesIn(fragments[f]) + NamesIn(fragments[g]) <= LiveNames(fragments, spliced)
  {
    hide NamesIn, LiveNames;
    LiveSplice(fragments, spliced, g);
    LivePart(fragments, spliced + {g}, f);
  }

  /** The labels and targets of the procedure's own fragment are distinct, and in the tables. */
  lemma TidyMain(s: Session)
    requires Tidy(s)
    ensures |s.fragments| > 0
    ensures DistinctLabels(s.fragments[0]) && DistinctTargets(s.fragments[0])
    ensures forall i :: 0 <= i < |s.fragments[0]| && IsTransfer(s.fragments[0][i]) ==>
              s.fragments[0][i].target in s.tables.jumpLabels
    ensures forall i :: 0 <= i < |s.fragments[0]| && s.fragments[0][i].Label? ==>
              s.fragments[0][i].name in s.tables.labelTargets
  {
    hide LiveNames, NamesIn;
    var main := s.fragments[0];
    LivePart(s.fragments, s.spliced, 0);
    OnceSub(NamesIn(main), LiveNames(s.fragments, s.spliced));
    OnceIsDistinct(main);
    forall i | 0 <= i < |main|
      ensures IsTransfer(main[i]) ==> Registered(s.tables, TargetName(main[i].target))
      ensures main[i].Label? ==> Registered(s.tables, LabelName(main[i].name))
    {
      NameOccurs(main, i);
      assert forall n :: n in NameOf(main[i]) ==> n in NamesIn(main);
    }
  }

  /** What a run of edits leaves in the procedure's own fragment: distinct labels and targets,
      and every target in the table of jumps. */
  lemma MainFragmentTidy(edits: seq<Edit>)
    requires LegalRun(NEW_SESSION, edits)
    ensures var s := ApplyAll(NEW_SESSION, edits);
            && |s.fragments| > 0
            && DistinctLabels(s.fragments[0])
            && DistinctTargets(s.fragments[0])
            && (forall i :: 0 <= i < |s.fragments[0]| && IsTransfer(s.fragments[0][i]) ==>
                  s.fragments[0][i].target in s.tables.jumpLabels)
            && (forall i :: 0 <= i < |s.fragments[0]| && s.fragments[0][i].Label? ==>
                  s.fragments[0][i].name in s.tables.labelTargets)
  {
    hide Legal, Apply, Tidy, DistinctLabels, DistinctTargets;
    NewSessionTidy();
    RunTidy(NEW_SESSION, edits);
    TidyMain(ApplyAll(NEW_SESSION, edits));
  }
}
