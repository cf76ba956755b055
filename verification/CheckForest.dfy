/** The exception checks of a procedure: a forest that grows while code is compiled, and its flattening into a table. */
module CheckForest {
  import opened BigEndian
  import opened TypeDefs
  import opened Wrappers

  /** A check is finalized once it has an end label. The handles of a procedure are numbered in
      the order in which they are declared. */
  datatype Check = Check(start: string, end: string, caughtLocal: U32, catches: seq<nat>, children: seq<nat>)

  datatype Catch = Catch(start: string, end: string, exceptionType: TypeDef)

  datatype Forest = Forest(checks: seq<Check>, stack: seq<nat>, roots: seq<nat>, depth: nat, catches: seq<Catch>)

  const NO_CHECKS := Forest([], [], [], 0, [])

  ghost predicate InBounds(f: Forest) {
    && (forall i :: 0 <= i < |f.stack| ==> f.stack[i] < |f.checks|)
    && (forall i :: 0 <= i < |f.roots| ==> f.roots[i] < |f.checks|)
    && (forall k, i :: 0 <= k < |f.checks| && 0 <= i < |f.checks[k].children| ==> f.checks[k].children[i] < |f.checks|)
    && (forall k, i :: 0 <= k < |f.checks| && 0 <= i < |f.checks[k].catches| ==> f.checks[k].catches[i] < |f.catches|)
  }

  function Max(a: nat, b: nat): nat {
    if a < b then b else a
  }

  function AppendChild(check: Check, child: nat): Check {
    check.(children := check.children + [child])
  }

  /** A new check becomes a child of the check on top of the stack, or a root. */
  function DeclareCheck(f: Forest, start: string, caughtLocal: U32): Forest
    requires InBounds(f)
  {
    var id := |f.checks|;
    var top := f.stack != [];
    var parent := if top then f.stack[|f.stack| - 1] else 0;
    var checks := if top then f.checks[parent := AppendChild(f.checks[parent], id)] else f.checks;
    f.(checks := checks + [Check(start, "", caughtLocal, [], [])],
       roots := if top then f.roots else f.roots + [id],
       stack := f.stack + [id],
       depth := Max(f.depth, |f.stack| + 1))
  }

  function PopCheck(f: Forest): (Status, Forest) {
    if f.stack == [] then (Err(AssemblerInvariant), f) else (OK, f.(stack := f.stack[..|f.stack| - 1]))
  }

  /** Whichever check is finalized, it is the top of the stack that is popped. */
  function FinalizeCheck(f: Forest, k: nat, end: string): (Status, Forest)
    requires k < |f.checks|
  {
    if f.checks[k].end != "" then (Err(AssemblerInvariant), f)
    else PopCheck(f.(checks := f.checks[k := f.checks[k].(end := end)]))
  }

  function DeclareCatch(f: Forest, k: nat, start: string): Forest
    requires k < |f.checks|
  {
    f.(catches := f.catches + [Catch(start, "", Invalid)],
       checks := f.checks[k := f.checks[k].(catches := f.checks[k].catches + [|f.catches|])])
  }

  function FinalizeCatch(f: Forest, c: nat, end: string): (Status, Forest)
    requires c < |f.catches|
  {
    if f.catches[c].end != "" then (Err(AssemblerInvariant), f)
    else (OK, f.(catches := f.catches[c := f.catches[c].(end := end)]))
  }

  function SetExceptionType(f: Forest, c: nat, exceptionType: TypeDef): (Status, Forest)
    requires c < |f.catches|
  {
    if exceptionType.Invalid? then (Err(AssemblerInvariant), f)
    else (OK, f.(catches := f.catches[c := f.catches[c].(exceptionType := exceptionType)]))
  }

  // ---------- flattening ----------

  /** The checks `level` generations below a check, left to right. */
  function Level(f: Forest, id: nat, level: nat): seq<nat>
    requires InBounds(f) && id < |f.checks|
    decreases level, 0, 0
  {
    if level > 0 then Levels(f, f.checks[id].children, level - 1) else [id]
  }

  function Levels(f: Forest, ids: seq<nat>, level: nat): seq<nat>
    requires InBounds(f) && forall i :: 0 <= i < |ids| ==> ids[i] < |f.checks|
    decreases level, 1, |ids|
  {
    if ids == [] then [] else Levels(f, ids[..|ids| - 1], level) + Level(f, ids[|ids| - 1], level)
  }

  /** The `depth` upper levels of the forest, deepest first. */
  function LevelsFrom(f: Forest, depth: nat): seq<nat>
    requires InBounds(f)
  {
    if depth == 0 then [] else Levels(f, f.roots, depth - 1) + LevelsFrom(f, depth - 1)
  }

  function BuildLevels(f: Forest): seq<nat>
    requires InBounds(f)
  {
    LevelsFrom(f, f.depth)
  }

  // ---------- the nesting that the forest stands for ----------

  /** For each check the one it was declared in, recorded when it is declared. */
  type Parents = seq<Option<nat>>

  predicate Ordered(parents: Parents) {
    forall i :: 0 <= i < |parents| && parents[i].Some? ==> parents[i].value < i
  }

  function Depth(parents: Parents, i: nat): nat
    requires Ordered(parents) && i < |parents|
    decreases i
  {
    if parents[i].None? then 0 else 1 + Depth(parents, parents[i].value)
  }

  /** The ancestor `n` generations above a check. */
  function Up(parents: Parents, i: nat, n: nat): (a: Option<nat>)
    requires Ordered(parents) && i < |parents|
    ensures a.Some? ==> a.value <= i
    decreases i, n
  {
    if n == 0 then Some(i)
    else if parents[i].None? then None
    else Up(parents, parents[i].value, n - 1)
  }

  /** The check `a` is one of those that `c` was declared in. */
  predicate Encloses(parents: Parents, a: nat, c: nat)
    requires Ordered(parents) && c < |parents|
    decreases c
  {
    parents[c].Some? && (parents[c].value == a || Encloses(parents, a, parents[c].value))
  }

  predicate Ascending(s: seq<nat>) {
    forall i, j :: 0 <= i < j < |s| ==> s[i] < s[j]
  }

  /** The child lists say who was declared in whom, in the order of declaration. */
  ghost predicate ChildrenAgree(f: Forest, parents: Parents) {
    && |parents| == |f.checks|
    && Ordered(parents)
    && Ascending(f.roots)
    && (forall i: nat :: i in f.roots <==> i < |parents| && parents[i].None?)
    && (forall p :: 0 <= p < |parents| ==> Ascending(f.checks[p].children))
    && (forall p, i: nat :: 0 <= p < |parents| ==>
          (i in f.checks[p].children <==> i < |parents| && parents[i] == Some(p)))
  }

  /** The stack is a path from a root, and each check on it is the latest of its depth. */
  ghost predicate StackAgrees(f: Forest, parents: Parents)
    requires Ordered(parents)
  {
    && (forall j :: 0 <= j < |f.stack| ==> f.stack[j] < |parents| && Depth(parents, f.stack[j]) == j)
    && (f.stack != [] ==> parents[f.stack[0]].None?)
    && (forall i, j :: 0 <= i < |f.stack| && j == i + 1 < |f.stack| ==> parents[f.stack[j]] == Some(f.stack[i]))
    && (forall j, i: nat :: 0 <= j < |f.stack| && i < |parents| && Depth(parents, i) == j ==> i <= f.stack[j])
  }

  /** Checks of the same depth have their parents in the same order. */
  ghost predicate LeftToRight(parents: Parents)
    requires Ordered(parents)
  {
    forall i, j :: 0 <= i < j < |parents| && Depth(parents, i) == Depth(parents, j) && parents[i].Some? ==>
      parents[j].Some? && parents[i].value <= parents[j].value
  }

  /** The recorded depth is the depth of the forest. */
  ghost predicate DepthAgrees(f: Forest, parents: Parents)
    requires Ordered(parents)
  {
    && (forall i :: 0 <= i < |parents| ==> Depth(parents, i) < f.depth)
    && (f.depth > 0 ==> exists i :: 0 <= i < |parents| && Depth(parents, i) == f.depth - 1)
    && |f.stack| <= f.depth
  }

  ghost predicate Nested(f: Forest, parents: Parents) {
    && InBounds(f)
    && ChildrenAgree(f, parents)
    && StackAgrees(f, parents)
    && LeftToRight(parents)
    && DepthAgrees(f, parents)
  }

  /** The catch lists say which catch was declared for which check, in the order of declaration. */
  ghost predicate CatchesAgree(f: Forest, owners: seq<nat>) {
    && |owners| == |f.catches|
    && (forall c :: 0 <= c < |owners| ==> owners[c] < |f.checks|)
    && (forall k :: 0 <= k < |f.checks| ==> Ascending(f.checks[k].catches))
    && (forall k, c: nat :: 0 <= k < |f.checks| ==>
          (c in f.checks[k].catches <==> c < |owners| && owners[c] == k))
  }

  // ---------- every run keeps it ----------

  datatype CheckOp =
    | Declare(start: string, caughtLocal: U32)
    | Finalize(k: nat, end: string)
    | AddCatch(k: nat, start: string)
    | EndCatch(c: nat, end: string)
    | TypeCatch(c: nat, exceptionType: TypeDef)

  /** A forest with the record of its making: for each check the one that it was declared in, and for each catch
      the check that it was declared for. */
  datatype Growing = Growing(forest: Forest, parents: Parents, owners: seq<nat>)

  ghost predicate Legal(g: Growing, op: CheckOp) {
    match op
    case Declare(_, _) => true
    case Finalize(k, end) => k < |g.forest.checks| && end != ""
    case AddCatch(k, _) => k < |g.forest.checks|
    case EndCatch(c, end) => c < |g.forest.catches| && end != ""
    case TypeCatch(c, _) => c < |g.forest.catches|
  }

  function InnermostOpen(f: Forest): Option<nat> {
    if f.stack == [] then None else Some(f.stack[|f.stack| - 1])
  }

  ghost function Apply(g: Growing, op: CheckOp): Growing
    requires InBounds(g.forest) && Legal(g, op)
  {
    match op
    case Declare(start, local) =>
      g.(forest := DeclareCheck(g.forest, start, local), parents := g.parents + [InnermostOpen(g.forest)])
    case Finalize(k, end) => g.(forest := FinalizeCheck(g.forest, k, end).1)
    case AddCatch(k, start) => g.(forest := DeclareCatch(g.forest, k, start), owners := g.owners + [k])
    case EndCatch(c, end) => g.(forest := FinalizeCatch(g.forest, c, end).1)
    case TypeCatch(c, exceptionType) => g.(forest := SetExceptionType(g.forest, c, exceptionType).1)
  }

  lemma {:induction false} DepthPrefix(parents: Parents, more: Parents, i: nat)
    requires Ordered(parents) && Ordered(parents + more) && i < |parents|
    ensures Depth(parents + more, i) == Depth(parents, i)
    decreases i
  {
    if parents[i].Some? {
      DepthPrefix(parents, more, parents[i].value);
    }
  }

  lemma {:induction false} EnclosesPrefix(parents: Parents, more: Parents, a: nat, c: nat)
    requires Ordered(parents) && Ordered(parents + more) && c < |parents|
    ensures Encloses(parents + more, a, c) <==> Encloses(parents, a, c)
    decreases c
  {
    if parents[c].Some? {
      EnclosesPrefix(parents, more, a, parents[c].value);
    }
  }

  lemma {:induction false} EnclosesBelow(parents: Parents, a: nat, c: nat)
    requires Ordered(parents) && c < |parents| && Encloses(parents, a, c)
    ensures a < c
    decreases c
  {
    if parents[c].value != a {
      EnclosesBelow(parents, a, parents[c].value);
    }
  }

  /** What encloses a check that encloses another encloses that other one too. */
  lemma {:induction false} EnclosesTransitive(parents: Parents, a: nat, b: nat, c: nat)
    requires Ordered(parents) && b < |parents| && c < |parents| && Encloses(parents, a, b) && Encloses(parents, b, c)
    ensures Encloses(parents, a, c)
    decreases c
  {
    if parents[c].value != b {
      EnclosesTransitive(parents, a, b, parents[c].value);
    }
  }

  /** Of two checks that enclose a third, one encloses the other. */
  lemma {:induction false} EnclosersComparable(parents: Parents, a: nat, b: nat, c: nat)
    requires Ordered(parents) && a < b < |parents| && c < |parents| && Encloses(parents, a, c)
              && Encloses(parents, b, c)
    ensures Encloses(parents, a, b)
    decreases c
  {
    var parent := parents[c].value;
    if parent == a {
      EnclosesBelow(parents, b, a);
    } else if parent != b {
      EnclosersComparable(parents, a, b, parent);
    }
  }

  /** The ancestors of a check are the check itself and those that enclose it. */
  lemma {:induction false} UpEncloses(parents: Parents, c: nat, n: nat)
    requires Ordered(parents) && c < |parents| && Up(parents, c, n).Some?
    ensures var a := Up(parents, c, n).value;
            if n == 0 then a == c else Encloses(parents, a, c)
    decreases n
  {
    if n > 0 {
      UpEncloses(parents, parents[c].value, n - 1);
    }
  }

  /** The checks on the stack are the top and those that enclose it. */
  lemma {:induction false} StackEncloses(f: Forest, parents: Parents, j: nat, a: nat)
    requires Ordered(parents) && StackAgrees(f, parents) && j < |f.stack|
    ensures a in f.stack[..j + 1] <==> a == f.stack[j] || Encloses(parents, a, f.stack[j])
    decreases j
  {
    assert f.stack[..j + 1] == f.stack[..j] + [f.stack[j]];
    assert parents[f.stack[j]] == if j == 0 then None else Some(f.stack[j - 1]);
    if j > 0 {
      StackEncloses(f, parents, j - 1, a);
    }
  }

  /** A newly declared check is enclosed by exactly the open ones. */
  lemma NewIsEnclosedByOpen(f: Forest, parents: Parents, a: nat)
    requires Nested(f, parents)
    ensures Ordered(parents + [InnermostOpen(f)])
    ensures Encloses(parents + [InnermostOpen(f)], a, |parents|) <==> a in f.stack
  {
    hide Encloses, InBounds, ChildrenAgree, LeftToRight, DepthAgrees, Depth;
    var now := parents + [InnermostOpen(f)];
    StackInside(f, parents);
    if f.stack != [] {
      var top := |f.stack| - 1;
      StackEncloses(f, parents, top, a);
      assert f.stack[..top + 1] == f.stack;
      EnclosesPrefix(parents, [InnermostOpen(f)], a, f.stack[top]);
    }
    EnclosesStep(now, a, |parents|);
  }

  lemma NestedFacts(f: Forest, parents: Parents)
    requires Nested(f, parents)
    ensures InBounds(f) && |f.checks| == |parents| && Ordered(parents)
    ensures forall i :: 0 <= i < |f.stack| ==> f.stack[i] < |f.checks|
  {
  }

  lemma StackInside(f: Forest, parents: Parents)
    requires Nested(f, parents)
    ensures Ordered(parents) && StackAgrees(f, parents) && Ordered(parents + [InnermostOpen(f)])
    ensures forall j :: 0 <= j < |f.stack| ==> f.stack[j] < |parents|
  {
    hide Depth;
  }

  lemma EnclosesStep(parents: Parents, a: nat, c: nat)
    requires Ordered(parents) && c < |parents|
    ensures Encloses(parents, a, c) <==>
              parents[c].Some? && (parents[c].value == a || Encloses(parents, a, parents[c].value))
  {
  }

  lemma Extended(s: seq<nat>, x: nat)
    ensures forall i :: i in s + [x] <==> i in s || i == x
    ensures Ascending(s) && (forall i :: i in s ==> i < x) ==> Ascending(s + [x])
  {
    assert forall c :: 0 <= c < |s| ==> s[c] in s;
  }

  lemma DeclareInBounds(f: Forest, start: string, local: U32)
    requires InBounds(f)
    ensures InBounds(DeclareCheck(f, start, local))
  {
    var after := DeclareCheck(f, start, local);
    assert forall k :: 0 <= k < |f.checks| ==> after.checks[k].catches == f.checks[k].catches;
  }

  lemma DeclareChildren(f: Forest, parents: Parents, start: string, local: U32)
    requires Nested(f, parents)
    ensures InBounds(DeclareCheck(f, start, local))
    ensures ChildrenAgree(DeclareCheck(f, start, local), parents + [InnermostOpen(f)])
  {
    hide Depth, Ascending;
    DeclareInBounds(f, start, local);
    var after := DeclareCheck(f, start, local);
    var id := |f.checks|;
    var now := parents + [InnermostOpen(f)];
    Extended(f.roots, id);
    assert Ascending(after.roots);
    assert forall i: nat :: i in after.roots <==> i < |now| && now[i].None?;
    assert Ordered(now);
    forall p | 0 <= p < |now|
      ensures Ascending(after.checks[p].children)
      ensures forall i: nat :: i in after.checks[p].children <==> i < |now| && now[i] == Some(p)
    {
      if p < id {
        Extended(f.checks[p].children, id);
        assert after.checks[p].children == f.checks[p].children
            || after.checks[p].children == f.checks[p].children + [id];
      } else {
        EmptyAscends();
      }
    }
  }

  lemma EmptyAscends()
    ensures Ascending([])
  {
  }

  lemma DeclareDepths(f: Forest, parents: Parents, start: string, local: U32)
    requires Nested(f, parents)
    ensures Ordered(parents + [InnermostOpen(f)])
    ensures forall i :: 0 <= i < |parents| ==> Depth(parents + [InnermostOpen(f)], i) == Depth(parents, i)
    ensures Depth(parents + [InnermostOpen(f)], |parents|) == |f.stack|
  {
    var now := parents + [InnermostOpen(f)];
    assert Ordered(now);
    forall i | 0 <= i < |parents|
      ensures Depth(now, i) == Depth(parents, i)
    {
      DepthPrefix(parents, [InnermostOpen(f)], i);
    }
  }

  /** The depths after a declaration: the new check is as deep as the stack was high. */
  ghost predicate OneDeeper(f: Forest, parents: Parents, now: Parents) {
    && now == parents + [InnermostOpen(f)]
    && Ordered(parents) && Ordered(now)
    && (forall i :: 0 <= i < |parents| ==> Depth(now, i) == Depth(parents, i))
    && Depth(now, |parents|) == |f.stack|
  }

  lemma DeclareStack(f: Forest, parents: Parents, now: Parents, after: Forest)
    requires OneDeeper(f, parents, now) && StackAgrees(f, parents) && after.stack == f.stack + [|parents|]
    ensures StackAgrees(after, now)
  {
    hide Depth;
  }

  lemma DeclareLeftToRight(f: Forest, parents: Parents, now: Parents)
    requires OneDeeper(f, parents, now) && StackAgrees(f, parents) && LeftToRight(parents)
    ensures LeftToRight(now)
  {
    hide Depth;
    forall i, j | 0 <= i < j < |now| && Depth(now, i) == Depth(now, j) && now[i].Some?
      ensures now[j].Some? && now[i].value <= now[j].value
    {
      ParentDepth(now, i);
      ParentDepth(parents, i);
    }
  }

  lemma DeclareDepth(f: Forest, parents: Parents, now: Parents, after: Forest)
    requires OneDeeper(f, parents, now) && DepthAgrees(f, parents)
    requires after.stack == f.stack + [|parents|] && after.depth == Max(f.depth, |f.stack| + 1)
    ensures DepthAgrees(after, now)
  {
    hide Depth;
    assert Depth(now, |parents|) == |f.stack|;
    if f.depth > 0 {
      var i :| 0 <= i < |parents| && Depth(parents, i) == f.depth - 1;
      assert Depth(now, i) == f.depth - 1;
    }
  }

  lemma DeclareNested(f: Forest, parents: Parents, start: string, local: U32)
    requires Nested(f, parents)
    ensures Nested(DeclareCheck(f, start, local), parents + [InnermostOpen(f)])
  {
    hide InBounds, Depth, Ascending, StackAgrees, LeftToRight, DepthAgrees;
    var after := DeclareCheck(f, start, local);
    var now := parents + [InnermostOpen(f)];
    DeclareChildren(f, parents, start, local);
    DeclareDepths(f, parents, start, local);
    DeclareStack(f, parents, now, after);
    DeclareLeftToRight(f, parents, now);
    DeclareDepth(f, parents, now, after);
  }

  lemma ParentDepth(parents: Parents, i: nat)
    requires Ordered(parents) && i < |parents|
    ensures parents[i].Some? ==> Depth(parents, i) == 1 + Depth(parents, parents[i].value)
    ensures parents[i].None? ==> Depth(parents, i) == 0
  {
  }

  lemma FinalizeNested(f: Forest, parents: Parents, k: nat, end: string)
    requires Nested(f, parents) && k < |f.checks|
    ensures Nested(FinalizeCheck(f, k, end).1, parents)
  {
    hide Depth, Ascending, LeftToRight;
    var after := FinalizeCheck(f, k, end).1;
    assert after.stack <= f.stack;
    assert forall p :: 0 <= p < |f.checks| ==> after.checks[p].children == f.checks[p].children;
  }

  lemma CatchNested(f: Forest, parents: Parents, k: nat, start: string)
    requires Nested(f, parents) && k < |f.checks|
    ensures Nested(DeclareCatch(f, k, start), parents)
  {
    hide Depth, Ascending, LeftToRight;
    var after := DeclareCatch(f, k, start);
    assert forall p :: 0 <= p < |f.checks| ==> after.checks[p].children == f.checks[p].children;
  }

  /** The forest does not depend on what is known of the catches. */
  lemma CatchesNested(f: Forest, parents: Parents, catches: seq<Catch>)
    requires Nested(f, parents) && |catches| == |f.catches|
    ensures Nested(f.(catches := catches), parents)
  {
    hide Depth, Ascending, LeftToRight;
  }

  lemma OpNested(g: Growing, op: CheckOp)
    requires Nested(g.forest, g.parents) && Legal(g, op)
    ensures Nested(Apply(g, op).forest, Apply(g, op).parents)
  {
    hide Nested, DeclareCheck, FinalizeCheck, DeclareCatch;
    match op
    case Declare(start, local) => DeclareNested(g.forest, g.parents, start, local);
    case Finalize(k, end) => FinalizeNested(g.forest, g.parents, k, end);
    case AddCatch(k, start) => CatchNested(g.forest, g.parents, k, start);
    case EndCatch(c, end) => CatchesNested(g.forest, g.parents, FinalizeCatch(g.forest, c, end).1.catches);
    case TypeCatch(c, exceptionType) =>
        CatchesNested(g.forest, g.parents, SetExceptionType(g.forest, c, exceptionType).1.catches);
  }

  /** Every operation keeps the catch lists right. */
  lemma OpOwned(g: Growing, op: CheckOp)
    requires InBounds(g.forest) && Legal(g, op) && CatchesAgree(g.forest, g.owners)
    ensures CatchesAgree(Apply(g, op).forest, Apply(g, op).owners)
  {
    hide InBounds, CatchesAgree, DeclareCheck, DeclareCatch;
    match op
    case Declare(start, local) => DeclareOwned(g, start, local);
    case AddCatch(k, start) => AddCatchOwned(g.forest, g.owners, k, start);
    case Finalize(_, _) => SameCatchesOwned(g.forest, Apply(g, op).forest, g.owners);
    case EndCatch(_, _) => SameCatchesOwned(g.forest, Apply(g, op).forest, g.owners);
    case TypeCatch(_, _) => SameCatchesOwned(g.forest, Apply(g, op).forest, g.owners);
  }

  lemma SameCatchesOwned(f: Forest, after: Forest, owners: seq<nat>)
    requires CatchesAgree(f, owners) && |after.catches| == |f.catches| && |after.checks| == |f.checks|
    requires forall k :: 0 <= k < |f.checks| ==> after.checks[k].catches == f.checks[k].catches
    ensures CatchesAgree(after, owners)
  {
  }

  lemma AddCatchOwned(f: Forest, owners: seq<nat>, k: nat, start: string)
    requires CatchesAgree(f, owners) && k < |f.checks|
    ensures CatchesAgree(DeclareCatch(f, k, start), owners + [k])
  {
    hide Ascending;
    var after := DeclareCatch(f, k, start);
    forall q: nat | q < |f.checks|
      ensures Ascending(after.checks[q].catches)
      ensures forall c: nat :: c in after.checks[q].catches <==> c < |owners + [k]| && (owners + [k])[c] == q
    {
      var catches := f.checks[q].catches;
      Extended(catches, |f.catches|);
      assert forall c: nat :: c in catches <==> c < |owners| && owners[c] == q;
      assert after.checks[q].catches == if q == k then catches + [|f.catches|] else catches;
    }
  }

  lemma DeclareOwned(g: Growing, start: string, local: U32)
    requires InBounds(g.forest) && CatchesAgree(g.forest, g.owners)
    ensures CatchesAgree(DeclareCheck(g.forest, start, local), g.owners)
  {
    var f, after := g.forest, DeclareCheck(g.forest, start, local);
    assert forall q :: 0 <= q < |f.checks| ==> after.checks[q].catches == f.checks[q].catches;
    assert after.checks[|f.checks|].catches == [];
  }

  // ---------- the flattening lists every check once, deepest level first ----------

  lemma {:induction false} LevelsMembers(f: Forest, parents: Parents, ids: seq<nat>, level: nat, x: nat)
    requires InBounds(f) && ChildrenAgree(f, parents) && forall i :: 0 <= i < |ids| ==> ids[i] < |f.checks|
    ensures x in Levels(f, ids, level) <==>
              x < |parents| && Up(parents, x, level).Some? && Up(parents, x, level).value in ids
    decreases level, 1, |ids|
  {
    hide InBounds, ChildrenAgree, Up, Level;
    if ids != [] {
      var n := |ids| - 1;
      LevelsMembers(f, parents, ids[..n], level, x);
      LevelMembers(f, parents, ids[n], level, x);
      assert ids == ids[..n] + [ids[n]];
    }
  }

  lemma {:induction false} LevelMembers(f: Forest, parents: Parents, id: nat, level: nat, x: nat)
    requires InBounds(f) && ChildrenAgree(f, parents) && id < |f.checks|
    ensures Ordered(parents)
    ensures x in Level(f, id, level) <==> x < |parents| && Up(parents, x, level) == Some(id)
    decreases level, 0, 0
  {
    if level > 0 {
      hide Levels;
      LevelsMembers(f, parents, f.checks[id].children, level - 1, x);
      if x < |parents| {
        UpUp(parents, x, level - 1);
      }
    }
  }

  /** Going up one generation more is going up from there. */
  lemma {:induction false} UpUp(parents: Parents, i: nat, n: nat)
    requires Ordered(parents) && i < |parents|
    ensures Up(parents, i, n + 1) ==
              if Up(parents, i, n).Some? then parents[Up(parents, i, n).value] else None
    decreases i, n
  {
    if n > 0 && parents[i].Some? {
      UpUp(parents, parents[i].value, n - 1);
    }
  }

  lemma {:induction false} UpDepth(parents: Parents, i: nat, n: nat)
    requires Ordered(parents) && i < |parents|
    ensures Up(parents, i, n).Some? <==> n <= Depth(parents, i)
    ensures Up(parents, i, n).Some? ==> Depth(parents, Up(parents, i, n).value) == Depth(parents, i) - n
    decreases i, n
  {
    if n > 0 && parents[i].Some? {
      UpDepth(parents, parents[i].value, n - 1);
    }
  }

  /** Ancestors of equally deep checks come in the order of the checks. */
  lemma {:induction false} UpKeepsOrder(parents: Parents, i: nat, j: nat, n: nat)
    requires Ordered(parents) && LeftToRight(parents) && i <= j < |parents| && Depth(parents, i) == Depth(parents, j)
    requires Up(parents, i, n).Some? && Up(parents, j, n).Some?
    ensures Up(parents, i, n).value <= Up(parents, j, n).value
    decreases n
  {
    if n > 0 && i < j {
      UpKeepsOrder(parents, parents[i].value, parents[j].value, n - 1);
    }
  }

  lemma {:induction false} LevelsAscending(f: Forest, parents: Parents, ids: seq<nat>, level: nat, depth: nat)
    requires InBounds(f) && ChildrenAgree(f, parents) && LeftToRight(parents)
    requires Ascending(ids) && forall i :: 0 <= i < |ids| ==> ids[i] < |f.checks| && Depth(parents, ids[i]) == depth
    ensures Ascending(Levels(f, ids, level))
    decreases level, |ids|
  {
    if ids != [] {
      var n := |ids| - 1;
      LevelsAscending(f, parents, ids[..n], level, depth);
      var front := Levels(f, ids[..n], level);
      var back := Level(f, ids[n], level);
      if level > 0 {
        var children := f.checks[ids[n]].children;
        forall i | 0 <= i < |children|
          ensures Depth(parents, children[i]) == depth + 1
        {
          assert children[i] in children;
        }
        LevelsAscending(f, parents, children, level - 1, depth + 1);
      }
      forall i, j | 0 <= i < |front| && 0 <= j < |back|
        ensures front[i] < back[j]
      {
        LevelsApart(f, parents, ids, level, depth, front[i], back[j]);
      }
    }
  }

  lemma LevelsApart(f: Forest, parents: Parents, ids: seq<nat>, level: nat, depth: nat, x: nat, y: nat)
    requires InBounds(f) && ChildrenAgree(f, parents) && LeftToRight(parents)
    requires ids != [] && Ascending(ids) && forall i :: 0 <= i < |ids| ==>
              ids[i] < |f.checks| && Depth(parents, ids[i]) == depth
    requires x in Levels(f, ids[..|ids| - 1], level) && y in Level(f, ids[|ids| - 1], level)
    ensures x < y
  {
    var n := |ids| - 1;
    LevelsMembers(f, parents, ids[..n], level, x);
    assert [ids[n]][..0] == [];
    assert Levels(f, [ids[n]], level) == Levels(f, [], level) + Level(f, ids[n], level);
    LevelsMembers(f, parents, [ids[n]], level, y);
    var a := Up(parents, x, level).value;
    assert a in ids[..n] && a < ids[n];
    UpDepth(parents, x, level);
    UpDepth(parents, y, level);
    if y <= x {
      UpKeepsOrder(parents, y, x, level);
    }
  }

  /** The level of the forest at a depth: exactly the checks of that depth, in the order of declaration. */
  lemma LevelIsDepth(f: Forest, parents: Parents, depth: nat)
    requires Nested(f, parents)
    ensures Ascending(Levels(f, f.roots, depth))
    ensures forall x: nat :: x in Levels(f, f.roots, depth) <==> x < |parents| && Depth(parents, x) == depth
  {
    forall i | 0 <= i < |f.roots|
      ensures Depth(parents, f.roots[i]) == 0
    {
      assert f.roots[i] in f.roots;
    }
    LevelsAscending(f, parents, f.roots, depth, 0);
    forall x: nat
      ensures x in Levels(f, f.roots, depth) <==> x < |parents| && Depth(parents, x) == depth
    {
      LevelsMembers(f, parents, f.roots, depth, x);
      if x < |parents| {
        UpDepth(parents, x, depth);
        if Up(parents, x, depth).Some? {
          ParentDepth(parents, Up(parents, x, depth).value);
        }
      }
    }
  }

  /** `x` comes before `y` in the table: it is deeper, or as deep and declared earlier. */
  predicate Before(parents: Parents, x: nat, y: nat)
    requires Ordered(parents) && x < |parents| && y < |parents|
  {
    Depth(parents, x) > Depth(parents, y) || (Depth(parents, x) == Depth(parents, y) && x < y)
  }

  ghost predicate DeepestFirst(parents: Parents, s: seq<nat>)
    requires Ordered(parents)
  {
    forall i, j :: 0 <= i < j < |s| ==> s[i] < |parents| && s[j] < |parents| && Before(parents, s[i], s[j])
  }

  lemma {:induction false} LevelsFromSorted(f: Forest, parents: Parents, depth: nat)
    requires Nested(f, parents)
    ensures forall x: nat :: x in LevelsFrom(f, depth) <==> x < |parents| && Depth(parents, x) < depth
    ensures DeepestFirst(parents, LevelsFrom(f, depth))
  {
    hide Depth, StackAgrees, LeftToRight, DepthAgrees, Levels, DeepestFirst, Ascending;
    if depth == 0 {
      NoneSorted(parents);
    } else {
      LevelIsDepth(f, parents, depth - 1);
      LevelsFromSorted(f, parents, depth - 1);
      JoinSorted(parents, Levels(f, f.roots, depth - 1), LevelsFrom(f, depth - 1), depth - 1);
    }
  }

  lemma NoneSorted(parents: Parents)
    requires Ordered(parents)
    ensures DeepestFirst(parents, [])
  {
  }

  /** A level in front of the levels above it. */
  lemma JoinSorted(parents: Parents, front: seq<nat>, back: seq<nat>, depth: nat)
    requires Ordered(parents) && Ascending(front) && DeepestFirst(parents, back)
    requires forall x: nat :: x in front <==> x < |parents| && Depth(parents, x) == depth
    requires forall x: nat :: x in back <==> x < |parents| && Depth(parents, x) < depth
    ensures forall x: nat :: x in front + back <==> x < |parents| && Depth(parents, x) < depth + 1
    ensures DeepestFirst(parents, front + back)
  {
    hide Depth;
    assert forall x: nat :: x in front + back <==> x in front || x in back;
    forall i, j | 0 <= i < j < |front + back|
      ensures (front + back)[i] < |parents| && (front + back)[j] < |parents|
           && Before(parents, (front + back)[i], (front + back)[j])
    {
      if i < |front| {
        assert front[i] in front;
      } else {
        assert Before(parents, back[i - |front|], back[j - |front|]);
      }
      if j < |front| {
        assert front[j] in front;
      } else {
        assert back[j - |front|] in back;
      }
    }
  }

  /** Flattening lists every check exactly once: deeper checks first, and checks of one depth in the
      order of their declaration, which is left to right. So every child precedes its parent. */
  lemma BuildLevelsSorted(f: Forest, parents: Parents)
    requires Nested(f, parents)
    ensures forall x: nat :: x in BuildLevels(f) <==> x < |f.checks|
    ensures DeepestFirst(parents, BuildLevels(f))
    ensures |BuildLevels(f)| == |f.checks|
  {
    LevelsFromSorted(f, parents, f.depth);
    var order := BuildLevels(f);
    assert forall x: nat :: x in order <==> x < |f.checks|;
    assert forall i, j :: 0 <= i < j < |order| ==> order[i] != order[j];
    CountOnce(order, |f.checks|);
  }

  lemma CountOnce(s: seq<nat>, n: nat)
    requires forall x: nat :: x in s <==> x < n
    requires forall i, j :: 0 <= i < j < |s| ==> s[i] != s[j]
    ensures |s| == n
    decreases n
  {
    var first: nat := if s != [] then s[0] else 0;
    assert s != [] ==> first in s;
    if n > 0 {
      assert n - 1 in s;
      var k :| 0 <= k < |s| && s[k] == n - 1;
      var rest := s[..k] + s[k + 1..];
      assert s == s[..k] + [s[k]] + s[k + 1..];
      forall i | 0 <= i < |rest|
        ensures rest[i] != s[k]
      {
        assert rest[i] == s[if i < k then i else i + 1];
      }
      forall x: nat
        ensures x in rest <==> x < n - 1
      {
        assert x in s <==> x in rest || x == n - 1;
      }
      CountOnce(rest, n - 1);
    }
  }

  // ---------- any run ----------

  /** How many checks are not finalized. */
  function OpenCount(checks: seq<Check>): nat {
    if checks == [] then 0
    else OpenCount(checks[..|checks| - 1]) + if checks[|checks| - 1].end == "" then 1 else 0
  }

  lemma {:induction false} OpenCountUpdate(checks: seq<Check>, k: nat, check: Check)
    requires k < |checks|
    ensures OpenCount(checks[k := check]) + (if checks[k].end == "" then 1 else 0)
         == OpenCount(checks) + (if check.end == "" then 1 else 0)
    decreases |checks|
  {
    var n := |checks| - 1;
    if k < n {
      OpenCountUpdate(checks[..n], k, check);
      assert checks[k := check][..n] == checks[..n][k := check];
    } else {
      assert checks[k := check][..n] == checks[..n];
    }
  }

  lemma {:induction false} OpenCountZero(checks: seq<Check>, k: nat)
    requires OpenCount(checks) == 0 && k < |checks|
    ensures checks[k].end != ""
    decreases |checks|
  {
    if k < |checks| - 1 {
      OpenCountZero(checks[..|checks| - 1], k);
    }
  }

  lemma OpBalanced(g: Growing, op: CheckOp)
    requires InBounds(g.forest) && Legal(g, op) && OpenCount(g.forest.checks) == |g.forest.stack|
    ensures OpenCount(Apply(g, op).forest.checks) == |Apply(g, op).forest.stack|
  {
    var f := g.forest;
    match op
    case Declare(start, local) =>
      if f.stack != [] {
        var parent := f.stack[|f.stack| - 1];
        OpenCountUpdate(f.checks, parent, AppendChild(f.checks[parent], |f.checks|));
      }
      var after := Apply(g, op).forest.checks;
      assert after[..|after| - 1] == if f.stack == [] then f.checks
        else f.checks[f.stack[|f.stack| - 1] := AppendChild(f.checks[f.stack[|f.stack| - 1]], |f.checks|)];
    case Finalize(k, end) =>
      if f.checks[k].end == "" {
        OpenCountUpdate(f.checks, k, f.checks[k].(end := end));
      }
    case AddCatch(k, start) =>
      OpenCountUpdate(f.checks, k, DeclareCatch(f, k, start).checks[k]);
    case EndCatch(_, _) =>
    case TypeCatch(_, _) =>
  }

  ghost predicate Sound(g: Growing) {
    && Nested(g.forest, g.parents)
    && CatchesAgree(g.forest, g.owners)
    && OpenCount(g.forest.checks) == |g.forest.stack|
  }

  ghost predicate LegalRun(g: Growing, ops: seq<CheckOp>)
    decreases |ops|
  {
    ops == [] || (InBounds(g.forest) && Legal(g, ops[0]) && LegalRun(Apply(g, ops[0]), ops[1..]))
  }

  ghost function ApplyAll(g: Growing, ops: seq<CheckOp>): Growing
    requires LegalRun(g, ops)
    decreases |ops|
  {
    if ops == [] then g else ApplyAll(Apply(g, ops[0]), ops[1..])
  }

  lemma {:induction false} RunSound(g: Growing, ops: seq<CheckOp>)
    requires Sound(g) && LegalRun(g, ops)
    ensures Sound(ApplyAll(g, ops))
    decreases |ops|
  {
    hide Nested, Apply, CatchesAgree;
    if ops != [] {
      OpNested(g, ops[0]);
      OpOwned(g, ops[0]);
      OpBalanced(g, ops[0]);
      RunSound(Apply(g, ops[0]), ops[1..]);
    }
  }

  const NO_NESTING := Growing(NO_CHECKS, [], [])

  /** After any run, whatever the order of finalization: the recorded depth is the depth of the
      forest, flattening lists every check once in table order, each check lists exactly the catches that were
      declared for it, in their order, and once the stack is empty every check is finalized. */
  lemma ForestAfterRun(ops: seq<CheckOp>)
    requires LegalRun(NO_NESTING, ops)
    ensures var g := ApplyAll(NO_NESTING, ops);
            && Nested(g.forest, g.parents)
            && DepthAgrees(g.forest, g.parents)
            && CatchesAgree(g.forest, g.owners)
            && |BuildLevels(g.forest)| == |g.forest.checks|
            && DeepestFirst(g.parents, BuildLevels(g.forest))
            && (forall x: nat :: x in BuildLevels(g.forest) <==> x < |g.forest.checks|)
            && (g.forest.stack == [] ==> forall k :: 0 <= k < |g.forest.checks| ==> g.forest.checks[k].end != "")
  {
    hide Apply;
    RunSound(NO_NESTING, ops);
    var g := ApplyAll(NO_NESTING, ops);
    BuildLevelsSorted(g.forest, g.parents);
    forall k | 0 <= k < |g.forest.checks| && g.forest.stack == []
      ensures g.forest.checks[k].end != ""
    {
      OpenCountZero(g.forest.checks, k);
    }
  }

  /** In any state that a run reaches, a check and a catch can be finalized exactly once each, and a catch takes
      any type but the invalid one. */
  lemma FinalizedOnce(g: Growing, k: nat, c: nat, end: string, exceptionType: TypeDef)
    requires Sound(g) && end != ""
    ensures k < |g.forest.checks| ==>
              FinalizeCheck(g.forest, k, end).0 == FailIf(g.forest.checks[k].end != "", AssemblerInvariant)
              && (FinalizeCheck(g.forest, k, end).0.Err? ==> FinalizeCheck(g.forest, k, end).1 == g.forest)
    ensures c < |g.forest.catches| ==>
              FinalizeCatch(g.forest, c, end).0 == FailIf(g.forest.catches[c].end != "", AssemblerInvariant)
              && SetExceptionType(g.forest, c, exceptionType).0 == FailIf(exceptionType == Invalid, AssemblerInvariant)
  {
    hide Nested, CatchesAgree;
    if k < |g.forest.checks| && g.forest.stack == [] {
      OpenCountZero(g.forest.checks, k);
    }
  }

  // ---------- what the checks and catches of a run are ----------

  /** The checks that a run declares: their start labels and the slots for what they catch. */
  function ChecksDeclared(ops: seq<CheckOp>): seq<(string, U32)> {
    if ops == [] then []
    else (if ops[0].Declare? then [(ops[0].start, ops[0].caughtLocal)] else []) + ChecksDeclared(ops[1..])
  }

  /** The catches that a run declares: for which check, and their start labels. */
  function CatchesDeclared(ops: seq<CheckOp>): seq<(nat, string)> {
    if ops == [] then []
    else (if ops[0].AddCatch? then [(ops[0].k, ops[0].start)] else []) + CatchesDeclared(ops[1..])
  }

  /** The label that a check is first finalized with. */
  function EndGiven(ops: seq<CheckOp>, k: nat): string {
    if ops == [] then "" else if ops[0].Finalize? && ops[0].k == k then ops[0].end else EndGiven(ops[1..], k)
  }

  /** The label that a catch is first finalized with. */
  function CatchEndGiven(ops: seq<CheckOp>, c: nat): string {
    if ops == [] then "" else if ops[0].EndCatch? && ops[0].c == c then ops[0].end else CatchEndGiven(ops[1..], c)
  }

  /** The valid type that a catch is given last, or else the one it had before. */
  function TypeGiven(ops: seq<CheckOp>, c: nat, before: TypeDef): TypeDef {
    if ops == [] then before
    else
      var gives := ops[0].TypeCatch? && ops[0].c == c && !ops[0].exceptionType.Invalid?;
      TypeGiven(ops[1..], c, if gives then ops[0].exceptionType else before)
  }

  /** The check is the one that the run declared, or was there before it, with the first end label it was given. */
  ghost predicate CheckAsGiven(before: seq<Check>, ops: seq<CheckOp>, k: nat, check: Check) {
    var n := |before|;
    && k < n + |ChecksDeclared(ops)|
    && (check.start, check.caughtLocal) ==
         (if k < n then (before[k].start, before[k].caughtLocal) else ChecksDeclared(ops)[k - n])
    && check.end == if k < n && before[k].end != "" then before[k].end else EndGiven(ops, k)
  }

  ghost predicate CatchAsGiven(before: seq<Catch>, owners: seq<nat>, ops: seq<CheckOp>, c: nat, catch: Catch,
                               owner: nat)
    requires |owners| == |before|
  {
    var n := |before|;
    && c < n + |CatchesDeclared(ops)|
    && (owner, catch.start) == (if c < n then (owners[c], before[c].start) else CatchesDeclared(ops)[c - n])
    && catch.end == (if c < n && before[c].end != "" then before[c].end else CatchEndGiven(ops, c))
    && catch.exceptionType == TypeGiven(ops, c, if c < n then before[c].exceptionType else Invalid)
  }

  lemma {:induction false} ChecksAsGiven(g: Growing, ops: seq<CheckOp>)
    requires LegalRun(g, ops)
    ensures var checks := ApplyAll(g, ops).forest.checks;
            && |checks| == |g.forest.checks| + |ChecksDeclared(ops)|
            && (forall k :: 0 <= k < |checks| ==> CheckAsGiven(g.forest.checks, ops, k, checks[k]))
    decreases |ops|
  {
    hide InBounds;
    if ops != [] {
      var next := Apply(g, ops[0]);
      ChecksAsGiven(next, ops[1..]);
      StepChecks(g, ops[0]);
      var checks := ApplyAll(g, ops).forest.checks;
      forall k | 0 <= k < |checks|
        ensures CheckAsGiven(g.forest.checks, ops, k, checks[k])
      {
        hide Apply;
        assert CheckAsGiven(next.forest.checks, ops[1..], k, checks[k]);
      }
    }
  }

  /** What one step does to the checks. */
  lemma StepChecks(g: Growing, op: CheckOp)
    requires InBounds(g.forest) && Legal(g, op)
    ensures var before, after := g.forest.checks, Apply(g, op).forest.checks;
            && |after| == |before| + (if op.Declare? then 1 else 0)
            && (forall k :: 0 <= k < |before| ==>
                  && after[k].start == before[k].start && after[k].caughtLocal == before[k].caughtLocal
                  && after[k].end == if op.Finalize? && op.k == k && before[k].end == "" then op.end else before[k].end)
            && (op.Declare? ==> after[|before|] == Check(op.start, "", op.caughtLocal, [], []))
            && (op.Finalize? ==> op.k < |before| && op.end != "")
  {
  }

  lemma {:induction false} CatchesAsGiven(g: Growing, ops: seq<CheckOp>)
    requires LegalRun(g, ops) && |g.owners| == |g.forest.catches|
    ensures var after := ApplyAll(g, ops);
            && |after.owners| == |after.forest.catches| == |g.forest.catches| + |CatchesDeclared(ops)|
            && (forall c :: 0 <= c < |after.owners| ==>
                  CatchAsGiven(g.forest.catches, g.owners, ops, c, after.forest.catches[c], after.owners[c]))
    decreases |ops|
  {
    hide InBounds, Apply, CatchAsGiven, Legal;
    if ops != [] {
      var next := Apply(g, ops[0]);
      StepCatches(g, ops[0]);
      CatchesAsGiven(next, ops[1..]);
      var after := ApplyAll(g, ops);
      forall c | 0 <= c < |after.owners|
        ensures CatchAsGiven(g.forest.catches, g.owners, ops, c, after.forest.catches[c], after.owners[c])
      {
        OneMoreStep(g, ops, c, after.forest.catches[c], after.owners[c]);
      }
    } else {
      AllAsGiven(g);
    }
  }

  lemma AllAsGiven(g: Growing)
    requires |g.owners| == |g.forest.catches|
    ensures forall c :: 0 <= c < |g.owners| ==>
              CatchAsGiven(g.forest.catches, g.owners, [], c, g.forest.catches[c], g.owners[c])
  {
  }

  lemma OneMoreStep(g: Growing, ops: seq<CheckOp>, c: nat, catch: Catch, owner: nat)
    requires ops != [] && InBounds(g.forest) && Legal(g, ops[0]) && |g.owners| == |g.forest.catches|
    requires |Apply(g, ops[0]).owners| == |Apply(g, ops[0]).forest.catches|
    requires CatchAsGiven(Apply(g, ops[0]).forest.catches, Apply(g, ops[0]).owners, ops[1..], c, catch, owner)
    ensures CatchAsGiven(g.forest.catches, g.owners, ops, c, catch, owner)
  {
    StepCatches(g, ops[0]);
    hide InBounds, Apply, Legal;
  }

  /** What one step does to the catches. */
  lemma StepCatches(g: Growing, op: CheckOp)
    requires InBounds(g.forest) && Legal(g, op) && |g.owners| == |g.forest.catches|
    ensures var before, after := g.forest.catches, Apply(g, op).forest.catches;
            var owners := Apply(g, op).owners;
            && |owners| == |after| == |before| + (if op.AddCatch? then 1 else 0)
            && (forall c :: 0 <= c < |before| ==>
                  && owners[c] == g.owners[c] && after[c].start == before[c].start
                  && after[c].end == (if op.EndCatch? && op.c == c && before[c].end == "" then op.end
                                      else before[c].end)
                  && after[c].exceptionType ==
                       if op.TypeCatch? && op.c == c && !op.exceptionType.Invalid? then op.exceptionType
                       else before[c].exceptionType)
            && (op.AddCatch? ==> after[|before|] == Catch(op.start, "", Invalid) && owners[|before|] == op.k)
            && (op.EndCatch? ==> op.c < |before| && op.end != "")
            && (op.TypeCatch? ==> op.c < |before|)
  {
  }

  lemma OwnedAsGiven(f: Forest, owners: seq<nat>, declared: seq<(nat, string)>, k: nat)
    requires CatchesAgree(f, owners) && k < |f.checks| && |declared| == |owners|
    requires forall c :: 0 <= c < |owners| ==> owners[c] == declared[c].0
    ensures Ascending(f.checks[k].catches)
    ensures forall c: nat :: c in f.checks[k].catches <==> c < |declared| && declared[c].0 == k
  {
  }

  lemma NothingSound()
    ensures Sound(NO_NESTING)
  {
  }

  /** Over any run: the checks are those that were declared, in that order, each with its start label, the slot
      for what it catches and the first end label it was given; and each check lists the catches that were
      declared for it, in that order, each with its start label, its first end label and its last valid type. */
  lemma RunAsGiven(ops: seq<CheckOp>)
    requires LegalRun(NO_NESTING, ops)
    ensures var g := ApplyAll(NO_NESTING, ops);
            && |g.forest.checks| == |ChecksDeclared(ops)| && |g.forest.catches| == |CatchesDeclared(ops)|
            && (forall k :: 0 <= k < |g.forest.checks| ==>
                  var check := g.forest.checks[k];
                  && (check.start, check.caughtLocal, check.end) ==
                       (ChecksDeclared(ops)[k].0, ChecksDeclared(ops)[k].1, EndGiven(ops, k))
                  && Ascending(check.catches)
                  && forall c: nat :: c in check.catches <==>
                                        c < |CatchesDeclared(ops)| && CatchesDeclared(ops)[c].0 == k)
            && (forall c :: 0 <= c < |g.forest.catches| ==>
                  g.forest.catches[c] ==
                    Catch(CatchesDeclared(ops)[c].1, CatchEndGiven(ops, c), TypeGiven(ops, c, Invalid)))
  {
    hide Apply, Nested, LegalRun, ApplyAll, Ascending, CatchesAgree;
    NothingSound();
    RunSound(NO_NESTING, ops);
    ChecksAsGiven(NO_NESTING, ops);
    CatchesAsGiven(NO_NESTING, ops);
    var g := ApplyAll(NO_NESTING, ops);
    forall c | 0 <= c < |g.forest.catches|
      ensures g.owners[c] == CatchesDeclared(ops)[c].0
      ensures g.forest.catches[c] ==
                Catch(CatchesDeclared(ops)[c].1, CatchEndGiven(ops, c), TypeGiven(ops, c, Invalid))
    {
      assert CatchAsGiven([], [], ops, c, g.forest.catches[c], g.owners[c]);
    }
    forall k | 0 <= k < |g.forest.checks|
      ensures var check := g.forest.checks[k];
              (check.start, check.caughtLocal, check.end) ==
                (ChecksDeclared(ops)[k].0, ChecksDeclared(ops)[k].1, EndGiven(ops, k))
      ensures Ascending(g.forest.checks[k].catches)
      ensures forall c: nat :: c in g.forest.checks[k].catches <==>
                               c < |CatchesDeclared(ops)| && CatchesDeclared(ops)[c].0 == k
    {
      assert CheckAsGiven([], ops, k, g.forest.checks[k]);
      OwnedAsGiven(g.forest, g.owners, CatchesDeclared(ops), k);
    }
  }
}
