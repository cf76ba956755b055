/** The label and jump tables of a procedure: which targets each label has, and which label each target goes to. */
module JumpTables {
  import opened BigEndian
  import opened Wrappers

  datatype Tables = Tables(nextId: U32, labelTargets: map<string, set<U32>>, jumpLabels: map<U32, string>)

  const NO_TABLES := Tables(0, map[], map[])
  const MAX_ID: U32 := 0xFFFF_FFFF

  function Decimal(n: nat): string {
    if n < 10 then ["0123456789"[n]] else Decimal(n / 10) + ["0123456789"[n % 10]]
  }

  function AutoLabel(id: nat): string {
    "label" + Decimal(id)
  }

  /** Different numbers are written differently. */
  lemma {:induction false} DecimalInjective(m: nat, n: nat)
    requires Decimal(m) == Decimal(n)
    ensures m == n
    decreases m
  {
    DigitsDiffer(m % 10, n % 10);
    DecimalParts(m);
    DecimalParts(n);
    if m >= 10 && n >= 10 {
      DecimalInjective(m / 10, n / 10);
    }
  }

  lemma {:induction false} DecimalParts(n: nat)
    ensures Decimal(n) != [] && Decimal(n)[|Decimal(n)| - 1] == "0123456789"[n % 10]
    ensures n < 10 <==> |Decimal(n)| == 1
    ensures n >= 10 ==> Decimal(n)[..|Decimal(n)| - 1] == Decimal(n / 10)
    decreases n
  {
    if n >= 10 {
      DecimalParts(n / 10);
    }
  }

  lemma DigitsDiffer(a: nat, b: nat)
    requires a < 10 && b < 10
    ensures "0123456789"[a] == "0123456789"[b] ==> a == b
  {
  }

  /** Registers a label. An empty name asks for a generated one; a generated name that is
      already taken does not use up its id. */
  function MakeLabel(t: Tables, userLabel: string): (Result<string>, Tables) {
    if userLabel == "" then
      if t.nextId == MAX_ID then (Err(AssemblerInvariant), t)
      else
        var name := AutoLabel(t.nextId);
        if name in t.labelTargets then (Err(AssemblerInvariant), t)
        else (Ok(name), t.(nextId := t.nextId + 1, labelTargets := t.labelTargets[name := {}]))
    else
      if userLabel in t.labelTargets then (Err(AssemblerInvariant), t)
      else (Ok(userLabel), t.(labelTargets := t.labelTargets[userLabel := {}]))
  }

  /** Registers a jump target, which goes nowhere yet. */
  function MakeJump(t: Tables): (Result<U32>, Tables) {
    if t.nextId == MAX_ID then (Err(AssemblerInvariant), t)
    else (Ok(t.nextId), t.(nextId := t.nextId + 1, jumpLabels := t.jumpLabels[t.nextId := ""]))
  }

  function PatchTarget(t: Tables, target: U32, name: string): (Status, Tables) {
    if name !in t.labelTargets || target !in t.jumpLabels then (Err(AssemblerInvariant), t)
    else (OK, t.(labelTargets := t.labelTargets[name := t.labelTargets[name] + {target}],
                 jumpLabels := t.jumpLabels[target := name]))
  }

  // ---------- every run of the tables ----------

  /** What a client asks of the tables; a label to patch to is never empty. */
  datatype Request = ForLabel(userLabel: string) | ForJump | ForPatch(target: U32, name: string)

  function Serve(t: Tables, request: Request): Tables {
    match request
    case ForLabel(userLabel) => MakeLabel(t, userLabel).1
    case ForJump => MakeJump(t).1
    case ForPatch(target, name) => PatchTarget(t, target, name).1
  }

  function ServeAll(requests: seq<Request>): Tables {
    if requests == [] then NO_TABLES
    else Serve(ServeAll(requests[..|requests| - 1]), requests[|requests| - 1])
  }

  predicate Patches(t: Tables, request: Request) {
    request.ForPatch? && PatchTarget(t, request.target, request.name).0.Ok?
  }

  /** The patches that succeeded in a run, in order. */
  function History(requests: seq<Request>): seq<(U32, string)> {
    if requests == [] then []
    else
      var last := requests[|requests| - 1];
      var before := requests[..|requests| - 1];
      History(before) + if Patches(ServeAll(before), last) then [(last.target, last.name)] else []
  }

  /** The label a target was last patched to, or the empty name. */
  function LastPatch(history: seq<(U32, string)>, target: U32): string {
    if history == [] then ""
    else if history[|history| - 1].0 == target then history[|history| - 1].1
    else LastPatch(history[..|history| - 1], target)
  }

  /** The tables say no more and no less than the history of patches. */
  ghost predicate Records(t: Tables, history: seq<(U32, string)>) {
    && (forall j :: j in t.jumpLabels ==> j < t.nextId && t.jumpLabels[j] == LastPatch(history, j))
    && (forall h :: h in history ==> h.0 in t.jumpLabels && h.1 in t.labelTargets)
    && (forall name, j :: name in t.labelTargets ==> (j in t.labelTargets[name] <==> (j, name) in history))
    && "" !in t.labelTargets
  }

  lemma {:induction false} LastPatchInHistory(history: seq<(U32, string)>, target: U32)
    requires LastPatch(history, target) != ""
    ensures (target, LastPatch(history, target)) in history
  {
    var n := |history| - 1;
    if history[n].0 != target {
      LastPatchInHistory(history[..n], target);
    }
  }

  lemma PatchRecords(t: Tables, history: seq<(U32, string)>, target: U32, name: string)
    requires Records(t, history) && PatchTarget(t, target, name).0.Ok?
    ensures Records(PatchTarget(t, target, name).1, history + [(target, name)])
  {
    var after := PatchTarget(t, target, name).1;
    var longer := history + [(target, name)];
    assert longer[..|history|] == history;
    forall n, j | n in after.labelTargets
      ensures j in after.labelTargets[n] <==> (j, n) in longer
    {
      assert (j, n) in longer <==> (j, n) in history || (j, n) == (target, name);
    }
  }

  lemma ServeRecords(t: Tables, history: seq<(U32, string)>, request: Request)
    requires Records(t, history) && (request.ForPatch? ==> request.name != "")
    ensures Records(Serve(t, request), history + if Patches(t, request) then [(request.target, request.name)] else [])
  {
    if Patches(t, request) {
      PatchRecords(t, history, request.target, request.name);
    } else {
      assert history + [] == history;
      if !request.ForPatch? {
        NewNamesRecord(t, history, request);
      }
    }
  }

  lemma {:induction false} RunRecords(requests: seq<Request>)
    requires forall r :: r in requests && r.ForPatch? ==> r.name != ""
    ensures Records(ServeAll(requests), History(requests))
  {
    hide Serve, Patches;
    if requests != [] {
      var n := |requests| - 1;
      RunRecords(requests[..n]);
      assert requests[n] in requests;
      ServeRecords(ServeAll(requests[..n]), History(requests[..n]), requests[n]);
    }
  }

  lemma NewNamesRecord(t: Tables, history: seq<(U32, string)>, request: Request)
    requires Records(t, history) && !request.ForPatch?
    ensures Records(Serve(t, request), history)
  {
    var after := Serve(t, request);
    forall j | j in after.jumpLabels && j !in t.jumpLabels
      ensures LastPatch(history, j) == ""
    {
      if LastPatch(history, j) != "" {
        LastPatchInHistory(history, j);
      }
    }
  }

  /** A new label is one that was not there, and a new target has an id that no target had. */
  lemma NamesAreNew(requests: seq<Request>, userLabel: string)
    requires forall r :: r in requests && r.ForPatch? ==> r.name != ""
    ensures var t := ServeAll(requests);
            && (MakeLabel(t, userLabel).0.Ok? ==> MakeLabel(t, userLabel).0.value !in t.labelTargets)
            && (MakeJump(t).0.Ok? ==> MakeJump(t).0.value !in t.jumpLabels)
            && (MakeJump(t).0.Err? ==> t.nextId == MAX_ID)
  {
    RunRecords(requests);
  }

  /** Where the labels of a reachable state come from: they were asked for, or generated from the id of a moment. */
  ghost predicate Named(t: Tables, requests: seq<Request>) {
    && (forall name :: name in t.labelTargets ==>
          ForLabel(name) in requests || exists id: nat :: id < t.nextId && name == AutoLabel(id))
    && (forall name :: ForLabel(name) in requests && name != "" ==> name in t.labelTargets)
  }

  lemma {:induction false} RunNamed(requests: seq<Request>)
    ensures Named(ServeAll(requests), requests)
  {
    hide PatchTarget, AutoLabel;
    if requests != [] {
      var n := |requests| - 1;
      var before, after := ServeAll(requests[..n]), ServeAll(requests);
      RunNamed(requests[..n]);
      assert requests == requests[..n] + [requests[n]];
      PatchKeepsLabels(before, requests[n]);
      assert before.nextId <= after.nextId;
      forall name | name in after.labelTargets
        ensures ForLabel(name) in requests || exists id: nat :: id < after.nextId && name == AutoLabel(id)
      {
        if name in before.labelTargets && ForLabel(name) !in requests {
          var id: nat :| id < before.nextId && name == AutoLabel(id);
        }
      }
    }
  }

  lemma PatchKeepsLabels(t: Tables, request: Request)
    ensures request.ForPatch? ==>
              var after := Serve(t, request);
              after.labelTargets.Keys == t.labelTargets.Keys && after.nextId == t.nextId
  {
  }

  /** How many ids a run has given out, to jump targets and generated labels. */
  function IdsGiven(requests: seq<Request>): nat {
    if requests == [] then 0
    else
      var before, last := requests[..|requests| - 1], requests[|requests| - 1];
      var gives := (last.ForJump? && MakeJump(ServeAll(before)).0.Ok?)
                   || (last == ForLabel("") && MakeLabel(ServeAll(before), "").0.Ok?);
      IdsGiven(before) + if gives then 1 else 0
  }

  /** Ids are given out one after the other, and only to jump targets and generated labels. */
  lemma {:induction false} IdsInOrder(requests: seq<Request>)
    ensures var t := ServeAll(requests);
            && t.nextId == IdsGiven(requests)
            && (MakeJump(t).0.Ok? ==> MakeJump(t).0.value == IdsGiven(requests))
            && (MakeLabel(t, "").0.Ok? ==> MakeLabel(t, "").0.value == AutoLabel(IdsGiven(requests)))
  {
    hide AutoLabel;
    if requests != [] {
      IdsInOrder(requests[..|requests| - 1]);
    }
  }

  /** In a reachable state a generated label is refused exactly when the ids are used up or a client has asked for its
      very name: generated names never get in each other's way. A given one is refused whenever it was asked
      for before, and otherwise only if it is a generated name. A refusal changes nothing. */
  lemma LabelsRefusedExactly(requests: seq<Request>, name: string)
    ensures var t := ServeAll(requests);
            && (MakeLabel(t, "").0.Ok? <==> t.nextId != MAX_ID && ForLabel(AutoLabel(t.nextId)) !in requests)
            && (name != "" && ForLabel(name) in requests ==> MakeLabel(t, name).0.Err?)
            && (name != "" && MakeLabel(t, name).0.Err? ==>
                  ForLabel(name) in requests || exists id: nat :: id < t.nextId && name == AutoLabel(id))
            && (MakeLabel(t, name).0.Err? ==> MakeLabel(t, name) == (Err(AssemblerInvariant), t))
  {
    RunNamed(requests);
    var t := ServeAll(requests);
    if AutoLabel(t.nextId) in t.labelTargets && ForLabel(AutoLabel(t.nextId)) !in requests {
      var id: nat :| id < t.nextId && AutoLabel(t.nextId) == AutoLabel(id);
      assert AutoLabel(id)[5..] == Decimal(id) && AutoLabel(t.nextId)[5..] == Decimal(t.nextId);
      DecimalInjective(id, t.nextId);
    }
  }

  /** In every reachable state a target that goes to a label is among the targets of the label,
      and among those targets exactly the ones that were last patched to it go to it. */
  lemma TablesAgree(requests: seq<Request>, target: U32, name: string)
    requires forall r :: r in requests && r.ForPatch? ==> r.name != ""
    requires target in ServeAll(requests).jumpLabels && name in ServeAll(requests).labelTargets
    ensures var t := ServeAll(requests);
            && (t.jumpLabels[target] == name ==> target in t.labelTargets[name])
            && (target in t.labelTargets[name] ==>
                  (t.jumpLabels[target] == name <==> LastPatch(History(requests), target) == name))
  {
    RunRecords(requests);
    if ServeAll(requests).jumpLabels[target] == name {
      LastPatchInHistory(History(requests), target);
    }
  }

  /** A target patched at most once goes to every label that lists it. */
  lemma {:induction false} PatchedOnceAgrees(requests: seq<Request>, target: U32, name: string)
    requires forall r :: r in requests && r.ForPatch? ==> r.name != ""
    requires target in ServeAll(requests).jumpLabels && name in ServeAll(requests).labelTargets
    requires forall i, j :: 0 <= i < j < |History(requests)| ==>
               !(History(requests)[i].0 == target && History(requests)[j].0 == target)
    ensures target in ServeAll(requests).labelTargets[name] <==> ServeAll(requests).jumpLabels[target] == name
  {
    RunRecords(requests);
    var history := History(requests);
    if (target, name) in history {
      var k :| 0 <= k < |history| && history[k] == (target, name);
      OnlyPatchIsLast(history, target, k);
    }
    if ServeAll(requests).jumpLabels[target] == name {
      LastPatchInHistory(history, target);
    }
  }

  lemma {:induction false} OnlyPatchIsLast(history: seq<(U32, string)>, target: U32, k: nat)
    requires k < |history| && history[k].0 == target
    requires forall j :: k < j < |history| ==> history[j].0 != target
    ensures LastPatch(history, target) == history[k].1
    decreases |history|
  {
    if k < |history| - 1 {
      OnlyPatchIsLast(history[..|history| - 1], target, k);
    }
  }
}
