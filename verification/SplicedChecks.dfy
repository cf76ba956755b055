/** Runs in which fragments with checks are spliced: one in which the checks come to stand in the reverse
    order of their declaration, and one that puts a check where it was not declared. */
module SplicedChecks {
  import opened BigEndian
  import opened CheckForest
  import opened Emission
  import Fragments
  import opened Instructions
  import opened Intervals
  import opened JumpTables
  import opened Placements
  import opened Wrappers

  // ---------- what single steps give ----------

  function Appended(s: Session, f: nat, name: string): Session
    requires f < |s.fragments|
  {
    s.(tables := s.tables.(labelTargets := s.tables.labelTargets[name := {}]),
       fragments := s.fragments[f := s.fragments[f] + [Label(name)]])
  }

  lemma AppendGives(p: Placing, f: nat, name: string)
    requires Labelled(p) && f < |p.session.fragments| && f !in p.session.spliced
    requires name != "" && name !in p.session.tables.labelTargets
    ensures MakeLabel(p.session.tables, name).0 == Ok(name)
    ensures Fragments.Legal(p.session, AtEnd(p, f, name))
    ensures Edited(p, AtEnd(p, f, name)) == p.(session := Appended(p.session, f, name))
  {
    hide Labelled;
    AppendFresh(p, f, name);
  }

  lemma OpenGives(p: Placing, f: nat, name: string, local: U32)
    requires Labelled(p) && f < |p.session.fragments| && f !in p.session.spliced && InBounds(p.growing.forest)
    requires name != "" && name !in p.session.tables.labelTargets
    ensures ApplyOp(p, Open(f, name, local)) ==
              Placing(Appended(p.session, f, name), Apply(p.growing, Declare(name, local)),
                      p.spots + [Spot(f, |p.session.fragments[f]|, None)])
  {
    hide Labelled, Edited, DeclareCheck;
    AppendGives(p, f, name);
  }

  lemma CloseGives(p: Placing, name: string)
    requires Labelled(p) && p.growing.forest.stack != [] && InBounds(p.growing.forest)
    requires name != "" && name !in p.session.tables.labelTargets
    ensures Top(p.growing.forest) < |p.spots| && Top(p.growing.forest) < |p.growing.forest.checks|
    ensures var k := Top(p.growing.forest);
            var f := p.spots[k].home;
            && f < |p.session.fragments|
            && ApplyOp(p, Close(name)) ==
                 Placing(Appended(p.session, f, name), Apply(p.growing, Finalize(k, name)),
                         p.spots[k := p.spots[k].(end := Some(|p.session.fragments[f]|))])
  {
    hide Labelled, Edited, FinalizeCheck;
    TopFacts(p);
    AppendGives(p, p.spots[Top(p.growing.forest)].home, name);
  }

  // ---------- two checks in two fragments ----------

  function TablesOf(names: set<string>): Tables {
    Tables(0, map name | name in names :: {}, map[])
  }

  function Closed(start: string, end: string, local: U32): Check {
    Check(start, end, local, [], [])
  }

  ghost function Fresh(): Placing {
    NOTHING_PLACED.(session := Fragments.Session(NO_TABLES, [[], []], {}))
  }

  /** Both checks are open one after the other, the first one in the fragment `f`, the second in `g`. */
  ghost function FirstOpen(f: nat): Placing
    requires f < 2
  {
    Placing(Appended(Fresh().session, f, "a"), Growing(Forest([Closed("a", "", 0)], [0], [0], 1, []), [None], []),
            [Spot(f, 0, None)])
  }

  ghost function FirstClosed(f: nat): Placing
    requires f < 2
  {
    Placing(Appended(FirstOpen(f).session, f, "b"), Growing(Forest([Closed("a", "b", 0)], [], [0], 1, []), [None], []),
            [Spot(f, 0, Some(1))])
  }

  ghost function SecondOpen(f: nat): Placing
    requires f < 2
  {
    Placing(Appended(FirstClosed(f).session, 1 - f, "c"),
            Growing(Forest([Closed("a", "b", 0), Closed("c", "", 1)], [1], [0, 1], 1, []), [None, None], []),
            [Spot(f, 0, Some(1)), Spot(1 - f, 0, None)])
  }

  ghost function SecondClosed(f: nat): Placing
    requires f < 2
  {
    Placing(Appended(SecondOpen(f).session, 1 - f, "d"),
            Growing(Forest([Closed("a", "b", 0), Closed("c", "d", 1)], [], [0, 1], 1, []), [None, None], []),
            [Spot(f, 0, Some(1)), Spot(1 - f, 0, Some(1))])
  }

  /** Two checks, one after the other and each in a fragment of its own; then the other fragment is
      spliced into the procedure's own. */
  function TwoChecks(f: nat, at: int): seq<PlaceOp>
    requires f < 2
  {
    [Edit(Fragments.AddFragment), Open(f, "a", 0), Close("b"), Open(1 - f, "c", 1), Close("d"),
     Edit(Fragments.Splice(0, at, 1))]
  }

  /** How the forest grows. */
  lemma ForestGrows()
    ensures Apply(NO_NESTING, Declare("a", 0)) == Growing(Forest([Closed("a", "", 0)], [0], [0], 1, []), [None], [])
    ensures Apply(Growing(Forest([Closed("a", "", 0)], [0], [0], 1, []), [None], []), Finalize(0, "b"))
         == Growing(Forest([Closed("a", "b", 0)], [], [0], 1, []), [None], [])
  {
    assert DeclareCheck(NO_CHECKS, "a", 0) == Forest([] + [Closed("a", "", 0)], [] + [0], [] + [0], 1, []);
    var f := Forest([Closed("a", "", 0)], [0], [0], 1, []);
    assert FinalizeCheck(f, 0, "b").1 == Forest([Closed("a", "", 0)][0 := Closed("a", "b", 0)], [0][..0], [0], 1, []);
    assert [0][..0] == [] && [Closed("a", "", 0)][0 := Closed("a", "b", 0)] == [Closed("a", "b", 0)];
  }

  lemma ForestGrowsOn()
    ensures Apply(Growing(Forest([Closed("a", "b", 0)], [], [0], 1, []), [None], []), Declare("c", 1))
         == Growing(Forest([Closed("a", "b", 0), Closed("c", "", 1)], [1], [0, 1], 1, []), [None, None], [])
    ensures Apply(Growing(Forest([Closed("a", "b", 0), Closed("c", "", 1)], [1], [0, 1], 1, []), [None, None], []),
                  Finalize(1, "d"))
         == Growing(Forest([Closed("a", "b", 0), Closed("c", "d", 1)], [], [0, 1], 1, []), [None, None], [])
  {
    var f := Forest([Closed("a", "b", 0)], [], [0], 1, []);
    assert DeclareCheck(f, "c", 1) == Forest([Closed("a", "b", 0)] + [Closed("c", "", 1)], [] + [1], [0] + [1], 1, []);
    var g := Forest([Closed("a", "b", 0), Closed("c", "", 1)], [1], [0, 1], 1, []);
    assert FinalizeCheck(g, 1, "d").1 ==
           Forest([Closed("a", "b", 0), Closed("c", "", 1)][1 := Closed("c", "d", 1)], [1][..0], [0, 1], 1, []);
    assert [1][..0] == [];
    assert [Closed("a", "b", 0), Closed("c", "", 1)][1 := Closed("c", "d", 1)]
        == [Closed("a", "b", 0), Closed("c", "d", 1)];
  }

  lemma StartsFresh()
    ensures Labelled(NOTHING_PLACED) && LegalOp(NOTHING_PLACED, Edit(Fragments.AddFragment))
    ensures Labelled(Fresh()) && ApplyOp(NOTHING_PLACED, Edit(Fragments.AddFragment)) == Fresh()
  {
    NothingPlaced();
    hide Labelled, Fragments.Tidy;
    var after := Edited(NOTHING_PLACED, Fragments.AddFragment);
    assert after.session.fragments == [[]] + [[]] == [[], []];
    assert after.spots == [];
    OpPlaced(NOTHING_PLACED, Edit(Fragments.AddFragment));
  }

  lemma OpensFirst(f: nat)
    requires f < 2 && Labelled(Fresh())
    ensures LegalOp(Fresh(), Open(f, "a", 0))
    ensures Labelled(FirstOpen(f)) && ApplyOp(Fresh(), Open(f, "a", 0)) == FirstOpen(f)
  {
    hide Labelled, Apply;
    ForestGrows();
    OpenGives(Fresh(), f, "a", 0);
    assert |Fresh().session.fragments[f]| == 0 && Fresh().spots + [Spot(f, 0, None)] == [Spot(f, 0, None)];
    OpPlaced(Fresh(), Open(f, "a", 0));
  }

  lemma ClosesFirst(f: nat)
    requires f < 2 && Labelled(FirstOpen(f))
    ensures LegalOp(FirstOpen(f), Close("b"))
    ensures Labelled(FirstClosed(f)) && ApplyOp(FirstOpen(f), Close("b")) == FirstClosed(f)
  {
    hide Labelled, Apply;
    ForestGrows();
    CloseGives(FirstOpen(f), "b");
    assert [Spot(f, 0, None)][0 := Spot(f, 0, Some(1))] == [Spot(f, 0, Some(1))];
    OpPlaced(FirstOpen(f), Close("b"));
  }

  lemma OpensSecond(f: nat)
    requires f < 2 && Labelled(FirstClosed(f))
    ensures LegalOp(FirstClosed(f), Open(1 - f, "c", 1))
    ensures Labelled(SecondOpen(f)) && ApplyOp(FirstClosed(f), Open(1 - f, "c", 1)) == SecondOpen(f)
  {
    hide Labelled, Apply;
    ForestGrowsOn();
    OpenGives(FirstClosed(f), 1 - f, "c", 1);
    assert |FirstClosed(f).session.fragments[1 - f]| == 0;
    assert FirstClosed(f).spots + [Spot(1 - f, 0, None)] == [Spot(f, 0, Some(1)), Spot(1 - f, 0, None)];
    OpPlaced(FirstClosed(f), Open(1 - f, "c", 1));
  }

  lemma ClosesSecond(f: nat)
    requires f < 2 && Labelled(SecondOpen(f))
    ensures LegalOp(SecondOpen(f), Close("d"))
    ensures Labelled(SecondClosed(f)) && ApplyOp(SecondOpen(f), Close("d")) == SecondClosed(f)
  {
    hide Labelled, Apply;
    ForestGrowsOn();
    CloseGives(SecondOpen(f), "d");
    assert [Spot(f, 0, Some(1)), Spot(1 - f, 0, None)][1 := Spot(1 - f, 0, Some(1))]
        == [Spot(f, 0, Some(1)), Spot(1 - f, 0, Some(1))];
    OpPlaced(SecondOpen(f), Close("d"));
  }

  lemma RunStep(p: Placing, op: PlaceOp, ops: seq<PlaceOp>)
    requires Labelled(p) && LegalOp(p, op)
    ensures Labelled(ApplyOp(p, op))
    ensures Placements.LegalRun(p, [op] + ops) <==> Placements.LegalRun(ApplyOp(p, op), ops)
    ensures Placements.LegalRun(ApplyOp(p, op), ops) ==>
              && Placements.ApplyAll(p, [op] + ops) == Placements.ApplyAll(ApplyOp(p, op), ops)
              && (SplicesLand(p, [op] + ops) <==> LandsIfSplice(p, op) && SplicesLand(ApplyOp(p, op), ops))
  {
    hide Labelled, LegalOp, ApplyOp, LandsIfSplice;
    OpPlaced(p, op);
    assert ([op] + ops)[0] == op && ([op] + ops)[1..] == ops;
  }

  lemma NoMoreSteps(p: Placing)
    requires Labelled(p)
    ensures Placements.LegalRun(p, []) && Placements.ApplyAll(p, []) == p && SplicesLand(p, [])
  {
  }

  lemma SpliceIsLegal(f: nat, at: int)
    requires f < 2
    ensures LegalOp(SecondClosed(f), Edit(Fragments.Splice(0, at, 1)))
  {
  }

  /** Only the splice decides whether everything lands right. */
  lemma RunsToSplice(f: nat, at: int)
    requires f < 2
    ensures var last := Edit(Fragments.Splice(0, at, 1));
            && FromNothing(TwoChecks(f, at))
            && Labelled(SecondClosed(f)) && LegalOp(SecondClosed(f), last)
            && PlacedBy(TwoChecks(f, at)) == ApplyOp(SecondClosed(f), last)
            && (AllLand(TwoChecks(f, at)) <==> LandsIfSplice(SecondClosed(f), last))
  {
    hide Labelled, ApplyOp, LandsRight, FirstOpen, FirstClosed, SecondOpen, SecondClosed, Fresh, Placements.LegalRun,
         Placements.ApplyAll, SplicesLand, LegalOp;
    StartsFresh();
    OpensFirst(f);
    ClosesFirst(f);
    OpensSecond(f);
    ClosesSecond(f);
    SpliceIsLegal(f, at);
    var last := Edit(Fragments.Splice(0, at, 1));
    RunStep(SecondClosed(f), last, []);
    NoMoreSteps(ApplyOp(SecondClosed(f), last));
    var ops1 := [last] + [];
    RunStep(SecondOpen(f), Close("d"), ops1);
    var ops2 := [Close("d")] + ops1;
    RunStep(FirstClosed(f), Open(1 - f, "c", 1), ops2);
    var ops3 := [Open(1 - f, "c", 1)] + ops2;
    RunStep(FirstOpen(f), Close("b"), ops3);
    var ops4 := [Close("b")] + ops3;
    RunStep(Fresh(), Open(f, "a", 0), ops4);
    var ops5 := [Open(f, "a", 0)] + ops4;
    RunStep(NOTHING_PLACED, Edit(Fragments.AddFragment), ops5);
    assert [Edit(Fragments.AddFragment)] + ops5 == TwoChecks(f, at);
  }

  // ---------- where the splice lands ----------

  /** The procedure's own fragment after the run. */
  lemma SplicedMain(f: nat, at: int)
    requires f < 2 && Fragments.Legal(SecondClosed(f).session, Fragments.Splice(0, at, 1))
    ensures var p := Edited(SecondClosed(f), Fragments.Splice(0, at, 1));
            var own, other := if f == 0 then ["a", "b"] else ["c", "d"], if f == 0 then ["c", "d"] else ["a", "b"];
            var names := if at == 0 then other + own else if at == 1 then [own[0]] + other + [own[1]] else own + other;
            && |p.session.fragments| == 2
            && p.session.fragments[0] == [Label(names[0]), Label(names[1]), Label(names[2]), Label(names[3])]
            && p.growing == SecondClosed(f).growing
  {
  }

  /** The splice lands right unless it lands between the two labels in the procedure's own fragment. */
  lemma SpliceLands(f: nat, at: int)
    requires f < 2 && Bounded(SecondClosed(f))
    ensures Fragments.Legal(SecondClosed(f).session, Fragments.Splice(0, at, 1))
    ensures LandsRight(SecondClosed(f), Fragments.Splice(0, at, 1)) <==> at != 1
  {
    var p := SecondClosed(f);
    assert |p.session.fragments[0]| == 2;
    var x, y := if f == 0 then 0 else 1, if f == 0 then 1 else 0;
    assert p.spots[x] == Spot(0, 0, Some(1)) && p.spots[y] == Spot(1, 0, Some(1));
    var spot := Clip(p.session.fragments[0], at);
    assert LandsFor(p, x, y, spot) <==> spot != 1;
  }

  /** Two checks declared one after the other are disjoint in the end exactly when the fragment of the one is not
      spliced between the labels of the other, whichever of them was declared first. */
  lemma TwoChecksNested(f: nat, at: int)
    requires f < 2
    ensures FromNothing(TwoChecks(f, at))
    ensures var p := PlacedBy(TwoChecks(f, at));
            && AllInMain(p)
            && (WellNested(p.growing.parents, Starts(p), Ends(p)) <==> at != 1)
            && (f == 1 && at == -1 ==>
                  p.session.fragments[0] == [Label("c"), Label("d"), Label("a"), Label("b")])
  {
    hide Labelled, WellNested, FromNothing, PlacedBy, AllLand, LandsRight;
    RunsToSplice(f, at);
    LabelledFacts(SecondClosed(f));
    SpliceLands(f, at);
    SplicedMain(f, at);
    SplicedAllInMain(f, at);
    RunNestedExactly(TwoChecks(f, at));
  }

  lemma SplicedAllInMain(f: nat, at: int)
    requires f < 2 && Fragments.Legal(SecondClosed(f).session, Fragments.Splice(0, at, 1))
    requires Labelled(Edited(SecondClosed(f), Fragments.Splice(0, at, 1)))
    ensures AllInMain(Edited(SecondClosed(f), Fragments.Splice(0, at, 1)))
  {
    hide Labelled, Edited;
    SplicedMain(f, at);
    var main := Edited(SecondClosed(f), Fragments.Splice(0, at, 1)).session.fragments[0];
    assert Label("a") in main && Label("c") in main;
  }
}
