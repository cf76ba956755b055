/** Where the checks of a procedure are placed while its fragments are edited and spliced, and when
    the intervals they end up with are nested like the checks themselves. */
module Placements {
  import opened BigEndian
  import opened CheckForest
  import opened Emission
  import Fragments
  import opened Instructions
  import opened Intervals
  import opened JumpTables
  import opened Wrappers

  type Session = Fragments.Session
  type Edit = Fragments.Edit

  /** The labels of a check stand in one fragment; an open check has no end label yet. */
  datatype Spot = Spot(home: nat, start: nat, end: Option<nat>)

  /** The fragments and tables of a procedure, its checks, and where their labels are. */
  datatype Placing = Placing(session: Session, growing: Growing, spots: seq<Spot>)

  const NOTHING_PLACED := Placing(Fragments.NEW_SESSION, NO_NESTING, [])

  // ---------- where an edit moves a statement ----------

  /** The index that an insertion really uses. */
  function Clip(stmts: seq<Instruction>, at: int): (spot: nat)
    ensures spot <= |stmts|
  {
    if 0 <= at < |stmts| then at else |stmts|
  }

  /** Where a position goes when `n` statements are inserted before `spot`, or the one there is removed. */
  function Shift(x: nat, spot: nat, n: nat): nat {
    if spot <= x then x + n else x
  }

  function ShiftDown(x: nat, spot: nat): nat {
    if spot < x then x - 1 else x
  }

  function CarryHome(edit: Edit, home: nat): nat {
    if edit.Splice? && edit.g == home then edit.f else home
  }

  /** Where a position of the fragment `home` is after an edit. */
  function Carry(s: Session, edit: Edit, home: nat, x: nat): nat
    requires Fragments.Legal(s, edit)
  {
    match edit
    case AddPlain(f, at, _) => if f == home then Shift(x, Clip(s.fragments[f], at), 1) else x
    case AddLabel(f, at, userLabel) =>
      if f == home && MakeLabel(s.tables, userLabel).0.Ok? then Shift(x, Clip(s.fragments[f], at), 1) else x
    case AddJump(f, _) => if f == home && MakeJump(s.tables).0.Ok? then Shift(x, |s.fragments[f]|, 1) else x
    case Remove(f, i) => if f == home then ShiftDown(x, i) else x
    case Splice(f, at, g) =>
      var spot := Clip(s.fragments[f], at);
      if home == g then spot + x else if home == f then Shift(x, spot, |s.fragments[g]|) else x
    case _ => x
  }

  predicate Removes(edit: Edit, home: nat, x: nat) {
    edit.Remove? && edit.f == home && edit.i == x
  }

  lemma InsertCarries(stmts: seq<Instruction>, at: int, xs: seq<Instruction>, x: nat)
    requires x <= |stmts|
    ensures var after := Fragments.InsertAt(stmts, at, xs);
            && Shift(|stmts|, Clip(stmts, at), |xs|) == |after|
            && (x < |stmts| ==>
                  && Shift(x, Clip(stmts, at), |xs|) < |after|
                  && after[Shift(x, Clip(stmts, at), |xs|)] == stmts[x])
  {
    var spot := Clip(stmts, at);
    assert Fragments.InsertAt(stmts, at, xs) == stmts[..spot] + xs + stmts[spot..];
  }

  lemma PartCarries(stmts: seq<Instruction>, at: int, xs: seq<Instruction>, x: nat)
    requires x < |xs|
    ensures var after := Fragments.InsertAt(stmts, at, xs);
            Clip(stmts, at) + x < |after| && after[Clip(stmts, at) + x] == xs[x]
  {
    var spot := Clip(stmts, at);
    assert Fragments.InsertAt(stmts, at, xs) == stmts[..spot] + xs + stmts[spot..];
  }

  lemma RemoveCarries(stmts: seq<Instruction>, at: nat, x: nat)
    requires at < |stmts| && x <= |stmts| && x != at
    ensures var after := Fragments.RemoveAt(stmts, at);
            && ShiftDown(|stmts|, at) == |after|
            && (x < |stmts| ==> ShiftDown(x, at) < |after| && after[ShiftDown(x, at)] == stmts[x])
  {
  }

  /** An edit carries every statement but a removed one with it, and the end of a fragment to its end. */
  lemma EditCarries(s: Session, edit: Edit, home: nat, x: nat)
    requires Fragments.Legal(s, edit) && home < |s.fragments| && x <= |s.fragments[home]| && !Removes(edit, home, x)
    ensures var after := Fragments.Apply(s, edit).fragments;
            var now := CarryHome(edit, home);
            && |s.fragments| <= |after| && now < |s.fragments|
            && (x < |s.fragments[home]| ==>
                  Carry(s, edit, home, x) < |after[now]| && after[now][Carry(s, edit, home, x)] == s.fragments[home][x])
            && (now == home ==> Carry(s, edit, home, |s.fragments[home]|) == |after[home]|)
  {
    hide Fragments.InsertAt, Fragments.RemoveAt, Shift, ShiftDown, Clip, MakeLabel, MakeJump, PatchTarget;
    var stmts := s.fragments[home];
    match edit
    case AddPlain(f, at, ins) => InsertCarries(s.fragments[f], at, [ins], if f == home then x else 0);
    case AddLabel(f, at, userLabel) =>
      var name := MakeLabel(s.tables, userLabel).0;
      if name.Ok? {
        InsertCarries(s.fragments[f], at, [Label(name.value)], if f == home then x else 0);
      }
    case AddJump(f, op) =>
      var target := MakeJump(s.tables).0;
      if target.Ok? && f == home {
        JumpCarries(stmts, Fragments.JumpOf(op, target.value), x);
      }
    case Remove(f, i) =>
      if f == home {
        RemoveCarries(stmts, i, x);
      }
    case Patch(_, _) =>
    case AddFragment =>
    case Splice(f, at, g) =>
      if home == f {
        InsertCarries(stmts, at, s.fragments[g], x);
      } else if home == g && x < |stmts| {
        PartCarries(s.fragments[f], at, stmts, x);
      }
  }

  lemma JumpCarries(stmts: seq<Instruction>, ins: Instruction, x: nat)
    requires x <= |stmts|
    ensures Shift(|stmts|, |stmts|, 1) == |stmts + [ins]|
    ensures x < |stmts| ==> Shift(x, |stmts|, 1) == x && (stmts + [ins])[x] == stmts[x]
  {
  }

  /** Statements keep their order. */
  lemma CarryOrder(s: Session, edit: Edit, home: nat, x: nat, y: nat)
    requires Fragments.Legal(s, edit) && x < y && !Removes(edit, home, x)
    ensures Carry(s, edit, home, x) < Carry(s, edit, home, y)
  {
    hide Clip, MakeLabel, MakeJump;
  }

  // ---------- the labels of the checks ----------

  ghost predicate Bounded(p: Placing) {
    && InBounds(p.growing.forest)
    && Ordered(p.growing.parents)
    && |p.spots| == |p.growing.parents| == |p.growing.forest.checks|
    && (forall i :: 0 <= i < |p.spots| ==> p.spots[i].home < |p.session.fragments|)
  }

  /** Where a check ends, or the end of its fragment while it is open. */
  function Hi(p: Placing, i: nat): nat
    requires i < |p.spots| && p.spots[i].home < |p.session.fragments|
  {
    if p.spots[i].end.Some? then p.spots[i].end.value else |p.session.fragments[p.spots[i].home]|
  }

  ghost predicate SpotRight(p: Placing, i: nat)
    requires i < |p.spots| == |p.growing.forest.checks|
  {
    var spot := p.spots[i];
    var check := p.growing.forest.checks[i];
    && spot.home < |p.session.fragments| && spot.home !in p.session.spliced
    && var stmts := p.session.fragments[spot.home];
       && spot.start < |stmts| && stmts[spot.start] == Label(check.start)
       && (spot.end.Some? <==> i !in p.growing.forest.stack)
       && (spot.end.Some? ==>
             && spot.start < spot.end.value < |stmts|
             && check.end != "" && stmts[spot.end.value] == Label(check.end))
       && (spot.end.None? ==> check.end == "")
  }

  /** The labels of every check stand where its spot says, and a check is open while it has no end label. */
  ghost predicate Labelled(p: Placing) {
    && Fragments.Tidy(p.session)
    && Nested(p.growing.forest, p.growing.parents)
    && |p.spots| == |p.growing.parents|
    && (forall i :: 0 <= i < |p.spots| ==> SpotRight(p, i))
  }

  lemma LabelledFacts(p: Placing)
    requires Labelled(p)
    ensures Bounded(p) && Fragments.Tidy(p.session) && Nested(p.growing.forest, p.growing.parents)
    ensures forall i :: 0 <= i < |p.spots| ==>
              && SpotRight(p, i)
              && p.spots[i].start < Hi(p, i) <= |p.session.fragments[p.spots[i].home]|
              && (Hi(p, i) == |p.session.fragments[p.spots[i].home]| <==> p.spots[i].end.None?)
    ensures forall j :: 0 <= j < |p.growing.forest.stack| ==> p.growing.forest.stack[j] < |p.spots|
  {
    hide Nested, Fragments.Tidy;
    NestedFacts(p.growing.forest, p.growing.parents);
    forall i | 0 <= i < |p.spots|
      ensures p.spots[i].home < |p.session.fragments|
      ensures SpotRight(p, i)
      ensures p.spots[i].start < Hi(p, i) <= |p.session.fragments[p.spots[i].home]|
      ensures Hi(p, i) == |p.session.fragments[p.spots[i].home]| <==> p.spots[i].end.None?
    {
      assert SpotRight(p, i);
    }
  }

  // ---------- the steps ----------

  datatype PlaceOp =
    | Edit(edit: Fragments.Edit)
    | Open(f: nat, userLabel: string, caughtLocal: U32)
    | Close(userLabel: string)
    | OnCatch(op: CheckOp)

  /** An edit leaves the labels of the checks alone, and a fragment is not spliced while a check in it is open. */
  ghost predicate LegalEdit(p: Placing, edit: Edit) {
    && Fragments.Legal(p.session, edit)
    && match edit
       case Remove(f, i) => forall k :: 0 <= k < |p.spots| && p.spots[k].home == f ==>
           p.spots[k].start != i && p.spots[k].end != Some(i)
       case Splice(f, _, g) => f !in p.session.spliced && forall k :: 0 <= k < |p.spots| && p.spots[k].home == g ==>
           p.spots[k].end.Some?
       case _ => true
  }

  /** A check is opened at the end of any fragment that has not been spliced, and closed at the end of
      the same fragment while it is the innermost open one. */
  ghost predicate LegalOp(p: Placing, op: PlaceOp) {
    match op
    case Edit(edit) => LegalEdit(p, edit)
    case Open(f, _, _) => f < |p.session.fragments| && f !in p.session.spliced
    case Close(_) => p.growing.forest.stack != []
    case OnCatch(op) => (op.AddCatch? || op.EndCatch? || op.TypeCatch?) && CheckForest.Legal(p.growing, op)
  }

  function CarrySpot(s: Session, edit: Edit, spot: Spot): Spot
    requires Fragments.Legal(s, edit)
  {
    Spot(CarryHome(edit, spot.home), Carry(s, edit, spot.home, spot.start),
         if spot.end.Some? then Some(Carry(s, edit, spot.home, spot.end.value)) else None)
  }

  function Edited(p: Placing, edit: Edit): (r: Placing)
    requires Fragments.Legal(p.session, edit)
    ensures |r.spots| == |p.spots| && forall i :: 0 <= i < |r.spots| ==>
              r.spots[i] == CarrySpot(p.session, edit, p.spots[i])
  {
    Placing(Fragments.Apply(p.session, edit), p.growing,
            seq(|p.spots|, i requires 0 <= i < |p.spots| => CarrySpot(p.session, edit, p.spots[i])))
  }

  /** Appending a label. */
  function AtEnd(p: Placing, f: nat, userLabel: string): Edit
    requires f < |p.session.fragments|
  {
    Fragments.AddLabel(f, |p.session.fragments[f]|, userLabel)
  }

  /** Declares a check whose start label has just been appended. */
  ghost function Declared(p: Placing, f: nat, name: string, local: U32): Placing
    requires InBounds(p.growing.forest) && f < |p.session.fragments| && p.session.fragments[f] != []
  {
    Placing(p.session, Apply(p.growing, Declare(name, local)), p.spots + [Spot(f, |p.session.fragments[f]| - 1, None)])
  }

  /** Finalizes a check whose end label has just been appended. */
  ghost function Finalized(p: Placing, k: nat, name: string): Placing
    requires Bounded(p) && k < |p.spots| && p.session.fragments[p.spots[k].home] != [] && name != ""
  {
    var last := |p.session.fragments[p.spots[k].home]| - 1;
    Placing(p.session, Apply(p.growing, Finalize(k, name)), p.spots[k := p.spots[k].(end := Some(last))])
  }

  function Top(f: Forest): nat
    requires f.stack != []
  {
    f.stack[|f.stack| - 1]
  }

  // ---------- which checks are nested in their fragments ----------

  ghost predicate Contains(p: Placing, a: nat, c: nat)
    requires Bounded(p) && a < |p.spots| && c < |p.spots|
  {
    p.spots[a].start <= p.spots[c].start && Hi(p, c) <= Hi(p, a)
  }

  ghost predicate Apart(p: Placing, a: nat, c: nat)
    requires Bounded(p) && a < |p.spots| && c < |p.spots|
  {
    Hi(p, a) <= p.spots[c].start || Hi(p, c) <= p.spots[a].start
  }

  /** In one fragment, a check contains those declared in it, and is disjoint from the others. */
  ghost predicate PairNested(p: Placing, a: nat, c: nat)
    requires Bounded(p) && a < c < |p.spots|
  {
    p.spots[a].home == p.spots[c].home ==>
      if Encloses(p.growing.parents, a, c) then Contains(p, a, c) else Apart(p, a, c)
  }

  ghost predicate NestedInHomes(p: Placing)
    requires Bounded(p)
  {
    forall a, c :: 0 <= a < c < |p.spots| ==> PairNested(p, a, c)
  }

  /** A position lies behind the start label of a check and not behind its end label. */
  predicate Around(p: Placing, x: nat, spot: nat)
    requires x < |p.spots| && p.spots[x].home < |p.session.fragments|
  {
    p.spots[x].start < spot <= Hi(p, x)
  }

  /** A splice lands right if, for every check of the spliced fragment, it lands inside exactly those
      checks of the receiving fragment that the check was declared in, and none was declared the other way round. */
  ghost predicate LandsRight(p: Placing, edit: Edit)
    requires Bounded(p) && edit.Splice? && Fragments.Legal(p.session, edit)
  {
    forall x, y :: 0 <= x < |p.spots| && 0 <= y < |p.spots|
                   && p.spots[x].home == edit.f && p.spots[y].home == edit.g ==>
      LandsFor(p, x, y, Clip(p.session.fragments[edit.f], edit.at))
  }

  ghost predicate LandsFor(p: Placing, x: nat, y: nat, spot: nat)
    requires Bounded(p) && x < |p.spots| && y < |p.spots|
  {
    && (Around(p, x, spot) <==> Encloses(p.growing.parents, x, y))
    && !Encloses(p.growing.parents, y, x)
  }

  // ---------- edits ----------

  lemma EditedSpotRight(p: Placing, edit: Edit, i: nat)
    requires Labelled(p) && LegalEdit(p, edit) && i < |p.spots|
    ensures SpotRight(Edited(p, edit), i)
  {
    hide Nested, Fragments.Tidy, Carry, Fragments.Legal, Fragments.Apply;
    LabelledFacts(p);
    var spot := p.spots[i];
    assert SpotRight(p, i);
    EditCarries(p.session, edit, spot.home, spot.start);
    EditSpliced(p.session, edit);
    if spot.end.Some? {
      EditCarries(p.session, edit, spot.home, spot.end.value);
      CarryOrder(p.session, edit, spot.home, spot.start, spot.end.value);
    }
  }

  lemma EditSpliced(s: Session, edit: Edit)
    requires Fragments.Legal(s, edit)
    ensures Fragments.Apply(s, edit).spliced == s.spliced + if edit.Splice? then {edit.g} else {}
    ensures edit.Splice? ==> edit.f != edit.g
  {
  }

  lemma EditLabelled(p: Placing, edit: Edit)
    requires Labelled(p) && LegalEdit(p, edit)
    ensures Labelled(Edited(p, edit))
  {
    hide Nested, Fragments.Tidy, SpotRight, Fragments.Apply, CarrySpot;
    NestedFacts(p.growing.forest, p.growing.parents);
    Fragments.EditTidy(p.session, edit);
    forall i | 0 <= i < |p.spots|
      ensures SpotRight(Edited(p, edit), i)
    {
      EditedSpotRight(p, edit, i);
    }
  }

  /** An edit carries the ends of intervals with it. */
  lemma HiCarried(p: Placing, edit: Edit, i: nat)
    requires Labelled(p) && LegalEdit(p, edit) && i < |p.spots|
    ensures Bounded(p) && Bounded(Edited(p, edit))
    ensures Hi(Edited(p, edit), i) == Carry(p.session, edit, p.spots[i].home, Hi(p, i))
    ensures !Removes(edit, p.spots[i].home, p.spots[i].start) && !Removes(edit, p.spots[i].home, Hi(p, i))
  {
    hide Nested, Fragments.Tidy, Carry, Fragments.Apply;
    LabelledFacts(p);
    EditLabelled(p, edit);
    LabelledFacts(Edited(p, edit));
    EditCarries(p.session, edit, p.spots[i].home, p.spots[i].start);
  }

  /** Two checks in one fragment stay nested or not, whatever the edit. */
  lemma EditPair(p: Placing, edit: Edit, a: nat, c: nat)
    requires Labelled(p) && LegalEdit(p, edit) && a < c < |p.spots| && p.spots[a].home == p.spots[c].home
    ensures Bounded(p) && Bounded(Edited(p, edit))
    ensures PairNested(Edited(p, edit), a, c) <==> PairNested(p, a, c)
  {
    hide Labelled, LegalEdit, Carry, Fragments.Apply, Fragments.Legal, Hi, InBounds, Encloses;
    var home := p.spots[a].home;
    HiCarried(p, edit, a);
    HiCarried(p, edit, c);
    LegalHere(p, edit);
    SameOrder(p.session, edit, home, p.spots[a].start, p.spots[c].start);
    SameOrder(p.session, edit, home, Hi(p, c), Hi(p, a));
    SameOrder(p.session, edit, home, Hi(p, a), p.spots[c].start);
    SameOrder(p.session, edit, home, Hi(p, c), p.spots[a].start);
  }

  lemma LegalHere(p: Placing, edit: Edit)
    requires LegalEdit(p, edit)
    ensures Fragments.Legal(p.session, edit)
  {
  }

  lemma SameOrder(s: Session, edit: Edit, home: nat, x: nat, y: nat)
    requires Fragments.Legal(s, edit) && !Removes(edit, home, x) && !Removes(edit, home, y)
    ensures Carry(s, edit, home, x) <= Carry(s, edit, home, y) <==> x <= y
  {
    hide Carry, Fragments.Legal;
    if x < y {
      CarryOrder(s, edit, home, x, y);
    } else if y < x {
      CarryOrder(s, edit, home, y, x);
    }
  }

  /** A check of a spliced fragment and one of the fragment it is spliced into. */
  lemma SplicePair(p: Placing, edit: Edit, x: nat, y: nat)
    requires Labelled(p) && LegalEdit(p, edit) && edit.Splice?
    requires x < |p.spots| && y < |p.spots| && p.spots[x].home == edit.f && p.spots[y].home == edit.g
    ensures x != y && Bounded(p) && Bounded(Edited(p, edit))
    ensures PairNested(Edited(p, edit), if x < y then x else y, if x < y then y else x)
       <==> LandsFor(p, x, y, Clip(p.session.fragments[edit.f], edit.at))
  {
    hide Labelled, Fragments.Apply, InBounds, Encloses, Clip;
    LabelledFacts(p);
    HiCarried(p, edit, x);
    HiCarried(p, edit, y);
    var parents := p.growing.parents;
    if Encloses(parents, y, x) {
      EnclosesBelow(parents, y, x);
    }
    if Encloses(parents, x, y) {
      EnclosesBelow(parents, x, y);
    }
    var spot := Clip(p.session.fragments[edit.f], edit.at);
    SplicedSpans(p, edit, x, y);
  }

  /** The two intervals after the splice. */
  lemma SplicedSpans(p: Placing, edit: Edit, x: nat, y: nat)
    requires Labelled(p) && LegalEdit(p, edit) && edit.Splice?
    requires x < |p.spots| && y < |p.spots| && p.spots[x].home == edit.f && p.spots[y].home == edit.g
    ensures Bounded(p) && Bounded(Edited(p, edit))
    ensures Edited(p, edit).spots[x].home == Edited(p, edit).spots[y].home
    ensures var spot := Clip(p.session.fragments[edit.f], edit.at);
            var after := Edited(p, edit);
            && (Contains(after, x, y) <==> Around(p, x, spot))
            && (Apart(after, x, y) <==> !Around(p, x, spot))
            && !Contains(after, y, x)
  {
    hide Nested, Fragments.Tidy, Fragments.Apply, InBounds, Clip;
    LabelledFacts(p);
    HiCarried(p, edit, x);
    HiCarried(p, edit, y);
  }

  ghost predicate CrossLands(p: Placing, edit: Edit, a: nat, c: nat)
    requires Bounded(p) && Fragments.Legal(p.session, edit) && a < |p.spots| && c < |p.spots|
  {
    edit.Splice? ==>
      var spot := Clip(p.session.fragments[edit.f], edit.at);
      && (p.spots[a].home == edit.f && p.spots[c].home == edit.g ==> LandsFor(p, a, c, spot))
      && (p.spots[c].home == edit.f && p.spots[a].home == edit.g ==> LandsFor(p, c, a, spot))
  }

  lemma EditPairExactly(p: Placing, edit: Edit, a: nat, c: nat)
    requires Labelled(p) && LegalEdit(p, edit) && a < c < |p.spots|
    ensures Bounded(p) && Bounded(Edited(p, edit))
    ensures PairNested(Edited(p, edit), a, c) <==> PairNested(p, a, c) && CrossLands(p, edit, a, c)
  {
    hide Labelled, Fragments.Apply, InBounds, Encloses, Clip, Hi, LandsFor, Carry, Contains, Apart;
    HiCarried(p, edit, a);
    EditSpliced(p.session, edit);
    if p.spots[a].home == p.spots[c].home {
      EditPair(p, edit, a, c);
    } else if edit.Splice? && p.spots[a].home == edit.f && p.spots[c].home == edit.g {
      SplicePair(p, edit, a, c);
    } else if edit.Splice? && p.spots[c].home == edit.f && p.spots[a].home == edit.g {
      SplicePair(p, edit, c, a);
    }
  }

  lemma LandsInPairs(p: Placing, edit: Edit)
    requires Bounded(p) && Fragments.Legal(p.session, edit)
    ensures (forall a, c :: 0 <= a < c < |p.spots| ==> CrossLands(p, edit, a, c))
              <==> (edit.Splice? ==> LandsRight(p, edit))
  {
    hide InBounds, LandsFor, Clip;
    if edit.Splice? {
      var spot := Clip(p.session.fragments[edit.f], edit.at);
      if forall a, c :: 0 <= a < c < |p.spots| ==> CrossLands(p, edit, a, c) {
        forall x: nat, y: nat | x < |p.spots| && y < |p.spots| && p.spots[x].home == edit.f && p.spots[y].home == edit.g
          ensures LandsFor(p, x, y, spot)
        {
          assert CrossLands(p, edit, if x < y then x else y, if x < y then y else x);
        }
      }
    }
  }

  /** Of all edits only a splice can change which checks are nested, and it keeps them nested exactly
      when it lands right. */
  lemma EditNests(p: Placing, edit: Edit)
    requires Labelled(p) && LegalEdit(p, edit)
    ensures Bounded(p) && Bounded(Edited(p, edit))
    ensures NestedInHomes(Edited(p, edit)) <==> NestedInHomes(p) && (edit.Splice? ==> LandsRight(p, edit))
  {
    hide Labelled, Fragments.Apply, InBounds, PairNested, CrossLands, LandsRight;
    LabelledFacts(p);
    EditLabelled(p, edit);
    LabelledFacts(Edited(p, edit));
    LandsInPairs(p, edit);
    forall a, c | 0 <= a < c < |p.spots|
      ensures PairNested(Edited(p, edit), a, c) <==> PairNested(p, a, c) && CrossLands(p, edit, a, c)
    {
      EditPairExactly(p, edit, a, c);
    }
  }

  // ---------- opening and closing ----------

  /** The last statement of fragment `f` is a new label: the labels of the checks come before it. */
  ghost predicate FreshEnd(p: Placing, f: nat, name: string) {
    && f < |p.session.fragments| && f !in p.session.spliced && name != ""
    && var stmts := p.session.fragments[f];
       && stmts != [] && stmts[|stmts| - 1] == Label(name)
       && forall i :: 0 <= i < |p.spots| && p.spots[i].home == f ==>
            && p.spots[i].start < |stmts| - 1
            && (p.spots[i].end.Some? ==> p.spots[i].end.value < |stmts| - 1)
  }

  lemma NamesNotEmpty(t: Tables, userLabel: string)
    requires MakeLabel(t, userLabel).0.Ok?
    ensures MakeLabel(t, userLabel).0.value != ""
  {
  }

  lemma AppendFresh(p: Placing, f: nat, userLabel: string)
    requires Labelled(p) && f < |p.session.fragments| && f !in p.session.spliced
    ensures LegalEdit(p, AtEnd(p, f, userLabel)) && Edited(p, AtEnd(p, f, userLabel)).spots == p.spots
    ensures MakeLabel(p.session.tables, userLabel).0.Ok? ==>
              FreshEnd(Edited(p, AtEnd(p, f, userLabel)), f, MakeLabel(p.session.tables, userLabel).0.value)
    ensures MakeLabel(p.session.tables, userLabel).0.Err? ==> Edited(p, AtEnd(p, f, userLabel)) == p
  {
    hide Nested, Fragments.Tidy, MakeLabel;
    LabelledFacts(p);
    var edit := AtEnd(p, f, userLabel);
    var after := Edited(p, edit);
    forall i | 0 <= i < |p.spots|
      ensures after.spots[i] == p.spots[i]
    {
      assert SpotRight(p, i);
    }
    assert after.spots == p.spots;
    if MakeLabel(p.session.tables, userLabel).0.Ok? {
      NamesNotEmpty(p.session.tables, userLabel);
      forall i | 0 <= i < |p.spots| && p.spots[i].home == f
        ensures p.spots[i].start < |p.session.fragments[f]|
        ensures p.spots[i].end.Some? ==> p.spots[i].end.value < |p.session.fragments[f]|
      {
        assert SpotRight(p, i);
      }
    }
  }

  lemma FreshFacts(p: Placing, f: nat, name: string)
    requires FreshEnd(p, f, name)
    ensures f < |p.session.fragments| && p.session.fragments[f] != [] && name != "" && f !in p.session.spliced
  {
  }

  lemma DeclareFacts(g: Growing, name: string, local: U32)
    requires InBounds(g.forest)
    ensures var after := Apply(g, Declare(name, local));
            && after.parents == g.parents + [InnermostOpen(g.forest)]
            && after.forest == DeclareCheck(g.forest, name, local)
            && |after.forest.checks| == |g.forest.checks| + 1
            && (forall i :: 0 <= i < |g.forest.checks| ==>
                  after.forest.checks[i].start == g.forest.checks[i].start
                      && after.forest.checks[i].end == g.forest.checks[i].end)
            && after.forest.checks[|g.forest.checks|].start == name && after.forest.checks[|g.forest.checks|].end == ""
            && (forall i: nat :: i in after.forest.stack <==> i in g.forest.stack || i == |g.forest.checks|)
  {
  }

  lemma DeclaredLabelled(p: Placing, f: nat, name: string, local: U32)
    requires Labelled(p) && FreshEnd(p, f, name)
    ensures Bounded(p) && Labelled(Declared(p, f, name, local))
  {
    hide Nested, Fragments.Tidy, DeclareCheck, InBounds, Encloses, Apply;
    LabelledFacts(p);
    var forest, parents := p.growing.forest, p.growing.parents;
    var after := Declared(p, f, name, local);
    DeclareFacts(p.growing, name, local);
    DeclareNested(forest, parents, name, local);
    forall i | 0 <= i < |after.spots|
      ensures SpotRight(after, i)
    {
      if i < |parents| {
        assert SpotRight(p, i);
      }
    }
  }

  /** Declaring a check changes nothing for the others. */
  lemma DeclaredPair(p: Placing, f: nat, name: string, local: U32, a: nat, c: nat)
    requires Labelled(p) && FreshEnd(p, f, name) && a < c < |p.spots|
    ensures Bounded(p) && Bounded(Declared(p, f, name, local))
    ensures PairNested(Declared(p, f, name, local), a, c) <==> PairNested(p, a, c)
  {
    hide Labelled, Encloses, InBounds, DeclareCheck, Apply, SpotRight, FreshEnd;
    FreshFacts(p, f, name);
    LabelledFacts(p);
    DeclareFacts(p.growing, name, local);
    DeclaredLabelled(p, f, name, local);
    LabelledFacts(Declared(p, f, name, local));
    EnclosesPrefix(p.growing.parents, [InnermostOpen(p.growing.forest)], a, c);
  }

  /** The new check lies within the open ones and behind the closed ones. */
  lemma NewPair(p: Placing, f: nat, name: string, local: U32, a: nat)
    requires Labelled(p) && FreshEnd(p, f, name) && a < |p.spots|
    ensures Bounded(Declared(p, f, name, local)) && PairNested(Declared(p, f, name, local), a, |p.spots|)
  {
    hide Nested, Fragments.Tidy, Encloses, InBounds, DeclareCheck, Apply;
    LabelledFacts(p);
    DeclareFacts(p.growing, name, local);
    DeclaredLabelled(p, f, name, local);
    LabelledFacts(Declared(p, f, name, local));
    NewIsEnclosedByOpen(p.growing.forest, p.growing.parents, a);
    assert SpotRight(p, a);
  }

  lemma DeclaredNests(p: Placing, f: nat, name: string, local: U32)
    requires Labelled(p) && FreshEnd(p, f, name)
    ensures Bounded(p) && Bounded(Declared(p, f, name, local))
    ensures NestedInHomes(Declared(p, f, name, local)) <==> NestedInHomes(p)
  {
    hide Labelled, InBounds, PairNested, DeclareCheck, FreshEnd, Apply;
    FreshFacts(p, f, name);
    LabelledFacts(p);
    DeclaredLabelled(p, f, name, local);
    var after := Declared(p, f, name, local);
    LabelledFacts(after);
    forall a, c | 0 <= a < c < |p.spots|
      ensures PairNested(after, a, c) <==> PairNested(p, a, c)
    {
      DeclaredPair(p, f, name, local, a, c);
    }
    forall a | 0 <= a < |p.spots|
      ensures PairNested(after, a, |p.spots|)
    {
      NewPair(p, f, name, local, a);
    }
  }

  lemma StackPop(f: Forest, parents: Parents)
    requires Nested(f, parents) && f.stack != []
    ensures forall i: nat :: i in f.stack[..|f.stack| - 1] <==> i in f.stack && i != Top(f)
    ensures forall i: nat :: i in f.stack ==> i <= Top(f)
  {
    var n := |f.stack| - 1;
    assert f.stack == f.stack[..n] + [f.stack[n]];
    forall j | 0 <= j < n
      ensures f.stack[j] != f.stack[n]
    {
      assert Depth(parents, f.stack[j]) == j && Depth(parents, f.stack[n]) == n;
    }
    forall i: nat | i in f.stack
      ensures i <= Top(f)
    {
      StackInside(f, parents);
      StackEncloses(f, parents, n, i);
      assert f.stack[..n + 1] == f.stack;
      if i != Top(f) {
        EnclosesBelow(parents, i, Top(f));
      }
    }
  }

  lemma FinalizedLabelled(p: Placing, k: nat, name: string)
    requires Labelled(p) && p.growing.forest.stack != [] && k == Top(p.growing.forest) && k < |p.spots|
    requires FreshEnd(p, p.spots[k].home, name)
    ensures Bounded(p) && Labelled(Finalized(p, k, name))
  {
    hide Nested, Fragments.Tidy;
    LabelledFacts(p);
    var forest, parents := p.growing.forest, p.growing.parents;
    StackPop(forest, parents);
    FinalizeNested(forest, parents, k, name);
    assert SpotRight(p, k) && k in forest.stack;
    var after := Finalized(p, k, name);
    assert after.growing.forest.stack == forest.stack[..|forest.stack| - 1];
    forall i | 0 <= i < |after.spots|
      ensures SpotRight(after, i)
    {
      assert SpotRight(p, i);
    }
  }

  lemma FinalizedSpans(p: Placing, k: nat, name: string, i: nat)
    requires Bounded(p) && k < |p.spots| && i < |p.spots| && FreshEnd(p, p.spots[k].home, name)
    ensures var after := Finalized(p, k, name);
            && |after.spots| == |p.spots| && after.spots[i].home == p.spots[i].home
            && after.spots[i].start == p.spots[i].start
            && Hi(after, i) == if i == k then |p.session.fragments[p.spots[k].home]| - 1 else Hi(p, i)
  {
    hide InBounds, FinalizeCheck, Apply;
  }

  /** The innermost open check was declared after the others that are open. */
  lemma LaterIsClosed(p: Placing, i: nat)
    requires Labelled(p) && p.growing.forest.stack != [] && i < |p.spots|
    ensures Top(p.growing.forest) < |p.spots| && p.spots[Top(p.growing.forest)].end.None?
    ensures Top(p.growing.forest) < i ==> p.spots[i].end.Some?
  {
    hide Nested, Fragments.Tidy;
    LabelledFacts(p);
    StackPop(p.growing.forest, p.growing.parents);
    assert Top(p.growing.forest) in p.growing.forest.stack;
    assert SpotRight(p, i) && SpotRight(p, Top(p.growing.forest));
  }

  /** The intervals of two checks are to each other as they were. */
  ghost predicate SameSpans(p: Placing, after: Placing, a: nat, c: nat)
    requires Bounded(p) && Bounded(after) && a < |p.spots| && c < |p.spots| && |after.spots| == |p.spots|
  {
    && after.spots[a].home == p.spots[a].home && after.spots[c].home == p.spots[c].home
    && after.spots[a].start == p.spots[a].start && after.spots[c].start == p.spots[c].start
    && (p.spots[a].home == p.spots[c].home ==>
          && (Hi(after, c) <= Hi(after, a) <==> Hi(p, c) <= Hi(p, a))
          && (Hi(after, a) <= p.spots[c].start <==> Hi(p, a) <= p.spots[c].start)
          && (Hi(after, c) <= p.spots[a].start <==> Hi(p, c) <= p.spots[a].start))
  }

  lemma SamePair(p: Placing, after: Placing, a: nat, c: nat)
    requires Bounded(p) && Bounded(after) && a < c < |p.spots| && |after.spots| == |p.spots|
    requires after.growing.parents == p.growing.parents && SameSpans(p, after, a, c)
    ensures PairNested(after, a, c) <==> PairNested(p, a, c)
  {
    hide InBounds, Encloses, Hi;
  }

  lemma FinalizedSameSpans(p: Placing, k: nat, name: string, a: nat, c: nat)
    requires Bounded(p) && k < |p.spots| && a < c < |p.spots| && FreshEnd(p, p.spots[k].home, name)
    requires Bounded(Finalized(p, k, name))
    requires p.spots[k].end.None? && (k < c ==> p.spots[c].end.Some?)
    ensures SameSpans(p, Finalized(p, k, name), a, c)
  {
    hide InBounds, FinalizeCheck, Apply, Hi, FreshEnd, Finalized;
    FinalizedSpans(p, k, name, a);
    FinalizedSpans(p, k, name, c);
    FreshSpans(p, p.spots[k].home, name, a);
    FreshSpans(p, p.spots[k].home, name, c);
    FreshSpans(p, p.spots[k].home, name, k);
  }

  lemma FinalizedPair(p: Placing, k: nat, name: string, a: nat, c: nat)
    requires Labelled(p) && p.growing.forest.stack != [] && k == Top(p.growing.forest) && k < |p.spots|
    requires FreshEnd(p, p.spots[k].home, name) && a < c < |p.spots|
    ensures Bounded(p) && Bounded(Finalized(p, k, name))
    ensures PairNested(Finalized(p, k, name), a, c) <==> PairNested(p, a, c)
  {
    hide Labelled, InBounds, FinalizeCheck, Apply, Hi, FreshEnd, PairNested, SameSpans, SpotRight;
    FreshFacts(p, p.spots[k].home, name);
    LabelledFacts(p);
    FinalizedLabelled(p, k, name);
    LabelledFacts(Finalized(p, k, name));
    FinalizeKeepsParents(p.growing, k, name);
    LaterIsClosed(p, c);
    FinalizedSameSpans(p, k, name, a, c);
    SamePair(p, Finalized(p, k, name), a, c);
  }

  /** A check of the fragment either is open or ends before the new label. */
  lemma FreshSpans(p: Placing, f: nat, name: string, i: nat)
    requires Bounded(p) && FreshEnd(p, f, name) && i < |p.spots|
    ensures p.spots[i].home == f ==>
              && p.spots[i].start < |p.session.fragments[f]| - 1
              && if p.spots[i].end.Some? then Hi(p, i) < |p.session.fragments[f]| - 1
                 else Hi(p, i) == |p.session.fragments[f]|
  {
    hide InBounds;
  }

  lemma FinalizeKeepsParents(g: Growing, k: nat, name: string)
    requires InBounds(g.forest) && k < |g.forest.checks| && name != ""
    ensures Apply(g, Finalize(k, name)).parents == g.parents
  {
  }

  lemma FinalizedNests(p: Placing, k: nat, name: string)
    requires Labelled(p) && p.growing.forest.stack != [] && k == Top(p.growing.forest) && k < |p.spots|
    requires FreshEnd(p, p.spots[k].home, name)
    ensures Bounded(p) && Bounded(Finalized(p, k, name))
    ensures NestedInHomes(Finalized(p, k, name)) <==> NestedInHomes(p)
  {
    hide Labelled, InBounds, PairNested, FinalizeCheck, FreshEnd, Apply;
    FreshFacts(p, p.spots[k].home, name);
    LabelledFacts(p);
    FinalizedLabelled(p, k, name);
    var after := Finalized(p, k, name);
    LabelledFacts(after);
    forall a, c | 0 <= a < c < |p.spots|
      ensures PairNested(after, a, c) <==> PairNested(p, a, c)
    {
      FinalizedPair(p, k, name, a, c);
    }
  }

  // ---------- any step ----------

  lemma ReadyAtEnd(p: Placing, f: nat, userLabel: string)
    requires Labelled(p) && f < |p.session.fragments| && f !in p.session.spliced
    ensures LegalEdit(p, AtEnd(p, f, userLabel))
    ensures var after := Edited(p, AtEnd(p, f, userLabel));
            && Labelled(after) && Bounded(p) && Bounded(after)
            && (NestedInHomes(after) <==> NestedInHomes(p))
            && after.growing == p.growing && |after.spots| == |p.spots|
            && (forall i :: 0 <= i < |p.spots| ==> after.spots[i].home == p.spots[i].home)
            && var name := MakeLabel(p.session.tables, userLabel).0;
               if name.Ok? then FreshEnd(after, f, name.value) else after == p
  {
    hide Labelled, Fragments.Apply, FreshEnd, NestedInHomes, MakeLabel, LegalEdit, Carry;
    LabelledFacts(p);
    AppendFresh(p, f, userLabel);
    EditLabelled(p, AtEnd(p, f, userLabel));
    LabelledFacts(Edited(p, AtEnd(p, f, userLabel)));
    EditNests(p, AtEnd(p, f, userLabel));
  }

  lemma TopFacts(p: Placing)
    requires Labelled(p) && p.growing.forest.stack != []
    ensures var k := Top(p.growing.forest);
            k < |p.spots| && p.spots[k].home < |p.session.fragments| && p.spots[k].home !in p.session.spliced
  {
    hide Nested, Fragments.Tidy;
    LabelledFacts(p);
    assert SpotRight(p, Top(p.growing.forest));
  }

  ghost function ApplyOp(p: Placing, op: PlaceOp): Placing
    requires Labelled(p) && LegalOp(p, op)
  {
    match op
    case Edit(edit) => Edited(p, edit)
    case Open(f, userLabel, local) =>
      ReadyAtEnd(p, f, userLabel);
      var name := MakeLabel(p.session.tables, userLabel).0;
      var after := Edited(p, AtEnd(p, f, userLabel));
      if name.Err? then p else Declared(after, f, name.value, local)
    case Close(userLabel) =>
      TopFacts(p);
      var k := Top(p.growing.forest);
      ReadyAtEnd(p, p.spots[k].home, userLabel);
      var name := MakeLabel(p.session.tables, userLabel).0;
      var after := Edited(p, AtEnd(p, p.spots[k].home, userLabel));
      if name.Err? then p else Finalized(after, k, name.value)
    case OnCatch(op) =>
      LabelledFacts(p);
      p.(growing := Apply(p.growing, op))
  }

  ghost predicate LandsIfSplice(p: Placing, op: PlaceOp)
    requires Labelled(p) && LegalOp(p, op)
  {
    LabelledFacts(p);
    op.Edit? && op.edit.Splice? ==> LandsRight(p, op.edit)
  }

  lemma CatchLabelled(p: Placing, op: CheckOp)
    requires Labelled(p) && LegalOp(p, OnCatch(op))
    ensures Labelled(ApplyOp(p, OnCatch(op)))
  {
    hide Nested, Fragments.Tidy, Apply;
    LabelledFacts(p);
    OpNested(p.growing, op);
    CatchKeepsChecks(p.growing, op);
    forall i | 0 <= i < |p.spots|
      ensures SpotRight(ApplyOp(p, OnCatch(op)), i)
    {
      assert SpotRight(p, i);
    }
  }

  /** The labels of catches are no concern of the checks. */
  lemma CatchStep(p: Placing, op: CheckOp)
    requires Labelled(p) && LegalOp(p, OnCatch(op))
    ensures Bounded(p) && Bounded(ApplyOp(p, OnCatch(op))) && Labelled(ApplyOp(p, OnCatch(op)))
    ensures NestedInHomes(ApplyOp(p, OnCatch(op))) <==> NestedInHomes(p)
  {
    hide Nested, Fragments.Tidy, Apply, CheckForest.Legal, NestedInHomes;
    CatchLabelled(p, op);
    LabelledFacts(p);
    LabelledFacts(ApplyOp(p, OnCatch(op)));
    CatchKeepsChecks(p.growing, op);
    SamePairs(p, ApplyOp(p, OnCatch(op)));
  }

  lemma SamePairs(p: Placing, after: Placing)
    requires Bounded(p) && Bounded(after)
    requires after.session == p.session && after.spots == p.spots && after.growing.parents == p.growing.parents
    ensures NestedInHomes(after) <==> NestedInHomes(p)
  {
    hide InBounds, Encloses;
    forall a, c | 0 <= a < c < |p.spots|
      ensures PairNested(after, a, c) <==> PairNested(p, a, c)
    {
    }
  }

  lemma CatchKeepsChecks(g: Growing, op: CheckOp)
    requires InBounds(g.forest) && CheckForest.Legal(g, op) && (op.AddCatch? || op.EndCatch? || op.TypeCatch?)
    ensures var after := Apply(g, op);
            && after.parents == g.parents && after.forest.stack == g.forest.stack
            && |after.forest.checks| == |g.forest.checks|
            && (forall i :: 0 <= i < |g.forest.checks| ==>
                  after.forest.checks[i].start == g.forest.checks[i].start
                      && after.forest.checks[i].end == g.forest.checks[i].end)
  {
  }

  lemma OpenStep(p: Placing, f: nat, userLabel: string, local: U32)
    requires Labelled(p) && LegalOp(p, Open(f, userLabel, local))
    ensures var after := ApplyOp(p, Open(f, userLabel, local));
            Bounded(p) && Bounded(after) && Labelled(after) && (NestedInHomes(after) <==> NestedInHomes(p))
  {
    hide Labelled, FreshEnd, NestedInHomes, MakeLabel, Edited, Declared;
    ReadyAtEnd(p, f, userLabel);
    var name := MakeLabel(p.session.tables, userLabel).0;
    if name.Ok? {
      DeclaredLabelled(Edited(p, AtEnd(p, f, userLabel)), f, name.value, local);
      DeclaredNests(Edited(p, AtEnd(p, f, userLabel)), f, name.value, local);
    }
  }

  lemma CloseStep(p: Placing, userLabel: string)
    requires Labelled(p) && LegalOp(p, Close(userLabel))
    ensures var after := ApplyOp(p, Close(userLabel));
            Bounded(p) && Bounded(after) && Labelled(after) && (NestedInHomes(after) <==> NestedInHomes(p))
  {
    hide Labelled, FreshEnd, NestedInHomes, MakeLabel, Edited, Finalized;
    TopFacts(p);
    var k := Top(p.growing.forest);
    ReadyAtEnd(p, p.spots[k].home, userLabel);
    var name := MakeLabel(p.session.tables, userLabel).0;
    if name.Ok? {
      FinalizedLabelled(Edited(p, AtEnd(p, p.spots[k].home, userLabel)), k, name.value);
      FinalizedNests(Edited(p, AtEnd(p, p.spots[k].home, userLabel)), k, name.value);
    }
  }

  /** Every step keeps the labels of the checks where the spots say. It keeps the checks nested in
      their fragments exactly when it is no splice or lands right. */
  lemma OpPlaced(p: Placing, op: PlaceOp)
    requires Labelled(p) && LegalOp(p, op)
    ensures Bounded(p) && Bounded(ApplyOp(p, op)) && Labelled(ApplyOp(p, op))
    ensures NestedInHomes(ApplyOp(p, op)) <==> NestedInHomes(p) && LandsIfSplice(p, op)
  {
    hide Labelled, NestedInHomes, LandsRight, Edited, LegalEdit;
    match op
    case Edit(edit) =>
      EditLabelled(p, edit);
      EditNests(p, edit);
    case Open(f, userLabel, local) => OpenStep(p, f, userLabel, local);
    case Close(userLabel) => CloseStep(p, userLabel);
    case OnCatch(op) => CatchStep(p, op);
  }

  // ---------- any run ----------

  ghost predicate LegalRun(p: Placing, ops: seq<PlaceOp>)
    requires Labelled(p)
    decreases |ops|
  {
    ops == [] || (LegalOp(p, ops[0]) && (OpPlaced(p, ops[0]); LegalRun(ApplyOp(p, ops[0]), ops[1..])))
  }

  ghost function ApplyAll(p: Placing, ops: seq<PlaceOp>): (after: Placing)
    requires Labelled(p) && LegalRun(p, ops)
    ensures Labelled(after)
    decreases |ops|
  {
    if ops == [] then p else OpPlaced(p, ops[0]); ApplyAll(ApplyOp(p, ops[0]), ops[1..])
  }

  /** Every splice of the run lands right. */
  ghost predicate SplicesLand(p: Placing, ops: seq<PlaceOp>)
    requires Labelled(p) && LegalRun(p, ops)
    decreases |ops|
  {
    ops == [] || (LandsIfSplice(p, ops[0]) && (OpPlaced(p, ops[0]); SplicesLand(ApplyOp(p, ops[0]), ops[1..])))
  }

  lemma {:induction false} RunNests(p: Placing, ops: seq<PlaceOp>)
    requires Labelled(p) && LegalRun(p, ops)
    ensures Bounded(p) && Bounded(ApplyAll(p, ops))
    ensures NestedInHomes(ApplyAll(p, ops)) <==> NestedInHomes(p) && SplicesLand(p, ops)
    decreases |ops|
  {
    hide Labelled, NestedInHomes, LandsIfSplice, ApplyOp, LegalOp;
    LabelledFacts(p);
    if ops != [] {
      OpPlaced(p, ops[0]);
      RunNests(ApplyOp(p, ops[0]), ops[1..]);
    }
  }

  /** Every step keeps the catch lists of the checks right. */
  lemma OpKeepsOwners(p: Placing, op: PlaceOp)
    requires Labelled(p) && LegalOp(p, op) && CatchesAgree(p.growing.forest, p.growing.owners)
    ensures CatchesAgree(ApplyOp(p, op).growing.forest, ApplyOp(p, op).growing.owners)
  {
    hide Labelled, CatchesAgree, Apply, InBounds, MakeLabel;
    LabelledFacts(p);
    BoundedForest(p);
    match op
    case Edit(_) =>
    case OnCatch(catchOp) => OpOwned(p.growing, catchOp);
    case Open(f, userLabel, local) =>
      var name := MakeLabel(p.session.tables, userLabel).0;
      if name.Ok? {
        OpOwned(p.growing, Declare(name.value, local));
      }
    case Close(userLabel) =>
      TopFacts(p);
      ReadyAtEnd(p, p.spots[Top(p.growing.forest)].home, userLabel);
      var name := MakeLabel(p.session.tables, userLabel).0;
      if name.Ok? {
        OpOwned(p.growing, Finalize(Top(p.growing.forest), name.value));
      }
  }

  lemma BoundedForest(p: Placing)
    requires Bounded(p)
    ensures InBounds(p.growing.forest) && |p.spots| == |p.growing.forest.checks|
  {
  }

  lemma {:induction false} RunKeepsOwners(p: Placing, ops: seq<PlaceOp>)
    requires Labelled(p) && LegalRun(p, ops) && CatchesAgree(p.growing.forest, p.growing.owners)
    ensures CatchesAgree(ApplyAll(p, ops).growing.forest, ApplyAll(p, ops).growing.owners)
    decreases |ops|
  {
    hide Labelled, CatchesAgree, LegalOp, ApplyOp;
    if ops != [] {
      OpPlaced(p, ops[0]);
      OpKeepsOwners(p, ops[0]);
      RunKeepsOwners(ApplyOp(p, ops[0]), ops[1..]);
    }
  }

  lemma NothingPlaced()
    ensures Labelled(NOTHING_PLACED) && Bounded(NOTHING_PLACED) && NestedInHomes(NOTHING_PLACED)
  {
    Fragments.NewSessionTidy();
  }

  // ---------- where a splice has to land ----------

  /** The last index below `n` that has a property. */
  ghost function LastWith(n: nat, holds: nat -> bool): (last: Option<nat>)
    ensures last.Some? ==> last.value < n && holds(last.value) && forall i: nat :: last.value < i < n ==> !holds(i)
    ensures last.None? ==> forall i: nat :: i < n ==> !holds(i)
  {
    if n == 0 then None else if holds(n - 1) then Some(n - 1) else LastWith(n - 1, holds)
  }

  ghost predicate AroundIn(p: Placing, f: nat, spot: nat, x: nat)
    requires Bounded(p)
  {
    x < |p.spots| && p.spots[x].home == f && Around(p, x, spot)
  }

  ghost predicate EncloserIn(p: Placing, f: nat, y: nat, x: nat)
    requires Bounded(p) && y < |p.spots|
  {
    x < |p.spots| && p.spots[x].home == f && Encloses(p.growing.parents, x, y)
  }

  /** The check declared last of those in the fragment that the position lies inside. */
  ghost function InnermostAround(p: Placing, f: nat, spot: nat): Option<nat>
    requires Bounded(p)
  {
    LastWith(|p.spots|, (x: nat) => AroundIn(p, f, spot, x))
  }

  /** The check declared last of those in the fragment that a check was declared in. */
  ghost function InnermostOf(p: Placing, f: nat, y: nat): Option<nat>
    requires Bounded(p) && y < |p.spots|
  {
    LastWith(|p.spots|, (x: nat) => EncloserIn(p, f, y, x))
  }

  lemma {:induction false} LastSame(n: nat, holds: nat -> bool, other: nat -> bool)
    requires forall i: nat :: i < n ==> (holds(i) <==> other(i))
    ensures LastWith(n, holds) == LastWith(n, other)
  {
    if n > 0 && !holds(n - 1) {
      LastSame(n - 1, holds, other);
    }
  }

  lemma AroundChain(p: Placing, f: nat, spot: nat, x: nat, z: nat)
    requires Bounded(p) && NestedInHomes(p) && x < z < |p.spots| && p.spots[x].home == p.spots[z].home == f
    requires Around(p, z, spot)
    ensures Around(p, x, spot) <==> Encloses(p.growing.parents, x, z)
  {
    hide InBounds, Encloses;
    assert PairNested(p, x, z);
  }

  /** In nested fragments a splice lands right exactly when, for every check of the spliced fragment, the
      innermost check around the landing place is the innermost one that it was declared in. */
  lemma LandsInInnermost(p: Placing, f: nat, at: int, g: nat)
    requires Labelled(p) && LegalEdit(p, Fragments.Splice(f, at, g))
    requires Bounded(p) && NestedInHomes(p)
    ensures LandsRight(p, Fragments.Splice(f, at, g)) <==>
              forall y :: 0 <= y < |p.spots| && p.spots[y].home == g ==>
                && InnermostAround(p, f, Clip(p.session.fragments[f], at)) == InnermostOf(p, f, y)
                && forall x :: 0 <= x < |p.spots| && p.spots[x].home == f ==> !Encloses(p.growing.parents, y, x)
  {
    hide Labelled, NestedInHomes, InBounds, Clip, Encloses, LegalEdit;
    LegalHere(p, Fragments.Splice(f, at, g));
    var spot := Clip(p.session.fragments[f], at);
    forall y: nat | y < |p.spots| && p.spots[y].home == g
      ensures (forall x: nat :: x < |p.spots| && p.spots[x].home == f ==>
               (Around(p, x, spot) <==> Encloses(p.growing.parents, x, y)))
         <==> InnermostAround(p, f, spot) == InnermostOf(p, f, y)
    {
      SameInnermost(p, f, spot, y);
    }
    if LandsRight(p, Fragments.Splice(f, at, g)) {
      forall x: nat, y: nat | x < |p.spots| && y < |p.spots| && p.spots[x].home == f && p.spots[y].home == g
        ensures LandsFor(p, x, y, spot)
      {
      }
    }
  }

  /** The checks around a position are those that a check was declared in exactly when the innermost ones are the
      same. */
  lemma SameInnermost(p: Placing, f: nat, spot: nat, y: nat)
    requires Bounded(p) && NestedInHomes(p) && y < |p.spots|
    ensures (forall x: nat :: x < |p.spots| && p.spots[x].home == f ==>
             (Around(p, x, spot) <==> Encloses(p.growing.parents, x, y)))
       <==> InnermostAround(p, f, spot) == InnermostOf(p, f, y)
  {
    hide NestedInHomes, InBounds, Encloses, Around, LastWith;
    var around, of := InnermostAround(p, f, spot), InnermostOf(p, f, y);
    assert forall x: nat :: AroundIn(p, f, spot, x) <==> x < |p.spots| && p.spots[x].home == f && Around(p, x, spot);
    assert forall x: nat :: EncloserIn(p, f, y, x) <==>
        x < |p.spots| && p.spots[x].home == f && Encloses(p.growing.parents, x, y);
    if forall x: nat :: x < |p.spots| && p.spots[x].home == f ==>
        (Around(p, x, spot) <==> Encloses(p.growing.parents, x, y)) {
      LastSame(|p.spots|, (x: nat) => AroundIn(p, f, spot, x), (x: nat) => EncloserIn(p, f, y, x));
    }
    if around == of {
      var isAround, isEncloser := (x: nat) => AroundIn(p, f, spot, x), (x: nat) => EncloserIn(p, f, y, x);
      assert around == LastWith(|p.spots|, isAround) && of == LastWith(|p.spots|, isEncloser);
      forall x: nat | x < |p.spots| && p.spots[x].home == f
        ensures Around(p, x, spot) <==> Encloses(p.growing.parents, x, y)
      {
        assert isAround(x) <==> Around(p, x, spot);
        assert isEncloser(x) <==> Encloses(p.growing.parents, x, y);
        if around.Some? && x < around.value {
          var z := around.value;
          assert AroundIn(p, f, spot, z) && EncloserIn(p, f, y, z);
          AroundChain(p, f, spot, x, z);
          if Encloses(p.growing.parents, x, y) {
            EnclosersComparable(p.growing.parents, x, z, y);
          }
          if Encloses(p.growing.parents, x, z) {
            EnclosesTransitive(p.growing.parents, x, z, y);
          }
        }
      }
    }
  }

  // ---------- the checks of the main fragment ----------

  /** All checks are closed, and their labels have come to stand in the procedure's own fragment. */
  ghost predicate AllInMain(p: Placing)
    requires Labelled(p)
  {
    && p.growing.forest.stack == []
    && |p.session.fragments| > 0
    && forall k :: 0 <= k < |p.growing.forest.checks| ==>
        HasLabel(p.session.fragments[0], p.growing.forest.checks[k].start)
  }

  function Starts(p: Placing): (lo: seq<nat>)
    ensures |lo| == |p.spots|
  {
    seq(|p.spots|, i requires 0 <= i < |p.spots| => p.spots[i].start)
  }

  function Ends(p: Placing): (hi: seq<nat>)
    ensures |hi| == |p.spots|
  {
    seq(|p.spots|, i requires 0 <= i < |p.spots| => if p.spots[i].end.Some? then p.spots[i].end.value else 0)
  }

  /** A label stands in one live fragment only. */
  lemma HomeIsMain(p: Placing, k: nat)
    requires Labelled(p) && AllInMain(p) && k < |p.spots|
    ensures p.spots[k].home == 0 && p.spots[k].end.Some?
  {
    hide Nested, Fragments.LiveNames, Fragments.NamesIn;
    LabelledFacts(p);
    assert SpotRight(p, k);
    var name := p.growing.forest.checks[k].start;
    assert HasLabel(p.session.fragments[0], name);
    var i :| 0 <= i < |p.session.fragments[0]| && p.session.fragments[0][i] == Label(name);
    if p.spots[k].home != 0 {
      Fragments.LiveTwice(p.session, 0, i, p.spots[k].home, p.spots[k].start);
    }
  }

  /** When all are in the main fragment, they are nested there exactly when their intervals are
      nested like the forest. */
  lemma MainNested(p: Placing)
    requires Labelled(p) && AllInMain(p) && Bounded(p)
    ensures NestedInHomes(p) <==> WellNested(p.growing.parents, Starts(p), Ends(p))
    ensures forall k :: 0 <= k < |p.spots| ==>
              var stmts := p.session.fragments[0];
              && Starts(p)[k] < |stmts| && stmts[Starts(p)[k]] == Label(p.growing.forest.checks[k].start)
              && Ends(p)[k] < |stmts| && stmts[Ends(p)[k]] == Label(p.growing.forest.checks[k].end)
  {
    hide Nested, Fragments.Tidy, WellNested, Encloses, InBounds, NestedInHomes;
    LabelledFacts(p);
    forall k | 0 <= k < |p.spots|
      ensures p.spots[k].home == 0 && p.spots[k].end.Some? && SpotRight(p, k) && Starts(p)[k] == p.spots[k].start
                && Ends(p)[k] == Hi(p, k)
    {
      HomeIsMain(p, k);
      assert SpotRight(p, k);
    }
    if NestedInHomes(p) {
      PairsWellNested(p);
    }
    if WellNested(p.growing.parents, Starts(p), Ends(p)) {
      WellNestedPairs(p);
    }
  }

  ghost predicate SpansKnown(p: Placing)
    requires Bounded(p)
  {
    forall k :: 0 <= k < |p.spots| ==>
      p.spots[k].home == 0 && Starts(p)[k] == p.spots[k].start && Ends(p)[k] == Hi(p, k) && Starts(p)[k] < Ends(p)[k]
  }

  lemma PairsWellNested(p: Placing)
    requires Bounded(p) && SpansKnown(p) && NestedInHomes(p)
    ensures WellNested(p.growing.parents, Starts(p), Ends(p))
  {
    hide InBounds, Starts, Ends, Hi;
    var parents := p.growing.parents;
    forall i | 0 <= i < |parents| && parents[i].Some?
      ensures Starts(p)[parents[i].value] <= Starts(p)[i] && Ends(p)[i] <= Ends(p)[parents[i].value]
    {
      EnclosesStep(parents, parents[i].value, i);
      assert PairNested(p, parents[i].value, i);
    }
    forall i, j | 0 <= i < j < |parents| && parents[i] == parents[j]
      ensures Ends(p)[i] <= Starts(p)[j] || Ends(p)[j] <= Starts(p)[i]
    {
      SiblingsNotEnclosed(parents, i, j);
      assert PairNested(p, i, j);
    }
  }

  lemma SiblingsNotEnclosed(parents: Parents, i: nat, j: nat)
    requires Ordered(parents) && i < j < |parents| && parents[i] == parents[j]
    ensures !Encloses(parents, i, j)
  {
    if Encloses(parents, i, j) {
      EnclosesBelow(parents, i, parents[j].value);
    }
  }

  lemma WellNestedPairs(p: Placing)
    requires Bounded(p) && SpansKnown(p) && WellNested(p.growing.parents, Starts(p), Ends(p))
    ensures NestedInHomes(p)
  {
    hide InBounds, Starts, Ends, Hi, WellNested, Encloses;
    var parents, lo, hi := p.growing.parents, Starts(p), Ends(p);
    forall a, c | 0 <= a < c < |p.spots|
      ensures PairNested(p, a, c)
    {
      if Encloses(parents, a, c) {
        EncloserContains(parents, lo, hi, a, c);
      } else if Depth(parents, a) <= Depth(parents, c) {
        NestedOrDisjoint(parents, lo, hi, c, a);
      } else {
        NestedOrDisjoint(parents, lo, hi, a, c);
        if Encloses(parents, c, a) {
          EnclosesBelow(parents, c, a);
        }
      }
    }
  }

  lemma {:induction false} EncloserContains(parents: Parents, lo: seq<nat>, hi: seq<nat>, a: nat, c: nat)
    requires WellNested(parents, lo, hi) && a < |parents| && c < |parents| && Encloses(parents, a, c)
    ensures lo[a] <= lo[c] && hi[c] <= hi[a]
    decreases c
  {
    if parents[c].value != a {
      EncloserContains(parents, lo, hi, a, parents[c].value);
    }
  }

  // ---------- runs from the start ----------

  ghost predicate FromNothing(ops: seq<PlaceOp>) {
    NothingPlaced();
    LegalRun(NOTHING_PLACED, ops)
  }

  /** What a run from the start leaves. */
  ghost function PlacedBy(ops: seq<PlaceOp>): (p: Placing)
    requires FromNothing(ops)
    ensures Labelled(p) && CatchesAgree(p.growing.forest, p.growing.owners)
  {
    NothingPlaced();
    RunKeepsOwners(NOTHING_PLACED, ops);
    ApplyAll(NOTHING_PLACED, ops)
  }

  ghost predicate AllLand(ops: seq<PlaceOp>)
    requires FromNothing(ops)
  {
    NothingPlaced();
    SplicesLand(NOTHING_PLACED, ops)
  }

  /** However a procedure is put together: once all checks are closed and have come into its own
      fragment, their intervals are nested like the checks exactly when every splice landed right. */
  lemma RunNestedExactly(ops: seq<PlaceOp>)
    requires FromNothing(ops)
    ensures var p := PlacedBy(ops);
            && Nested(p.growing.forest, p.growing.parents)
            && (AllInMain(p) ==> (WellNested(p.growing.parents, Starts(p), Ends(p)) <==> AllLand(ops)))
  {
    hide Labelled, WellNested, NestedInHomes, LegalOp, ApplyOp, AllInMain;
    NothingPlaced();
    RunNests(NOTHING_PLACED, ops);
    var p := PlacedBy(ops);
    LabelledFacts(p);
    if AllInMain(p) {
      MainNested(p);
    }
  }

  /** So the intervals of the emitted table are nested when every splice landed right and the labels of the
      checks lie in the first 64 KiB: sizes are not negative, children lie within their parents,
      and siblings are disjoint. */
  lemma EmittedIntervalsNested(ops: seq<PlaceOp>)
    requires FromNothing(ops) && AllLand(ops)
    ensures var p := PlacedBy(ops);
            && |p.session.fragments| > 0
            && (AllInMain(p) && ChecksLow(p.session.fragments[0], p.growing.forest) ==>
                  WellNested(p.growing.parents, StartOffsets(p.session.fragments[0], p.growing.forest),
                             EndOffsets(p.session.fragments[0], p.growing.forest)))
  {
    hide Labelled, WellNested, NestedInHomes, FromNothing, PlacedBy, AllLand, AllInMain, ChecksLow, DistinctLabels;
    RunNestedExactly(ops);
    var p := PlacedBy(ops);
    LabelledFacts(p);
    Fragments.TidyMain(p.session);
    if AllInMain(p) && ChecksLow(p.session.fragments[0], p.growing.forest) {
      MainNested(p);
      EmittedNested(p.session.fragments[0], p.growing.forest, p.growing.parents, Starts(p), Ends(p));
    }
  }
}
