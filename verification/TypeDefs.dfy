/** Symbol urls and type definitions, with the normal forms that union and intersection types are kept in. */
module TypeDefs {
  import opened Wrappers

  datatype Url = Url(location: string, path: seq<string>)

  /** The members of a union or an intersection carry no order of their own: the vectors
      behind them are kept sorted by their printed form. A union has no duplicates, an
      intersection may have some. */
  datatype TypeDef =
    | Invalid
    | Concrete(url: Url, arguments: seq<TypeDef>)
    | Placeholder(index: nat, template: Url, parameters: seq<TypeDef>)
    | Intersection(parts: multiset<TypeDef>)
    | Union(members: set<TypeDef>)
    | NoReturn

  predicate CanJoinUnion(t: TypeDef) {
    t.Concrete? || t.Placeholder? || t.Intersection? || t.Union?
  }

  predicate CanJoinIntersection(t: TypeDef) {
    t.Concrete? || t.Placeholder?
  }

  /** What a type contributes to a union: its own members if it is one, otherwise itself. */
  function Flat(t: TypeDef): set<TypeDef> {
    if t.Union? then t.members else {t}
  }

  function FlatAll(ts: set<TypeDef>): set<TypeDef> {
    set t, m | t in ts && m in Flat(t) :: m
  }

  /** The one element of a set that has one element. */
  ghost function TheOnly<T>(s: set<T>): (x: T)
    requires |s| == 1
    ensures s == {x}
  {
    var x :| x in s;
    assert |s - {x}| == 0;
    x
  }

  ghost function ThePart<T>(m: multiset<T>): (x: T)
    requires |m| == 1
    ensures m == multiset{x}
  {
    var x :| x in m;
    assert |m - multiset{x}| == 0;
    x
  }

  /** Builds a union: nested unions are flattened, duplicates dropped, one member stands for itself. */
  ghost function ForUnion(ts: set<TypeDef>): Option<TypeDef> {
    if ts == {} || exists t :: t in ts && !CanJoinUnion(t) then
      None
    else
      var flat := FlatAll(ts);
      Some(if |flat| == 1 then TheOnly(flat) else Union(flat))
  }

  /** Builds an intersection of concrete types and placeholders; one part stands for itself. */
  ghost function ForIntersection(ts: multiset<TypeDef>): Option<TypeDef> {
    if |ts| == 0 || exists t :: t in ts && !CanJoinIntersection(t) then
      None
    else
      Some(if |ts| == 1 then ThePart(ts) else Intersection(ts))
  }

  /** The types that the four builders above can produce. */
  ghost predicate WellFormed(t: TypeDef) {
    match t
    case Invalid => true
    case NoReturn => true
    case Concrete(_, arguments) => forall a :: a in arguments ==> WellFormed(a)
    case Placeholder(_, _, parameters) => forall p :: p in parameters ==> WellFormed(p)
    case Intersection(parts) =>
      |parts| >= 2 && forall p :: p in parts ==> CanJoinIntersection(p) && WellFormed(p)
    case Union(members) =>
      |members| >= 2 && forall m :: m in members ==> CanJoinUnion(m) && !m.Union? && WellFormed(m)
  }
}
