/** Resolving the target type of a generic binding: its placeholders are replaced by type arguments. */
module TypeResolution {
  import opened Wrappers
  import opened TypeDefs

  /** The images of the elements of `m`, with their multiplicities. */
  ghost function Image<T, R>(f: map<T, R>, m: multiset<T>): multiset<R>
    requires Covers(f, m)
    decreases |m|
  {
    if |m| == 0 then
      multiset{}
    else
      var x := Pick(m);
      multiset{f[x]} + Image(f, m - multiset{x})
  }

  ghost predicate Covers<T, R>(f: map<T, R>, m: multiset<T>) {
    forall x :: x in m ==> x in f
  }

  ghost function Pick<T>(m: multiset<T>): (x: T)
    requires |m| != 0
    ensures x in m
  {
    var x :| x in m;
    x
  }

  ghost function Resolve(binding: Url, args: seq<TypeDef>, target: TypeDef): Option<TypeDef> {
    match target
    case Placeholder(index, template, _) =>
      if template == binding then
        if index < |args| then Some(args[index]) else None
      else
        Some(target)
    case Concrete(url, arguments) =>
      JoinConcrete(url, seq(|arguments|, i requires 0 <= i < |arguments| => Resolve(binding, args, arguments[i])))
    case Union(members) =>
      JoinUnion(map m | m in members :: Resolve(binding, args, m))
    case Intersection(parts) =>
      JoinIntersection(map p | p in parts :: Resolve(binding, args, p), parts)
    case NoReturn => Some(NoReturn)
    case Invalid => None
  }

  ghost function JoinConcrete(url: Url, images: seq<Option<TypeDef>>): Option<TypeDef> {
    if exists i :: 0 <= i < |images| && images[i] == None then
      None
    else
      Some(Concrete(url, seq(|images|, i requires 0 <= i < |images| => images[i].value)))
  }

  ghost function JoinUnion(images: map<TypeDef, Option<TypeDef>>): Option<TypeDef> {
    if exists m :: m in images && images[m] == None then
      None
    else
      ForUnion((map m | m in images :: images[m].value).Values)
  }

  ghost function JoinIntersection(images: map<TypeDef, Option<TypeDef>>, parts: multiset<TypeDef>): Option<TypeDef>
    requires Covers(images, parts)
  {
    if exists p :: p in images && images[p] == None then
      None
    else
      ForIntersection(Image(map p | p in images :: images[p].value, parts))
  }

  /** What a binding symbol holds once it is finalized. */
  datatype BindingSymbol = BindingSymbol(url: Url, generic: bool, target: TypeDef)

  ghost function ResolveTarget(symbol: BindingSymbol, args: seq<TypeDef>): Option<TypeDef> {
    if !symbol.generic then
      if args != [] then None else Some(symbol.target)
    else
      Resolve(symbol.url, args, symbol.target)
  }

  // ---------- multiset images ----------

  lemma Swap<R>(a: R, b: R, c: multiset<R>)
    ensures multiset{a} + (multiset{b} + c) == multiset{b} + (multiset{a} + c)
  {
  }

  lemma Unpick<T>(m: multiset<T>, x: T, y: T)
    requires x in m && y in m && x != y
    ensures x in m - multiset{y} && y in m - multiset{x}
    ensures m - multiset{y} - multiset{x} == m - multiset{x} - multiset{y}
    ensures |m - multiset{y}| < |m| && |m - multiset{x}| < |m|
  {
  }

  /** The image does not depend on the order in which the elements are taken. */
  lemma {:induction false} ImageRemove<T, R>(f: map<T, R>, m: multiset<T>, x: T)
    requires Covers(f, m) && x in m
    ensures Covers(f, m - multiset{x})
    ensures Image(f, m) == multiset{f[x]} + Image(f, m - multiset{x})
    decreases |m|
  {
    var y := Pick(m);
    if y != x {
      Unpick(m, x, y);
      ImageRemove(f, m - multiset{y}, x);
      ImageRemove(f, m - multiset{x}, y);
      Swap(f[x], f[y], Image(f, m - multiset{x} - multiset{y}));
    }
  }

  lemma {:induction false} ImageSize<T, R>(f: map<T, R>, m: multiset<T>)
    requires Covers(f, m)
    ensures |Image(f, m)| == |m|
    decreases |m|
  {
    if |m| != 0 {
      var x := Pick(m);
      ImageSize(f, m - multiset{x});
    }
  }

  lemma ImageHas<T, R>(f: map<T, R>, m: multiset<T>, x: T)
    requires Covers(f, m) && x in m
    ensures f[x] in Image(f, m)
  {
    ImageRemove(f, m, x);
  }

  lemma {:induction false} ImageOnly<T, R>(f: map<T, R>, m: multiset<T>, y: R) returns (x: T)
    requires Covers(f, m) && y in Image(f, m)
    ensures x in m && f[x] == y
    decreases |m|
  {
    x := Pick(m);
    if f[x] != y {
      x := ImageOnly(f, m - multiset{x}, y);
    }
  }

  // ---------- exactly when resolution succeeds ----------

  predicate Own(binding: Url, t: TypeDef) {
    t.Placeholder? && t.template == binding
  }

  /** Every placeholder that resolution reaches has an argument, the argument may stand where
      the placeholder stands, and no invalid type is reached. */
  ghost predicate Accepts(binding: Url, args: seq<TypeDef>, target: TypeDef) {
    match target
    case Placeholder(index, template, _) => template == binding ==> index < |args|
    case Concrete(_, arguments) => forall i :: 0 <= i < |arguments| ==> Accepts(binding, args, arguments[i])
    case Union(members) =>
      forall m :: m in members ==>
        Accepts(binding, args, m) && (Own(binding, m) ==> CanJoinUnion(args[m.index]))
    case Intersection(parts) =>
      forall p :: p in parts ==>
        Accepts(binding, args, p) && (Own(binding, p) ==> CanJoinIntersection(args[p.index]))
    case NoReturn => true
    case Invalid => false
  }

  /** What the induction needs to know of one type. */
  ghost predicate Exact(binding: Url, args: seq<TypeDef>, target: TypeDef) {
    var r := Resolve(binding, args, target);
    && (r.Some? <==> Accepts(binding, args, target))
    && (r.Some? && target.Intersection? ==> r.value.Intersection?)
  }

  lemma {:induction false} SucceedsExactlyWhenAccepted(binding: Url, args: seq<TypeDef>, target: TypeDef)
    requires WellFormed(target)
    ensures Exact(binding, args, target)
    decreases target
  {
    match target
    case Placeholder(_, _, _) =>
    case NoReturn =>
    case Invalid =>
    case Concrete(_, arguments) =>
      forall i | 0 <= i < |arguments|
        ensures Exact(binding, args, arguments[i])
      {
        SucceedsExactlyWhenAccepted(binding, args, arguments[i]);
      }
      ConcreteExact(binding, args, target);
    case Union(members) =>
      forall m | m in members
        ensures Exact(binding, args, m)
      {
        SucceedsExactlyWhenAccepted(binding, args, m);
      }
      UnionExact(binding, args, target);
    case Intersection(parts) =>
      forall p | p in parts
        ensures Exact(binding, args, p)
      {
        SucceedsExactlyWhenAccepted(binding, args, p);
      }
      IntersectionExact(binding, args, target);
  }

  /** A binding resolves exactly when it gets no type arguments or is generic, and in that case
      exactly when its target accepts them. */
  lemma TargetResolvesExactly(symbol: BindingSymbol, args: seq<TypeDef>)
    requires WellFormed(symbol.target)
    ensures ResolveTarget(symbol, args).Some? <==>
              if symbol.generic then Accepts(symbol.url, args, symbol.target) else args == []
  {
    SucceedsExactlyWhenAccepted(symbol.url, args, symbol.target);
  }

  lemma ConcreteExact(binding: Url, args: seq<TypeDef>, target: TypeDef)
    requires target.Concrete?
    requires forall i :: 0 <= i < |target.arguments| ==> Exact(binding, args, target.arguments[i])
    ensures Exact(binding, args, target)
  {
    var n := |target.arguments|;
    var images := seq(n, i requires 0 <= i < n => Resolve(binding, args, target.arguments[i]));
    assert forall i :: 0 <= i < n ==> (images[i] == None <==> !Accepts(binding, args, target.arguments[i]));
  }

  lemma JoinUnionSome(images: map<TypeDef, Option<TypeDef>>, m0: TypeDef)
    requires m0 in images
    ensures JoinUnion(images).Some? <==> forall m :: m in images ==> images[m].Some? && CanJoinUnion(images[m].value)
  {
    if forall m :: m in images ==> images[m].Some? {
      var resolved := map m | m in images :: images[m].value;
      assert resolved[m0] in resolved.Values;
      assert forall m :: m in images ==> resolved[m] in resolved.Values;
    }
  }

  lemma ImageJoins(resolved: map<TypeDef, TypeDef>, parts: multiset<TypeDef>)
    requires Covers(resolved, parts)
    ensures (exists q :: q in Image(resolved, parts) && !CanJoinIntersection(q))
       <==> (exists p :: p in parts && !CanJoinIntersection(resolved[p]))
  {
    if q :| q in Image(resolved, parts) && !CanJoinIntersection(q) {
      var p := ImageOnly(resolved, parts, q);
    }
    if p :| p in parts && !CanJoinIntersection(resolved[p]) {
      ImageHas(resolved, parts, p);
    }
  }

  lemma JoinIntersectionSome(images: map<TypeDef, Option<TypeDef>>, parts: multiset<TypeDef>)
    requires Covers(images, parts) && |parts| != 0 && forall p :: p in images ==> p in parts
    ensures JoinIntersection(images, parts).Some?
       <==> forall p :: p in parts ==> images[p].Some? && CanJoinIntersection(images[p].value)
    ensures JoinIntersection(images, parts).Some? && |parts| >= 2 ==>
              JoinIntersection(images, parts).value.Intersection?
  {
    if forall p :: p in images ==> images[p].Some? {
      var resolved := map p | p in images :: images[p].value;
      ImageSize(resolved, parts);
      ImageJoins(resolved, parts);
      assert forall p :: p in parts ==> resolved[p] == images[p].value;
    }
  }

  lemma UnionExact(binding: Url, args: seq<TypeDef>, target: TypeDef)
    requires WellFormed(target) && target.Union?
    requires forall m :: m in target.members ==> Exact(binding, args, m)
    ensures Exact(binding, args, target)
  {
    hide Resolve, Accepts, JoinUnion, CanJoinUnion;
    var images := map m | m in target.members :: Resolve(binding, args, m);
    var m0 := SomeMember(target);
    JoinUnionSome(images, m0);
    UnionImages(binding, args, target, images);
    UnionMembersJoin(binding, args, target);
    assert forall m :: m in target.members <==> m in images;
  }

  lemma SomeMember(target: TypeDef) returns (m: TypeDef)
    requires WellFormed(target) && target.Union?
    ensures m in target.members
  {
    m :| m in target.members;
  }

  lemma UnionImages(binding: Url, args: seq<TypeDef>, target: TypeDef, images: map<TypeDef, Option<TypeDef>>)
    requires target.Union? && images.Keys == target.members
    requires forall m :: m in images ==> images[m] == Resolve(binding, args, m)
    ensures Resolve(binding, args, target) == JoinUnion(images)
  {
    hide JoinUnion, JoinConcrete, JoinIntersection;
    assert images == map m | m in target.members :: Resolve(binding, args, m);
  }

  lemma UnionMembersJoin(binding: Url, args: seq<TypeDef>, target: TypeDef)
    requires WellFormed(target) && target.Union?
    requires forall m :: m in target.members ==> Exact(binding, args, m)
    ensures Accepts(binding, args, target)
       <==> forall m :: m in target.members ==>
           Resolve(binding, args, m).Some? && CanJoinUnion(Resolve(binding, args, m).value)
  {
    hide Resolve, Exact;
    forall m | m in target.members
      ensures Resolve(binding, args, m).Some? && CanJoinUnion(Resolve(binding, args, m).value)
         <==> Accepts(binding, args, m) && (Own(binding, m) ==> CanJoinUnion(args[m.index]))
    {
      MemberJoins(binding, args, m);
    }
  }

  lemma MemberJoins(binding: Url, args: seq<TypeDef>, m: TypeDef)
    requires CanJoinUnion(m) && !m.Union? && Exact(binding, args, m)
    ensures Resolve(binding, args, m).Some? && CanJoinUnion(Resolve(binding, args, m).value)
       <==> Accepts(binding, args, m) && (Own(binding, m) ==> CanJoinUnion(args[m.index]))
  {
    hide Resolve, Accepts;
    if Accepts(binding, args, m) {
      MemberShape(binding, args, m);
    }
  }

  lemma MemberShape(binding: Url, args: seq<TypeDef>, m: TypeDef)
    requires CanJoinUnion(m) && !m.Union? && Exact(binding, args, m) && Accepts(binding, args, m)
    ensures Own(binding, m) ==> Resolve(binding, args, m).value == args[m.index]
    ensures !Own(binding, m) && !m.Intersection? ==> CanJoinIntersection(Resolve(binding, args, m).value)
    ensures !Own(binding, m) ==> CanJoinUnion(Resolve(binding, args, m).value)
  {
  }

  lemma IntersectionExact(binding: Url, args: seq<TypeDef>, target: TypeDef)
    requires WellFormed(target) && target.Intersection?
    requires forall p :: p in target.parts ==> Exact(binding, args, p)
    ensures Exact(binding, args, target)
  {
    var images := map p | p in target.parts :: Resolve(binding, args, p);
    forall p | p in target.parts
      ensures images[p].Some? && CanJoinIntersection(images[p].value)
         <==> Accepts(binding, args, p) && (Own(binding, p) ==> CanJoinIntersection(args[p.index]))
    {
      if Accepts(binding, args, p) {
        MemberShape(binding, args, p);
      }
    }
    JoinIntersectionSome(images, target.parts);
  }

  // ---------- resolution keeps the normal forms ----------

  lemma ForUnionWellFormed(ts: set<TypeDef>)
    requires forall t :: t in ts ==> WellFormed(t)
    requires ForUnion(ts).Some?
    ensures WellFormed(ForUnion(ts).value)
    ensures Flat(ForUnion(ts).value) == FlatAll(ts)
  {
    var flat := FlatAll(ts);
    forall m | m in flat
      ensures CanJoinUnion(m) && !m.Union? && WellFormed(m)
    {
      var t :| t in ts && m in Flat(t);
    }
    var t0 :| t0 in ts;
    var m0 :| m0 in Flat(t0);
    assert m0 in flat;
    if |flat| == 1 {
      assert flat == {TheOnly(flat)};
    }
  }

  lemma JoinUnionWellFormed(images: map<TypeDef, Option<TypeDef>>)
    requires forall m :: m in images && images[m].Some? ==> WellFormed(images[m].value)
    requires JoinUnion(images).Some?
    ensures WellFormed(JoinUnion(images).value)
  {
    ForUnionWellFormed((map m | m in images :: images[m].value).Values);
  }

  lemma JoinIntersectionWellFormed(images: map<TypeDef, Option<TypeDef>>, parts: multiset<TypeDef>)
    requires Covers(images, parts)
    requires forall m :: m in images && images[m].Some? ==> WellFormed(images[m].value)
    requires JoinIntersection(images, parts).Some?
    ensures WellFormed(JoinIntersection(images, parts).value)
  {
    var resolved := map p | p in images :: images[p].value;
    var all := Image(resolved, parts);
    forall q | q in all
      ensures WellFormed(q)
    {
      var p := ImageOnly(resolved, parts, q);
    }
  }

  lemma JoinConcreteWellFormed(url: Url, images: seq<Option<TypeDef>>)
    requires forall i :: 0 <= i < |images| && images[i].Some? ==> WellFormed(images[i].value)
    requires JoinConcrete(url, images).Some?
    ensures WellFormed(JoinConcrete(url, images).value)
  {
  }

  lemma {:induction false} ResolveWellFormed(binding: Url, args: seq<TypeDef>, target: TypeDef)
    requires WellFormed(target) && Resolve(binding, args, target).Some?
    requires forall a :: a in args ==> WellFormed(a)
    ensures WellFormed(Resolve(binding, args, target).value)
    decreases target
  {
    match target
    case Placeholder(_, _, _) =>
    case NoReturn =>
    case Concrete(url, arguments) =>
      forall i | 0 <= i < |arguments| && Resolve(binding, args, arguments[i]).Some?
        ensures WellFormed(Resolve(binding, args, arguments[i]).value)
      {
        ResolveWellFormed(binding, args, arguments[i]);
      }
      JoinConcreteWellFormed(url,
                             seq(|arguments|, i requires 0 <= i < |arguments| => Resolve(binding, args, arguments[i])));
    case Union(members) =>
      forall m | m in members && Resolve(binding, args, m).Some?
        ensures WellFormed(Resolve(binding, args, m).value)
      {
        ResolveWellFormed(binding, args, m);
      }
      JoinUnionWellFormed(map m | m in members :: Resolve(binding, args, m));
    case Intersection(parts) =>
      forall p | p in parts && Resolve(binding, args, p).Some?
        ensures WellFormed(Resolve(binding, args, p).value)
      {
        ResolveWellFormed(binding, args, p);
      }
      JoinIntersectionWellFormed(map p | p in parts :: Resolve(binding, args, p), parts);
  }

  // ---------- two successive argument lists ----------

  /** Everything the types in `xs` contribute to a union once they are resolved. */
  ghost function FlatImage(binding: Url, args: seq<TypeDef>, xs: set<TypeDef>): set<TypeDef> {
    set x, v | x in xs && Resolve(binding, args, x).Some? && v in Flat(Resolve(binding, args, x).value) :: v
  }

  lemma FlatResolve(binding: Url, args: seq<TypeDef>, y: TypeDef)
    requires WellFormed(y) && Resolve(binding, args, y).Some?
    requires forall a :: a in args ==> WellFormed(a)
    ensures forall x :: x in Flat(y) ==> Resolve(binding, args, x).Some?
    ensures Flat(Resolve(binding, args, y).value) == FlatImage(binding, args, Flat(y))
  {
    if y.Union? {
      var ys := UnfoldUnion(binding, args, y);
      forall m | m in ys
        ensures WellFormed(ys[m])
      {
        ResolveWellFormed(binding, args, m);
      }
      ForUnionWellFormed(ys.Values);
      FlatAllImage(binding, args, ys);
    }
  }

  lemma FlatAllImage(binding: Url, args: seq<TypeDef>, ys: map<TypeDef, TypeDef>)
    requires forall m :: m in ys ==> Resolve(binding, args, m) == Some(ys[m])
    ensures FlatAll(ys.Values) == FlatImage(binding, args, ys.Keys)
  {
    forall v | v in FlatAll(ys.Values)
      ensures v in FlatImage(binding, args, ys.Keys)
    {
      var t :| t in ys.Values && v in Flat(t);
      var m :| m in ys && ys[m] == t;
    }
    forall v | v in FlatImage(binding, args, ys.Keys)
      ensures v in FlatAll(ys.Values)
    {
      var m :| m in ys.Keys && v in Flat(Resolve(binding, args, m).value);
      assert ys[m] in ys.Values;
    }
  }

  lemma FlatInjective(p: TypeDef, q: TypeDef)
    requires WellFormed(p) && WellFormed(q) && Flat(p) == Flat(q)
    ensures p == q
  {
    assert p.Union? <==> |Flat(p)| >= 2;
    assert q.Union? <==> |Flat(q)| >= 2;
    if !p.Union? {
      assert p in Flat(q);
    }
  }

  lemma FlatAllTwice(binding: Url, bs: seq<TypeDef>, ys: map<TypeDef, TypeDef>, zs: map<TypeDef, TypeDef>)
    requires ys.Keys == zs.Keys
    requires forall m :: m in ys ==> Flat(zs[m]) == FlatImage(binding, bs, Flat(ys[m]))
    ensures FlatAll(zs.Values) == FlatImage(binding, bs, FlatAll(ys.Values))
  {
    forall v | v in FlatAll(zs.Values)
      ensures v in FlatImage(binding, bs, FlatAll(ys.Values))
    {
      var z :| z in zs.Values && v in Flat(z);
      var m :| m in zs && zs[m] == z;
      var x :| x in Flat(ys[m]) && Resolve(binding, bs, x).Some? && v in Flat(Resolve(binding, bs, x).value);
      assert ys[m] in ys.Values;
      assert x in FlatAll(ys.Values);
    }
    forall v | v in FlatImage(binding, bs, FlatAll(ys.Values))
      ensures v in FlatAll(zs.Values)
    {
      var x :| x in FlatAll(ys.Values) && Resolve(binding, bs, x).Some? && v in Flat(Resolve(binding, bs, x).value);
      var y :| y in ys.Values && x in Flat(y);
      var m :| m in ys && ys[m] == y;
      assert v in FlatImage(binding, bs, Flat(ys[m]));
      assert zs[m] in zs.Values;
    }
  }

  lemma UnionTwice(binding: Url, bs: seq<TypeDef>, ys: map<TypeDef, TypeDef>, zs: map<TypeDef, TypeDef>, r: TypeDef)
    requires forall b :: b in bs ==> WellFormed(b)
    requires ys.Keys == zs.Keys
    requires forall m :: m in ys ==> WellFormed(ys[m]) && Resolve(binding, bs, ys[m]) == Some(zs[m])
    requires ForUnion(ys.Values) == Some(r) && ForUnion(zs.Values).Some?
    requires Resolve(binding, bs, r).Some?
    ensures Resolve(binding, bs, r) == ForUnion(zs.Values)
  {
    hide Resolve, FlatImage, FlatAll, Flat, ForUnion, WellFormed;
    var q, w := Resolve(binding, bs, r).value, ForUnion(zs.Values).value;
    forall m | m in ys
      ensures WellFormed(zs[m]) && Flat(zs[m]) == FlatImage(binding, bs, Flat(ys[m]))
    {
      FlatResolve(binding, bs, ys[m]);
      ResolveWellFormed(binding, bs, ys[m]);
    }
    FlatAllTwice(binding, bs, ys, zs);
    ForUnionWellFormed(ys.Values);
    FlatResolve(binding, bs, r);
    ResolveWellFormed(binding, bs, r);
    ForUnionWellFormed(zs.Values);
    FlatInjective(q, w);
  }

  lemma {:induction false} ImageTwice<A, B, C>(f: map<A, B>, g: map<B, C>, h: map<A, C>, m: multiset<A>)
    requires Covers(f, m) && Covers(h, m)
    requires forall x :: x in m ==> f[x] in g && g[f[x]] == h[x]
    ensures Covers(g, Image(f, m))
    ensures Image(g, Image(f, m)) == Image(h, m)
    decreases |m|
  {
    if |m| != 0 {
      var x := Pick(m);
      ImageTwice(f, g, h, m - multiset{x});
      ImageAdd(g, f[x], Image(f, m - multiset{x}));
    }
  }

  lemma ImageAdd<T, R>(f: map<T, R>, x: T, m: multiset<T>)
    requires x in f && Covers(f, m)
    ensures Covers(f, multiset{x} + m)
    ensures Image(f, multiset{x} + m) == multiset{f[x]} + Image(f, m)
  {
    ImageRemove(f, multiset{x} + m, x);
    assert multiset{x} + m - multiset{x} == m;
  }

  /** What the induction over the target shows: resolving by `ones` and then by `twos` is
      resolving by the arguments `ones` become under `twos`. */
  ghost predicate Composes(binding: Url, ones: seq<TypeDef>, twos: seq<TypeDef>, both: seq<TypeDef>, target: TypeDef) {
    var r := Resolve(binding, ones, target);
    && r.Some?
    && Resolve(binding, twos, r.value).Some?
    && Resolve(binding, both, target).Some?
    ==> Resolve(binding, twos, r.value) == Resolve(binding, both, target)
  }

  lemma {:induction false} SuccessiveResolution(binding: Url, ones: seq<TypeDef>, twos: seq<TypeDef>,
                                               both: seq<TypeDef>, target: TypeDef)
    requires WellFormed(target)
    requires forall a :: a in ones ==> WellFormed(a)
    requires forall b :: b in twos ==> WellFormed(b)
    requires |both| == |ones|
    requires forall i :: 0 <= i < |ones| ==> Resolve(binding, twos, ones[i]) == Some(both[i])
    ensures Composes(binding, ones, twos, both, target)
    decreases target
  {
    var r := Resolve(binding, ones, target);
    if r.Some? && Resolve(binding, twos, r.value).Some? && Resolve(binding, both, target).Some? {
      match target
      case Placeholder(_, _, _) =>
      case NoReturn =>
      case Concrete(url, arguments) =>
        forall i | 0 <= i < |arguments|
          ensures Composes(binding, ones, twos, both, arguments[i])
        {
          SuccessiveResolution(binding, ones, twos, both, arguments[i]);
        }
        ConcreteComposes(binding, ones, twos, both, target);
      case Union(members) =>
        forall m | m in members
          ensures Composes(binding, ones, twos, both, m)
        {
          SuccessiveResolution(binding, ones, twos, both, m);
        }
        UnionComposes(binding, ones, twos, both, target);
      case Intersection(parts) =>
        forall p | p in parts
          ensures Composes(binding, ones, twos, both, p)
        {
          SuccessiveResolution(binding, ones, twos, both, p);
        }
        IntersectionComposes(binding, ones, twos, both, target);
    }
  }

  /** Resolving by `ones` and then by `twos`. */
  ghost function ResolveTwice(binding: Url, ones: seq<TypeDef>, twos: seq<TypeDef>, target: TypeDef): Option<TypeDef> {
    var r := Resolve(binding, ones, target);
    if r.None? then None else Resolve(binding, twos, r.value)
  }

  /** The arguments `both` are what the arguments `ones` become under the arguments `twos`. */
  ghost predicate Compose(binding: Url, ones: seq<TypeDef>, twos: seq<TypeDef>, both: seq<TypeDef>) {
    && (forall a :: a in ones ==> WellFormed(a))
    && (forall b :: b in twos ==> WellFormed(b))
    && |both| == |ones|
    && (forall i :: 0 <= i < |ones| ==> Resolve(binding, twos, ones[i]) == Some(both[i]))
  }

  /** An argument that may be a member of a union may still be one once it is resolved, and one that may
      be part of an intersection once it is resolved might have been one before. */
  predicate JoinsStay(ones: seq<TypeDef>, both: seq<TypeDef>)
    requires |both| == |ones|
  {
    forall i :: 0 <= i < |ones| ==>
      && (CanJoinUnion(ones[i]) ==> CanJoinUnion(both[i]))
      && (CanJoinIntersection(both[i]) ==> CanJoinIntersection(ones[i]))
  }

  ghost predicate AcceptedTwice(binding: Url, ones: seq<TypeDef>, twos: seq<TypeDef>, target: TypeDef) {
    var r := Resolve(binding, ones, target);
    r.Some? && Accepts(binding, twos, r.value)
  }

  ghost predicate SameAcceptance(binding: Url, ones: seq<TypeDef>, twos: seq<TypeDef>, both: seq<TypeDef>,
                                 target: TypeDef) {
    AcceptedTwice(binding, ones, twos, target) <==> Accepts(binding, both, target)
  }

  lemma {:induction false} AcceptsTwice(binding: Url, ones: seq<TypeDef>, twos: seq<TypeDef>, both: seq<TypeDef>,
                                        target: TypeDef)
    requires WellFormed(target) && Compose(binding, ones, twos, both) && JoinsStay(ones, both)
    ensures SameAcceptance(binding, ones, twos, both, target)
    decreases target
  {
    match target
    case Placeholder(_, _, _) => PlaceholderTwice(binding, ones, twos, both, target);
    case NoReturn =>
    case Invalid =>
    case Concrete(_, arguments) =>
      forall i | 0 <= i < |arguments|
        ensures SameAcceptance(binding, ones, twos, both, arguments[i])
      {
        AcceptsTwice(binding, ones, twos, both, arguments[i]);
      }
      ConcreteTwice(binding, ones, twos, both, target);
    case Union(members) =>
      forall m | m in members
        ensures SameAcceptance(binding, ones, twos, both, m)
      {
        AcceptsTwice(binding, ones, twos, both, m);
      }
      UnionAcceptsTwice(binding, ones, twos, both, target);
    case Intersection(parts) =>
      forall p | p in parts
        ensures SameAcceptance(binding, ones, twos, both, p)
      {
        AcceptsTwice(binding, ones, twos, both, p);
      }
      IntersectionAcceptsTwice(binding, ones, twos, both, target);
  }

  /** Each argument is accepted by the second arguments. */
  lemma ArgumentAccepted(binding: Url, ones: seq<TypeDef>, twos: seq<TypeDef>, both: seq<TypeDef>, i: nat)
    requires Compose(binding, ones, twos, both) && i < |ones|
    ensures Exact(binding, twos, ones[i]) && Accepts(binding, twos, ones[i])
              && Resolve(binding, twos, ones[i]) == Some(both[i])
    ensures Own(binding, ones[i]) ==> ones[i].index < |twos| && twos[ones[i].index] == both[i]
  {
    assert ones[i] in ones;
    SucceedsExactlyWhenAccepted(binding, twos, ones[i]);
  }

  lemma PlaceholderTwice(binding: Url, ones: seq<TypeDef>, twos: seq<TypeDef>, both: seq<TypeDef>, target: TypeDef)
    requires target.Placeholder? && Compose(binding, ones, twos, both)
    ensures SameAcceptance(binding, ones, twos, both, target)
  {
    if Own(binding, target) && target.index < |ones| {
      ArgumentAccepted(binding, ones, twos, both, target.index);
    }
  }

  lemma ConcreteTwice(binding: Url, ones: seq<TypeDef>, twos: seq<TypeDef>, both: seq<TypeDef>, target: TypeDef)
    requires target.Concrete?
    requires forall i :: 0 <= i < |target.arguments| ==> SameAcceptance(binding, ones, twos, both, target.arguments[i])
    requires forall i :: 0 <= i < |target.arguments| ==> WellFormed(target.arguments[i])
    ensures SameAcceptance(binding, ones, twos, both, target)
  {
    var n := |target.arguments|;
    forall i | 0 <= i < n
      ensures Exact(binding, ones, target.arguments[i])
    {
      SucceedsExactlyWhenAccepted(binding, ones, target.arguments[i]);
    }
    ConcreteExact(binding, ones, target);
    var r := Resolve(binding, ones, target);
    if r.Some? {
      forall i | 0 <= i < n
        ensures Resolve(binding, ones, target.arguments[i]) == Some(r.value.arguments[i])
      {
      }
    }
  }

  /** What a union or intersection asks of a resolved member before it is resolved again. */
  ghost predicate MemberAccepted(binding: Url, twos: seq<TypeDef>, x: TypeDef) {
    Accepts(binding, twos, x) && (Own(binding, x) ==> CanJoinUnion(twos[x.index]))
  }

  /** A union is accepted when its flat members are, whether or not it has collapsed into one of them. */
  lemma FlatAccepted(binding: Url, twos: seq<TypeDef>, ts: set<TypeDef>, r: TypeDef)
    requires ForUnion(ts) == Some(r)
    requires forall x :: x in FlatAll(ts) ==> Accepts(binding, twos, x) && MemberAccepted(binding, twos, x)
    ensures Accepts(binding, twos, r)
  {
    if !r.Union? {
      assert r in FlatAll(ts);
    }
  }

  /** What an own placeholder contributes to a union is accepted by the second arguments when it is accepted
      directly. */
  lemma OwnFlatAccepted(binding: Url, ones: seq<TypeDef>, twos: seq<TypeDef>, both: seq<TypeDef>, i: nat, x: TypeDef)
    requires Compose(binding, ones, twos, both) && i < |ones| && CanJoinUnion(both[i]) && x in Flat(ones[i])
    ensures MemberAccepted(binding, twos, x)
  {
    hide Compose;
    ArgumentAccepted(binding, ones, twos, both, i);
  }

  /** A type that cannot join a union does not become one that can. */
  lemma NoReturnStays(binding: Url, ones: seq<TypeDef>, twos: seq<TypeDef>, both: seq<TypeDef>, i: nat)
    requires Compose(binding, ones, twos, both) && i < |ones| && CanJoinUnion(both[i])
    ensures CanJoinUnion(ones[i])
  {
    assert Resolve(binding, twos, ones[i]) == Some(both[i]);
  }

  lemma UnionAcceptsTwice(binding: Url, ones: seq<TypeDef>, twos: seq<TypeDef>, both: seq<TypeDef>, target: TypeDef)
    requires WellFormed(target) && target.Union? && Compose(binding, ones, twos, both) && JoinsStay(ones, both)
    requires forall m :: m in target.members ==> SameAcceptance(binding, ones, twos, both, m)
    ensures SameAcceptance(binding, ones, twos, both, target)
  {
    hide Resolve, Compose, JoinsStay, WellFormed, CanJoinUnion;
    if Accepts(binding, both, target) {
      UnionAcceptedOnce(binding, ones, twos, both, target);
      UnionAcceptedAgain(binding, ones, twos, both, target);
    }
    if AcceptedTwice(binding, ones, twos, target) {
      UnionAcceptedDirectly(binding, ones, twos, both, target);
    }
  }

  lemma UnionAcceptedOnce(binding: Url, ones: seq<TypeDef>, twos: seq<TypeDef>, both: seq<TypeDef>, target: TypeDef)
    requires WellFormed(target) && target.Union? && Compose(binding, ones, twos, both)
    requires forall m :: m in target.members ==> SameAcceptance(binding, ones, twos, both, m)
    requires Accepts(binding, both, target)
    ensures Resolve(binding, ones, target).Some?
  {
    hide Resolve;
    forall m | m in target.members
      ensures Accepts(binding, ones, m) && (Own(binding, m) ==> CanJoinUnion(ones[m.index]))
    {
      assert SameAcceptance(binding, ones, twos, both, m);
      SucceedsExactlyWhenAccepted(binding, ones, m);
      if Own(binding, m) {
        NoReturnStays(binding, ones, twos, both, m.index);
      }
    }
    SucceedsExactlyWhenAccepted(binding, ones, target);
  }

  lemma UnionAcceptedAgain(binding: Url, ones: seq<TypeDef>, twos: seq<TypeDef>, both: seq<TypeDef>, target: TypeDef)
    requires WellFormed(target) && target.Union? && Compose(binding, ones, twos, both)
    requires forall m :: m in target.members ==> SameAcceptance(binding, ones, twos, both, m)
    requires Accepts(binding, both, target) && Resolve(binding, ones, target).Some?
    ensures Accepts(binding, twos, Resolve(binding, ones, target).value)
  {
    var ys := UnfoldUnion(binding, ones, target);
    hide Resolve, ForUnion;
    forall x | x in FlatAll(ys.Values)
      ensures Accepts(binding, twos, x) && MemberAccepted(binding, twos, x)
    {
      var y :| y in ys.Values && x in Flat(y);
      var m :| m in ys && ys[m] == y;
      MemberAcceptedAgain(binding, ones, twos, both, m, y, x);
    }
    FlatAccepted(binding, twos, ys.Values, Resolve(binding, ones, target).value);
  }

  lemma MemberAcceptedAgain(binding: Url, ones: seq<TypeDef>, twos: seq<TypeDef>, both: seq<TypeDef>, m: TypeDef,
                            y: TypeDef, x: TypeDef)
    requires WellFormed(m) && CanJoinUnion(m) && !m.Union? && Compose(binding, ones, twos, both)
    requires SameAcceptance(binding, ones, twos, both, m) && Accepts(binding, both, m)
    requires Own(binding, m) ==> CanJoinUnion(both[m.index])
    requires Resolve(binding, ones, m) == Some(y) && x in Flat(y)
    ensures MemberAccepted(binding, twos, x)
  {
    if Own(binding, m) {
      OwnFlatAccepted(binding, ones, twos, both, m.index, x);
    } else {
      hide Accepts, Compose;
      StaysNoUnion(binding, ones, m);
      StaysForeign(binding, ones, m);
    }
  }

  /** What is not a placeholder of the binding does not become one. */
  lemma StaysForeign(binding: Url, args: seq<TypeDef>, m: TypeDef)
    requires WellFormed(m) && CanJoinUnion(m) && !m.Union? && !Own(binding, m) && Resolve(binding, args, m).Some?
    ensures !Own(binding, Resolve(binding, args, m).value)
    ensures CanJoinIntersection(m) ==> CanJoinIntersection(Resolve(binding, args, m).value)
  {
    SucceedsExactlyWhenAccepted(binding, args, m);
  }

  lemma UnionAcceptedDirectly(binding: Url, ones: seq<TypeDef>, twos: seq<TypeDef>, both: seq<TypeDef>, target: TypeDef)
    requires WellFormed(target) && target.Union? && Compose(binding, ones, twos, both) && JoinsStay(ones, both)
    requires forall m :: m in target.members ==> SameAcceptance(binding, ones, twos, both, m)
    requires AcceptedTwice(binding, ones, twos, target)
    ensures Accepts(binding, both, target)
  {
    var ys := UnfoldUnion(binding, ones, target);
    hide Resolve, ForUnion, WellFormed, Compose;
    SucceedsExactlyWhenAccepted(binding, ones, target);
    UnfoldedMembers(binding, ones, twos, both, target, ys);
    forall m | m in target.members
      ensures Accepts(binding, both, m) && (Own(binding, m) ==> CanJoinUnion(both[m.index]))
    {
      assert SameAcceptance(binding, ones, twos, both, m);
    }
  }

  /** What a union's members other than own placeholders become is accepted by the second arguments. */
  lemma UnfoldedMembers(binding: Url, ones: seq<TypeDef>, twos: seq<TypeDef>, both: seq<TypeDef>, target: TypeDef,
                        ys: map<TypeDef, TypeDef>)
    requires WellFormed(target) && target.Union? && Compose(binding, ones, twos, both)
    requires AcceptedTwice(binding, ones, twos, target) && ys.Keys == target.members
    requires forall m :: m in ys ==> Resolve(binding, ones, m) == Some(ys[m])
    requires ForUnion(ys.Values) == Resolve(binding, ones, target)
    ensures forall m :: m in target.members && !Own(binding, m) ==> AcceptedTwice(binding, ones, twos, m)
  {
    hide Resolve, ForUnion, Accepts;
    var r := Resolve(binding, ones, target).value;
    ArgumentsWellFormed(binding, ones, twos, both);
    forall m | m in ys
      ensures WellFormed(ys[m])
    {
      ResolveWellFormed(binding, ones, m);
    }
    ForUnionWellFormed(ys.Values);
    SucceedsExactlyWhenAccepted(binding, twos, r);
    forall m | m in target.members && !Own(binding, m)
      ensures AcceptedTwice(binding, ones, twos, m)
    {
      StaysNoUnion(binding, ones, m);
      assert ys[m] in ys.Values;
      FlatMemberResolves(binding, twos, ys, ys[m], r);
      SucceedsExactlyWhenAccepted(binding, twos, ys[m]);
    }
  }

  lemma ArgumentsWellFormed(binding: Url, ones: seq<TypeDef>, twos: seq<TypeDef>, both: seq<TypeDef>)
    requires Compose(binding, ones, twos, both)
    ensures forall a :: a in ones ==> WellFormed(a)
    ensures forall b :: b in twos ==> WellFormed(b)
  {
  }

  lemma IntersectionAcceptsTwice(binding: Url, ones: seq<TypeDef>, twos: seq<TypeDef>, both: seq<TypeDef>,
                                 target: TypeDef)
    requires WellFormed(target) && target.Intersection? && Compose(binding, ones, twos, both) && JoinsStay(ones, both)
    requires forall p :: p in target.parts ==> SameAcceptance(binding, ones, twos, both, p)
    ensures SameAcceptance(binding, ones, twos, both, target)
  {
    forall p | p in target.parts
      ensures Accepts(binding, both, p) && (Own(binding, p) ==> CanJoinIntersection(both[p.index]))
         <==> PartTwice(binding, ones, twos, p)
    {
      PartAcceptsTwice(binding, ones, twos, both, p);
    }
    PartsTwice(binding, ones, twos, target);
  }

  /** Both resolutions accept a part of an intersection where it stands. */
  ghost predicate PartTwice(binding: Url, ones: seq<TypeDef>, twos: seq<TypeDef>, p: TypeDef) {
    var r := Resolve(binding, ones, p);
    && r.Some? && CanJoinIntersection(r.value)
    && Accepts(binding, twos, r.value)
    && (Own(binding, r.value) ==> CanJoinIntersection(twos[r.value.index]))
  }

  lemma PartAcceptsTwice(binding: Url, ones: seq<TypeDef>, twos: seq<TypeDef>, both: seq<TypeDef>, p: TypeDef)
    requires WellFormed(p) && CanJoinIntersection(p) && Compose(binding, ones, twos, both) && JoinsStay(ones, both)
    requires SameAcceptance(binding, ones, twos, both, p)
    ensures Accepts(binding, both, p) && (Own(binding, p) ==> CanJoinIntersection(both[p.index]))
       <==> PartTwice(binding, ones, twos, p)
  {
    hide Resolve, Compose, JoinsStay, WellFormed, Exact;
    if Own(binding, p) {
      OwnPartTwice(binding, ones, twos, both, p);
    } else if Resolve(binding, ones, p).Some? {
      StaysForeign(binding, ones, p);
    }
  }

  lemma OwnPartTwice(binding: Url, ones: seq<TypeDef>, twos: seq<TypeDef>, both: seq<TypeDef>, p: TypeDef)
    requires Own(binding, p) && Compose(binding, ones, twos, both) && JoinsStay(ones, both)
    ensures Accepts(binding, both, p) && (Own(binding, p) ==> CanJoinIntersection(both[p.index]))
       <==> PartTwice(binding, ones, twos, p)
  {
    assert Accepts(binding, both, p) <==> p.index < |both|;
    assert Resolve(binding, ones, p) == if p.index < |ones| then Some(ones[p.index]) else None;
    if p.index < |ones| {
      ArgumentAccepted(binding, ones, twos, both, p.index);
      hide Resolve, Accepts, Compose, Exact, WellFormed;
      if CanJoinIntersection(ones[p.index]) && !Own(binding, ones[p.index]) {
        ForeignPartStays(binding, twos, ones[p.index]);
      }
    }
  }

  lemma ForeignPartStays(binding: Url, twos: seq<TypeDef>, t: TypeDef)
    requires Resolve(binding, twos, t).Some? && CanJoinIntersection(t) && !Own(binding, t)
    ensures CanJoinIntersection(Resolve(binding, twos, t).value)
  {
  }

  lemma PartsTwice(binding: Url, ones: seq<TypeDef>, twos: seq<TypeDef>, target: TypeDef)
    requires WellFormed(target) && target.Intersection?
    ensures AcceptedTwice(binding, ones, twos, target) <==>
              forall p :: p in target.parts ==> PartTwice(binding, ones, twos, p)
  {
    var images := map p | p in target.parts :: Resolve(binding, ones, p);
    assert Resolve(binding, ones, target) == JoinIntersection(images, target.parts);
    assert |target.parts| >= 2;
    hide Resolve, Accepts, WellFormed, JoinIntersection, ForIntersection, Image;
    JoinIntersectionSome(images, target.parts);
    if Resolve(binding, ones, target).Some? {
      var f := UnfoldIntersection(binding, ones, target);
      JoinedParts(f, target.parts);
      PartsAccepted(binding, twos, f, target.parts);
    }
  }

  lemma JoinedParts(f: map<TypeDef, TypeDef>, parts: multiset<TypeDef>)
    requires Covers(f, parts) && |parts| >= 2 && ForIntersection(Image(f, parts)).Some?
    ensures ForIntersection(Image(f, parts)) == Some(Intersection(Image(f, parts)))
  {
    ImageSize(f, parts);
  }

  lemma PartsAccepted(binding: Url, twos: seq<TypeDef>, f: map<TypeDef, TypeDef>, parts: multiset<TypeDef>)
    requires Covers(f, parts)
    ensures Accepts(binding, twos, Intersection(Image(f, parts))) <==>
              forall p :: p in parts ==>
                Accepts(binding, twos, f[p]) && (Own(binding, f[p]) ==> CanJoinIntersection(twos[f[p].index]))
  {
    var all := Image(f, parts);
    if Accepts(binding, twos, Intersection(all)) {
      forall p | p in parts
        ensures Accepts(binding, twos, f[p]) && (Own(binding, f[p]) ==> CanJoinIntersection(twos[f[p].index]))
      {
        ImageHas(f, parts, p);
      }
    } else {
      var q :| q in all && !(Accepts(binding, twos, q) && (Own(binding, q) ==> CanJoinIntersection(twos[q.index])));
      var p := ImageOnly(f, parts, q);
    }
  }

  /** When arguments keep their place in unions and intersections, resolving twice is resolving by
      the composed arguments, whatever the target. */
  lemma CompositionHolds(binding: Url, ones: seq<TypeDef>, twos: seq<TypeDef>, both: seq<TypeDef>, target: TypeDef)
    requires WellFormed(target) && Compose(binding, ones, twos, both) && JoinsStay(ones, both)
    ensures ResolveTwice(binding, ones, twos, target) == Resolve(binding, both, target)
  {
    hide Resolve, Accepts, WellFormed, JoinsStay;
    AcceptsTwice(binding, ones, twos, both, target);
    SucceedsExactlyWhenAccepted(binding, ones, target);
    SucceedsExactlyWhenAccepted(binding, both, target);
    SuccessiveResolution(binding, ones, twos, both, target);
    if Resolve(binding, ones, target).Some? {
      ResolveWellFormed(binding, ones, target);
      SucceedsExactlyWhenAccepted(binding, twos, Resolve(binding, ones, target).value);
    }
  }

  /** An own placeholder twice, told apart by a parameter that resolution does not look at. */
  function Doubled(binding: Url, i: nat): TypeDef {
    Union({Placeholder(i, binding, []), Placeholder(i, binding, [NoReturn])})
  }

  lemma DoubledWellFormed(binding: Url, i: nat)
    ensures WellFormed(Doubled(binding, i))
  {
    var a, b := Placeholder(i, binding, []), Placeholder(i, binding, [NoReturn]);
    assert a.parameters != b.parameters;
    assert |{a, b}| == 2 by { assert {a, b} - {a} == {b}; }
  }

  /** It stands for its argument, if that can join a union. */
  lemma DoubledResolves(binding: Url, args: seq<TypeDef>, i: nat)
    requires i < |args| && WellFormed(args[i])
    ensures Resolve(binding, args, Doubled(binding, i)) == if CanJoinUnion(args[i]) then Some(args[i]) else None
  {
    var members := Doubled(binding, i).members;
    var images := map m | m in members :: Resolve(binding, args, m);
    assert Resolve(binding, args, Doubled(binding, i)) == JoinUnion(images);
    var m0 := Placeholder(i, binding, []);
    assert forall m :: m in members ==> Resolve(binding, args, m) == Some(args[i]);
    hide Resolve, ForUnion;
    assert m0 in images;
    SameImages(images, m0, args[i]);
  }

  lemma SameImages(images: map<TypeDef, Option<TypeDef>>, m0: TypeDef, t: TypeDef)
    requires m0 in images && (forall m :: m in images ==> images[m] == Some(t)) && WellFormed(t)
    ensures JoinUnion(images) == if CanJoinUnion(t) then Some(t) else None
  {
    var resolved := map m | m in images :: images[m].value;
    assert resolved[m0] == t && resolved[m0] in resolved.Values;
    assert forall v :: v in resolved.Values ==> v == t;
    assert resolved.Values == {t};
    FlatOne(t);
  }

  lemma FlatOne(t: TypeDef)
    requires WellFormed(t)
    ensures ForUnion({t}) == if CanJoinUnion(t) then Some(t) else None
  {
    var ts := {t};
    assert t in ts;
    assert forall m :: m in FlatAll(ts) <==> m in Flat(t);
    assert FlatAll(ts) == Flat(t);
  }

  function Squared(binding: Url, i: nat): TypeDef {
    Intersection(multiset{Placeholder(i, binding, []), Placeholder(i, binding, [])})
  }

  lemma SquaredWellFormed(binding: Url, i: nat)
    ensures WellFormed(Squared(binding, i))
  {
  }

  lemma SquaredResolves(binding: Url, args: seq<TypeDef>, i: nat)
    requires i < |args|
    ensures Resolve(binding, args, Squared(binding, i)).Some? <==> CanJoinIntersection(args[i])
  {
    SquaredWellFormed(binding, i);
    hide Resolve;
    SucceedsExactlyWhenAccepted(binding, args, Squared(binding, i));
    assert Placeholder(i, binding, []) in Squared(binding, i).parts;
    assert forall p :: p in Squared(binding, i).parts ==> p == Placeholder(i, binding, []);
    assert Accepts(binding, args, Placeholder(i, binding, []));
  }

  /** Resolving twice is resolving by the composed arguments, for every target, exactly when each first
      argument that can join a union becomes one that can, and each that becomes one that can join an
      intersection can join one itself. */
  lemma CompositionExactly(binding: Url, ones: seq<TypeDef>, twos: seq<TypeDef>, both: seq<TypeDef>)
    requires Compose(binding, ones, twos, both)
    ensures (forall target :: WellFormed(target) ==>
               ResolveTwice(binding, ones, twos, target) == Resolve(binding, both, target))
       <==> JoinsStay(ones, both)
  {
    hide Resolve, WellFormed;
    if JoinsStay(ones, both) {
      forall target | WellFormed(target)
        ensures ResolveTwice(binding, ones, twos, target) == Resolve(binding, both, target)
      {
        CompositionHolds(binding, ones, twos, both, target);
      }
    } else {
      var i: nat :| i < |ones| && !((CanJoinUnion(ones[i]) ==> CanJoinUnion(both[i]))
                                    && (CanJoinIntersection(both[i]) ==> CanJoinIntersection(ones[i])));
      CompositionBreaks(binding, ones, twos, both, i);
      DoubledWellFormed(binding, i);
      SquaredWellFormed(binding, i);
    }
  }

  lemma CompositionBreaks(binding: Url, ones: seq<TypeDef>, twos: seq<TypeDef>, both: seq<TypeDef>, i: nat)
    requires Compose(binding, ones, twos, both) && i < |ones|
    ensures CanJoinUnion(ones[i]) && !CanJoinUnion(both[i]) ==>
              ResolveTwice(binding, ones, twos, Doubled(binding, i)) != Resolve(binding, both, Doubled(binding, i))
    ensures CanJoinIntersection(both[i]) && !CanJoinIntersection(ones[i]) ==>
              ResolveTwice(binding, ones, twos, Squared(binding, i)) != Resolve(binding, both, Squared(binding, i))
  {
    assert ones[i] in ones;
    ComposedWellFormed(binding, ones, twos, both, i);
    hide Resolve, WellFormed;
    DoubledResolves(binding, ones, i);
    DoubledResolves(binding, both, i);
    SquaredResolves(binding, ones, i);
    SquaredResolves(binding, both, i);
  }

  lemma ComposedWellFormed(binding: Url, ones: seq<TypeDef>, twos: seq<TypeDef>, both: seq<TypeDef>, i: nat)
    requires Compose(binding, ones, twos, both) && i < |ones|
    ensures WellFormed(both[i]) && WellFormed(ones[i])
  {
    hide Resolve;
    assert ones[i] in ones;
    ResolveWellFormed(binding, twos, ones[i]);
  }

  function Nth(binding: Url, i: nat): TypeDef {
    Placeholder(i, binding, [])
  }

  lemma OwnArgument(binding: Url, args: seq<TypeDef>, i: nat)
    requires i < |args|
    ensures Resolve(binding, args, Nth(binding, i)) == Some(args[i])
  {
  }

  lemma SameArgumentCollapses(binding: Url, t: TypeDef)
    requires CanJoinUnion(t) && WellFormed(t)
    ensures Resolve(binding, [t, t], Union({Nth(binding, 0), Nth(binding, 1)})) == Some(t)
  {
    hide Resolve, JoinUnion, ForUnion;
    var target := Union({Nth(binding, 0), Nth(binding, 1)});
    OwnArgument(binding, [t, t], 0);
    OwnArgument(binding, [t, t], 1);
    var images := map m | m in target.members :: Resolve(binding, [t, t], m);
    assert Nth(binding, 0) in images;
    UnionImages(binding, [t, t], target, images);
    SameImages(images, Nth(binding, 0), t);
  }

  lemma TwoPlaceholders(binding: Url)
    ensures WellFormed(Union({Nth(binding, 0), Nth(binding, 1)}))
  {
    var members := {Nth(binding, 0), Nth(binding, 1)};
    assert Nth(binding, 0) != Nth(binding, 1);
    assert |members| == 2 by { assert members - {Nth(binding, 0)} == {Nth(binding, 1)}; }
  }

  lemma NoReturnJoinsNoUnion(binding: Url)
    ensures WellFormed(Union({Nth(binding, 0), Nth(binding, 1)}))
    ensures Resolve(binding, [NoReturn, NoReturn], Union({Nth(binding, 0), Nth(binding, 1)})) == None
  {
    var target := Union({Nth(binding, 0), Nth(binding, 1)});
    TwoPlaceholders(binding);
    assert Nth(binding, 0) in target.members && Own(binding, Nth(binding, 0));
    hide Resolve;
    SucceedsExactlyWhenAccepted(binding, [NoReturn, NoReturn], target);
  }

  /** One way to fail: when the first arguments collapse a union into one type, the second ones may
      replace it by a type that no union can have as a member. */
  lemma CollapsedUnionBreaksComposition(binding: Url)
    ensures var target := Union({Nth(binding, 0), Nth(binding, 1)});
            var ones := [Nth(binding, 2), Nth(binding, 2)];
            var twos := [NoReturn, NoReturn, NoReturn];
            && WellFormed(target)
            && Resolve(binding, twos, Nth(binding, 2)) == Some(NoReturn)
            && ResolveTwice(binding, ones, twos, target) == Some(NoReturn)
            && Resolve(binding, [NoReturn, NoReturn], target) == None
  {
    assert Resolve(binding, [NoReturn, NoReturn, NoReturn], Nth(binding, 2)) == Some(NoReturn);
    hide Resolve;
    NoReturnJoinsNoUnion(binding);
    SameArgumentCollapses(binding, Nth(binding, 2));
  }

  function JoinedWith(binding: Url, x: Url): TypeDef {
    Intersection(multiset{Nth(binding, 0), Concrete(x, [])})
  }

  lemma JoinedAccepts(binding: Url, args: seq<TypeDef>, x: Url)
    requires |args| == 1
    ensures WellFormed(JoinedWith(binding, x))
    ensures Resolve(binding, args, JoinedWith(binding, x)).Some? <==> CanJoinIntersection(args[0])
  {
    var target := JoinedWith(binding, x);
    assert WellFormed(Concrete(x, [])) && WellFormed(Nth(binding, 0)) && |target.parts| == 2;
    assert Nth(binding, 0) in target.parts && Own(binding, Nth(binding, 0));
    assert forall p :: p in target.parts ==> p == Nth(binding, 0) || p == Concrete(x, []);
    assert Accepts(binding, args, Concrete(x, [])) && Accepts(binding, args, Nth(binding, 0));
    hide Resolve;
    SucceedsExactlyWhenAccepted(binding, args, target);
  }

  /** The other way: an argument that is a union cannot be part of an intersection, but the second arguments may
      collapse it into one type that can. */
  lemma CollapsingUnionBreaksComposition(binding: Url, a: Url, x: Url)
    ensures var target := JoinedWith(binding, x);
            var ones := [Union({Nth(binding, 0), Nth(binding, 1)})];
            var twos := [Concrete(a, []), Concrete(a, [])];
            && WellFormed(target)
            && Resolve(binding, twos, ones[0]) == Some(Concrete(a, []))
            && ResolveTwice(binding, ones, twos, target) == None
            && Resolve(binding, [Concrete(a, [])], target).Some?
  {
    hide Resolve;
    assert WellFormed(Concrete(a, []));
    SameArgumentCollapses(binding, Concrete(a, []));
    JoinedAccepts(binding, [Union({Nth(binding, 0), Nth(binding, 1)})], x);
    JoinedAccepts(binding, [Concrete(a, [])], x);
  }

  lemma ConcreteComposes(binding: Url, ones: seq<TypeDef>, twos: seq<TypeDef>, both: seq<TypeDef>, target: TypeDef)
    requires target.Concrete?
    requires forall i :: 0 <= i < |target.arguments| ==> Composes(binding, ones, twos, both, target.arguments[i])
    ensures Composes(binding, ones, twos, both, target)
  {
    var n := |target.arguments|;
    var r := Resolve(binding, ones, target);
    if r.Some? && Resolve(binding, twos, r.value).Some? && Resolve(binding, both, target).Some? {
      var rs := r.value.arguments;
      var first := seq(n, i requires 0 <= i < n => Resolve(binding, ones, target.arguments[i]));
      var second := seq(n, i requires 0 <= i < n => Resolve(binding, twos, rs[i]));
      var direct := seq(n, i requires 0 <= i < n => Resolve(binding, both, target.arguments[i]));
      forall i | 0 <= i < n
        ensures second[i] == direct[i]
      {
        assert first[i] == Some(rs[i]) && second[i].Some? && direct[i].Some?;
      }
      assert second == direct;
    }
  }

  lemma UnfoldUnion(binding: Url, args: seq<TypeDef>, target: TypeDef) returns (ys: map<TypeDef, TypeDef>)
    requires target.Union? && Resolve(binding, args, target).Some?
    ensures ys.Keys == target.members
    ensures forall m :: m in ys ==> Resolve(binding, args, m) == Some(ys[m])
    ensures ForUnion(ys.Values) == Resolve(binding, args, target)
  {
    var images := map m | m in target.members :: Resolve(binding, args, m);
    assert Resolve(binding, args, target) == JoinUnion(images);
    assert forall m :: m in images ==> images[m].Some?;
    ys := map m | m in images :: images[m].value;
  }

  lemma UnfoldIntersection(binding: Url, args: seq<TypeDef>, target: TypeDef) returns (ys: map<TypeDef, TypeDef>)
    requires target.Intersection? && Resolve(binding, args, target).Some?
    ensures Covers(ys, target.parts)
    ensures forall p :: p in target.parts ==> Resolve(binding, args, p) == Some(ys[p])
    ensures ForIntersection(Image(ys, target.parts)) == Resolve(binding, args, target)
  {
    var images := map p | p in target.parts :: Resolve(binding, args, p);
    assert Resolve(binding, args, target) == JoinIntersection(images, target.parts);
    assert forall p :: p in images ==> images[p].Some?;
    ys := map p | p in images :: images[p].value;
  }

  lemma UnionComposes(binding: Url, ones: seq<TypeDef>, twos: seq<TypeDef>, both: seq<TypeDef>, target: TypeDef)
    requires WellFormed(target) && target.Union?
    requires forall a :: a in ones ==> WellFormed(a)
    requires forall b :: b in twos ==> WellFormed(b)
    requires |both| == |ones|
    requires forall i :: 0 <= i < |ones| ==> Resolve(binding, twos, ones[i]) == Some(both[i])
    requires forall m :: m in target.members ==> Composes(binding, ones, twos, both, m)
    ensures Composes(binding, ones, twos, both, target)
  {
    var r := Resolve(binding, ones, target);
    if r.Some? && Resolve(binding, twos, r.value).Some? && Resolve(binding, both, target).Some? {
      var ys := UnfoldUnion(binding, ones, target);
      var zs := UnfoldUnion(binding, both, target);
      forall m | m in ys && Resolve(binding, twos, ys[m]).Some?
        ensures Resolve(binding, twos, ys[m]) == Some(zs[m])
      {
        ComposesAt(binding, ones, twos, both, m, ys[m], zs[m]);
      }
      MembersTwice(binding, ones, twos, both, ys, zs, r.value);
    }
  }

  lemma ComposesAt(binding: Url, ones: seq<TypeDef>, twos: seq<TypeDef>, both: seq<TypeDef>,
                   m: TypeDef, y: TypeDef, z: TypeDef)
    requires Composes(binding, ones, twos, both, m)
    requires Resolve(binding, ones, m) == Some(y) && Resolve(binding, both, m) == Some(z)
    requires Resolve(binding, twos, y).Some?
    ensures Resolve(binding, twos, y) == Some(z)
  {
  }

  lemma MembersTwice(binding: Url, ones: seq<TypeDef>, twos: seq<TypeDef>, both: seq<TypeDef>,
                     ys: map<TypeDef, TypeDef>, zs: map<TypeDef, TypeDef>, r: TypeDef)
    requires forall a :: a in ones ==> WellFormed(a)
    requires forall b :: b in twos ==> WellFormed(b)
    requires |both| == |ones|
    requires forall i :: 0 <= i < |ones| ==> Resolve(binding, twos, ones[i]) == Some(both[i])
    requires ys.Keys == zs.Keys
    requires forall m :: m in ys ==> WellFormed(m) && CanJoinUnion(m) && !m.Union?
    requires forall m :: m in ys ==> Resolve(binding, ones, m) == Some(ys[m])
    requires forall m :: m in ys && Resolve(binding, twos, ys[m]).Some? ==> Resolve(binding, twos, ys[m]) == Some(zs[m])
    requires ForUnion(ys.Values) == Some(r) && ForUnion(zs.Values).Some? && Resolve(binding, twos, r).Some?
    ensures Resolve(binding, twos, r) == ForUnion(zs.Values)
  {
    forall m | m in ys
      ensures WellFormed(ys[m])
    {
      ResolveWellFormed(binding, ones, m);
    }
    forall m | m in ys
      ensures Resolve(binding, twos, ys[m]) == Some(zs[m])
    {
      MemberTwice(binding, ones, twos, both, ys, m, r);
    }
    UnionTwice(binding, twos, ys, zs, r);
  }

  lemma MemberTwice(binding: Url, ones: seq<TypeDef>, twos: seq<TypeDef>, both: seq<TypeDef>,
                    ys: map<TypeDef, TypeDef>, m: TypeDef, r: TypeDef)
    requires m in ys && WellFormed(m) && CanJoinUnion(m) && !m.Union?
    requires forall b :: b in twos ==> WellFormed(b)
    requires |both| == |ones|
    requires forall i :: 0 <= i < |ones| ==> Resolve(binding, twos, ones[i]) == Some(both[i])
    requires forall n :: n in ys ==> WellFormed(ys[n])
    requires Resolve(binding, ones, m) == Some(ys[m])
    requires ForUnion(ys.Values) == Some(r) && Resolve(binding, twos, r).Some?
    ensures Resolve(binding, twos, ys[m]).Some?
  {
    hide Resolve, WellFormed, ForUnion;
    if Own(binding, m) {
      OwnResolves(binding, ones, m);
    } else {
      StaysNoUnion(binding, ones, m);
      assert ys[m] in ys.Values;
      FlatMemberResolves(binding, twos, ys, ys[m], r);
    }
  }

  lemma OwnResolves(binding: Url, ones: seq<TypeDef>, m: TypeDef)
    requires Own(binding, m) && Resolve(binding, ones, m).Some?
    ensures m.index < |ones| && Resolve(binding, ones, m).value == ones[m.index]
  {
  }

  lemma StaysNoUnion(binding: Url, ones: seq<TypeDef>, m: TypeDef)
    requires WellFormed(m) && CanJoinUnion(m) && !m.Union? && !Own(binding, m) && Resolve(binding, ones, m).Some?
    ensures !Resolve(binding, ones, m).value.Union?
  {
    SucceedsExactlyWhenAccepted(binding, ones, m);
  }

  lemma FlatMemberResolves(binding: Url, twos: seq<TypeDef>, ys: map<TypeDef, TypeDef>, y: TypeDef, r: TypeDef)
    requires forall b :: b in twos ==> WellFormed(b)
    requires forall n :: n in ys ==> WellFormed(ys[n])
    requires ForUnion(ys.Values) == Some(r) && Resolve(binding, twos, r).Some?
    requires y in ys.Values && !y.Union?
    ensures Resolve(binding, twos, y).Some?
  {
    hide Resolve, ForUnion;
    ForUnionWellFormed(ys.Values);
    FlatResolve(binding, twos, r);
    assert y in Flat(y);
    assert y in FlatAll(ys.Values);
  }

  lemma IntersectionTwice(binding: Url, twos: seq<TypeDef>, f: map<TypeDef, TypeDef>, h: map<TypeDef, TypeDef>,
                          parts: multiset<TypeDef>, r: TypeDef)
    requires Covers(f, parts) && Covers(h, parts)
    requires r == Intersection(Image(f, parts)) && Resolve(binding, twos, r).Some?
    requires forall p :: p in parts && Resolve(binding, twos, f[p]).Some? ==> Resolve(binding, twos, f[p]) == Some(h[p])
    ensures Resolve(binding, twos, r) == ForIntersection(Image(h, parts))
  {
    var g := UnfoldIntersection(binding, twos, r);
    forall p | p in parts
      ensures f[p] in g && g[f[p]] == h[p]
    {
      ImageHas(f, parts, p);
    }
    ImageTwice(f, g, h, parts);
  }

  lemma IntersectionComposes(binding: Url, ones: seq<TypeDef>, twos: seq<TypeDef>, both: seq<TypeDef>, target: TypeDef)
    requires WellFormed(target) && target.Intersection?
    requires forall p :: p in target.parts ==> Composes(binding, ones, twos, both, p)
    ensures Composes(binding, ones, twos, both, target)
  {
    var r := Resolve(binding, ones, target);
    if r.Some? && Resolve(binding, twos, r.value).Some? && Resolve(binding, both, target).Some? {
      var f := UnfoldIntersection(binding, ones, target);
      var h := UnfoldIntersection(binding, both, target);
      ImageSize(f, target.parts);
      forall p | p in target.parts && Resolve(binding, twos, f[p]).Some?
        ensures Resolve(binding, twos, f[p]) == Some(h[p])
      {
        ComposesAt(binding, ones, twos, both, p, f[p], h[p]);
      }
      IntersectionTwice(binding, twos, f, h, target.parts, r.value);
    }
  }

  // ---------- which of the binding's placeholders are left ----------

  /** A placeholder of the binding occurs somewhere in the type. */
  ghost predicate Mentions(binding: Url, t: TypeDef) {
    match t
    case Placeholder(_, template, parameters) =>
      template == binding || exists p :: p in parameters && Mentions(binding, p)
    case Concrete(_, arguments) => exists a :: a in arguments && Mentions(binding, a)
    case Union(members) => exists m :: m in members && Mentions(binding, m)
    case Intersection(parts) => exists p :: p in parts && Mentions(binding, p)
    case NoReturn => false
    case Invalid => false
  }

  /** A placeholder of the binding occurs among the parameters of another template's
      placeholder, where resolution does not look. */
  ghost predicate Hides(binding: Url, t: TypeDef) {
    match t
    case Placeholder(_, template, _) => template != binding && Mentions(binding, t)
    case Concrete(_, arguments) => exists a :: a in arguments && Hides(binding, a)
    case Union(members) => exists m :: m in members && Hides(binding, m)
    case Intersection(parts) => exists p :: p in parts && Hides(binding, p)
    case NoReturn => false
    case Invalid => false
  }

  lemma ForUnionMentions(binding: Url, ts: set<TypeDef>)
    requires ForUnion(ts).Some?
    ensures Mentions(binding, ForUnion(ts).value) <==> exists t :: t in ts && Mentions(binding, t)
  {
    var u := ForUnion(ts).value;
    var flat := FlatAll(ts);
    assert Mentions(binding, u) <==> exists m :: m in flat && Mentions(binding, m);
    if m :| m in flat && Mentions(binding, m) {
      var t :| t in ts && m in Flat(t);
      assert Mentions(binding, t);
    }
    if t :| t in ts && Mentions(binding, t) {
      var m :| m in Flat(t) && Mentions(binding, m);
      assert m in flat;
    }
  }

  lemma ForIntersectionMentions(binding: Url, f: map<TypeDef, TypeDef>, parts: multiset<TypeDef>)
    requires Covers(f, parts) && ForIntersection(Image(f, parts)).Some?
    ensures Mentions(binding, ForIntersection(Image(f, parts)).value) <==>
              exists p :: p in parts && Mentions(binding, f[p])
  {
    var all := Image(f, parts);
    assert Mentions(binding, ForIntersection(all).value) <==> exists q :: q in all && Mentions(binding, q);
    if q :| q in all && Mentions(binding, q) {
      var p := ImageOnly(f, parts, q);
    }
    if p :| p in parts && Mentions(binding, f[p]) {
      ImageHas(f, parts, p);
    }
  }

  lemma {:induction false} LeavesOnlyTheHidden(binding: Url, args: seq<TypeDef>, target: TypeDef)
    requires Resolve(binding, args, target).Some?
    requires forall a :: a in args ==> !Mentions(binding, a)
    ensures Mentions(binding, Resolve(binding, args, target).value) <==> Hides(binding, target)
    decreases target
  {
    var r := Resolve(binding, args, target).value;
    match target
    case Placeholder(index, template, _) =>
    case NoReturn =>
    case Concrete(url, arguments) =>
      forall i | 0 <= i < |arguments|
        ensures Mentions(binding, r.arguments[i]) <==> Hides(binding, arguments[i])
      {
        assert Resolve(binding, args, arguments[i]) == Some(r.arguments[i]);
        LeavesOnlyTheHidden(binding, args, arguments[i]);
      }
    case Union(members) =>
      var ys := UnfoldUnion(binding, args, target);
      forall m | m in members
        ensures Mentions(binding, ys[m]) <==> Hides(binding, m)
      {
        LeavesOnlyTheHidden(binding, args, m);
      }
      ForUnionMentions(binding, ys.Values);
      UnionHides(binding, members, ys);
    case Intersection(parts) =>
      var ys := UnfoldIntersection(binding, args, target);
      forall p | p in parts
        ensures Mentions(binding, ys[p]) <==> Hides(binding, p)
      {
        LeavesOnlyTheHidden(binding, args, p);
      }
      ForIntersectionMentions(binding, ys, parts);
  }

  lemma UnionHides(binding: Url, members: set<TypeDef>, ys: map<TypeDef, TypeDef>)
    requires ys.Keys == members && forall m :: m in members ==> (Mentions(binding, ys[m]) <==> Hides(binding, m))
    ensures (exists y :: y in ys.Values && Mentions(binding, y)) <==> Hides(binding, Union(members))
  {
    if m :| m in members && Hides(binding, m) {
      assert ys[m] in ys.Values;
    }
  }

  /** A placeholder of the binding that stands among the parameters of another template's placeholder
      is left as it is. */
  lemma HiddenPlaceholderStays(binding: Url, other: Url, argument: TypeDef)
    requires other != binding && !Mentions(binding, argument)
    ensures var target := Placeholder(0, other, [Placeholder(0, binding, [])]);
            && WellFormed(target)
            && Resolve(binding, [argument], target) == Some(target)
            && Mentions(binding, target)
  {
    var inner := Placeholder(0, binding, []);
    assert Mentions(binding, inner);
    assert inner in [inner];
    assert forall p :: p in [inner] ==> WellFormed(p);
  }

  // ---------- what a binding resolves to ----------

  /** Each placeholder of the binding that resolution reaches has itself for its argument, and no invalid type is
      reached: a type without such placeholders, with any arguments, or any type with the placeholders themselves. */
  ghost predicate Fixes(binding: Url, args: seq<TypeDef>, t: TypeDef) {
    match t
    case Placeholder(index, template, _) => template == binding ==> index < |args| && args[index] == t
    case Concrete(_, arguments) => forall i :: 0 <= i < |arguments| ==> Fixes(binding, args, arguments[i])
    case Union(members) => forall m :: m in members ==> Fixes(binding, args, m)
    case Intersection(parts) => forall p :: p in parts ==> Fixes(binding, args, p)
    case NoReturn => true
    case Invalid => false
  }

  lemma {:induction false} ImageFixed(f: map<TypeDef, TypeDef>, m: multiset<TypeDef>)
    requires Covers(f, m) && forall x :: x in m ==> f[x] == x
    ensures Image(f, m) == m
    decreases |m|
  {
    if |m| != 0 {
      var x := Pick(m);
      ImageFixed(f, m - multiset{x});
      assert multiset{x} + (m - multiset{x}) == m;
    }
  }

  lemma ValuesFixed(f: map<TypeDef, TypeDef>)
    requires forall m :: m in f ==> f[m] == m
    ensures f.Values == f.Keys
  {
    forall m | m in f.Keys
      ensures m in f.Values
    {
      assert f[m] in f.Values;
    }
  }

  lemma FlatMembers(members: set<TypeDef>)
    requires forall m :: m in members ==> !m.Union?
    ensures FlatAll(members) == members
  {
    forall m
      ensures m in FlatAll(members) <==> m in members
    {
      if m in members {
        assert m in Flat(m);
      }
    }
  }

  /** A union is what its own members make. */
  lemma UnionOfMembers(target: TypeDef)
    requires WellFormed(target) && target.Union?
    ensures ForUnion(target.members) == Some(target)
  {
    FlatMembers(target.members);
    hide FlatAll;
  }

  lemma UnionFixed(images: map<TypeDef, Option<TypeDef>>, target: TypeDef)
    requires WellFormed(target) && target.Union? && images.Keys == target.members
    requires forall m :: m in images ==> images[m] == Some(m)
    ensures JoinUnion(images) == Some(target)
  {
    hide ForUnion, WellFormed;
    var f := map m | m in images :: images[m].value;
    ValuesFixed(f);
    assert f.Keys == images.Keys;
    UnionOfMembers(target);
  }

  /** An intersection is what its own parts make. */
  lemma IntersectionOfParts(target: TypeDef)
    requires WellFormed(target) && target.Intersection?
    ensures ForIntersection(target.parts) == Some(target)
  {
  }

  lemma IntersectionFixed(images: map<TypeDef, Option<TypeDef>>, target: TypeDef)
    requires WellFormed(target) && target.Intersection? && Covers(images, target.parts)
    requires forall p :: p in images ==> images[p] == Some(p)
    ensures JoinIntersection(images, target.parts) == Some(target)
  {
    hide ForIntersection, WellFormed, Image;
    var f := map p | p in images :: images[p].value;
    ImageFixed(f, target.parts);
    IntersectionOfParts(target);
  }

  /** A type whose placeholders stand for themselves resolves to itself. */
  lemma {:induction false} FixedResolves(binding: Url, args: seq<TypeDef>, target: TypeDef)
    requires WellFormed(target) && Fixes(binding, args, target)
    ensures Resolve(binding, args, target) == Some(target)
    decreases target
  {
    hide JoinUnion, JoinIntersection;
    match target
    case Placeholder(_, _, _) =>
    case NoReturn =>
    case Concrete(url, arguments) =>
      forall i | 0 <= i < |arguments|
        ensures Resolve(binding, args, arguments[i]) == Some(arguments[i])
      {
        FixedResolves(binding, args, arguments[i]);
      }
      var r := Resolve(binding, args, target);
      assert r.Some? && r.value.url == url && r.value.arguments == arguments;
    case Union(members) =>
      forall m | m in members
        ensures Resolve(binding, args, m) == Some(m)
      {
        FixedResolves(binding, args, m);
      }
      UnionFixed(map m | m in members :: Resolve(binding, args, m), target);
    case Intersection(parts) =>
      forall p | p in parts
        ensures Resolve(binding, args, p) == Some(p)
      {
        FixedResolves(binding, args, p);
      }
      IntersectionFixed(map p | p in parts :: Resolve(binding, args, p), target);
  }

  /** What a binding resolves to. One that is not generic: its target. A generic one: with arguments that its
      placeholders stand for themselves under, its target; if it is a placeholder of its own, the argument; and
      by composed arguments what its target becomes by the first and then by the second ones. */
  lemma TargetResolvesTo(symbol: BindingSymbol, args: seq<TypeDef>, twos: seq<TypeDef>, both: seq<TypeDef>)
    requires WellFormed(symbol.target) && Compose(symbol.url, args, twos, both)
    ensures !symbol.generic ==> ResolveTarget(symbol, []) == Some(symbol.target)
    ensures symbol.generic && Fixes(symbol.url, args, symbol.target) ==>
              ResolveTarget(symbol, args) == Some(symbol.target)
    ensures symbol.generic && Own(symbol.url, symbol.target) && symbol.target.index < |args| ==>
              ResolveTarget(symbol, args) == Some(args[symbol.target.index])
    ensures symbol.generic && ResolveTarget(symbol, args).Some? && ResolveTarget(symbol, both).Some? ==>
              var again := ResolveTarget(symbol.(target := ResolveTarget(symbol, args).value), twos);
              again.Some? ==> again == ResolveTarget(symbol, both)
  {
    if symbol.generic {
      if Fixes(symbol.url, args, symbol.target) {
        FixedResolves(symbol.url, args, symbol.target);
      }
      SuccessiveResolution(symbol.url, args, twos, both, symbol.target);
    }
  }
}
