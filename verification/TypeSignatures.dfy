/** Type signatures: the path of type handles from the root of the type hierarchy to a type. */
module TypeSignatures {

  datatype TypeComparison = Disjoint | Super | Equal | Extends

  /** What a comparison means: a type extends another when its path goes through it. */
  ghost function Comparison<T>(a: seq<T>, b: seq<T>): TypeComparison {
    if a == [] || b == [] then Disjoint
    else if a == b then Equal
    else if b < a then Extends
    else if a < b then Super
    else Disjoint
  }

  class TypeSignature<T(==)> {
    const signature: seq<T>

    constructor (signature: seq<T>)
      ensures this.signature == signature
    {
      this.signature := signature;
    }

    predicate IsValid() {
      signature != []
    }

    /** The first position at which the signatures differ, or where one ends, decides. */
    method Compare(other: TypeSignature<T>) returns (r: TypeComparison)
      ensures r == Comparison(signature, other.signature)
    {
      if signature == [] || other.signature == [] {
        return Disjoint;
      }
      var otherSize := |other.signature|;
      var i := 0;
      while i < |signature|
        invariant 0 <= i <= |signature| && i <= otherSize
        invariant signature[..i] == other.signature[..i]
      {
        if i == otherSize {
          assert other.signature[..i] == other.signature;
          assert other.signature < signature;
          return Extends;
        }
        if signature[i] != other.signature[i] {
          return Disjoint;
        }
        i := i + 1;
      }
      assert signature[..i] == signature;
      return if |signature| == otherSize then Equal else Super;
    }
  }

  lemma ExtendsConverse<T>(a: seq<T>, b: seq<T>)
    ensures Comparison(a, b) == Extends <==> Comparison(b, a) == Super
    ensures Comparison(a, b) == Equal <==> Comparison(b, a) == Equal
  {
  }

  lemma PrefixOrEqual<T>(a: seq<T>, b: seq<T>)
    requires a <= b
    ensures a == b || a < b
    ensures a == b[..|a|]
  {
    if |a| == |b| {
      assert b[..|a|] == b;
    }
  }

  lemma ExtendsTransitive<T>(a: seq<T>, b: seq<T>, c: seq<T>)
    requires Comparison(a, b) == Extends && Comparison(b, c) == Extends
    ensures Comparison(a, c) == Extends
  {
    PrefixOrEqual(c, b);
    PrefixOrEqual(b, a);
    assert a[..|b|][..|c|] == a[..|c|];
  }

  /** Any two types that a common type extends or equals are related to each other: the
      ancestors of a type form a chain. */
  lemma AncestorsComparable<T>(a: seq<T>, b: seq<T>, c: seq<T>)
    requires Comparison(c, a) == Extends || Comparison(c, a) == Equal
    requires Comparison(c, b) == Extends || Comparison(c, b) == Equal
    ensures Comparison(a, b) != Disjoint
  {
    PrefixOrEqual(a, c);
    PrefixOrEqual(b, c);
    if |a| <= |b| {
      assert b[..|a|] == c[..|b|][..|a|] == c[..|a|];
    } else {
      assert a[..|b|] == c[..|a|][..|b|] == c[..|b|];
    }
  }

  /** Of two types that neither extend each other nor are equal, no type extends both. */
  lemma DisjointStaysDisjoint<T>(a: seq<T>, b: seq<T>, c: seq<T>)
    requires a != [] && b != [] && Comparison(a, b) == Disjoint && Comparison(c, a) == Extends
    ensures Comparison(c, b) == Disjoint
  {
    ExtendsConverse(a, b);
    ExtendsConverse(c, b);
    if Comparison(c, b) == Super {
      ExtendsTransitive(b, c, a);
    }
    if Comparison(c, b) == Extends || Comparison(c, b) == Equal {
      AncestorsComparable(a, b, c);
    }
  }
}
