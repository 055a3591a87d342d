/**
 * The logic-bearing part of the category of Lie algebras: the bracket with
 * coercion, the abelian and commutative tests over a finite list of
 * generators, the name of the category's objects, the rule that a finite
 * dimensional Lie algebra over a finite ring is a finite set, the Jacobi
 * and antisymmetry test loops, and the lift morphism built once per
 * algebra.
 *
 * The bracket `_bracket_`, the addition and the zero of an algebra are
 * parameters: nothing is assumed about them except where a lemma says so.
 */
module LieAlgebras {
  import opened Wrappers

  /** The operations of one Lie algebra on its elements E. */
  datatype Ops<!E> = Ops(add: (E, E) -> E, zero: E, br: (E, E) -> E)

  /** The errors raised here. */
  datatype Error =
    | InfinitelyGenerated          // NotImplementedError: infinite number of generators
    | SubalgebrasNotImplemented   // NotImplementedError: subalgebras not yet implemented

  // ---------------------------------------------------------------------
  // The bracket
  // ---------------------------------------------------------------------

  /** [lhs, rhs]: both arguments are first coerced into the algebra. */
  function Bracket<X, E>(o: Ops<E>, coerce: X -> E, lhs: X, rhs: X): E
  {
    o.br(coerce(lhs), coerce(rhs))
  }

  /** Addition with a neutral zero on both sides and cancellation on the left. */
  ghost predicate AdditiveGroupLaws<E(!new)>(o: Ops<E>)
  {
    && (forall x :: o.add(o.zero, x) == x)
    && (forall x :: o.add(x, o.zero) == x)
    && (forall x, y, z :: o.add(x, y) == o.add(x, z) ==> y == z)
  }

  /** The bracket distributes over addition in each argument. */
  ghost predicate Biadditive<E(!new)>(o: Ops<E>)
  {
    && (forall a, b, y :: o.br(o.add(a, b), y) == o.add(o.br(a, y), o.br(b, y)))
    && (forall y, a, b :: o.br(y, o.add(a, b)) == o.add(o.br(y, a), o.br(y, b)))
  }

  /** An element equal to its own double is zero. */
  lemma DoubleIsZero<E(!new)>(o: Ops<E>, v: E)
    requires AdditiveGroupLaws(o) && o.add(v, v) == v
    ensures v == o.zero
  {
    assert o.add(v, v) == o.add(v, o.zero);
  }

  /** [0, c] = 0, from additivity in the first argument. */
  lemma ZeroBracketLeft<E(!new)>(o: Ops<E>, c: E)
    requires AdditiveGroupLaws(o) && Biadditive(o)
    ensures o.br(o.zero, c) == o.zero
  {
    assert o.add(o.zero, o.zero) == o.zero;
    assert o.br(o.add(o.zero, o.zero), c) == o.add(o.br(o.zero, c), o.br(o.zero, c));
    DoubleIsZero(o, o.br(o.zero, c));
  }

  /** [c, 0] = 0, from additivity in the second argument. */
  lemma ZeroBracketRight<E(!new)>(o: Ops<E>, c: E)
    requires AdditiveGroupLaws(o) && Biadditive(o)
    ensures o.br(c, o.zero) == o.zero
  {
    assert o.add(o.zero, o.zero) == o.zero;
    assert o.br(c, o.add(o.zero, o.zero)) == o.add(o.br(c, o.zero), o.br(c, o.zero));
    DoubleIsZero(o, o.br(c, o.zero));
  }

  /**
   * Bracketing with something that coerces to zero gives zero, on either
   * side: a consequence of biadditivity alone.
   */
  lemma BracketWithZero<X, E(!new)>(o: Ops<E>, coerce: X -> E, z: X, y: X)
    requires AdditiveGroupLaws(o) && Biadditive(o) && coerce(z) == o.zero
    ensures Bracket(o, coerce, z, y) == o.zero
    ensures Bracket(o, coerce, y, z) == o.zero
  {
    ZeroBracketLeft(o, coerce(y));
    ZeroBracketRight(o, coerce(y));
  }

  // ---------------------------------------------------------------------
  // Abelian and commutative
  // ---------------------------------------------------------------------

  /** The Lie algebra generators: a finite enumerated list, or not. */
  datatype Generators<E> = FiniteGenerators(gens: seq<E>) | InfiniteGenerators

  /** Every [x, y] with y in ys is zero. */
  function RowBracketsZero<E(==)>(o: Ops<E>, x: E, ys: seq<E>): bool
  {
    if |ys| == 0 then true
    else o.br(x, ys[0]) == o.zero && RowBracketsZero(o, x, ys[1..])
  }

  /** Every [x, y] with x in xs and y in ys is zero, checked row by row. */
  function AllBracketsZero<E(==)>(o: Ops<E>, xs: seq<E>, ys: seq<E>): bool
  {
    if |xs| == 0 then true
    else RowBracketsZero(o, xs[0], ys) && AllBracketsZero(o, xs[1..], ys)
  }

  lemma {:induction false} RowBracketsZeroIff<E>(o: Ops<E>, x: E, ys: seq<E>)
    ensures RowBracketsZero(o, x, ys) <==> forall j :: 0 <= j < |ys| ==> o.br(x, ys[j]) == o.zero
  {
    if |ys| > 0 {
      RowBracketsZeroIff(o, x, ys[1..]);
      assert forall j :: 1 <= j < |ys| ==> ys[j] == ys[1..][j - 1];
    }
  }

  lemma {:induction false} AllBracketsZeroIff<E>(o: Ops<E>, xs: seq<E>, ys: seq<E>)
    ensures AllBracketsZero(o, xs, ys) <==>
            forall i, j :: 0 <= i < |xs| && 0 <= j < |ys| ==> o.br(xs[i], ys[j]) == o.zero
  {
    if |xs| > 0 {
      AllBracketsZeroIff(o, xs[1..], ys);
      RowBracketsZeroIff(o, xs[0], ys);
      assert forall i :: 1 <= i < |xs| ==> xs[i] == xs[1..][i - 1];
    }
  }

  /** Whether the algebra is abelian: every ordered pair of generators, x = y included, brackets to zero. */
  function IsAbelian<E(==)>(o: Ops<E>, g: Generators<E>): Result<bool, Error>
  {
    match g
    case InfiniteGenerators => Failure(InfinitelyGenerated)
    case FiniteGenerators(gs) => Success(AllBracketsZero(o, gs, gs))
  }

  /** The abelian test answers for finite generators only, and says yes exactly when all their brackets vanish. */
  lemma IsAbelianIff<E>(o: Ops<E>, g: Generators<E>)
    ensures IsAbelian(o, g).Success? <==> g.FiniteGenerators?
    ensures g.InfiniteGenerators? ==> IsAbelian(o, g) == Failure(InfinitelyGenerated)
    ensures g.FiniteGenerators? ==>
            (IsAbelian(o, g) == Success(true) <==>
             forall i, j :: 0 <= i < |g.gens| && 0 <= j < |g.gens| ==> o.br(g.gens[i], g.gens[j]) == o.zero)
  {
    if g.FiniteGenerators? {
      AllBracketsZeroIff(o, g.gens, g.gens);
    }
  }

  /** Commutative means abelian: the same answer, with the same error. */
  function IsCommutative<E(==)>(o: Ops<E>, g: Generators<E>): (r: Result<bool, Error>)
    ensures r.Success? <==> g.FiniteGenerators?
    ensures g.InfiniteGenerators? ==> r == Failure(InfinitelyGenerated)
    ensures g.FiniteGenerators? ==>
            (r == Success(true) <==>
             forall i, j :: 0 <= i < |g.gens| && 0 <= j < |g.gens| ==> o.br(g.gens[i], g.gens[j]) == o.zero)
  {
    IsAbelianIff(o, g);
    IsAbelian(o, g)
  }

  /** [x, y] = [y, x] = 0 for one generator x: a single generator brackets to zero with itself. */
  lemma IsAbelianSingleGenerator<E>(o: Ops<E>, x: E)
    ensures IsAbelian(o, FiniteGenerators([x])) == Success(o.br(x, x) == o.zero)
  {
    var gs := [x];
    assert gs[1..] == [];
    assert RowBracketsZero(o, x, gs[1..]);
    assert AllBracketsZero(o, gs[1..], gs);
    assert RowBracketsZero(o, x, gs) == (o.br(x, x) == o.zero);
  }

  // ---------------------------------------------------------------------
  // Subalgebras
  // ---------------------------------------------------------------------

  /** Subalgebras are not implemented: every request fails. */
  function Subalgebra<E>(gens: seq<E>): (r: Result<seq<E>, Error>)
    ensures r == Failure(SubalgebrasNotImplemented)
  {
    Failure(SubalgebrasNotImplemented)
  }

  // ---------------------------------------------------------------------
  // The name of the objects and the finite super-category
  // ---------------------------------------------------------------------

  /**
   * The base of the category: a ring, shown by its name; a category, shown
   * by the name of its objects; or a join of categories, shown by the names
   * of the objects of each of its super-categories.
   */
  datatype Base =
    | RingBase(ringName: string)
    | CategoryBase(objectNames: string)
    | JoinBase(partNames: seq<string>)

  const Prefix: string := "Lie algebras over "

  /** The parentheses around the name of a join. */
  const Open: char := '('
  const Close: char := ')'

  /** The parts separated by sep, as Python's str.join does it. */
  function Join(parts: seq<string>, sep: string): string
  {
    if |parts| == 0 then ""
    else if |parts| == 1 then parts[0]
    else parts[0] + sep + Join(parts[1..], sep)
  }

  /** The joined string holds every part and one separator between each two. */
  lemma {:induction false} JoinLength(parts: seq<string>, sep: string)
    ensures |parts| > 0 ==> |Join(parts, sep)| == SumOfLengths(parts) + (|parts| - 1) * |sep|
    ensures |parts| == 0 ==> Join(parts, sep) == ""
  {
    if |parts| > 1 {
      JoinLength(parts[1..], sep);
    }
  }

  function SumOfLengths(parts: seq<string>): nat
  {
    if |parts| == 0 then 0 else |parts[0]| + SumOfLengths(parts[1..])
  }

  /** The first part opens the joined string. */
  lemma JoinStartsWithFirst(parts: seq<string>, sep: string)
    requires |parts| > 0
    ensures Join(parts, sep)[..|parts[0]|] == parts[0]
  {
  }

  function BaseName(b: Base): string
  {
    match b
    case RingBase(n) => n
    case CategoryBase(n) => n
    case JoinBase(parts) => [Open] + Join(parts, " and ") + [Close]
  }

  /** "Lie algebras over " followed by the base's name; a join's name is parenthesised. */
  function ReprObjectNames(b: Base): (r: string)
    ensures |r| == |Prefix| + |BaseName(b)|
    ensures r[..|Prefix|] == Prefix && r[|Prefix|..] == BaseName(b)
    ensures b.JoinBase? ==> r[|Prefix|] == Open && r[|r| - 1] == Close
  {
    Prefix + BaseName(b)
  }

  /**
   * The name over a join of n >= 1 categories: after the prefix, the
   * parenthesised names of the parts, the first one right after the opening
   * parenthesis, with n - 1 separators " and " between them.
   */
  lemma ReprObjectNamesJoin(parts: seq<string>)
    requires |parts| > 0
    ensures var r := ReprObjectNames(JoinBase(parts));
      && |r| == |Prefix| + 2 + SumOfLengths(parts) + (|parts| - 1) * |" and "|
      && r[|Prefix| + 1..|Prefix| + 1 + |parts[0]|] == parts[0]
  {
    var j := Join(parts, " and ");
    JoinLength(parts, " and ");
    JoinStartsWithFirst(parts, " and ");
    var r := ReprObjectNames(JoinBase(parts));
    assert r == Prefix + [Open] + j + [Close];
    assert r[|Prefix| + 1..|Prefix| + 1 + |parts[0]|] == j[..|parts[0]|];
  }

  /** The name of Lie algebras over the join of flying unital blahs and fields. */
  lemma ReprObjectNamesJoinExample()
    ensures ReprObjectNames(JoinBase(["flying unital blahs", "fields"]))
            == Prefix + [Open] + "flying unital blahs and fields" + [Close]
  {
    var parts := ["flying unital blahs", "fields"];
    assert parts[1..] == ["fields"];
    assert Join(parts[1..], " and ") == "fields";
    assert Join(parts, " and ") == "flying unital blahs and fields";
  }

  lemma ReprObjectNamesRingExample()
    ensures ReprObjectNames(RingBase("Rational Field")) == "Lie algebras over Rational Field"
  {
  }

  /** The categories this part of the model can name. */
  datatype Category = FiniteSets

  /** A base ring, with whether it is finite. */
  datatype Ring = Ring(name: string, finite: bool)

  /** A finite dimensional Lie algebra over a finite ring is a finite set; over any other ring nothing is added. */
  function ExtraSuperCategories(base: Ring): (r: seq<Category>)
    ensures base.finite <==> r == [FiniteSets]
    ensures !base.finite <==> r == []
  {
    if base.finite then [FiniteSets] else []
  }

  // ---------------------------------------------------------------------
  // The axiom test loops
  // ---------------------------------------------------------------------

  /** [x, [y, z]] + [y, [z, x]] + [z, [x, y]], summed left to right. */
  function JacobiSum<E>(o: Ops<E>, x: E, y: E, z: E): E
  {
    o.add(o.add(o.br(x, o.br(y, z)), o.br(y, o.br(z, x))), o.br(z, o.br(x, y)))
  }

  /** [x, [y, z]] + [y, [z, x]] + [z, [x, y]] = 0 for every z in zs. */
  predicate JacobiOn<E(==)>(o: Ops<E>, x: E, y: E, zs: seq<E>)
  {
    forall c :: 0 <= c < |zs| ==> JacobiSum(o, x, y, zs[c]) == o.zero
  }

  /** The Jacobi identity on every triple of elts whose first two entries differ. */
  predicate JacobiHolds<E(==)>(o: Ops<E>, elts: seq<E>)
  {
    forall a, b :: 0 <= a < |elts| && 0 <= b < |elts| && elts[a] != elts[b] ==> JacobiOn(o, elts[a], elts[b], elts)
  }

  /**
   * The Jacobi test: triple loop over elts, skipping x = y; it stops at the
   * first failing assertion. It passes exactly when the identity holds.
   */
  method TestJacobiIdentity<E(==)>(o: Ops<E>, elts: seq<E>) returns (ok: bool)
    ensures ok <==> JacobiHolds(o, elts)
  {
    var n := |elts|;
    var i := 0;
    while i < n
      invariant 0 <= i <= n
      invariant forall a, b :: 0 <= a < i && 0 <= b < n && elts[a] != elts[b] ==> JacobiOn(o, elts[a], elts[b], elts)
    {
      var j := 0;
      while j < n
        invariant 0 <= j <= n
        invariant forall b :: 0 <= b < j && elts[i] != elts[b] ==> JacobiOn(o, elts[i], elts[b], elts)
      {
        if elts[i] != elts[j] {
          var k := 0;
          while k < n
            invariant 0 <= k <= n
            invariant forall c :: 0 <= c < k ==> JacobiSum(o, elts[i], elts[j], elts[c]) == o.zero
          {
            if JacobiSum(o, elts[i], elts[j], elts[k]) != o.zero {
              assert !JacobiOn(o, elts[i], elts[j], elts);
              return false;
            }
            k := k + 1;
          }
        }
        j := j + 1;
      }
      i := i + 1;
    }
    return true;
  }

  /** Antisymmetry in its alternating form: [x, x] = 0 for every x in elts. */
  predicate AntisymmetryHolds<E(==)>(o: Ops<E>, elts: seq<E>)
  {
    forall a :: 0 <= a < |elts| ==> o.br(elts[a], elts[a]) == o.zero
  }

  /** The antisymmetry test: one loop over elts, stopping at the first failing assertion. */
  method TestAntisymmetry<E(==)>(o: Ops<E>, elts: seq<E>) returns (ok: bool)
    ensures ok <==> AntisymmetryHolds(o, elts)
  {
    var i := 0;
    while i < |elts|
      invariant 0 <= i <= |elts|
      invariant forall a :: 0 <= a < i ==> o.br(elts[a], elts[a]) == o.zero
    {
      if o.br(elts[i], elts[i]) != o.zero {
        return false;
      }
      i := i + 1;
    }
    return true;
  }

  /** Generators that pass the abelian test also pass the antisymmetry test. */
  lemma AbelianGeneratorsAntisymmetric<E>(o: Ops<E>, gs: seq<E>)
    requires IsAbelian(o, FiniteGenerators(gs)) == Success(true)
    ensures AntisymmetryHolds(o, gs)
  {
    IsAbelianIff(o, FiniteGenerators(gs));
  }

  /**
   * When every bracket among elts vanishes and the bracket is biadditive,
   * the Jacobi test passes on elts: each term brackets with zero.
   */
  lemma AbelianElementsJacobi<E(!new)>(o: Ops<E>, elts: seq<E>)
    requires AdditiveGroupLaws(o) && Biadditive(o)
    requires AllBracketsZero(o, elts, elts)
    ensures JacobiHolds(o, elts)
  {
    AllBracketsZeroIff(o, elts, elts);
    forall a, b | 0 <= a < |elts| && 0 <= b < |elts|
      ensures JacobiOn(o, elts[a], elts[b], elts)
    {
      forall c | 0 <= c < |elts|
        ensures JacobiSum(o, elts[a], elts[b], elts[c]) == o.zero
      {
        JacobiOfVanishingBrackets(o, elts[a], elts[b], elts[c]);
      }
    }
  }

  lemma JacobiOfVanishingBrackets<E(!new)>(o: Ops<E>, x: E, y: E, z: E)
    requires AdditiveGroupLaws(o) && Biadditive(o)
    requires o.br(y, z) == o.zero && o.br(z, x) == o.zero && o.br(x, y) == o.zero
    ensures JacobiSum(o, x, y, z) == o.zero
  {
    ZeroBracketRight(o, x);
    ZeroBracketRight(o, y);
    ZeroBracketRight(o, z);
    assert o.add(o.zero, o.zero) == o.zero;
  }

  // ---------------------------------------------------------------------
  // The lift to the universal enveloping algebra, built once
  // ---------------------------------------------------------------------

  /** The lift morphism from an algebra to its universal enveloping algebra. */
  datatype LiftMorphism = LiftMorphism(source: string, target: string)

  /**
   * A Lie algebra parent as far as `lift` is concerned: the lazily built
   * lift morphism and the coercions it has registered.
   */
  class LieAlgebraParent {
    const name: string
    var liftCache: Option<LiftMorphism>
    var coercions: seq<LiftMorphism>

    /** Before the first access nothing is built or registered; afterwards one morphism out of this algebra is, once. */
    predicate Valid()
      reads this
    {
      && (liftCache.None? ==> coercions == [])
      && (liftCache.Some? ==> coercions == [liftCache.value] && liftCache.value.source == name)
    }

    constructor(name: string)
      ensures Valid()
      ensures this.name == name && liftCache == None && coercions == []
    {
      this.name := name;
      liftCache := None;
      coercions := [];
    }

    /**
     * The lift: on first access it is built towards the universal
     * enveloping algebra `uea` constructs and registered as a coercion;
     * every later access returns the same morphism and registers nothing.
     */
    method Lift(uea: string) returns (m: LiftMorphism)
      requires Valid()
      modifies this
      ensures Valid()
      ensures liftCache == Some(m) && |coercions| == 1
      ensures old(liftCache).Some? ==> m == old(liftCache).value && coercions == old(coercions)
      ensures old(liftCache).None? ==> m == LiftMorphism(name, uea) && coercions == old(coercions) + [m]
    {
      if liftCache.Some? {
        return liftCache.value;
      }
      m := LiftMorphism(name, uea);
      coercions := coercions + [m];
      liftCache := Some(m);
    }
  }
}
