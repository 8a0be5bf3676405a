/** The accessors of continuous generalized series: the exponential part,
    the tail, the tests for zero, one, logarithms and a nontrivial
    exponential part, and the precision. */
module ContinuousParts {
  import opened Numbers
  import opened Polynomials
  import PS = PowerSeries
  import T = Tails
  import opened Outcomes
  import opened Continuous

  /** `is_zero()`: the tail is zero. */
  predicate IsZero(a: CSeries) {
    a.tail == []
  }

  /** Zero is represented in exactly one way. */
  lemma IsZeroIff(a: CSeries)
    requires Valid(a)
    ensures IsZero(a) <==> a == Zero
  {
  }

  /** Deflating the exact one gives the exact one. */
  lemma DeflateOne(q: nat)
    requires q > 0
    ensures T.Deflate(T.One, q) == T.One
  {
    assert Polynomials.AllMultiples(PS.One.c, q) by {
      forall i | 0 <= i < |PS.One.c| && PS.One.c[i] != 0.0 ensures i % q == 0 {
        assert i == 0;
      }
    }
    var d := Polynomials.Deflate(PS.One.c, q);
    forall i | 0 <= i ensures Coef(d, i) == Coef(PS.One.c, i) {
      if i > 0 {
        MulStrict(0, i, q);
      }
    }
    CanonicalExt(d, PS.One.c);
  }

  /** `exponential_part()`: the series with the same exponential part and
      ramification and the tail one. Its order is the order of the series. */
  function ExponentialPart(a: CSeries): (r: CSeries)
    requires Valid(a)
    ensures Valid(r) && r.tail == T.One && Divides(r.ram, a.ram)
    ensures Order(r) == Some(Coef(a.exp, 0))
    ensures a.tail != [] ==> Order(r) == Order(a)
    ensures a.ram / r.ram > 0 && Inflate(r.exp, a.ram / r.ram) == a.exp
  {
    NormalizeOneTail(a.exp, a.ram);
    AddNothing(a.exp);
    Normalize(T.One, a.exp, a.ram, false).value
  }

  /** Adding the constant zero changes nothing. */
  lemma AddNothing(p: Poly)
    requires Canonical(p)
    ensures AddConstant(p, 0.0) == p
  {
    CanonicalExt(AddConstant(p, 0.0), p);
  }

  /** The constructor keeps the tail one. */
  lemma NormalizeOneTail(exp: Poly, ram: nat)
    requires Canonical(exp) && ram > 0
    ensures Normalize(T.One, exp, ram, false).value.tail == T.One
  {
    var r := Normalize(T.One, exp, ram, false).value;
    assert PS.Ord(PS.One) == 0 by {
      ValuationAt(PS.One.c, 0);
    }
    if r.ram != ram {
      DeflateOne(ram / r.ram);
    }
  }

  /** `exp(x^(-2/2)/(-1)) · (1 + x^(1/2))`, stored with ramification 2. */
  const HalfTail: CSeries := CSeries(2, [0.0, 0.0, 1.0], [PS.Series([1.0, 1.0], PS.Inf)])

  /** The exponential part of `HalfTail` needs no ramification: the
      constructor stores it with ramification 1, where its exponential part
      is `[0, 1]`, not the `[0, 0, 1]` of the series. */
  lemma ExponentialPartLowersRam()
    ensures Valid(HalfTail)
    ensures ExponentialPart(HalfTail) == CSeries(1, [0.0, 1.0], T.One)
  {
    HalfTailValid();
    assert PS.Ord(PS.One) == 0 by {
      ValuationAt(PS.One.c, 0);
    }
    NormalizeUnfolded(T.One, HalfTail.exp, 2);
    HalfExponentNeedsNoRamification();
    DeflateOne(2);
    HalfExponentDeflated();
  }

  lemma HalfExponentDeflated()
    ensures Polynomials.Deflate(HalfTail.exp, 2) == [0.0, 1.0]
  {
    var d := Polynomials.Deflate(HalfTail.exp, 2);
    assert |d| == 2 && d[0] == Coef(HalfTail.exp, 0) && d[1] == Coef(HalfTail.exp, 2);
  }

  lemma HalfTailValid()
    ensures Valid(HalfTail)
  {
    var a := HalfTail;
    assert PS.Ord(a.tail[0]) == 0 by {
      ValuationAt(a.tail[0].c, 0);
    }
    forall q | 1 < q <= 2 && Divides(q, 2) ensures !Multiples(a.exp, a.tail, q) {
      assert q == 2 && a.tail[0].c[1] != 0.0;
    }
  }

  /** `x^(-2/2)` alone needs ramification 1. */
  lemma HalfExponentNeedsNoRamification()
    ensures NewRam(HalfTail.exp, T.One, 2) == 1
  {
    var p := HalfTail.exp;
    forall e | 0 <= e < |p| && p[e] != 0.0 ensures Divides(Den(e, 2), 1) {
      assert e == 2;
      GcdDivides(2, 2);
    }
    forall e | 0 <= e < |PS.One.c| && PS.One.c[e] != 0.0 ensures Divides(Den(e, 2), 1) {
      assert e == 0;
      GcdDivides(0, 2);
    }
    assert TailDensDivide(T.One, 2, 1);
    NewRamLeast(p, T.One, 2, 1);
  }

  /** Taking the exponential part twice changes nothing. */
  lemma ExponentialPartIdempotent(a: CSeries)
    requires Valid(a)
    ensures ExponentialPart(ExponentialPart(a)) == ExponentialPart(a)
  {
    NormalizeFixpoint(ExponentialPart(a));
  }

  /** `tail()`: the series with the same tail and ramification and
      exponential part zero; it has order zero unless it is zero. */
  function TailPart(a: CSeries): (r: CSeries)
    requires Valid(a)
    ensures Valid(r) && Divides(r.ram, a.ram) && r.exp == [] && |r.tail| == |a.tail|
    ensures a.tail == [] ==> r == Zero
    ensures a.tail != [] ==> Order(r) == Some(0.0)
    ensures a.tail != [] ==>
      a.ram / r.ram > 0 && forall j :: 0 <= j < |a.tail| ==> Inflate(r.tail[j].c, a.ram / r.ram) == a.tail[j].c
  {
    NormalizeNoExponent(a.tail, a.ram);
    var r := Normalize(a.tail, [], a.ram, false).value;
    if a.tail == [] then r
    else
      TailPartContent(a, r);
      r
  }

  /** Put back into the series' ramification, the tail of `tail()` is the series' own. */
  lemma TailPartContent(a: CSeries, r: CSeries)
    requires Valid(a) && a.tail != [] && r == Normalize(a.tail, [], a.ram, false).value
    ensures |r.tail| == |a.tail| && r.ram > 0 && a.ram / r.ram > 0
    ensures forall j :: 0 <= j < |a.tail| ==> Inflate(r.tail[j].c, a.ram / r.ram) == a.tail[j].c
  {
  }

  /** A tail of order zero keeps exponential part zero through the constructor. */
  lemma NormalizeNoExponent(tail: T.Tail, ram: nat)
    requires T.ValidTail(tail) && ram > 0 && (tail != [] ==> T.MinOrd(tail) == 0)
    ensures Normalize(tail, [], ram, false).value.exp == []
  {
    if tail != [] {
      NormalizeUnfolded(tail, [], ram);
      var r := Normalize(tail, [], ram, false).value;
      if r.ram != ram {
        CanonicalExt(r.exp, []);
      }
    }
  }

  /** Taking the tail twice changes nothing. */
  lemma TailPartIdempotent(a: CSeries)
    requires Valid(a)
    ensures TailPart(TailPart(a)) == TailPart(a)
  {
    NormalizeFixpoint(TailPart(a));
  }

  /** `has_exponential_part()` as written: the exponential part is tested for
      zero, but its tail is one, so the test never fails. */
  predicate HasExponentialPartAsWritten(a: CSeries)
    requires Valid(a)
  {
    !IsZero(ExponentialPart(a))
  }

  lemma HasExponentialPartAlwaysTrue(a: CSeries)
    requires Valid(a)
    ensures HasExponentialPartAsWritten(a)
  {
  }

  /** `has_exponential_part()` as documented: the exponential part is not
      trivial, that is, the polynomial representing it is not zero. */
  predicate HasExponentialPart(a: CSeries) {
    a.exp != []
  }

  /** `1 + x + x^2`, which has no exponential part. */
  const OnePlusXPlusX2: CSeries := CSeries(1, [], [PS.Series([1.0, 1.0, 1.0], PS.Inf)])

  /** The documented example `G(1+x+x^2).has_exponential_part()` answers
      false; the test as written answers true. */
  lemma HasExponentialPartExample()
    ensures Valid(OnePlusXPlusX2)
    ensures !HasExponentialPart(OnePlusXPlusX2) && HasExponentialPartAsWritten(OnePlusXPlusX2)
  {
    var a := OnePlusXPlusX2;
    assert PS.Ord(a.tail[0]) == 0 by {
      ValuationAt(a.tail[0].c, 0);
    }
    assert T.MinOrd(a.tail) == 0;
    assert Minimal(a);
  }

  /** `is_one()` as written, built on the test above: always false. */
  predicate IsOneAsWritten(a: CSeries)
    requires Valid(a)
  {
    !HasExponentialPartAsWritten(a) && T.IsOne(a.tail)
  }

  lemma IsOneAsWrittenNever(a: CSeries)
    requires Valid(a)
    ensures !IsOneAsWritten(a)
  {
  }

  /** `is_one()` with the documented test: no exponential part and tail one. */
  predicate IsOne(a: CSeries) {
    !HasExponentialPart(a) && T.IsOne(a.tail)
  }

  /** The one is recognized by the corrected test and missed by the test as written. */
  lemma OneIsOne()
    ensures Valid(One) && IsOne(One) && !IsOneAsWritten(One)
  {
    assert PS.Ord(PS.One) == 0 by {
      ValuationAt(PS.One.c, 0);
    }
    assert T.MinOrd(One.tail) == 0;
  }

  /** A valid series passes the corrected test exactly when it equals the
      one, as the library compares series. */
  lemma IsOneIff(a: CSeries)
    requires Valid(a)
    ensures IsOne(a) <==> Equal(a, One)
  {
    if IsOne(a) {
      assert a.ram == 1 by {
        if a.ram > 1 {
          assert Multiples(a.exp, a.tail, a.ram) by {
            forall i | 0 <= i < |a.tail[0].c| && a.tail[0].c[i] != 0.0 ensures i % a.ram == 0 {
              assert i == 0;
            }
          }
          DividesWitness(a.ram, a.ram, 1);
        }
      }
      assert PS.Equal(a.tail[0], PS.One);
    }
    if Equal(a, One) {
      var s := a.tail[0];
      assert PS.Equal(s, PS.One);
      assert PS.PMin(s.prec, PS.Inf) == s.prec;
      assert s.prec.Fin? ==> s.prec.n >= 1;
      assert Coef(s.c, 0) == 1.0;
      forall i | 0 <= i ensures Coef(s.c, i) == Coef([1.0], i) {
        if s.prec.Fin? && i >= s.prec.n {
          assert i >= |s.c|;
        }
      }
      CanonicalExt(s.c, [1.0]);
    }
  }

  /** `has_logarithms()` as written computes the test and discards it: the
      caller always receives nothing, which reads as false. */
  function HasLogarithmsAsWritten(a: CSeries): (r: Option<bool>)
    ensures r.None?
  {
    None
  }

  /** `has_logarithms()` as intended: the tail has positive degree in `LOG`. */
  predicate HasLogarithms(a: CSeries) {
    T.Degree(a.tail) > 0
  }

  /** `prec()`: the smallest precision among the nonzero coefficients of the
      tail; infinite for zero. */
  function Prec(a: CSeries): (p: PS.Prec)
    ensures a.tail == [] ==> p == PS.Inf
    ensures forall j :: 0 <= j < |a.tail| && !PS.IsZero(a.tail[j]) ==> T.PLe(p, a.tail[j].prec)
    ensures p.Fin? ==> exists j :: 0 <= j < |a.tail| && !PS.IsZero(a.tail[j]) && a.tail[j].prec == p
  {
    T.Prec(a.tail)
  }

  // ---------------------------------------------------------------------------
  // The documented examples of `ramification()`

  const Quadratic: PS.Series := PS.Series([1.0, 1.0, 1.0], PS.Inf)
  const Quartic: PS.Series := PS.Series([1.0, 0.0, 1.0, 0.0, 1.0], PS.Inf)

  /** `G(1+x+x^2, ramification=2)` keeps ramification 2: the odd
      exponent `1/2` needs it. */
  lemma RamificationKept()
    ensures Normalize([Quadratic], [], 2, false) == Ok(CSeries(2, [], [Quadratic]))
  {
    assert PS.Ord(Quadratic) == 0 by {
      ValuationAt(Quadratic.c, 0);
    }
    NormalizeUnfolded([Quadratic], [], 2);
    QuadraticNeedsRamification();
  }

  /** Every ramification that makes the exponents of `1+x+x^2` over 2
      integral is even: the exponent `1/2` has denominator 2. */
  lemma QuadraticDenominator(m: nat)
    ensures TailDensDivide([Quadratic], 2, m) ==> Divides(2, m)
  {
    if TailDensDivide([Quadratic], 2, m) {
      assert DensDivide([Quadratic][0].c, 2, m);
      assert Quadratic.c[1] != 0.0;
      assert Den(1, 2) == 2 by {
        GcdDivides(1, 2);
      }
    }
  }

  /** The ramification of `1+x+x^2` over 2 cannot be lowered. */
  lemma QuadraticNeedsRamification()
    ensures NewRam([], [Quadratic], 2) == 2
  {
    var n := NewRam([], [Quadratic], 2);
    NewRamDivides([], [Quadratic], 2);
    NewRamCovers([], [Quadratic], 2);
    QuadraticDenominator(n);
    if Divides(2, n) {
      DividesAntisym(n, 2);
    }
  }

  /** `G(1+x^2+x^4, ramification=2)` is `1+x+x^2` with ramification 1. */
  lemma RamificationReduced()
    ensures Normalize([Quartic], [], 2, false) == Ok(CSeries(1, [], [Quadratic]))
  {
    assert PS.Ord(Quartic) == 0 by {
      ValuationAt(Quartic.c, 0);
    }
    NormalizeUnfolded([Quartic], [], 2);
    QuarticReduced();
  }

  /** The reduction of the ramification turns `1+x^2+x^4` over 2 into `1+x+x^2` over 1. */
  lemma QuarticReduced()
    ensures ReduceRam([], [Quartic], 2) == CSeries(1, [], [Quadratic])
  {
    QuarticNeedsNoRamification();
    var s := ReduceRam([], [Quartic], 2);
    var t := T.Deflate([Quartic], 2);
    assert s.tail == t && s.exp == Polynomials.Deflate([], 2);
    QuarticDeflated();
    assert t == [Quadratic];
  }

  lemma QuarticNeedsNoRamification()
    ensures NewRam([], [Quartic], 2) == 1
  {
    forall e | 0 <= e < |Quartic.c| && Quartic.c[e] != 0.0 ensures Divides(Den(e, 2), 1) {
      assert e == 0 || e == 2 || e == 4;
      GcdDivides(e, 2);
      assert Gcd(e, 2) == 2;
    }
    assert TailDensDivide([Quartic], 2, 1);
    NewRamLeast([], [Quartic], 2, 1);
  }

  lemma QuarticDeflated()
    ensures PS.Deflate(Quartic, 2) == Quadratic
  {
    var d := Polynomials.Deflate(Quartic.c, 2);
    assert |d| == 3;
    assert d[0] == 1.0 && d[1] == 1.0 && d[2] == 1.0;
  }
}
