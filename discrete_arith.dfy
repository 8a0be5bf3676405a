/** The arithmetic of discrete generalized series: rewriting for a larger
    ramification, products, negation, sums of similar series, inverses,
    and the tests and accessors `similar`, `is_one` and `prec`. Every
    operation hands its result to the normalizing constructor. */
module DiscreteArith {
  import opened Numbers
  import opened Polynomials
  import PS = PowerSeries
  import T = Tails
  import opened Outcomes
  import C = Continuous
  import CA = ContinuousArith
  import opened Discrete

  /** `__eq__` on two series of one monoid: the components agree, the
      expansions as the host library compares them (up to precision). */
  predicate Equal(a: DSeries, b: DSeries) {
    a.gamma == b.gamma && a.ram == b.ram && a.rho == b.rho && a.subexp == b.subexp && a.alpha == b.alpha &&
    T.Equal(a.expansion, b.expansion)
  }

  // ---------------------------------------------------------------------------
  // Rewriting for a larger ramification

  /** `__inflate(s)`: `subexp` and the expansion written for ramification
      `s`, a multiple of `ram`, by substituting `x^(s/ram)` for `x`; nothing
      changes when `s == ram`. */
  function InflateTo(a: DSeries, s: nat): (r: (Poly, T.Tail))
    requires WellFormed(a) && s > 0 && Divides(a.ram, s)
    ensures Canonical(r.0) && T.ValidTail(r.1) && |r.1| == |a.expansion|
    ensures s == a.ram ==> r == (a.subexp, a.expansion)
    ensures s != a.ram ==> s / a.ram > 1 && r == (Inflate(a.subexp, s / a.ram), T.Inflate(a.expansion, s / a.ram))
  {
    CofactorOne(a.ram, s);
    if s == a.ram then (a.subexp, a.expansion)
    else (Inflate(a.subexp, s / a.ram), T.Inflate(a.expansion, s / a.ram))
  }

  /** Inflating by `k` and multiplying the ramification by `k` keeps the
      denominator of every exponent. */
  lemma DensDivideInflate(p: Poly, ram: nat, k: nat, m: nat)
    requires Canonical(p) && ram > 0 && k > 0
    ensures k * ram > 0
    ensures C.DensDivide(Inflate(p, k), k * ram, m) <==> C.DensDivide(p, ram, m)
  {
    MulPos(k, ram);
    if C.DensDivide(Inflate(p, k), k * ram, m) {
      DensDivideDeflated(p, ram, k, m);
    }
    if C.DensDivide(p, ram, m) {
      DensDivideInflated(p, ram, k, m);
    }
  }

  lemma DensDivideDeflated(p: Poly, ram: nat, k: nat, m: nat)
    requires Canonical(p) && ram > 0 && k > 0 && k * ram > 0 && C.DensDivide(Inflate(p, k), k * ram, m)
    ensures C.DensDivide(p, ram, m)
  {
    var q := Inflate(p, k);
    forall e | 0 <= e < |p| && p[e] != 0.0 ensures Divides(Den(e, ram), m) {
      InflateAt(p, k, e);
      assert Coef(q, k * e) != 0.0;
      assert q[k * e] != 0.0;
      DenScaled(e, ram, k);
    }
  }

  lemma DensDivideInflated(p: Poly, ram: nat, k: nat, m: nat)
    requires Canonical(p) && ram > 0 && k > 0 && k * ram > 0 && C.DensDivide(p, ram, m)
    ensures C.DensDivide(Inflate(p, k), k * ram, m)
  {
    var q := Inflate(p, k);
    forall i | 0 <= i < |q| && q[i] != 0.0 ensures Divides(Den(i, k * ram), m) {
      InflatedSupport(p, k, i);
      DenScaled(i / k, ram, k);
    }
  }

  /** A nonzero coefficient of `p(x^k)` sits at a multiple `k*e` of `k`
      with `p[e]` nonzero. */
  lemma InflatedSupport(p: Poly, k: nat, i: nat)
    requires k > 0 && i < |Inflate(p, k)| && Inflate(p, k)[i] != 0.0
    ensures i == k * (i / k) && i / k < |p| && p[i / k] != 0.0
  {
    assert Coef(Inflate(p, k), i) == Inflate(p, k)[i];
  }

  lemma TailDensDivideInflate(t: T.Tail, ram: nat, k: nat, m: nat)
    requires T.ValidTail(t) && ram > 0 && k > 0
    ensures k * ram > 0
    ensures C.TailDensDivide(T.Inflate(t, k), k * ram, m) <==> C.TailDensDivide(t, ram, m)
  {
    MulPos(k, ram);
    var u := T.Inflate(t, k);
    forall j | 0 <= j < |t| ensures C.DensDivide(u[j].c, k * ram, m) <==> C.DensDivide(t[j].c, ram, m) {
      DensDivideInflate(t[j].c, ram, k, m);
    }
  }

  /** Inflated data is covered by `m` exactly when the data is. */
  lemma CoversInflated(gamma: Rat, subexp: Poly, expansion: T.Tail, ram: nat, k: nat, m: nat)
    requires Canonical(subexp) && T.ValidTail(expansion) && ram > 0 && k > 0
    ensures k * ram > 0
    ensures Covers(gamma, Inflate(subexp, k), T.Inflate(expansion, k), k * ram, m) <==> Covers(gamma, subexp, expansion, ram, m)
  {
    DensDivideInflate(subexp, ram, k, m);
    TailDensDivideInflate(expansion, ram, k, m);
  }

  /** A ramification that expresses `gamma` expresses everything. */
  lemma CoversOwnRam(a: DSeries)
    requires WellFormed(a) && Divides(a.gamma.den, a.ram)
    ensures Covers(a.gamma, a.subexp, a.expansion, a.ram, a.ram)
  {
  }

  /** After inflating a series whose ramification expresses `gamma`, the
      constructor finds the old ramification again. */
  lemma NewRamInflated(a: DSeries, k: nat)
    requires WellFormed(a) && a.expansion != [] && Divides(a.gamma.den, a.ram) && k > 0
    ensures k * a.ram > 0 && NewRam(a.gamma, Inflate(a.subexp, k), T.Inflate(a.expansion, k), k * a.ram) == a.ram
  {
    MulPos(k, a.ram);
    var S, E := Inflate(a.subexp, k), T.Inflate(a.expansion, k);
    var n := NewRam(a.gamma, S, E, k * a.ram);
    CoversOwnRam(a);
    CoversInflated(a.gamma, a.subexp, a.expansion, a.ram, k, a.ram);
    NewRamLeast(a.gamma, S, E, k * a.ram, a.ram);
    DividesBound(n, a.ram);
    CoversInflated(a.gamma, a.subexp, a.expansion, a.ram, k, n);
  }

  /** Coefficient `f` of the rescaled inflation is coefficient `f` of `p`. */
  lemma RescaleInflatedAt(p: Poly, ram: nat, k: nat, f: nat)
    requires Canonical(p) && ram > 0 && k > 0
    ensures k * ram > 0 && C.DensDivide(Inflate(p, k), k * ram, ram)
    ensures Coef(Rescale(Inflate(p, k), k * ram, ram), f) == Coef(p, f)
  {
    MulPos(k, ram);
    DensDivideInflate(p, ram, k, ram);
    var q := Inflate(p, k);
    var kr := k * ram;
    var fk := f * k;
    assert Rescale(q, kr, ram) == Deflate(Inflate(q, ram), kr);
    assert Coef(Deflate(Inflate(q, ram), kr), f) == Coef(Inflate(q, ram), f * kr);
    assert f * kr == ram * fk by {
      MulAssocComm(f, k, ram);
    }
    InflateAt(q, ram, fk);
    InflateAt(p, k, f);
    assert fk == k * f;
  }

  /** Rescaling from `k*ram` back to `ram` undoes the inflation by `k`. */
  lemma RescaleInflated(p: Poly, ram: nat, k: nat)
    requires Canonical(p) && ram > 0 && k > 0
    ensures k * ram > 0 && C.DensDivide(Inflate(p, k), k * ram, ram)
    ensures Rescale(Inflate(p, k), k * ram, ram) == p
  {
    RescaleInflatedAt(p, ram, k, 0);
    forall f | 0 <= f ensures Coef(Rescale(Inflate(p, k), k * ram, ram), f) == Coef(p, f) {
      RescaleInflatedAt(p, ram, k, f);
    }
    CanonicalExt(Rescale(Inflate(p, k), k * ram, ram), p);
  }

  lemma RescaleTailInflated(t: T.Tail, ram: nat, k: nat)
    requires T.ValidTail(t) && ram > 0 && k > 0
    ensures k * ram > 0 && C.TailDensDivide(T.Inflate(t, k), k * ram, ram)
    ensures T.Equal(RescaleTail(T.Inflate(t, k), k * ram, ram), t)
  {
    MulPos(k, ram);
    TailDensDivideInflate(t, ram, k, ram);
    var u := T.Inflate(t, k);
    var r := RescaleTail(u, k * ram, ram);
    forall j | 0 <= j < |t| ensures PS.Equal(r[j], t[j]) {
      RescaleInflatedSeries(t[j], u[j], ram, k);
    }
  }

  /** One coefficient of the tail: rescaling its inflation gives it back. */
  lemma RescaleInflatedSeries(s: PS.Series, u: PS.Series, ram: nat, k: nat)
    requires PS.Valid(s) && PS.Valid(u) && ram > 0 && k > 0 && u.c == Inflate(s.c, k)
    ensures k * ram > 0 && C.DensDivide(u.c, k * ram, ram)
    ensures PS.Equal(RescaleCoef(u, k * ram, ram), s)
  {
    RescaleInflated(s.c, ram, k);
  }

  /** What `__inflate(s)` promises: handing its result to the constructor
      with ramification `s` gives the series back, when the ramification
      already expresses `gamma`. The expansion comes back with the precision
      of exact series, so it is equal as the library compares. */
  lemma InflateRoundTrip(a: DSeries, k: nat)
    requires Normal(a) && Divides(a.gamma.den, a.ram) && k > 0
    ensures k * a.ram > 0 && Divides(a.ram, k * a.ram)
    ensures var p := InflateTo(a, k * a.ram);
      var b := Normalize(a.gamma, k * a.ram, a.rho, p.0, a.alpha, p.1, false);
      b.Ok? && Equal(b.value, a)
  {
    MulPos(k, a.ram);
    DividesWitness(a.ram, k * a.ram, k);
    if a.expansion == [] {
    } else if k == 1 {
      NormalizeFixpoint(a);
      TEqualRefl(a.expansion);
    } else {
      MulStrict(1, k, a.ram);
      assert (k * a.ram) / a.ram == k by {
        DividesWitness(a.ram, k * a.ram, k);
        MulCancel((k * a.ram) / a.ram, k, a.ram);
      }
      InflateRoundTripProper(a, k);
    }
  }

  /** The round trip for a proper multiple, stage by stage through the constructor. */
  lemma InflateRoundTripProper(a: DSeries, k: nat)
    requires Normal(a) && a.expansion != [] && Divides(a.gamma.den, a.ram) && k > 1
    ensures k * a.ram > a.ram
    ensures var b := Normalize(a.gamma, k * a.ram, a.rho, Inflate(a.subexp, k), a.alpha, T.Inflate(a.expansion, k), false);
      b.Ok? && Equal(b.value, a)
  {
    MulStrict(1, k, a.ram);
    var S, E := Inflate(a.subexp, k), T.Inflate(a.expansion, k);
    CA.InflateMinOrdZero(a.expansion, k);
    assert Fold(E, a.alpha, k * a.ram) == (E, a.alpha);
    ReduceOfReduced(a.gamma);
    var s := ReduceRam(a.gamma, k * a.ram, a.rho, S, a.alpha, E);
    ReduceRamInflated(a, k);
    assert Normalize(a.gamma, k * a.ram, a.rho, S, a.alpha, E, false) == Ok(s);
  }

  /** The ramification reduction of the constructor undoes the inflation. */
  lemma ReduceRamInflated(a: DSeries, k: nat)
    requires Normal(a) && a.expansion != [] && Divides(a.gamma.den, a.ram) && k > 1
    ensures k * a.ram > a.ram
    ensures var s := ReduceRam(a.gamma, k * a.ram, a.rho, Inflate(a.subexp, k), a.alpha, T.Inflate(a.expansion, k));
      Equal(s, a)
  {
    MulStrict(1, k, a.ram);
    var S, E := Inflate(a.subexp, k), T.Inflate(a.expansion, k);
    NewRamInflated(a, k);
    ReduceRamRescales(a.gamma, k * a.ram, a.rho, S, a.alpha, E, a.ram);
    RescaleInflated(a.subexp, a.ram, k);
    RescaleTailInflated(a.expansion, a.ram, k);
  }

  /** The reduction when the ramification found is `n`, a proper divisor. */
  lemma ReduceRamRescales(gamma: Rat, ram: nat, rho: real, subexp: Poly, alpha: real, expansion: T.Tail, n: nat)
    requires Reduced(gamma) && ram > 0 && rho != 0.0 && Canonical(subexp) && T.ValidTail(expansion) && expansion != []
    requires n == NewRam(gamma, subexp, expansion, ram) && n < ram
    ensures n > 0 && C.DensDivide(subexp, ram, n) && C.TailDensDivide(expansion, ram, n)
    ensures ReduceRam(gamma, ram, rho, subexp, alpha, expansion)
      == DSeries(gamma, n, rho, Rescale(subexp, ram, n), alpha, RescaleTail(expansion, ram, n))
  {
    NewRamLeast(gamma, subexp, expansion, ram, n);
  }

  lemma TEqualRefl(t: T.Tail)
    ensures T.Equal(t, t)
  {
  }

  // ---------------------------------------------------------------------------
  // Products

  /** `s = lcm(a.ram, b.ram)` and both operands' `subexp` and expansion
      rewritten by `__inflate(s)`. */
  function Unify(a: DSeries, b: DSeries): (c: CA.Common)
    requires WellFormed(a) && WellFormed(b)
    ensures c.s == Lcm(a.ram, b.ram) && c.s > 0 && Divides(a.ram, c.s) && Divides(b.ram, c.s)
    ensures (c.ae, c.at) == InflateTo(a, c.s) && (c.be, c.bt) == InflateTo(b, c.s)
    ensures CA.Aligned(c) && |c.at| == |a.expansion| && |c.bt| == |b.expansion|
  {
    var s := Lcm(a.ram, b.ram);
    LcmMultiple(a.ram, b.ram);
    var (ae, at) := InflateTo(a, s);
    var (be, bt) := InflateTo(b, s);
    CA.Common(s, ae, at, be, bt)
  }

  /** Unifying in the other order swaps the operands. */
  lemma UnifySwap(a: DSeries, b: DSeries)
    requires WellFormed(a) && WellFormed(b)
    ensures Unify(b, a) == CA.Swap(Unify(a, b))
  {
    LcmComm(a.ram, b.ram);
  }

  /** `_mul_`: both factors rewritten for the lcm of the ramifications;
      `gamma`s, `subexp`s and `alpha`s add, `rho`s and expansions multiply,
      and the constructor folds the product. A zero factor gives zero. */
  function Mul(a: DSeries, b: DSeries): (r: DSeries)
    requires WellFormed(a) && WellFormed(b)
    ensures WellFormed(r) && r.ram <= Lcm(a.ram, b.ram)
    ensures a.expansion == [] || b.expansion == [] ==> r == Zero
    ensures r.expansion != [] ==> r.gamma == RatAdd(a.gamma, b.gamma) && r.rho == Product(a.rho, b.rho)
    ensures ValidRat(RatAdd(a.gamma, b.gamma))
    ensures var c := Unify(a, b); var e := T.Mul(c.at, c.bt);
      e != [] ==> Represents(r, RatAdd(a.gamma, b.gamma), c.s, Product(a.rho, b.rho),
                             Polynomials.Add(c.ae, c.be), a.alpha + b.alpha, e)
  {
    RatAddReduced(a.gamma, b.gamma);
    MulUnified(Unify(a, b), RatAdd(a.gamma, b.gamma), Product(a.rho, b.rho), a.alpha + b.alpha)
  }

  /** The constructor applied to operands already rewritten for a common
      ramification, with the combined `gamma`, `rho` and `alpha`. */
  function MulUnified(c: CA.Common, gamma: Rat, rho: real, alpha: real): (r: DSeries)
    requires CA.Aligned(c) && ValidRat(gamma) && (rho != 0.0 || T.Mul(c.at, c.bt) == [])
    ensures WellFormed(r) && r.ram <= c.s
    ensures T.Mul(c.at, c.bt) == [] ==> r == Zero
    ensures T.Mul(c.at, c.bt) != [] ==>
      Represents(r, gamma, c.s, rho, Polynomials.Add(c.ae, c.be), alpha, T.Mul(c.at, c.bt))
  {
    Normalize(gamma, c.s, rho, Polynomials.Add(c.ae, c.be), alpha, T.Mul(c.at, c.bt), false).value
  }

  /** Multiplication commutes. */
  lemma MulComm(a: DSeries, b: DSeries)
    requires WellFormed(a) && WellFormed(b)
    ensures Mul(a, b) == Mul(b, a)
  {
    var c, d := Unify(a, b), Unify(b, a);
    UnifySwap(a, b);
    T.MulComm(c.at, c.bt);
    Polynomials.AddComm(c.ae, c.be);
    RatAddComm(a.gamma, b.gamma);
    assert Product(a.rho, b.rho) == Product(b.rho, a.rho);
    assert T.Mul(d.at, d.bt) == T.Mul(c.at, c.bt) && Polynomials.Add(d.ae, d.be) == Polynomials.Add(c.ae, c.be);
  }

  lemma RatAddComm(a: Rat, b: Rat)
    requires ValidRat(a) && ValidRat(b)
    ensures RatAdd(a, b) == RatAdd(b, a)
  {
    assert a.num * b.den + b.num * a.den == b.num * a.den + a.num * b.den;
    assert a.den * b.den == b.den * a.den;
  }

  /** For normal factors without logarithms the exponents `alpha` add and
      the product is normal. */
  lemma MulAlpha(a: DSeries, b: DSeries)
    requires Normal(a) && Normal(b) && |a.expansion| == 1 && |b.expansion| == 1
    ensures Normal(Mul(a, b)) && |Mul(a, b).expansion| == 1
    ensures Mul(a, b).alpha == a.alpha + b.alpha
  {
    var c := Unify(a, b);
    InflatedMinOrd(a, c.s);
    InflatedMinOrd(b, c.s);
    T.MulUnits(c.at, c.bt);
    var e := T.Mul(c.at, c.bt);
    assert Diff(e) == 0;
    FoldNothing(e, a.alpha + b.alpha, c.s);
  }

  /** Inflating a normal nonzero expansion keeps a coefficient of valuation zero. */
  lemma InflatedMinOrd(a: DSeries, s: nat)
    requires Normal(a) && a.expansion != [] && s > 0 && Divides(a.ram, s)
    ensures T.MinOrd(InflateTo(a, s).1) == 0
  {
    if s != a.ram {
      CA.InflateMinOrdZero(a.expansion, s / a.ram);
    }
  }

  /** `_mul_` as written: the constructor it calls refuses `rho = 0`, and the
      zero is stored with `rho = 0`, so a zero factor raises ValueError. */
  function MulAsWritten(a: DSeries, b: DSeries): (r: Result<DSeries>)
    requires WellFormed(a) && WellFormed(b)
    ensures r.Err? <==> a.expansion == [] || b.expansion == []
    ensures r.Err? ==> r.error == ValueError("")
  {
    var c := Unify(a, b);
    RatAddReduced(a.gamma, b.gamma);
    NormalizeAsWritten(RatAdd(a.gamma, b.gamma), c.s, Product(a.rho, b.rho), Polynomials.Add(c.ae, c.be), a.alpha + b.alpha, T.Mul(c.at, c.bt), false)
  }

  /** Between nonzero factors, the product as written is the corrected
      product with the ramification of the lcm kept. */
  lemma MulAsWrittenAgrees(a: DSeries, b: DSeries)
    requires WellFormed(a) && WellFormed(b) && Mul(a, b).expansion != []
    ensures MulAsWritten(a, b) == Ok(Mul(a, b).(ram := Lcm(a.ram, b.ram)))
  {
  }

  /** `0 * s` is `0` with the corrected constructor and ValueError as written. */
  lemma ZeroTimes(b: DSeries)
    requires WellFormed(b)
    ensures Mul(Zero, b) == Zero && MulAsWritten(Zero, b) == Err(ValueError(""))
  {
    ZeroOneNormal();
  }

  /** The product of two field elements; zero only when a factor is. */
  function Product(x: real, y: real): (r: real)
    ensures x != 0.0 && y != 0.0 ==> r != 0.0
  {
    x * y
  }

  /** Sums of rationals are kept in lowest terms. */
  lemma RatAddReduced(a: Rat, b: Rat)
    requires ValidRat(a) && ValidRat(b)
    ensures Reduced(RatAdd(a, b)) && Reduce(RatAdd(a, b).num, RatAdd(a, b).den) == RatAdd(a, b)
  {
    MulPos(a.den, b.den);
    ReduceReduced(a.num * b.den + b.num * a.den, a.den * b.den);
    ReduceOfReduced(RatAdd(a, b));
  }

  /** Adding the rational zero to a reduced rational changes nothing. */
  lemma RatAddZero(a: Rat)
    requires Reduced(a)
    ensures RatAdd(a, Rat(0, 1)) == a && RatAdd(Rat(0, 1), a) == a
  {
    ReduceOfReduced(a);
  }

  /** The one is neutral for the product, on both sides. */
  lemma MulOne(a: DSeries)
    requires Normal(a)
    ensures Mul(a, One) == a && Mul(One, a) == a
  {
    ZeroOneNormal();
    OneAligned(a.ram);
    CanonicalExt(Polynomials.Add(a.subexp, []), a.subexp);
    CanonicalExt(Polynomials.Add([], a.subexp), a.subexp);
    MulOneTails(a);
  }

  /** Rewritten for any ramification, the one keeps its expansion `1` and
      no exponential part. */
  lemma OneAligned(ram: nat)
    requires ram > 0
    ensures Lcm(ram, 1) == ram && Lcm(1, ram) == ram && InflateTo(One, ram) == ([], T.One)
  {
    ZeroOneNormal();
    LcmOfDivisor(1, ram) by {
      DividesWitness(1, ram, ram);
    }
    LcmComm(1, ram);
    if ram != 1 {
      T.InflateOne(ram);
    }
  }

  /** The product of the expansions, normalized, gives the series back. */
  lemma MulOneTails(a: DSeries)
    requires Normal(a)
    ensures Normalize(RatAdd(a.gamma, One.gamma), a.ram, Product(a.rho, One.rho), a.subexp, a.alpha + One.alpha,
      T.Mul(a.expansion, T.One), false).value == a
    ensures Normalize(RatAdd(One.gamma, a.gamma), a.ram, Product(One.rho, a.rho), a.subexp, One.alpha + a.alpha,
      T.Mul(T.One, a.expansion), false).value == a
  {
    T.MulOne(a.expansion);
    T.OneMul(a.expansion);
    RatAddZero(a.gamma);
    NormalizeFixpoint(a);
  }

  // ---------------------------------------------------------------------------
  // Negation

  /** `_neg_`: the constructor applied to the negated expansion; a normal
      series just has its expansion negated. */
  function Neg(a: DSeries): (r: DSeries)
    requires WellFormed(a)
    ensures WellFormed(r) && r.ram <= a.ram && |r.expansion| == |a.expansion|
    ensures Normal(a) ==> r == a.(expansion := T.Neg(a.expansion))
  {
    var e := T.Neg(a.expansion);
    T.NegSupport(a.expansion);
    SameSupportWellFormed(a, e);
    if Normal(a) then
      NormalizeFixpoint(a.(expansion := e));
      Normalize(a.gamma, a.ram, a.rho, a.subexp, a.alpha, e, false).value
    else
      Normalize(a.gamma, a.ram, a.rho, a.subexp, a.alpha, e, false).value
  }

  /** Negation is an involution on normal series. */
  lemma NegNeg(a: DSeries)
    requires Normal(a)
    ensures Neg(Neg(a)) == a
  {
    T.NegSupport(a.expansion);
    SameSupportWellFormed(a, T.Neg(a.expansion));
    T.NegNeg(a.expansion);
  }

  /** `_neg_` as written, through the constructor as written: the zero
      series, whose `rho` is 0, cannot be negated. */
  function NegAsWritten(a: DSeries): (r: Result<DSeries>)
    requires WellFormed(a)
    ensures a.expansion == [] ==> r == Err(ValueError(""))
  {
    NormalizeAsWritten(a.gamma, a.ram, a.rho, a.subexp, a.alpha, T.Neg(a.expansion), false)
  }

  /** Zero is its own negation once the constructor accepts it. */
  lemma NegZero()
    ensures Neg(Zero) == Zero && NegAsWritten(Zero) == Err(ValueError(""))
  {
    ZeroOneNormal();
  }

  // ---------------------------------------------------------------------------
  // Similarity and sums

  /** `similar(other, reference)`: the same `gamma`, `rho`, ramification
      and `subexp`, and exponents `alpha` that differ by an element of the
      reference set. */
  predicate Similar(a: DSeries, b: DSeries, ref: CA.Reference) {
    a.gamma == b.gamma && a.rho == b.rho && a.ram == b.ram && a.subexp == b.subexp &&
    CA.InReference(a.alpha - b.alpha, ref)
  }

  /** Similarity is symmetric. */
  lemma SimilarSymmetric(a: DSeries, b: DSeries, ref: CA.Reference)
    ensures Similar(a, b, ref) <==> Similar(b, a, ref)
  {
    CA.NegInteger(a.alpha - b.alpha);
    assert -(a.alpha - b.alpha) == b.alpha - a.alpha;
  }

  /** Every series is similar to itself. */
  lemma SimilarReflexive(a: DSeries, ref: CA.Reference)
    ensures Similar(a, a, ref)
  {
    assert (0.0).Floor as real == 0.0;
  }

  /** Exponents that differ by an integer differ by an integer under `QQ` too. */
  lemma SimilarCoarser(a: DSeries, b: DSeries)
    ensures Similar(a, b, CA.ZZ) ==> Similar(a, b, CA.QQ)
  {
  }

  /** `_add_`: a zero operand gives the other one; otherwise the operands
      must be similar. Then they share the ramification, the larger `alpha`
      is kept, and the expansion of the operand with the smaller `alpha` is
      multiplied by `x^(ram*(alpha - its alpha))` before the expansions are
      added. */
  function Add(a: DSeries, b: DSeries): (r: Result<DSeries>)
    requires WellFormed(a) && WellFormed(b)
    ensures a.expansion == [] ==> r == Ok(b)
    ensures a.expansion != [] && b.expansion == [] ==> r == Ok(a)
    ensures a.expansion != [] && b.expansion != [] && !Similar(a, b, CA.ZZ) ==> r == Err(ValueError(CA.SimilarMessage))
    ensures a.expansion != [] && b.expansion != [] && Similar(a, b, CA.ZZ) ==>
      r.Ok? && WellFormed(r.value) && r.value.ram <= a.ram &&
      (r.value.expansion != [] ==> r.value.gamma == a.gamma && r.value.rho == a.rho)
  {
    if a.expansion == [] then Ok(b)
    else if b.expansion == [] then Ok(a)
    else if !Similar(a, b, CA.ZZ) then Err(ValueError(CA.SimilarMessage))
    else Ok(SumSimilar(a, b))
  }

  /** What the sum of two nonzero similar series is: zero when the lifted
      expansions cancel, and otherwise the normal form of the common `gamma`,
      `rho` and subexponential part with the larger `alpha` and the lifted
      expansions added, so that its `alpha` never exceeds the larger one. */
  lemma AddSum(a: DSeries, b: DSeries)
    requires WellFormed(a) && WellFormed(b) && a.expansion != [] && b.expansion != [] && Similar(a, b, CA.ZZ)
    ensures Add(a, b).Ok?
    ensures SumAtTop(a.expansion, a.alpha, b.expansion, b.alpha, a.ram) == [] ==> Add(a, b).value == Zero
    ensures SumAtTop(a.expansion, a.alpha, b.expansion, b.alpha, a.ram) != [] ==>
      Represents(Add(a, b).value, a.gamma, a.ram, a.rho, a.subexp, MaxReal(a.alpha, b.alpha),
                 SumAtTop(a.expansion, a.alpha, b.expansion, b.alpha, a.ram))
    ensures Add(a, b).value.expansion != [] ==> Add(a, b).value.alpha <= MaxReal(a.alpha, b.alpha)
  {
    LcmSelf(a.ram);
    var e := SumAtTop(a.expansion, a.alpha, b.expansion, b.alpha, a.ram);
    assert Add(a, b).value == SumSimilar(a, b);
    ReduceOfReduced(a.gamma);
    if e != [] {
      LeadingBelow(MaxReal(a.alpha, b.alpha), Diff(e), a.ram);
    }
  }

  /** Dividing out a power of `x` never raises the exponent. */
  lemma LeadingBelow(alpha: real, v: nat, ram: nat)
    requires ram > 0
    ensures Leading(alpha, v, ram) <= alpha
  {
    assert v as real / ram as real >= 0.0;
  }

  /** The power of `x` by which an expansion with exponent `alpha` is
      multiplied to reach the exponent `top`. */
  function Lift(ram: nat, alpha: real, top: real): (k: nat)
    requires top >= alpha
  {
    (ram as real * (top - alpha)).Floor
  }

  /** `t` multiplied by the exact series `x^k`. */
  function Times(t: T.Tail, k: nat): (r: T.Tail)
    requires T.ValidTail(t)
    ensures T.ValidTail(r)
  {
    T.MulSeries(PS.Exact(Monomial(1.0, k)), t)
  }

  /** The sum of two nonzero similar series. */
  function SumSimilar(a: DSeries, b: DSeries): (r: DSeries)
    requires WellFormed(a) && WellFormed(b) && a.expansion != [] && b.expansion != [] && Similar(a, b, CA.ZZ)
    ensures WellFormed(r) && r.ram <= a.ram
    ensures r.expansion != [] ==> r.gamma == a.gamma && r.rho == a.rho
  {
    LcmSelf(a.ram);
    var (asub, aexp) := InflateTo(a, Lcm(a.ram, b.ram));
    var (bsub, bexp) := InflateTo(b, Lcm(a.ram, b.ram));
    ReduceOfReduced(a.gamma);
    Normalize(a.gamma, a.ram, a.rho, asub, MaxReal(a.alpha, b.alpha), SumAtTop(aexp, a.alpha, bexp, b.alpha, a.ram), false).value
  }

  /** The expansions of two series with exponents `alpha` and `beta`, the
      one with the smaller exponent lifted to the larger one, added. */
  function SumAtTop(at: T.Tail, alpha: real, bt: T.Tail, beta: real, ram: nat): (e: T.Tail)
    requires T.ValidTail(at) && T.ValidTail(bt)
    ensures T.ValidTail(e)
  {
    var top := MaxReal(alpha, beta);
    if alpha < top then T.Add(Times(at, Lift(ram, alpha, top)), bt)
    else if beta < top then T.Add(at, Times(bt, Lift(ram, beta, top)))
    else T.Add(at, bt)
  }

  /** Lifting and adding does not depend on the order of the operands. */
  lemma SumAtTopSwap(at: T.Tail, alpha: real, bt: T.Tail, beta: real, ram: nat)
    requires T.ValidTail(at) && T.ValidTail(bt)
    ensures SumAtTop(at, alpha, bt, beta, ram) == SumAtTop(bt, beta, at, alpha, ram)
  {
    var top := MaxReal(alpha, beta);
    assert top == MaxReal(beta, alpha);
    if alpha < top {
      T.AddComm(Times(at, Lift(ram, alpha, top)), bt);
    } else if beta < top {
      T.AddComm(at, Times(bt, Lift(ram, beta, top)));
    } else {
      T.AddComm(at, bt);
    }
  }

  function MaxReal(x: real, y: real): (m: real)
    ensures m >= x && m >= y && (m == x || m == y)
  {
    if x >= y then x else y
  }

  /** The sum does not depend on the order of the operands. */
  lemma AddComm(a: DSeries, b: DSeries)
    requires WellFormed(a) && WellFormed(b)
    ensures Add(a, b) == Add(b, a)
  {
    SimilarSymmetric(a, b, CA.ZZ);
    if a.expansion != [] && b.expansion != [] && Similar(a, b, CA.ZZ) {
      SumSimilarSwap(a, b);
    }
  }

  /** The sum of two similar series does not depend on their order. */
  lemma SumSimilarSwap(a: DSeries, b: DSeries)
    requires WellFormed(a) && WellFormed(b) && a.expansion != [] && b.expansion != []
    requires Similar(a, b, CA.ZZ) && Similar(b, a, CA.ZZ)
    ensures SumSimilar(a, b) == SumSimilar(b, a)
  {
    LcmSelf(a.ram);
    assert InflateTo(a, Lcm(a.ram, b.ram)) == (a.subexp, a.expansion);
    assert InflateTo(b, Lcm(b.ram, a.ram)) == (b.subexp, b.expansion);
    assert MaxReal(a.alpha, b.alpha) == MaxReal(b.alpha, a.alpha);
    SumAtTopSwap(a.expansion, a.alpha, b.expansion, b.alpha, a.ram);
  }

  /** A normal series plus its negation is zero. */
  lemma AddNeg(a: DSeries)
    requires Normal(a)
    ensures Add(a, Neg(a)) == Ok(Zero)
  {
    if a.expansion != [] {
      var b := Neg(a);
      SimilarReflexive(a, CA.ZZ);
      assert Similar(a, b, CA.ZZ);
      LcmSelf(a.ram);
      T.AddNeg(a.expansion);
      ZeroOneNormal();
    }
  }

  // ---------------------------------------------------------------------------
  // Inverses

  /** `__invert__`: zero is refused with a division by zero, a series with
      logarithms with a value error; otherwise `gamma`, `subexp` and `alpha`
      are negated, `rho` inverted and the expansion inverted in the tail
      ring, where the host library has an inverse only for a unit. */
  function Invert(a: DSeries): (r: Result<DSeries>)
    requires WellFormed(a)
    ensures a.expansion == [] ==> r == Err(ZeroDivisionError)
    ensures a.expansion != [] && T.Degree(a.expansion) > 0 ==> r == Err(ValueError(CA.LogMessage))
    ensures a.expansion != [] && T.Degree(a.expansion) <= 0 ==> (r.Ok? <==> T.Inverse(a.expansion).Some?)
    ensures r.Ok? ==>
      WellFormed(r.value) && r.value.expansion != [] && r.value.ram <= a.ram &&
      r.value.gamma == RatNeg(a.gamma) && r.value.rho == 1.0 / a.rho
    ensures r.Ok? ==> Normal(a) && |a.expansion| == 1 && Normal(r.value) && r.value.alpha == -a.alpha
    ensures r.Ok? ==>
      ValidRat(RatNeg(a.gamma)) && T.Inverse(a.expansion).Some? && T.Inverse(a.expansion).value != [] &&
      Represents(r.value, RatNeg(a.gamma), a.ram, 1.0 / a.rho, Polynomials.Neg(a.subexp), -a.alpha, T.Inverse(a.expansion).value)
    ensures r.Ok? && r.value.ram == a.ram ==>
      r.value.subexp == Polynomials.Neg(a.subexp) && r.value.expansion == T.Inverse(a.expansion).value
  {
    if a.expansion == [] then Err(ZeroDivisionError)
    else if T.Degree(a.expansion) > 0 then Err(ValueError(CA.LogMessage))
    else if T.Inverse(a.expansion).None? then Err(HostError("the expansion has no inverse in the tail ring"))
    else Ok(Inverted(a))
  }

  /** The constructor applied to the negated `gamma`, `subexp` and `alpha`,
      the inverted `rho` and the inverted expansion of a unit. */
  function Inverted(a: DSeries): (r: DSeries)
    requires WellFormed(a) && T.Inverse(a.expansion).Some?
    ensures WellFormed(r) && r.expansion != [] && r.ram <= a.ram
    ensures r.gamma == RatNeg(a.gamma) && r.rho == 1.0 / a.rho
    ensures Normal(a) && |a.expansion| == 1 && Normal(r) && r.alpha == -a.alpha
    ensures ValidRat(RatNeg(a.gamma)) && T.Inverse(a.expansion).value != []
    ensures Represents(r, RatNeg(a.gamma), a.ram, 1.0 / a.rho, Polynomials.Neg(a.subexp), -a.alpha, T.Inverse(a.expansion).value)
    ensures r.ram == a.ram ==> r.subexp == Polynomials.Neg(a.subexp) && r.expansion == T.Inverse(a.expansion).value
  {
    var inv := T.Inverse(a.expansion).value;
    InverseNonzero(a);
    UnitNormal(a);
    NormalInverse(a);
    ReciprocalNonzero(a.rho, 1.0 / a.rho);
    RatNegReduced(a.gamma);
    Normalize(RatNeg(a.gamma), a.ram, 1.0 / a.rho, Polynomials.Neg(a.subexp), -a.alpha, inv, false).value
  }

  /** `a * ~a == 1` whenever the inverse keeps the ramification of `a`:
      the `gamma`s, `subexp`s and `alpha`s cancel, the `rho`s multiply to
      one and the expansion times its inverse is one up to precision. */
  lemma InvertMulOne(a: DSeries)
    requires WellFormed(a) && Invert(a).Ok? && Invert(a).value.ram == a.ram
    ensures Equal(Mul(a, Invert(a).value), One)
  {
    var i := Invert(a).value;
    var w := PS.Mul(a.expansion[0], PS.Inverse(a.expansion[0]));
    InvertUnified(a);
    MulInverseArgs(a, i);
    MulUnfold(a, i);
    MulUnifiedOne(Unify(a, i), RatAdd(a.gamma, i.gamma), Product(a.rho, i.rho), a.alpha + i.alpha, w, Mul(a, i));
  }

  /** The product is the constructor applied to the data `Unify` lines up. */
  lemma MulUnfold(a: DSeries, b: DSeries)
    requires WellFormed(a) && WellFormed(b)
    ensures Mul(a, b) == MulUnified(Unify(a, b), RatAdd(a.gamma, b.gamma), Product(a.rho, b.rho), a.alpha + b.alpha)
  {
  }

  /** The data the product of `a` and such an `i` hands the constructor. */
  lemma MulInverseArgs(a: DSeries, i: DSeries)
    requires WellFormed(a) && WellFormed(i)
    requires |a.expansion| == 1 && Coef(a.expansion[0].c, 0) != 0.0
    requires i.gamma == RatNeg(a.gamma) && i.rho == 1.0 / a.rho && i.alpha == -a.alpha
    requires var c := Unify(a, i);
      && c.s == a.ram && c.ae == a.subexp && c.be == Polynomials.Neg(a.subexp)
      && c.at == [a.expansion[0]] && c.bt == [PS.Inverse(a.expansion[0])]
      && T.MinOrd(c.at) == 0 && T.MinOrd(c.bt) == 0
    ensures var c := Unify(a, i); var w := PS.Mul(a.expansion[0], PS.Inverse(a.expansion[0]));
      && RatAdd(a.gamma, i.gamma) == Rat(0, 1) && Product(a.rho, i.rho) == 1.0 && a.alpha + i.alpha == 0.0
      && Polynomials.Add(c.ae, c.be) == [] && T.Mul(c.at, c.bt) == [w] && w.c == [1.0] && PS.Valid(w)
  {
    var u := a.expansion[0];
    var c := Unify(a, i);
    T.MulUnits(c.at, c.bt);
    PS.MulInverse(u);
    RatAddNeg(a.gamma);
    Polynomials.AddNeg(a.subexp);
    ProductReciprocal(a.rho);
  }

  /** The constructor applied to the data of one gives one, whatever the
      common ramification it is handed. */
  lemma MulUnifiedOne(c: CA.Common, gamma: Rat, rho: real, alpha: real, w: PS.Series, r: DSeries)
    requires CA.Aligned(c) && Polynomials.Add(c.ae, c.be) == [] && T.Mul(c.at, c.bt) == [w] && w.c == [1.0]
    requires gamma == Rat(0, 1) && rho == 1.0 && alpha == 0.0 && r == MulUnified(c, gamma, rho, alpha)
    ensures Equal(r, One)
  {
    RepresentsOne(r, Rat(0, 1), c.s, 1.0, [], 0.0, [w], w);
  }

  /** A series and an inverse of the same ramification need no rewriting. */
  lemma InvertUnified(a: DSeries)
    requires WellFormed(a) && Invert(a).Ok? && Invert(a).value.ram == a.ram
    ensures var i := Invert(a).value; var c := Unify(a, i);
      && |a.expansion| == 1 && Coef(a.expansion[0].c, 0) != 0.0
      && c.s == a.ram && c.ae == a.subexp && c.be == Polynomials.Neg(a.subexp)
      && c.at == [a.expansion[0]] && c.bt == [PS.Inverse(a.expansion[0])]
      && T.MinOrd(c.at) == 0 && T.MinOrd(c.bt) == 0
      && i.gamma == RatNeg(a.gamma) && i.rho == 1.0 / a.rho && i.alpha == -a.alpha
  {
    var i := Invert(a).value;
    var u := a.expansion[0];
    PS.InverseUnit(u);
    assert T.Inverse(a.expansion).value == [PS.Inverse(u)];
    LcmSelf(a.ram);
  }

  lemma ProductReciprocal(x: real)
    requires x != 0.0
    ensures Product(x, 1.0 / x) == 1.0
  {
  }

  /** A rational plus its negation is the reduced zero. */
  lemma RatAddNeg(q: Rat)
    requires ValidRat(q)
    ensures ValidRat(RatNeg(q)) && RatAdd(q, RatNeg(q)) == Rat(0, 1)
  {
    var d := q.den * q.den;
    MulPos(q.den, q.den);
    assert q.num * q.den + -q.num * q.den == 0;
    assert Gcd(Abs(0), d) == d;
  }

  /** The series that the constructor builds from the data of one (the reduced
      zero `gamma`, `rho = 1`, no `subexp`, `alpha = 0` and an expansion that
      is the constant one up to precision) equals the one. */
  lemma RepresentsOne(r: DSeries, gamma: Rat, ram: nat, rho: real, subexp: Poly, alpha: real, e: T.Tail, w: PS.Series)
    requires WellFormed(r) && ram > 0 && PS.Valid(w) && w.c == [1.0]
    requires gamma == Rat(0, 1) && rho == 1.0 && subexp == [] && alpha == 0.0 && e == [w]
    requires Represents(r, gamma, ram, rho, subexp, alpha, e)
    ensures Equal(r, One)
  {
    OneData(r, ram, w);
    OneRam(r);
    T.EqualOne(r.expansion);
  }

  /** What `Represents` says of the data of one, component by component. */
  lemma OneData(r: DSeries, ram: nat, w: PS.Series)
    requires WellFormed(r) && ram > 0 && PS.Valid(w) && w.c == [1.0]
    requires Represents(r, Rat(0, 1), ram, 1.0, [], 0.0, [w])
    ensures r.gamma == Rat(0, 1) && r.rho == 1.0 && r.alpha == 0.0 && r.subexp == []
    ensures |r.expansion| == 1 && r.expansion[0].c == [1.0]
  {
    assert Diff([w]) == 0;
    assert Gcd(Abs(0), 1) == 1;
    FoldNothing([w], 0.0, ram);
    Polynomials.InflatedConstant(r.subexp, ram, [], r.ram);
    Polynomials.InflatedConstant(r.expansion[0].c, ram, [1.0], r.ram);
  }

  /** A well-formed series whose data are those of one has ramification 1. */
  lemma OneRam(r: DSeries)
    requires WellFormed(r) && r.gamma == Rat(0, 1) && r.subexp == []
    requires |r.expansion| == 1 && r.expansion[0].c == [1.0]
    ensures r.ram == 1
  {
    assert Covers(r.gamma, r.subexp, r.expansion, r.ram, 1) by {
      DividesWitness(1, r.ram, r.ram);
      DenDivides(0, r.ram, 1);
      DividesWitness(r.ram, 0, 0);
    }
  }

  /** A series whose expansion is a unit has valuation zero. */
  lemma UnitNormal(a: DSeries)
    requires WellFormed(a) && T.Inverse(a.expansion).Some?
    ensures Normal(a) && a.expansion != [] && T.Degree(a.expansion) <= 0 && PS.Ord(a.expansion[0]) == 0
  {
    ValuationAt(a.expansion[0].c, 0);
  }

  /** A normal series whose expansion is a unit has an inverse. */
  lemma InvertNormal(a: DSeries)
    requires Normal(a) && a.expansion != [] && T.Degree(a.expansion) <= 0
    ensures Invert(a).Ok?
  {
    NormalInverse(a);
  }

  /** ... and that inverse is normal, with `alpha` negated. */
  lemma InvertNormalForm(a: DSeries)
    requires Normal(a) && a.expansion != [] && T.Degree(a.expansion) <= 0
    ensures Invert(a).Ok? && Normal(Invert(a).value) && Invert(a).value.alpha == -a.alpha
  {
    InvertNormal(a);
    InverseNonzero(a);
    NormalInverse(a);
  }

  /** The inverse of a unit expansion is a unit. */
  lemma InverseNonzero(a: DSeries)
    requires WellFormed(a) && T.Inverse(a.expansion).Some?
    ensures |T.Inverse(a.expansion).value| == 1
    ensures T.MinOrd(T.Inverse(a.expansion).value) == 0
  {
    PS.InverseUnit(a.expansion[0]);
  }

  /** For a normal series of degree zero the expansion is a unit, and the
      inverse needs no folding. */
  lemma NormalInverse(a: DSeries)
    requires Normal(a) && a.expansion != [] && T.Degree(a.expansion) <= 0
    ensures T.Inverse(a.expansion).Some? && T.Inverse(a.expansion).value != []
    ensures Diff(T.Inverse(a.expansion).value) == 0
  {
    assert PS.Ord(a.expansion[0]) == 0;
    InverseNonzero(a);
  }

  /** Negating a rational keeps it in lowest terms. */
  lemma RatNegReduced(q: Rat)
    requires Reduced(q)
    ensures Reduced(RatNeg(q)) && Reduce(RatNeg(q).num, RatNeg(q).den) == RatNeg(q)
  {
    assert Abs(-q.num) == Abs(q.num);
    ReduceOfReduced(RatNeg(q));
  }

  /** The one is its own inverse. */
  lemma InvertOne()
    ensures Invert(One) == Ok(One)
  {
    ZeroOneNormal();
    assert PS.Ord(PS.One) == 0 by {
      ValuationAt(PS.One.c, 0);
    }
    assert T.Inverse(One.expansion) == Some(T.One);
    NormalizeFixpoint(One);
  }

  // ---------------------------------------------------------------------------
  // Tests and accessors

  /** `is_one()`: `gamma`, `subexp` and `alpha` are zero, `rho` is one and
      the expansion is the one; the ramification is not looked at. */
  predicate IsOne(a: DSeries) {
    a.gamma.num == 0 && a.rho == 1.0 && a.subexp == [] && a.alpha == 0.0 && T.IsOne(a.expansion)
  }

  /** A well-formed series passes the test exactly when it equals the one:
      the ramification of such a series is necessarily 1. */
  lemma IsOneIff(a: DSeries)
    requires WellFormed(a)
    ensures IsOne(a) <==> Equal(a, One)
  {
    if IsOne(a) {
      OneCoversOne(a);
      assert a.ram == 1;
    }
    if Equal(a, One) {
      var s := a.expansion[0];
      assert PS.Equal(s, PS.One);
      assert PS.PMin(s.prec, PS.Inf) == s.prec;
      assert s.prec.Fin? ==> s.prec.n >= 1;
      assert Coef(s.c, 0) == 1.0;
      forall i | 0 <= i ensures Coef(s.c, i) == Coef([1.0], i) {
        if s.prec.Fin? && i >= s.prec.n {
          assert i >= |s.c|;
        }
      }
      CanonicalExt(s.c, [1.0]);
    }
  }

  /** A series passing the test is covered by the ramification 1. */
  lemma OneCoversOne(a: DSeries)
    requires WellFormed(a) && IsOne(a)
    ensures a.gamma == Rat(0, 1) && Covers(a.gamma, a.subexp, a.expansion, a.ram, 1)
  {
    assert Gcd(0, a.gamma.den) == a.gamma.den;
    assert Gcd(0, a.ram) == a.ram;
    assert Den(0, a.ram) == 1;
    DividesWitness(1, 1, 1);
    assert C.DensDivide(a.expansion[0].c, a.ram, 1);
  }

  /** `p/ram`, a precision expressed in powers of `n`. */
  function PerRam(p: nat, ram: nat): real
    requires ram > 0
  {
    p as real / ram as real
  }

  /** `prec()`: infinite for zero; otherwise the smallest precision among
      the nonzero coefficients of the expansion, divided by the
      ramification (`None` stands for infinity). */
  function Prec(a: DSeries): (p: Option<real>)
    requires WellFormed(a)
    ensures a.expansion == [] ==> p == None
    ensures p.Some? ==>
      (exists j :: 0 <= j < |a.expansion| && !PS.IsZero(a.expansion[j]) &&
         a.expansion[j].prec.Fin? && p.value == PerRam(a.expansion[j].prec.n, a.ram))
    ensures forall j :: 0 <= j < |a.expansion| && !PS.IsZero(a.expansion[j]) && a.expansion[j].prec.Fin? ==>
      p.Some? && p.value <= PerRam(a.expansion[j].prec.n, a.ram)
  {
    if a.expansion == [] then None
    else
      var t := T.Prec(a.expansion);
      if t.Inf? then None
      else
        forall j | 0 <= j < |a.expansion| && !PS.IsZero(a.expansion[j]) && a.expansion[j].prec.Fin?
          ensures PerRam(t.n, a.ram) <= PerRam(a.expansion[j].prec.n, a.ram) {
          PerRamMonotone(t.n, a.expansion[j].prec.n, a.ram);
        }
        Some(PerRam(t.n, a.ram))
  }

  lemma PerRamMonotone(p: nat, q: nat, ram: nat)
    requires ram > 0 && p <= q
    ensures PerRam(p, ram) <= PerRam(q, ram)
  {
  }

  // ---------------------------------------------------------------------------
  // Copies

  /** The copying constructor `DiscreteGeneralizedSeries(parent, a,
      make_monic)` as intended: the components are taken over and, when
      asked, the expansion is made monic. */
  function Copy(a: DSeries, makeMonic: bool): (r: DSeries)
    requires WellFormed(a)
    ensures WellFormed(r) && r == a.(expansion := r.expansion)
    ensures !makeMonic ==> r == a
    ensures makeMonic && a.expansion != [] ==> T.MonicDivisor(r.expansion) == 1.0
  {
    if makeMonic then MakeMonic(a) else a
  }

  /** The copying constructor as written: with `make_monic` it divides an
      attribute `__tail` that discrete series do not have. */
  function CopyAsWritten(a: DSeries, makeMonic: bool): (r: Result<DSeries>)
    requires WellFormed(a)
    ensures !(makeMonic && a.expansion != []) ==> r == Ok(Copy(a, makeMonic))
    ensures makeMonic && a.expansion != [] ==> r.Err? && r.error.AttributeError?
  {
    if makeMonic && a.expansion != [] then Err(AttributeError("_DiscreteGeneralizedSeries__tail"))
    else Ok(a)
  }

  /** Copying the one with `make_monic` fails as written and gives the one as intended. */
  lemma CopyOneExample()
    ensures CopyAsWritten(One, true) == Err(AttributeError("_DiscreteGeneralizedSeries__tail"))
    ensures Copy(One, true) == One
  {
    ZeroOneNormal();
    assert PS.Ord(PS.One) == 0 by {
      ValuationAt(PS.One.c, 0);
    }
    var t := Monic(One.expansion);
    assert LowestCoefficient(PS.One.c) == 1.0;
    T.ScaleSupport(1.0, One.expansion);
    assert T.Scale(1.0, One.expansion)[0].c == [1.0];
  }

  // ---------------------------------------------------------------------------
  // The ramification the constructor forgets

  /** `1 + n^(-2/2)`, given with ramification 2. */
  const Sparse: PS.Series := PS.Series([1.0, 0.0, 1.0], PS.Fin(3))

  /** The data needs ramification 1 only. */
  lemma SparseNeedsNoRamification()
    ensures NewRam(Rat(0, 1), [], [Sparse], 2) == 1
  {
    forall e | 0 <= e < |Sparse.c| && Sparse.c[e] != 0.0 ensures Divides(Den(e, 2), 1) {
      assert e == 0 || e == 2;
      GcdDivides(e, 2);
      assert Gcd(e, 2) == 2;
    }
    assert Covers(Rat(0, 1), [], [Sparse], 2, 1);
    NewRamLeast(Rat(0, 1), [], [Sparse], 2, 1);
  }

  /** The constructor as written rewrites `1 + n^(-2/2)` for ramification
      1 but keeps ramification 2, so the stored series is `1 + n^(-1/2)`;
      with the ramification stored it is `1 + n^(-1)`, as given. */
  lemma RamNotStoredExample()
    ensures var w := NormalizeAsWritten(Rat(0, 1), 2, 1.0, [], 0.0, [Sparse], false);
      w.Ok? && w.value.ram == 2 && |w.value.expansion| == 1 && Coef(w.value.expansion[0].c, 1) == 1.0
    ensures var c := Normalize(Rat(0, 1), 2, 1.0, [], 0.0, [Sparse], false);
      c.Ok? && c.value.ram == 1 && |c.value.expansion| == 1 && Coef(c.value.expansion[0].c, 1) == 1.0
    ensures Coef(Sparse.c, 1) == 0.0
  {
    SparseFolded();
    var r := ReduceRam(Rat(0, 1), 2, 1.0, [], 0.0, [Sparse]);
    assert r.ram == 1 && |r.expansion| == 1 && Coef(r.expansion[0].c, 1) == 1.0 by {
      SparseReduced();
      SparseRescaled();
    }
    SparseNormalized();
  }

  lemma SparseNormalized()
    requires T.ValidTail([Sparse]) && Fold([Sparse], 0.0, 2) == ([Sparse], 0.0)
    ensures Normalize(Rat(0, 1), 2, 1.0, [], 0.0, [Sparse], false) == Ok(ReduceRam(Rat(0, 1), 2, 1.0, [], 0.0, [Sparse]))
  {
    assert Reduced(Rat(0, 1));
    ReduceOfReduced(Rat(0, 1));
  }

  /** `1 + n^(-2/2)` has valuation zero: the constructor folds nothing. */
  lemma SparseFolded()
    ensures T.ValidTail([Sparse]) && Reduced(Rat(0, 1)) && Reduce(0, 1) == Rat(0, 1)
    ensures Fold([Sparse], 0.0, 2) == ([Sparse], 0.0)
  {
    assert PS.Ord(Sparse) == 0 by {
      ValuationAt(Sparse.c, 0);
    }
    assert T.MinOrd([Sparse]) == 0;
    assert Reduced(Rat(0, 1));
    ReduceOfReduced(Rat(0, 1));
  }

  /** The ramification of `1 + n^(-2/2)` is reduced to 1. */
  lemma SparseReduced()
    requires T.ValidTail([Sparse])
    ensures C.DensDivide([], 2, 1) && C.TailDensDivide([Sparse], 2, 1)
    ensures ReduceRam(Rat(0, 1), 2, 1.0, [], 0.0, [Sparse]) ==
      DSeries(Rat(0, 1), 1, 1.0, Rescale([], 2, 1), 0.0, RescaleTail([Sparse], 2, 1))
  {
    assert Reduced(Rat(0, 1));
    SparseNeedsNoRamification();
    ReduceRamRescales(Rat(0, 1), 2, 1.0, [], 0.0, [Sparse], 1);
  }

  /** Rewritten for ramification 1, the exponent `2/2` becomes `1/1`. */
  lemma SparseRescaled()
    requires T.ValidTail([Sparse]) && C.TailDensDivide([Sparse], 2, 1)
    ensures |RescaleTail([Sparse], 2, 1)| == 1 && Coef(RescaleTail([Sparse], 2, 1)[0].c, 1) == 1.0
  {
    var r := RescaleTail([Sparse], 2, 1);
    assert r[0] == RescaleCoef(Sparse, 2, 1);
    assert Image(2, 2, 1) == 1;
  }
}
