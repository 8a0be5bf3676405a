/** `_generalized_series_shift_quotient`: for a discrete generalized series
    `f(n) = (n/e)^(gamma*n) * rho^n * exp(c_1*n^(1/ram) + ... ) * n^alpha`
    a polynomial `p` with `f(n+i)/f(n) = p(n^(1/ram))/n^prec + O(n^(-prec))`.
    The quotient is assembled factor by factor: the part of `gamma`, the
    power of `rho`, the sub-exponential part, and the binomial series of
    `(1 + i/n)^alpha`, each multiplied in and divided by `x^(ram*prec)`. */
module Quotient {
  import opened Numbers
  import opened Polynomials
  import opened Outcomes
  import opened SQ = ShiftQuotient

  /** The `subexp` argument `([c_1, ..., c_k], m)`. */
  datatype Subexp = Subexp(coeffs: seq<real>, m: nat)

  /** `m` is a positive integer. */
  predicate ValidSubexp(subexp: Option<Subexp>) {
    subexp.Some? ==> subexp.value.m > 0
  }

  /** The multiplier `m`, and `1` when there is no `subexp`. */
  function Multiplier(subexp: Option<Subexp>): (m: nat)
    requires ValidSubexp(subexp)
    ensures m > 0
  {
    if subexp.Some? then subexp.value.m else 1
  }

  /** `ram = den(gamma) * m`. */
  function Ram(gamma: Rat, subexp: Option<Subexp>): (ram: nat)
    requires gamma.den > 0 && ValidSubexp(subexp)
    ensures ram > 0
  {
    MulPos(gamma.den, Multiplier(subexp));
    gamma.den * Multiplier(subexp)
  }

  /** No `subexp`, or every `c_l` zero: the sub-exponential factor is skipped. */
  predicate SubexpVanishes(subexp: Option<Subexp>) {
    subexp.None? || forall k :: 0 <= k < |subexp.value.coeffs| ==> subexp.value.coeffs[k] == 0.0
  }

  // ---------------------------------------------------------------------------
  // Binomial sums

  /** `C(lam, k) * i^k`. */
  function BinomialTerm(lam: real, i: nat, k: nat): real {
    Binomial(lam, k) * RealPow(i as real, k)
  }

  /** `sum_{k=0..top} C(lam, k) * i^k * x^(base - step*k)`: the binomial
      series of `(1 + i/n)^lam` cut after `top` terms, with `x^step` standing
      for `1/n` and read backwards from `x^base`. */
  function BinomialSum(lam: real, i: nat, top: nat, step: nat, base: nat): (r: Poly)
    requires step * top <= base
    ensures Canonical(r)
    decreases top
  {
    var t := Monomial(BinomialTerm(lam, i, top), base - step * top);
    if top == 0 then t
    else
      assert step * (top - 1) == step * top - step;
      Add(BinomialSum(lam, i, top - 1, step, base), t)
  }

  /** Coefficient `e` of the binomial sum: the term whose exponent is `e`, if any. */
  function BinomialCoef(lam: real, i: nat, top: nat, step: nat, base: nat, e: nat): real
    requires step > 0
  {
    if e <= base && (base - e) % step == 0 && (base - e) / step <= top
    then BinomialTerm(lam, i, (base - e) / step)
    else 0.0
  }

  /** The binomial sum holds `C(lam, k)*i^k` at `x^(base - step*k)` for
      every `k <= top`, and nothing anywhere else. */
  lemma BinomialSumCoefs(lam: real, i: nat, top: nat, step: nat, base: nat)
    requires step > 0 && step * top <= base
    ensures forall e: nat :: Coef(BinomialSum(lam, i, top, step, base), e) == BinomialCoef(lam, i, top, step, base, e)
  {
    BinomialSumCoefsBase(lam, i, step, base);
    for t := 0 to top
      invariant step * t <= base
      invariant CoefsMatch(lam, i, t, step, base)
    {
      MulMonotone(t + 1, top, step);
      BinomialSumCoefsStep(lam, i, t + 1, step, base);
    }
  }

  /** The binomial sum to `t` has the coefficients `BinomialCoef`. */
  ghost predicate CoefsMatch(lam: real, i: nat, t: nat, step: nat, base: nat)
    requires step > 0 && step * t <= base
  {
    forall e: nat :: Coef(BinomialSum(lam, i, t, step, base), e) == BinomialCoef(lam, i, t, step, base, e)
  }

  lemma BinomialSumCoefsBase(lam: real, i: nat, step: nat, base: nat)
    requires step > 0
    ensures CoefsMatch(lam, i, 0, step, base)
  {
    forall e: nat ensures Coef(BinomialSum(lam, i, 0, step, base), e) == BinomialCoef(lam, i, 0, step, base, e) {
      if e == base {
        ModUnique(0, step, 0, 0);
      } else if e <= base && (base - e) % step == 0 {
        var q := (base - e) / step;
        assert base - e == step * q;
        assert q != 0;
      }
    }
  }

  /** One unfolding of the binomial sum. */
  lemma BinomialSumUnfold(lam: real, i: nat, t: nat, step: nat, base: nat)
    requires t > 0 && step * t <= base
    ensures step * (t - 1) <= base
    ensures BinomialSum(lam, i, t, step, base)
         == Add(BinomialSum(lam, i, t - 1, step, base), Monomial(BinomialTerm(lam, i, t), base - step * t))
  {
  }

  lemma BinomialSumCoefsStep(lam: real, i: nat, t: nat, step: nat, base: nat)
    requires step > 0 && t > 0 && step * t <= base
    requires step * (t - 1) <= base
    requires CoefsMatch(lam, i, t - 1, step, base)
    ensures CoefsMatch(lam, i, t, step, base)
  {
    BinomialSumUnfold(lam, i, t, step, base);
    forall e: nat ensures Coef(BinomialSum(lam, i, t, step, base), e) == BinomialCoef(lam, i, t, step, base, e) {
      BinomialCoefStep(lam, i, t, step, base, e);
    }
  }

  /** One more term changes the coefficient at its own exponent only. */
  lemma BinomialCoefStep(lam: real, i: nat, t: nat, step: nat, base: nat, e: nat)
    requires step > 0 && t > 0 && step * t <= base
    ensures BinomialCoef(lam, i, t, step, base, e)
         == BinomialCoef(lam, i, t - 1, step, base, e) + (if e == base - step * t then BinomialTerm(lam, i, t) else 0.0)
  {
    if e == base - step * t {
      ModUnique(base - e, step, t, 0);
    } else if e <= base && (base - e) % step == 0 {
      var q := (base - e) / step;
      assert base - e == step * q;
      assert q != t;
    }
  }

  /** For `lam = 0` only the first term survives. */
  lemma BinomialSumOfZero(i: nat, top: nat, step: nat, base: nat)
    requires step * top <= base
    ensures BinomialSum(0.0, i, top, step, base) == Monomial(1.0, base)
  {
    BinomialSumOfZeroBase(i, step, base);
    for t := 0 to top
      invariant step * t <= base
      invariant BinomialSum(0.0, i, t, step, base) == Monomial(1.0, base)
    {
      MulMonotoneNat(t + 1, top, step);
      BinomialSumOfZeroStep(i, t + 1, step, base);
    }
  }

  lemma BinomialSumOfZeroBase(i: nat, step: nat, base: nat)
    ensures BinomialSum(0.0, i, 0, step, base) == Monomial(1.0, base)
  {
    BinomialLow(0.0);
    assert BinomialTerm(0.0, i, 0) == 1.0;
  }

  lemma BinomialSumOfZeroStep(i: nat, t: nat, step: nat, base: nat)
    requires t > 0 && step * t <= base && step * (t - 1) <= base
    requires BinomialSum(0.0, i, t - 1, step, base) == Monomial(1.0, base)
    ensures BinomialSum(0.0, i, t, step, base) == Monomial(1.0, base)
  {
    BinomialTermOfZero(i, t);
    BinomialSumUnfold(0.0, i, t, step, base);
    MonomialZero(base - step * t);
    AddNothing(Monomial(1.0, base));
  }

  lemma BinomialTermOfZero(i: nat, t: nat)
    requires t > 0
    ensures BinomialTerm(0.0, i, t) == 0.0
  {
    BinomialNaturalVanishes(0, t);
    ZeroTimes(RealPow(i as real, t));
  }

  lemma AddNothing(p: Poly)
    requires Canonical(p)
    ensures Add(p, []) == p
  {
    CanonicalExt(Add(p, []), p);
  }

  // ---------------------------------------------------------------------------
  // The factors

  /** `prec + i*gamma < 0`, cleared of the denominator. */
  predicate Insufficient(prec: nat, i: nat, gamma: Rat) {
    gamma.num != 0 && prec * gamma.den + i * gamma.num < 0
  }

  /** `den(gamma) * (prec + i*gamma)`. */
  function Excess(prec: nat, i: nat, gamma: Rat): (e: nat)
    requires gamma.den > 0 && !Insufficient(prec, i, gamma)
  {
    if gamma.num == 0 then prec * gamma.den else prec * gamma.den + i * gamma.num
  }

  /** `floor(prec + i*gamma)`: the last `k` of the binomial sum of `gamma`. */
  function GammaTop(prec: nat, i: nat, gamma: Rat): nat
    requires gamma.den > 0 && !Insufficient(prec, i, gamma)
  {
    Excess(prec, i, gamma) / gamma.den
  }

  /** `(den*f)*floor(prec + i*gamma) <= f*den*(prec + i*gamma)`. */
  lemma GammaBounds(prec: nat, i: nat, gamma: Rat, f: nat)
    requires gamma.den > 0 && f > 0 && !Insufficient(prec, i, gamma)
    ensures gamma.den * f > 0
    ensures (gamma.den * f) * GammaTop(prec, i, gamma) <= f * Excess(prec, i, gamma)
  {
    MulPos(gamma.den, f);
    var x := Excess(prec, i, gamma);
    var q := x / gamma.den;
    assert gamma.den * q <= x;
    MulMonotone(gamma.den * q, x, f);
    assert (gamma.den * f) * q == (gamma.den * q) * f;
  }

  /** The factor of `(n/e)^(gamma*n)`, on the scale `x^(den*f) = 1/n`: for
      `gamma = 0` the unit `x^(f*prec)`; otherwise `n^(i*gamma)*(1+i/n)^(gamma*i)`
      (a binomial sum read from `x^(w*(prec + i*gamma))`, `w = den*f`) times
      `(1+i/n)^(gamma*n)*exp(-gamma*i)` (the super-expansion in `x^w`),
      divided by `x^(w*prec)`. */
  function GammaCert(prec: nat, i: nat, gamma: Rat, f: nat): (r: Poly)
    requires Reduced(gamma) && f > 0 && !Insufficient(prec, i, gamma)
    ensures Canonical(r)
  {
    MulNat(f, prec);
    if gamma.num == 0 then Monomial(1.0, f * prec)
    else
      GammaBounds(prec, i, gamma, f);
      var w := gamma.den * f;
      MulNat(w, prec);
      var cert := BinomialSum(i as real * RatToReal(gamma), i, GammaTop(prec, i, gamma), w, f * Excess(prec, i, gamma));
      ShiftDown(Mul(cert, Inflate(SuperExpansion(RatToReal(gamma), i, prec), w)), w * prec)
  }

  /** `cert *= rho**i`, skipped when `rho = 1`. */
  function RhoStep(cert: Poly, rho: real, i: nat): Poly {
    if rho != 1.0 then Scale(RealPow(rho, i), cert) else cert
  }

  /** The sub-exponential factor, skipped when every `c_l` is zero. */
  function SubStep(cert: Poly, subexp: Option<Subexp>, i: nat, prec: nat, ram: nat): Poly
    requires ValidSubexp(subexp)
  {
    MulNat(ram, prec);
    if SubexpVanishes(subexp) then cert
    else ShiftDown(Mul(cert, SubExpansion(subexp.value.coeffs, subexp.value.m, i, prec)), ram * prec)
  }

  /** The factor `(1 + i/n)^alpha`, skipped when `alpha = 0`. */
  function AlphaStep(cert: Poly, alpha: real, i: nat, prec: nat, ram: nat): Poly {
    MulNat(ram, prec);
    if alpha != 0.0 then ShiftDown(Mul(cert, BinomialSum(alpha, i, prec, ram, ram * prec)), ram * prec)
    else cert
  }

  /** The quotient with the part of `gamma` on the scale `f`. The library
      passes no `f`; its code behaves as `f = 1`. */
  function QuotientWith(prec: nat, shift: int, gamma: Rat, rho: real, subexp: Option<Subexp>, alpha: real, f: nat): (r: Result<Poly>)
    requires Reduced(gamma) && ValidSubexp(subexp) && f > 0
    ensures r.Err? <==> shift < 0 || (shift > 0 && Insufficient(prec, shift, gamma))
    ensures shift < 0 ==> r == Err(ValueError("only nonnegative shifts are allowed"))
    ensures shift > 0 && Insufficient(prec, shift, gamma) ==> r == Err(ValueError("insufficient precision"))
  {
    var ram := Ram(gamma, subexp);
    MulNat(ram, prec);
    if shift == 0 then Ok(Monomial(1.0, ram * prec))
    else if shift < 0 then Err(ValueError("only nonnegative shifts are allowed"))
    else if Insufficient(prec, shift, gamma) then Err(ValueError("insufficient precision"))
    else
      var cert := RhoStep(GammaCert(prec, shift, gamma, f), rho, shift);
      Ok(AlphaStep(SubStep(cert, subexp, shift, prec, ram), alpha, shift, prec, ram))
  }

  /** `_generalized_series_shift_quotient` as written: the part of `gamma`
      uses `den(gamma)` where the other factors use `ram`. */
  function ShiftQuotientAsWritten(prec: nat, shift: int, gamma: Rat, rho: real, subexp: Option<Subexp>, alpha: real): (r: Result<Poly>)
    requires Reduced(gamma) && ValidSubexp(subexp)
    ensures r.Err? <==> shift < 0 || (shift > 0 && Insufficient(prec, shift, gamma))
  {
    QuotientWith(prec, shift, gamma, rho, subexp, alpha, 1)
  }

  /** The quotient with every factor on the scale `x^ram = 1/n`. */
  function ShiftQuotient(prec: nat, shift: int, gamma: Rat, rho: real, subexp: Option<Subexp>, alpha: real): (r: Result<Poly>)
    requires Reduced(gamma) && ValidSubexp(subexp)
    ensures r.Err? <==> shift < 0 || (shift > 0 && Insufficient(prec, shift, gamma))
  {
    QuotientWith(prec, shift, gamma, rho, subexp, alpha, Multiplier(subexp))
  }

  /** Without `m` the two agree. */
  lemma AsWrittenWithoutMultiplier(prec: nat, shift: int, gamma: Rat, rho: real, subexp: Option<Subexp>, alpha: real)
    requires Reduced(gamma) && ValidSubexp(subexp) && Multiplier(subexp) == 1
    ensures ShiftQuotientAsWritten(prec, shift, gamma, rho, subexp, alpha) == ShiftQuotient(prec, shift, gamma, rho, subexp, alpha)
  {
  }

  // ---------------------------------------------------------------------------
  // What the quotient is

  /** `0/1`, the `gamma` of a series without a factorial part. */
  const NoGamma: Rat := Rat(0, 1)

  lemma NoGammaReduced()
    ensures Reduced(NoGamma)
  {
    assert Gcd(0, 1) == 1;
  }

  /** For `f(n) = rho^n * n^alpha` the quotient `f(n+i)/f(n)` is
      `rho^i * sum_{k=0..prec} C(alpha, k)*i^k/n^k`, on the scale
      `x^ram = 1/n` and read from `x^(ram*prec)`. */
  lemma GeometricPowerQuotient(prec: nat, i: nat, rho: real, subexp: Option<Subexp>, alpha: real)
    requires i > 0 && ValidSubexp(subexp) && SubexpVanishes(subexp)
    ensures ShiftQuotient(prec, i, NoGamma, rho, subexp, alpha)
         == Ok(Scale(RealPow(rho, i), BinomialSum(alpha, i, prec, Multiplier(subexp), Multiplier(subexp) * prec)))
  {
    NoGammaReduced();
    var m := Multiplier(subexp);
    var d := m * prec;
    var c := RealPow(rho, i);
    assert Ram(NoGamma, subexp) == m;
    assert GammaCert(prec, i, NoGamma, m) == Monomial(1.0, d);
    var cert := RhoStep(Monomial(1.0, d), rho, i);
    if rho == 1.0 {
      RealPowOne(i);
    }
    ScaleMonomial(c, 1.0, d);
    assert cert == Monomial(c, d);
    assert SubStep(cert, subexp, i, prec, m) == cert;
    var s := BinomialSum(alpha, i, prec, m, d);
    if alpha != 0.0 {
      MonomialShift(c, d, s);
    } else {
      BinomialSumOfZero(i, prec, m, d);
    }
  }

  /** `rho` enters the quotient only as the factor `rho^shift`: whatever
      `gamma`, sub-exponential part and `alpha`, the quotient is `rho^shift`
      times the quotient with `rho = 1`, and the errors do not depend on
      `rho`. */
  lemma QuotientRho(prec: nat, shift: int, gamma: Rat, rho: real, subexp: Option<Subexp>, alpha: real, f: nat)
    requires Reduced(gamma) && ValidSubexp(subexp) && f > 0
    ensures QuotientWith(prec, shift, gamma, rho, subexp, alpha, f).Ok? <==>
      QuotientWith(prec, shift, gamma, 1.0, subexp, alpha, f).Ok?
    ensures shift >= 0 && QuotientWith(prec, shift, gamma, rho, subexp, alpha, f).Ok? ==>
      QuotientWith(prec, shift, gamma, rho, subexp, alpha, f).value ==
        Scale(RealPow(rho, shift), QuotientWith(prec, shift, gamma, 1.0, subexp, alpha, f).value)
  {
    if shift >= 0 && QuotientWith(prec, shift, gamma, rho, subexp, alpha, f).Ok? {
      var c := RealPow(rho, shift);
      var ram := Ram(gamma, subexp);
      MulNat(ram, prec);
      if shift == 0 {
        ScaleOne(Monomial(1.0, ram * prec));
      } else {
        var cert := GammaCert(prec, shift, gamma, f);
        if rho == 1.0 {
          RealPowOne(shift);
        }
        ScaleOne(cert);
        assert RhoStep(cert, rho, shift) == Scale(c, cert);
        SubStepScale(c, cert, subexp, shift, prec, ram);
        AlphaStepScale(c, SubStep(cert, subexp, shift, prec, ram), alpha, shift, prec, ram);
      }
    }
  }

  /** The same for the quotient the library computes and for the corrected one. */
  lemma ShiftQuotientRho(prec: nat, shift: int, gamma: Rat, rho: real, subexp: Option<Subexp>, alpha: real)
    requires Reduced(gamma) && ValidSubexp(subexp)
    ensures ShiftQuotient(prec, shift, gamma, rho, subexp, alpha).Ok? <==> ShiftQuotient(prec, shift, gamma, 1.0, subexp, alpha).Ok?
    ensures shift >= 0 && ShiftQuotient(prec, shift, gamma, rho, subexp, alpha).Ok? ==>
      ShiftQuotient(prec, shift, gamma, rho, subexp, alpha).value ==
        Scale(RealPow(rho, shift), ShiftQuotient(prec, shift, gamma, 1.0, subexp, alpha).value)
    ensures shift >= 0 && ShiftQuotientAsWritten(prec, shift, gamma, rho, subexp, alpha).Ok? ==>
      ShiftQuotientAsWritten(prec, shift, gamma, rho, subexp, alpha).value ==
        Scale(RealPow(rho, shift), ShiftQuotientAsWritten(prec, shift, gamma, 1.0, subexp, alpha).value)
  {
    QuotientRho(prec, shift, gamma, rho, subexp, alpha, Multiplier(subexp));
    QuotientRho(prec, shift, gamma, rho, subexp, alpha, 1);
  }

  /** The sub-exponential step commutes with scaling. */
  lemma SubStepScale(c: real, cert: Poly, subexp: Option<Subexp>, i: nat, prec: nat, ram: nat)
    requires ValidSubexp(subexp) && Canonical(cert)
    ensures SubStep(Scale(c, cert), subexp, i, prec, ram) == Scale(c, SubStep(cert, subexp, i, prec, ram))
  {
    MulNat(ram, prec);
    if !SubexpVanishes(subexp) {
      var x := SubExpansion(subexp.value.coeffs, subexp.value.m, i, prec);
      MulScaleLeft(c, cert, x);
      ShiftDownScale(c, Mul(cert, x), ram * prec);
    }
  }

  /** The step of `alpha` commutes with scaling. */
  lemma AlphaStepScale(c: real, cert: Poly, alpha: real, i: nat, prec: nat, ram: nat)
    requires Canonical(cert)
    ensures AlphaStep(Scale(c, cert), alpha, i, prec, ram) == Scale(c, AlphaStep(cert, alpha, i, prec, ram))
  {
    MulNat(ram, prec);
    if alpha != 0.0 {
      var x := BinomialSum(alpha, i, prec, ram, ram * prec);
      MulScaleLeft(c, cert, x);
      ShiftDownScale(c, Mul(cert, x), ram * prec);
    }
  }

  /** The shift `0` gives the quotient `1`, that is `x^(ram*prec)`. */
  lemma ShiftQuotientAtZero(prec: nat, gamma: Rat, rho: real, subexp: Option<Subexp>, alpha: real)
    requires Reduced(gamma) && ValidSubexp(subexp)
    ensures ShiftQuotient(prec, 0, gamma, rho, subexp, alpha) == Ok(Monomial(1.0, Ram(gamma, subexp) * prec))
  {
  }

  /** For a constant `f` every shift gives the quotient `1`, the value of
      the shift `0`. */
  lemma ConstantQuotient(prec: nat, i: nat, subexp: Option<Subexp>)
    requires ValidSubexp(subexp) && SubexpVanishes(subexp)
    ensures ShiftQuotient(prec, i, NoGamma, 1.0, subexp, 0.0) == ShiftQuotient(prec, 0, NoGamma, 1.0, subexp, 0.0)
  {
    NoGammaReduced();
    var m := Multiplier(subexp);
    assert Ram(NoGamma, subexp) == m;
    ShiftQuotientAtZero(prec, NoGamma, 1.0, subexp, 0.0);
    if i > 0 {
      MulNat(m, prec);
      var d := m * prec;
      GeometricPowerQuotient(prec, i, 1.0, subexp, 0.0);
      BinomialSumOfZero(i, prec, m, d);
      RealPowOne(i);
      ScaleMonomial(1.0, 1.0, d);
    }
  }

  /** As written, for a constant `f` the shift `0` gives `x^(m*prec)` but
      every positive shift gives `x^prec`: with `m > 1` and `prec > 0` the
      two disagree, although both stand for the quotient `1`. */
  lemma ConstantQuotientAsWritten(prec: nat, i: nat, subexp: Option<Subexp>)
    requires ValidSubexp(subexp) && SubexpVanishes(subexp) && i > 0
    ensures ShiftQuotientAsWritten(prec, i, NoGamma, 1.0, subexp, 0.0) == Ok(Monomial(1.0, prec))
    ensures ShiftQuotientAsWritten(prec, 0, NoGamma, 1.0, subexp, 0.0) == Ok(Monomial(1.0, Multiplier(subexp) * prec))
    ensures Multiplier(subexp) > 1 && prec > 0 ==>
      ShiftQuotientAsWritten(prec, i, NoGamma, 1.0, subexp, 0.0) != ShiftQuotientAsWritten(prec, 0, NoGamma, 1.0, subexp, 0.0)
  {
    NoGammaReduced();
    var m := Multiplier(subexp);
    assert Ram(NoGamma, subexp) == m;
    MulNat(m, prec);
    assert GammaCert(prec, i, NoGamma, 1) == Monomial(1.0, prec);
    if m > 1 && prec > 0 {
      MulStrict(1, m, prec);
      assert |Monomial(1.0, prec)| != |Monomial(1.0, m * prec)|;
    }
  }

  // ---------------------------------------------------------------------------
  // Helpers

  lemma RealPowOne(k: nat)
    ensures RealPow(1.0, k) == 1.0
  {
    for j := 0 to k
      invariant RealPow(1.0, j) == 1.0
    {
    }
  }

  /** Dividing by `x^d` commutes with scaling. */
  lemma ShiftDownScale(c: real, p: Poly, d: nat)
    requires Canonical(p)
    ensures ShiftDown(Scale(c, p), d) == Scale(c, ShiftDown(p, d))
  {
    CanonicalExt(ShiftDown(Scale(c, p), d), Scale(c, ShiftDown(p, d)));
  }

  lemma ScaleMonomial(c: real, a: real, d: nat)
    ensures Scale(c, Monomial(a, d)) == Monomial(c * a, d)
  {
    var l := Scale(c, Monomial(a, d));
    var r := Monomial(c * a, d);
    forall e | 0 <= e ensures Coef(l, e) == Coef(r, e) {
      if e != d {
        assert Coef(l, e) == c * 0.0;
      }
    }
    CanonicalExt(l, r);
  }

  /** Multiplying by `c*x^d` and dividing by `x^d` scales by `c`. */
  lemma MonomialShift(c: real, d: nat, p: Poly)
    requires Canonical(p)
    ensures ShiftDown(Mul(Monomial(c, d), p), d) == Scale(c, p)
  {
    var r := ShiftDown(Mul(Monomial(c, d), p), d);
    forall e | 0 <= e ensures Coef(r, e) == Coef(Scale(c, p), e) {
      MulCoef(Monomial(c, d), p, e + d);
      ConvSumMonomial(c, d, p, e + d, e + d + 1);
    }
    CanonicalExt(r, Scale(c, p));
  }

  /** The convolution with `c*x^d` picks the one term `j = d`. */
  lemma ConvSumMonomial(c: real, d: nat, p: Poly, k: int, n: nat)
    ensures ConvSum(Monomial(c, d), p, k, n) == if n > d then c * Coef(p, k - d) else 0.0
  {
    for j := 0 to n
      invariant ConvSum(Monomial(c, d), p, k, j) == if j > d then c * Coef(p, k - d) else 0.0
    {
      if j != d {
        ZeroTimes(Coef(p, k - j));
      }
    }
  }
}
