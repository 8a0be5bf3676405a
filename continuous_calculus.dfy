/** Substitution of a positive rational power of `x` and differentiation
    of continuous generalized series. */
module ContinuousCalculus {
  import opened Numbers
  import opened Polynomials
  import PS = PowerSeries
  import T = Tails
  import opened Outcomes
  import opened Continuous
  import CA = ContinuousArith

  const ExponentMessage: string := "exponent must be a rational number"

  // ---------------------------------------------------------------------------
  // Substitution

  /** A positive fraction reduces to a positive numerator. */
  lemma ReducePositive(n: int, d: nat)
    requires n > 0 && d > 0
    ensures Reduce(n, d).num > 0
  {
    var q := Reduce(n, d);
    ReduceValue(n, d);
    assert q.num as real / q.den as real > 0.0;
  }

  /** `substitute(e)` for a positive rational `e`: reduced to `a/b`, the
      exponential part becomes `e*exp(x^a)`, the tail `tail(x^a, e*LOG)`, and
      the ramification is multiplied by `b`. An `e` that is not positive is
      refused and `e = 1` returns the series itself. */
  function Substitute(s: CSeries, e: Rat): (r: Result<CSeries>)
    requires Valid(s) && ValidRat(e)
    ensures e.num <= 0 ==> r == Err(TypeError(ExponentMessage))
    ensures e.num == e.den ==> r == Ok(s)
    ensures e.num > 0 ==> r.Ok? && Valid(r.value) && |r.value.tail| == |s.tail|
    ensures e.num > 0 && s.tail != [] ==> Order(r.value) == Some(Coef(Scale(RatToReal(e), s.exp), 0))
    ensures e.num > 0 && e.num != e.den && s.tail != [] ==>
      var q := Reduce(e.num, e.den);
      q.num > 0 && SubstitutedTail(s, q) != [] && q.den * s.ram > 0 &&
      Represents(r.value, SubstitutedTail(s, q), SubstitutedExp(s, q), q.den * s.ram)
  {
    if e.num <= 0 then Err(TypeError(ExponentMessage))
    else if e.num == e.den then
      RatToRealOne(e);
      Ok(s)
    else
      ReducePositive(e.num, e.den);
      var q := Reduce(e.num, e.den);
      ReduceValue(e.num, e.den);
      assert RatToReal(q) == RatToReal(e);
      Ok(SubstituteReduced(s, q))
  }

  /** The substitution of `x^(a/b)` for a reduced positive fraction `a/b`. */
  function SubstituteReduced(s: CSeries, q: Rat): (r: CSeries)
    requires Valid(s) && ValidRat(q) && q.num > 0
    ensures Valid(r) && |r.tail| == |s.tail|
    ensures s.tail != [] ==> Order(r) == Some(Coef(Scale(RatToReal(q), s.exp), 0))
    ensures s.tail != [] ==>
      SubstitutedTail(s, q) != [] && q.den * s.ram > 0 &&
      Represents(r, SubstitutedTail(s, q), SubstitutedExp(s, q), q.den * s.ram)
  {
    var k := RatToReal(q);
    MulPos(q.den, s.ram);
    assert k > 0.0;
    var tail, exp := SubstitutedTail(s, q), SubstitutedExp(s, q);
    SubstitutedOrderZero(s.tail, k, q.num);
    ScaledInflatedConstant(k, s.exp, q.num);
    NormalizedOrder(tail, exp, q.den * s.ram);
    Normalize(tail, exp, q.den * s.ram, false).value
  }

  /** The tail `tail(x^a, (a/b)*LOG)` handed to the constructor. */
  function SubstitutedTail(s: CSeries, q: Rat): (t: T.Tail)
    requires Valid(s) && ValidRat(q) && q.num > 0
    ensures T.ValidTail(t)
  {
    T.Inflate(T.ScaleLog(s.tail, RatToReal(q)), q.num)
  }

  /** The exponential part `(a/b)*exp(x^a)` handed to the constructor. */
  function SubstitutedExp(s: CSeries, q: Rat): (p: Poly)
    requires Valid(s) && ValidRat(q) && q.num > 0
    ensures Canonical(p)
  {
    Scale(RatToReal(q), Inflate(s.exp, q.num))
  }

  lemma ScaledInflatedConstant(k: real, p: Poly, a: nat)
    requires a > 0
    ensures Coef(Scale(k, Inflate(p, a)), 0) == Coef(Scale(k, p), 0)
  {
    ScaleAt(k, Inflate(p, a), 0);
    ScaleAt(k, p, 0);
    InflateAt(p, a, 0);
  }

  /** The substituted tail still has a coefficient of valuation zero. */
  lemma SubstitutedOrderZero(tail: T.Tail, k: real, a: nat)
    requires T.ValidTail(tail) && a > 0
    requires tail != [] ==> T.MinOrd(tail) == 0
    ensures k != 0.0 ==> |T.Inflate(T.ScaleLog(tail, k), a)| == |tail|
    ensures k != 0.0 && tail != [] ==> T.MinOrd(T.Inflate(T.ScaleLog(tail, k), a)) == 0
  {
    if k != 0.0 {
      T.ScaleLogSupport(tail, k);
      if tail != [] {
        T.SameSupportMinOrd(tail, T.ScaleLog(tail, k));
        CA.InflateMinOrdZero(T.ScaleLog(tail, k), a);
      }
    }
  }

  // ---------------------------------------------------------------------------
  // The documented substitutions of `1 + x^(1/2) + x^(2/2)`

  /** With no logarithm in the tail, scaling `LOG` changes nothing. */
  lemma ScaleLogNoLog(c: PS.Series, k: real)
    requires PS.Valid(c) && !PS.IsZero(c) && c.prec == PS.Inf
    ensures T.ScaleLog([c], k) == [c]
  {
    var s := PS.Scale(RealPow(k, 0), c);
    assert RealPow(k, 0) == 1.0;
    CanonicalExt(s.c, c.c);
    assert seq(1, j requires 0 <= j < 1 => PS.Scale(RealPow(k, j), [c][j])) == [s];
  }

  /** For a series without exponential part or logarithm, the substituted
      data is the single coefficient with `x^a` put in for `x`. */
  lemma SubstituteSingle(s: CSeries, q: Rat)
    requires Valid(s) && ValidRat(q) && q.num > 0
    requires s.exp == [] && |s.tail| == 1 && s.tail[0].prec == PS.Inf
    ensures SubstitutedTail(s, q) == [PS.Inflate(s.tail[0], q.num)] && SubstitutedExp(s, q) == []
  {
    ScaleLogNoLog(s.tail[0], RatToReal(q));
    CanonicalExt(Inflate([], q.num), []);
    CanonicalExt(Scale(RatToReal(q), []), []);
  }

  /** For a reduced fraction other than one, `substitute` is the constructor
      applied to the substituted data. */
  lemma SubstituteUnfold(s: CSeries, q: Rat)
    requires Valid(s) && Reduced(q) && q.num > 0 && q.num != q.den
    ensures q.den * s.ram > 0
    ensures Substitute(s, q) == Normalize(SubstitutedTail(s, q), SubstitutedExp(s, q), q.den * s.ram, false)
  {
    MulPos(q.den, s.ram);
    ReduceOfReduced(q);
  }

  /** `1 + x + x^2`. */
  const Quadratic: PS.Series := PS.Series([1.0, 1.0, 1.0], PS.Inf)

  /** `G(1+x+x^2, ramification=2)`, that is `1 + x^(1/2) + x^(2/2)`. */
  const HalfQuadratic: CSeries := CSeries(2, [], [Quadratic])

  /** `1 + x^(3/10) + x^(6/10)`. */
  const TenthQuadratic: CSeries := CSeries(10, [], [PS.Series([1.0, 0.0, 0.0, 1.0, 0.0, 0.0, 1.0], PS.Inf)])

  /** `1 + x + x^2` with ramification one. */
  const WholeQuadratic: CSeries := CSeries(1, [], [Quadratic])

  /** The documented example: substituting `x^(3/5)` into `1 + x^(1/2) +
      x^(2/2)` gives `1 + x^(3/10) + x^(6/10)`, substituting `x^(10/3)` into
      that gives `1 + x + x^2` with ramification one, and so does
      substituting `x^2` at once. */
  lemma SubstituteExample()
    ensures Valid(HalfQuadratic) && Valid(TenthQuadratic)
    ensures Substitute(HalfQuadratic, Rat(3, 5)) == Ok(TenthQuadratic)
    ensures Substitute(TenthQuadratic, Rat(10, 3)) == Ok(WholeQuadratic)
    ensures Substitute(HalfQuadratic, Rat(2, 1)) == Ok(WholeQuadratic)
  {
    SubstituteThreeFifths();
    SubstituteTenThirds();
    SubstituteTwo();
  }

  lemma HalfQuadraticValid()
    ensures Valid(HalfQuadratic) && Valid(WholeQuadratic)
  {
    var c := Quadratic;
    assert PS.Ord(c) == 0 by {
      ValuationAt(c.c, 0);
    }
    assert T.MinOrd([c]) == 0;
    forall q | 1 < q <= 2 && Divides(q, 2) ensures !Multiples([], [c], q) {
      assert q == 2 && c.c[1] != 0.0;
    }
  }

  lemma TenthQuadraticValid()
    ensures Valid(TenthQuadratic)
  {
    var c := TenthQuadratic.tail[0];
    assert PS.Ord(c) == 0 by {
      ValuationAt(c.c, 0);
    }
    assert T.MinOrd([c]) == 0;
    forall q | 1 < q <= 10 && Divides(q, 10) ensures !Multiples([], [c], q) {
      DividesTen(q);
      assert c.c[3] != 0.0 && !Divides(q, 3);
    }
  }

  /** The divisors of ten above one. */
  lemma DividesTen(q: nat)
    requires 1 < q <= 10 && Divides(q, 10)
    ensures q == 2 || q == 5 || q == 10
  {
  }

  lemma SubstituteThreeFifths()
    ensures Valid(HalfQuadratic) && Valid(TenthQuadratic)
    ensures Substitute(HalfQuadratic, Rat(3, 5)) == Ok(TenthQuadratic)
  {
    HalfQuadraticValid();
    assert Gcd(3, 5) == 1;
    SubstituteUnfold(HalfQuadratic, Rat(3, 5));
    SubstituteSingle(HalfQuadratic, Rat(3, 5));
    InflateByThree();
    TenthQuadraticValid();
    var c := TenthQuadratic.tail[0];
    NormalizeUnfolded([c], [], 10);
    NewRamOfValid(TenthQuadratic);
  }

  /** `1 + x + x^2` with `x^3` put in for `x`. */
  lemma InflateByThree()
    ensures PS.Inflate(Quadratic, 3) == TenthQuadratic.tail[0]
  {
    var c := TenthQuadratic.tail[0];
    forall i | 0 <= i ensures Coef(PS.Inflate(Quadratic, 3).c, i) == Coef(c.c, i) {
    }
    CanonicalExt(PS.Inflate(Quadratic, 3).c, c.c);
  }

  lemma SubstituteTenThirds()
    ensures Valid(TenthQuadratic) && Valid(WholeQuadratic)
    ensures Substitute(TenthQuadratic, Rat(10, 3)) == Ok(WholeQuadratic)
  {
    HalfQuadraticValid();
    TenthQuadraticValid();
    assert Gcd(10, 3) == 1;
    SubstituteUnfold(TenthQuadratic, Rat(10, 3));
    SubstituteSingle(TenthQuadratic, Rat(10, 3));
    var c := TenthQuadratic.tail[0];
    var d := PS.Inflate(c, 10);
    TenThirdsDens(d);
    TenThirdsCoefs(d);
    CollapsesToOne(d, 30, Quadratic);
  }

  /** Every thirtieth coefficient of `1 + x^30 + x^60` is one of `1 + x + x^2`. */
  lemma TenThirdsCoefs(d: PS.Series)
    requires d == PS.Inflate(TenthQuadratic.tail[0], 10)
    ensures forall i :: 0 <= i ==> Coef(d.c, 30 * i) == Coef(Quadratic.c, i)
  {
    var c := TenthQuadratic.tail[0];
    InflateByThree();
    forall i | 0 <= i ensures Coef(d.c, 30 * i) == Coef(Quadratic.c, i) {
      InflateAt(c.c, 10, 3 * i);
      InflateAt(Quadratic.c, 3, i);
      assert 10 * (3 * i) == 30 * i;
    }
  }

  /** `1 + x^30 + x^60` over ramification 30 needs no ramification. */
  lemma TenThirdsDens(d: PS.Series)
    requires d == PS.Inflate(TenthQuadratic.tail[0], 10)
    ensures forall e :: 0 <= e < |d.c| && d.c[e] != 0.0 ==> Divides(Den(e, 30), 1)
  {
    var c := TenthQuadratic.tail[0];
    forall e | 0 <= e < |d.c| && d.c[e] != 0.0 ensures Divides(Den(e, 30), 1) {
      assert Coef(d.c, e) != 0.0;
      assert e == 0 || e == 30 || e == 60;
      assert Gcd(e, 30) == 30;
    }
  }

  lemma SubstituteTwo()
    ensures Valid(HalfQuadratic) && Valid(WholeQuadratic)
    ensures Substitute(HalfQuadratic, Rat(2, 1)) == Ok(WholeQuadratic)
  {
    HalfQuadraticValid();
    assert Gcd(2, 1) == 1;
    SubstituteUnfold(HalfQuadratic, Rat(2, 1));
    SubstituteSingle(HalfQuadratic, Rat(2, 1));
    var d := PS.Inflate(Quadratic, 2);
    TwoDens(d);
    forall i | 0 <= i ensures Coef(d.c, 2 * i) == Coef(Quadratic.c, i) {
      InflateAt(Quadratic.c, 2, i);
    }
    CollapsesToOne(d, 2, Quadratic);
  }

  /** `1 + x^2 + x^4` over ramification 2 needs no ramification. */
  lemma TwoDens(d: PS.Series)
    requires d == PS.Inflate(Quadratic, 2)
    ensures forall e :: 0 <= e < |d.c| && d.c[e] != 0.0 ==> Divides(Den(e, 2), 1)
  {
    forall e | 0 <= e < |d.c| && d.c[e] != 0.0 ensures Divides(Den(e, 2), 1) {
      assert Coef(d.c, e) != 0.0;
      assert e == 0 || e == 2 || e == 4;
      assert Gcd(e, 2) == 2;
    }
  }

  lemma DividesOne(l: nat)
    requires Divides(l, 1)
    ensures l == 1
  {
  }

  /** A single exact coefficient with constant term whose exponents all
      reduce to integers collapses, under the constructor, to ramification
      one with the coefficient `c` read off every `ram`-th exponent. */
  lemma CollapsesToOne(d: PS.Series, ram: nat, c: PS.Series)
    requires PS.Valid(d) && d.prec == PS.Inf && ram > 0 && Coef(d.c, 0) != 0.0
    requires forall e :: 0 <= e < |d.c| && d.c[e] != 0.0 ==> Divides(Den(e, ram), 1)
    requires PS.Valid(c) && c.prec == PS.Inf && forall i :: 0 <= i ==> Coef(d.c, ram * i) == Coef(c.c, i)
    ensures Normalize([d], [], ram, false) == Ok(CSeries(1, [], [c]))
  {
    CA.OrdZero(d);
    assert T.MinOrd([d]) == 0;
    NormalizeUnfolded([d], [], ram);
    CollapsedRam(d, ram);
    var r := ReduceRam([], [d], ram);
    if ram == 1 {
      forall i | 0 <= i ensures Coef(d.c, i) == Coef(c.c, i) {
        assert ram * i == i;
      }
      CanonicalExt(d.c, c.c);
    } else {
      CollapsedTail(d, ram, c, r);
    }
  }

  /** Exponents that all reduce to integers need ramification one. */
  lemma CollapsedRam(d: PS.Series, ram: nat)
    requires PS.Valid(d) && !PS.IsZero(d) && ram > 0
    requires forall e :: 0 <= e < |d.c| && d.c[e] != 0.0 ==> Divides(Den(e, ram), 1)
    ensures ReduceRam([], [d], ram).ram == 1
  {
    assert TailDensDivide([d], ram, 1);
    NewRamLeast([], [d], ram, 1);
    DividesOne(NewRam([], [d], ram));
  }

  /** Rewritten for ramification one, the coefficient is read off every
      `ram`-th exponent. */
  lemma CollapsedTail(d: PS.Series, ram: nat, c: PS.Series, r: CSeries)
    requires PS.Valid(d) && !PS.IsZero(d) && ram > 1
    requires PS.Valid(c) && c.prec == PS.Inf && forall i :: 0 <= i ==> Coef(d.c, ram * i) == Coef(c.c, i)
    requires r == ReduceRam([], [d], ram) && r.ram == 1
    ensures r == CSeries(1, [], [c])
  {
    assert ram / r.ram == ram;
    assert r.tail[0] == PS.Deflate(d, ram);
    forall i | 0 <= i ensures Coef(r.tail[0].c, i) == Coef(c.c, i) {
      assert Coef(r.tail[0].c, i) == Coef(d.c, i * ram);
      assert i * ram == ram * i;
    }
    CanonicalExt(r.tail[0].c, c.c);
    CanonicalExt(r.exp, []);
    assert r.tail == [c];
  }

  // ---------------------------------------------------------------------------
  // Differentiation

  /** `derivative()`: for `exp(int E(x^(-1/r))/x) * T(x^(1/r), log(x))`, the
      sum of the part coming from the exponential factor, `E(x^(-1/r))/x`
      times the series, and the part coming from the tail, `T_x*x^(1/r)/r +
      T_log` with exponent lowered by one. */
  function Derivative(s: CSeries): (r: Result<CSeries>)
    requires Valid(s)
    ensures s.tail == [] ==> r == Ok(Zero)
  {
    CA.Add(FromExponential(s), FromTail(s))
  }

  /** `E(x^(-1/r))/x` times the series, with the exponential part written
      with its leading term in front. */
  function FromExponential(s: CSeries): (r: CSeries)
    requires Valid(s)
    ensures Valid(r) && (s.tail == [] ==> r == Zero)
  {
    Normalize(T.MulSeries(LeadingFactor(s), s.tail), LoweredExponent(s), s.ram, false).value
  }

  /** `(x^r*E).reverse()`: the exponential part read from its leading term. */
  function LeadingFactor(s: CSeries): (f: PS.Series)
    ensures PS.Valid(f)
  {
    PS.Exact(Reverse(Mul(Monomial(1.0, s.ram), s.exp)))
  }

  /** `E - deg(E)/r - 1`. */
  function LoweredExponent(s: CSeries): (e: Poly)
    requires s.ram > 0
    ensures Canonical(e)
  {
    AddConstant(s.exp, -(Degree(s.exp) as real / s.ram as real) - 1.0)
  }

  /** The derivative of the tail: each coefficient differentiated in `x^(1/r)`
      and the tail differentiated in `LOG`, with the exponent lowered by one. */
  function FromTail(s: CSeries): (r: CSeries)
    requires Valid(s)
    ensures Valid(r) && (s.tail == [] ==> r == Zero)
  {
    Normalize(T.Add(T.DerivativeX(s.tail, s.ram), T.DerivativeLog(s.tail)), AddConstant(s.exp, -1.0), s.ram, false).value
  }

  /** `x^alpha`. */
  function Power(alpha: real): (r: CSeries)
    ensures Valid(r)
  {
    assert PS.Ord(PS.One) == 0 by {
      ValuationAt(PS.One.c, 0);
    }
    CSeries(1, Constant(alpha), T.One)
  }

  /** The power rule: the derivative of `x^alpha` is `alpha*x^(alpha-1)`. */
  lemma PowerRule(alpha: real)
    ensures Derivative(Power(alpha)) ==
      Ok(if alpha == 0.0 then Zero else CSeries(1, Constant(alpha - 1.0), [PS.Series([alpha], PS.Inf)]))
  {
    PowerFromTail(alpha);
    PowerFromExponential(alpha);
  }

  /** The tail one contributes nothing to the derivative of `x^alpha`. */
  lemma PowerFromTail(alpha: real)
    ensures FromTail(Power(alpha)) == Zero
  {
    var d := PS.Derivative(PS.One);
    assert d.c == [];
    var m := PS.Mul(d, PS.Exact(Monomial(1.0, 1)));
    assert m.c == [];
    assert PS.Scale(1.0 / 1 as real, m).c == [];
    assert T.DerivativeX(T.One, 1) == [];
  }

  /** The exponential factor of `x^alpha` contributes `alpha*x^(alpha-1)`. */
  lemma PowerFromExponential(alpha: real)
    ensures FromExponential(Power(alpha)) ==
      if alpha == 0.0 then Zero else CSeries(1, Constant(alpha - 1.0), [PS.Series([alpha], PS.Inf)])
  {
    var s := Power(alpha);
    var lead := LeadingFactor(s);
    if alpha == 0.0 {
      assert lead == PS.Zero;
      assert T.MulSeries(lead, s.tail) == [];
    } else {
      ReverseOfShiftedConstant(alpha);
      assert lead == PS.Series([alpha], PS.Inf);
      PS.MulOne(lead);
      assert T.MulSeries(lead, s.tail) == [lead];
      LoweredConstant(alpha);
      PowerDerivativeValid(alpha);
      NormalizeFixpoint(CSeries(1, Constant(alpha - 1.0), [lead]));
    }
  }

  /** The exponent of `x^alpha` lowered by its degree over the ramification and one. */
  lemma LoweredConstant(alpha: real)
    requires alpha != 0.0
    ensures LoweredExponent(Power(alpha)) == Constant(alpha - 1.0)
  {
    assert Degree(Constant(alpha)) == 0;
    CanonicalExt(AddConstant(Constant(alpha), -(0 as real / 1 as real) - 1.0), Constant(alpha - 1.0));
  }

  lemma PowerDerivativeValid(alpha: real)
    requires alpha != 0.0
    ensures Valid(CSeries(1, Constant(alpha - 1.0), [PS.Series([alpha], PS.Inf)]))
  {
    var lead := PS.Series([alpha], PS.Inf);
    assert PS.Ord(lead) == 0 by {
      ValuationAt(lead.c, 0);
    }
    assert T.MinOrd([lead]) == 0;
  }

  /** `x * alpha` reversed is `alpha`. */
  lemma ReverseOfShiftedConstant(alpha: real)
    requires alpha != 0.0
    ensures Reverse(Mul(Monomial(1.0, 1), Constant(alpha))) == [alpha]
  {
    var x, c := Monomial(1.0, 1), Constant(alpha);
    var m := Mul(x, c);
    forall i | 0 <= i ensures Coef(m, i) == Coef([0.0, alpha], i) {
      MulCoef(x, c, i);
      if i == 0 {
        assert ConvSum(x, c, 0, 1) == Coef(x, 0) * Coef(c, 0);
      } else if i == 1 {
        assert ConvSum(x, c, 1, 2) == ConvSum(x, c, 1, 1) + Coef(x, 1) * Coef(c, 0);
        assert ConvSum(x, c, 1, 1) == Coef(x, 0) * Coef(c, 1);
      } else {
        ConvSumZero(x, c, i, i + 1);
      }
    }
    CanonicalExt(m, [0.0, alpha]);
    CanonicalExt(Reverse(m), [alpha]);
  }

  /** `c*LOG^k` as a tail: `k` zero coefficients, then `c`. */
  function LogMonomial(k: nat, c: PS.Series): (t: T.Tail)
    ensures |t| == k + 1 && t[k] == c
  {
    seq(k + 1, j requires 0 <= j <= k => if j == k then c else PS.Zero)
  }

  /** `log(x)^k`. */
  function LogPower(k: nat): (s: CSeries)
    ensures Valid(s)
  {
    LogMonomialValid(k, PS.One, []);
    CSeries(1, [], LogMonomial(k, PS.One))
  }

  /** `c*log(x)^k` times `x^e` is a valid series when `c` has valuation zero. */
  lemma LogMonomialValid(k: nat, c: PS.Series, e: Poly)
    requires PS.Valid(c) && !PS.IsZero(c) && Canonical(e) && Coef(c.c, 0) != 0.0
    ensures T.ValidTail(LogMonomial(k, c)) && Valid(CSeries(1, e, LogMonomial(k, c)))
  {
    var t := LogMonomial(k, c);
    assert PS.Ord(c) == 0 by {
      ValuationAt(c.c, 0);
    }
    assert T.ValidTail(t);
    assert T.MinOrd(t) == 0;
  }

  /** The log-power rule: for every `k` the derivative of `log(x)^k` is
      `k*log(x)^(k-1)/x`, and that of `log(x)^0 = 1` is zero. */
  lemma LogPowerRule(k: nat)
    ensures Derivative(LogPower(k)) ==
      Ok(if k == 0 then Zero else CSeries(1, [-1.0], LogMonomial(k - 1, PS.Series([k as real], PS.Inf))))
  {
    if k == 0 {
      assert LogPower(0) == Power(0.0);
      PowerRule(0.0);
    } else {
      LogPowerFromExponential(k);
      LogPowerFromTail(k);
    }
  }

  /** With exponential part zero, the exponential factor contributes nothing. */
  lemma LogPowerFromExponential(k: nat)
    ensures FromExponential(LogPower(k)) == Zero
  {
    var s := LogPower(k);
    assert Reverse(Mul(Monomial(1.0, 1), [])) == [];
    assert LeadingFactor(s) == PS.Zero;
    assert T.MulSeries(PS.Zero, s.tail) == [];
  }

  /** The tail `LOG^k` differentiates to `k*LOG^(k-1)` with exponent lowered by one. */
  lemma LogPowerFromTail(k: nat)
    requires k > 0
    ensures FromTail(LogPower(k)) == CSeries(1, [-1.0], LogMonomial(k - 1, PS.Series([k as real], PS.Inf)))
  {
    var s := LogPower(k);
    var c := PS.Series([k as real], PS.Inf);
    var r := CSeries(1, [-1.0], LogMonomial(k - 1, c));
    LogMonomialValid(k - 1, c, [-1.0]);
    LogPowerDerivativeX(k);
    DerivativeLogPower(k);
    T.AddZero(r.tail);
    ConstantMinusOne();
    NormalizeFixpoint(r);
  }

  /** The coefficients of `LOG^k` are constants: its derivative in `x` vanishes. */
  lemma LogPowerDerivativeX(k: nat)
    ensures T.DerivativeX(LogPower(k).tail, 1) == []
  {
    var a := LogPower(k).tail;
    forall j | 0 <= j < |a| ensures a[j].prec == PS.Inf && |a[j].c| <= 1 {
    }
    DerivativeXConstants(a);
  }

  /** `d/dLOG LOG^k = k*LOG^(k-1)`. */
  lemma DerivativeLogPower(k: nat)
    requires k > 0
    ensures T.DerivativeLog(LogPower(k).tail) == LogMonomial(k - 1, PS.Series([k as real], PS.Inf))
  {
    var a := LogPower(k).tail;
    var c := PS.Series([k as real], PS.Inf);
    var u := seq(|a| - 1, j requires 0 <= j < |a| - 1 => PS.Scale((j + 1) as real, a[j + 1]));
    forall j | 0 <= j < k ensures u[j] == LogMonomial(k - 1, c)[j] {
      if j == k - 1 {
        ScaledOne(k as real);
      } else {
        ScaledZero((j + 1) as real);
      }
    }
    assert u == LogMonomial(k - 1, c);
    LogMonomialValid(k - 1, c, []);
    T.TTrimValid(u);
  }

  lemma ScaledOne(x: real)
    requires x != 0.0
    ensures PS.Scale(x, PS.One) == PS.Series([x], PS.Inf)
  {
    CanonicalExt(PS.Scale(x, PS.One).c, [x]);
  }

  lemma ScaledZero(x: real)
    ensures PS.Scale(x, PS.Zero) == PS.Zero
  {
    CanonicalExt(PS.Scale(x, PS.Zero).c, []);
  }

  /** `log(x)^3`. */
  const LogCubed: CSeries := CSeries(1, [], [PS.Zero, PS.Zero, PS.Zero, PS.One])

  /** `x^(-1)*3*log(x)^2`. */
  const LogCubedDerivativeValue: CSeries := CSeries(1, [-1.0], [PS.Zero, PS.Zero, PS.Series([3.0], PS.Inf)])

  /** The documented example: the derivative of `log(x)^3` is `x^(-1)*3*log(x)^2`. */
  lemma LogCubedDerivative()
    ensures Valid(LogCubed)
    ensures Derivative(LogCubed) == Ok(LogCubedDerivativeValue)
  {
    LogCubedIsPower();
    LogPowerRule(3);
  }

  lemma LogCubedIsPower()
    ensures LogCubed == LogPower(3)
    ensures LogCubedDerivativeValue == CSeries(1, [-1.0], LogMonomial(3 - 1, PS.Series([3 as real], PS.Inf)))
  {
    assert LogMonomial(3, PS.One) == LogCubed.tail;
    assert LogMonomial(2, PS.Series([3.0], PS.Inf)) == LogCubedDerivativeValue.tail;
  }

  lemma ConstantMinusOne()
    ensures AddConstant([], -1.0) == [-1.0]
  {
    CanonicalExt(AddConstant([], -1.0), [-1.0]);
  }

  /** A tail whose coefficients are exact constants has zero derivative in `x`. */
  lemma DerivativeXConstants(a: T.Tail)
    requires T.ValidTail(a) && forall j :: 0 <= j < |a| ==> a[j].prec == PS.Inf && |a[j].c| <= 1
    ensures T.DerivativeX(a, 1) == []
  {
    var u := seq(|a|, j requires 0 <= j < |a| =>
      if PS.IsZero(a[j]) then PS.Zero
      else PS.Scale(1.0 / 1 as real, PS.Mul(PS.Derivative(a[j]), PS.Exact(Monomial(1.0, 1)))));
    forall j | 0 <= j < |a| ensures PS.Valid(u[j]) && PS.IsZero(u[j]) {
      if !PS.IsZero(a[j]) {
        ConstantDerivativeX(a[j]);
      }
    }
    T.TTrimZeros(u);
  }

  /** An exact constant has zero derivative in `x`. */
  lemma ConstantDerivativeX(s: PS.Series)
    requires PS.Valid(s) && s.prec == PS.Inf && |s.c| <= 1
    ensures PS.IsZero(PS.Scale(1.0 / 1 as real, PS.Mul(PS.Derivative(s), PS.Exact(Monomial(1.0, 1)))))
  {
    var d := PS.Derivative(s);
    assert d.c == [];
    var m := PS.Mul(d, PS.Exact(Monomial(1.0, 1)));
    assert PS.IsZero(m) by {
      forall i | 0 <= i ensures Coef(m.c, i) == 0.0 {
        PS.MakeAt(Polynomials.Mul(d.c, PS.Exact(Monomial(1.0, 1)).c), m.prec, i);
        MulCoef(d.c, PS.Exact(Monomial(1.0, 1)).c, i);
      }
      CanonicalExt(m.c, []);
    }
    PS.ScaledCoefficients(1.0 / 1 as real, m);
    assert PS.IsZero(PS.Scale(1.0 / 1 as real, m)) by {
      var r := PS.Scale(1.0 / 1 as real, m);
      forall i | 0 <= i ensures Coef(r.c, i) == 0.0 {
        PS.MakeAt(Polynomials.Scale(1.0 / 1 as real, m.c), m.prec, i);
        ScaleAt(1.0 / 1 as real, m.c, i);
      }
      CanonicalExt(r.c, []);
    }
  }
}
