/** `shift(i)` and `__call__` of discrete generalized series: `f(n+i)` for
    a nonnegative integer `i`. The shift quotient `f(n+i)/f(n)` of the
    factorial, exponential, sub-exponential and power parts is multiplied
    into every coefficient of the expansion after `n^(-1/ram)` has been
    replaced by the truncated series of `(n+i)^(-1/ram)`, and `log(n)` by
    `log(n) + log(1 + i/n)`; the constructor then normalizes the result. */
module DiscreteShift {
  import opened Numbers
  import opened Polynomials
  import PS = PowerSeries
  import T = Tails
  import opened Outcomes
  import opened Discrete
  import SQ = ShiftQuotient
  import Q = Quotient

  // ---------------------------------------------------------------------------
  // The arguments handed to the shift quotient

  /** `max(subexp.degree(), den(gamma))`, the degree being `-1` for zero. */
  function SubexpBound(s: DSeries): int {
    Max(Degree(s.subexp), s.gamma.den)
  }

  /** `[subexp[j] for j in 1 .. bound - 1]`. */
  function SubexpList(s: DSeries): (cs: seq<real>)
    ensures |cs| == if SubexpBound(s) >= 2 then SubexpBound(s) - 1 else 0
    ensures forall j :: 0 <= j < |cs| ==> cs[j] == Coef(s.subexp, j + 1)
  {
    var n := if SubexpBound(s) >= 2 then SubexpBound(s) - 1 else 0;
    seq(n, j requires 0 <= j => Coef(s.subexp, j + 1))
  }

  /** The shift amount once the list above is built: the comprehension runs
      under Python 2, where its variable `i` is the one of the enclosing
      method, so a nonempty list leaves `i` at `bound - 1`. */
  function LeakedShift(s: DSeries, i: int): (j: int)
    ensures SubexpBound(s) < 2 ==> j == i
    ensures SubexpBound(s) >= 2 ==> j == |SubexpList(s)| >= 1
  {
    if SubexpBound(s) >= 2 then SubexpBound(s) - 1 else i
  }

  /** `prec = min(c.prec() for c in expansion.coefficients())`; `None` when
      every coefficient is exact. */
  function WorkingPrec(s: DSeries): (p: Option<nat>)
    ensures p.Some? <==> T.Prec(s.expansion).Fin?
    ensures p.Some? ==> p.value == T.Prec(s.expansion).n
  {
    var t := T.Prec(s.expansion);
    if t.Fin? then Some(t.n) else None
  }

  // ---------------------------------------------------------------------------
  // The substitutions

  /** Coefficient `e` of `x*sum_{k=0..prec} C(-1/ram, k)*(i*x^ram)^k`. */
  function XShiftedCoef(ram: nat, i: nat, prec: nat, e: nat): real
    requires ram > 0
  {
    if e >= 1 && (e - 1) % ram == 0 && (e - 1) / ram <= prec
    then SQ.Binomial(-1.0 / ram as real, (e - 1) / ram) * RealPow(i as real, (e - 1) / ram)
    else 0.0
  }

  /** `x_shifted`: the series of `(n+i)^(-1/ram) = n^(-1/ram)*(1 + i/n)^(-1/ram)`
      at `x = n^(-1/ram)`, cut after `x^(ram*prec + 1)`. */
  function XShifted(ram: nat, i: nat, prec: nat): (r: Poly)
    requires ram > 0
    ensures Canonical(r)
    ensures forall e :: 0 <= e ==> Coef(r, e) == XShiftedCoef(ram, i, prec, e)
  {
    var s := seq(ram * prec + 2, e requires 0 <= e => XShiftedCoef(ram, i, prec, e));
    forall e | e >= ram * prec + 2 ensures XShiftedCoef(ram, i, prec, e) == 0.0 {
      BeyondCut(e - 1, ram, prec);
    }
    Trim(s)
  }

  /** A multiple of `ram` above `ram*prec` is `ram` times more than `prec`. */
  lemma BeyondCut(d: nat, ram: nat, prec: nat)
    requires ram > 0 && d > ram * prec
    ensures d % ram == 0 ==> d / ram > prec
  {
    var q := d / ram;
    if q <= prec {
      MulMonotoneNat(q, prec, ram);
    }
  }

  /** Coefficient `e` of `-sum_{k=1..prec} (-i*x^ram)^k/k`. */
  function LogShiftedCoef(ram: nat, i: nat, prec: nat, e: nat): real
    requires ram > 0
  {
    if e >= 1 && e % ram == 0 && e / ram <= prec
    then -RealPow(-(i as real), e / ram) / (e / ram) as real
    else 0.0
  }

  /** `logx_shifted`: the series of `log(1 + i/n)` at `x = n^(-1/ram)`, cut
      after `x^(ram*prec)`. */
  function LogShifted(ram: nat, i: nat, prec: nat): (r: Poly)
    requires ram > 0
    ensures Canonical(r)
    ensures forall e :: 0 <= e ==> Coef(r, e) == LogShiftedCoef(ram, i, prec, e)
  {
    var s := seq(ram * prec + 1, e requires 0 <= e => LogShiftedCoef(ram, i, prec, e));
    forall e | e >= ram * prec + 1 ensures LogShiftedCoef(ram, i, prec, e) == 0.0 {
      BeyondCut(e, ram, prec);
    }
    Trim(s)
  }

  /** `PS(factor*p(x_shifted), prec)`: the coefficient with `x_shifted`
      substituted, multiplied by the quotient and cut at `prec`. Calling a
      power series on a polynomial evaluates its known coefficients. */
  function ShiftCoefficient(p: PS.Series, factor: Poly, xs: Poly, prec: nat): (r: PS.Series)
    ensures PS.Valid(r) && r.prec == PS.Fin(prec)
  {
    PS.Make(Mul(factor, Compose(p.c, xs)), PS.Fin(prec))
  }

  /** `map_coefficients` of the above, which leaves the zero coefficients as
      the exact zero. */
  function MapShifted(e: T.Tail, factor: Poly, xs: Poly, prec: nat): (r: T.Tail)
    requires T.ValidTail(e)
    ensures T.ValidTail(r) && |r| <= |e|
  {
    T.TTrim(seq(|e|, j requires 0 <= j < |e| =>
      if PS.IsZero(e[j]) then PS.Zero else ShiftCoefficient(e[j], factor, xs, prec)))
  }

  /** The expansion of `f(n+i)/n^alpha...`: coefficients mapped as above, then
      `LOG` replaced by `LOG + logx_shifted`. */
  function ShiftedExpansion(e: T.Tail, factor: Poly, ram: nat, i: nat, prec: nat): (r: T.Tail)
    requires T.ValidTail(e) && ram > 0
    ensures T.ValidTail(r)
  {
    T.ShiftLog(MapShifted(e, factor, XShifted(ram, i, prec), prec), PS.Exact(LogShifted(ram, i, prec)))
  }

  /** The `subexp` argument `(list, ram/den(gamma))` of the shift quotient. */
  function QuotientSubexp(s: DSeries): (sub: Q.Subexp)
    requires s.ram > 0 && Divides(s.gamma.den, s.ram)
    ensures sub.m > 0 && s.gamma.den * sub.m == s.ram
  {
    DividesIntro(s.gamma.den, s.ram);
    PosCofactor(s.gamma.den, s.ram / s.gamma.den);
    Q.Subexp(SubexpList(s), s.ram / s.gamma.den)
  }

  // ---------------------------------------------------------------------------
  // The shift

  /** `shift(i)`, with the amount the caller asked for and with the shift
      quotient on the scale `x^ram = 1/n`. The zero series is returned as it
      is; otherwise an exact expansion has no working precision, and a
      ramification that is not a multiple of `den(gamma)` gives no integral
      multiplier `m` (both fail in the host library, which the model reports
      as `HostError`); a negative `i` and a precision below `-i*gamma` are
      refused by the shift quotient. `gamma` and `rho` survive the shift. */
  function Shift(s: DSeries, i: int): (r: Result<DSeries>)
    requires WellFormed(s)
    ensures s.expansion == [] ==> r == Ok(s)
    ensures r.Err? <==> (s.expansion != [] &&
      (WorkingPrec(s).None? || !Divides(s.gamma.den, s.ram) || i < 0 ||
       (i > 0 && Q.Insufficient(WorkingPrec(s).value, i, s.gamma))))
    ensures s.expansion != [] && WorkingPrec(s).Some? && Divides(s.gamma.den, s.ram) && i < 0 ==>
      r == Err(ValueError("only nonnegative shifts are allowed"))
    ensures r.Ok? ==> WellFormed(r.value)
    ensures r.Ok? && r.value.expansion != [] ==> r.value.gamma == s.gamma && r.value.rho == s.rho
  {
    if s.expansion == [] then Ok(s)
    else if WorkingPrec(s).None? then Err(HostError("an exact expansion has no working precision"))
    else if !Divides(s.gamma.den, s.ram) then Err(HostError("ram/den(gamma) is not an integer"))
    else
      var prec := WorkingPrec(s).value;
      var sub := QuotientSubexp(s);
      match Q.ShiftQuotient(prec, i, s.gamma, s.rho, Some(sub), s.alpha)
      case Err(err) => Err(err)
      case Ok(q) =>
        var e := ShiftedExpansion(s.expansion, Reverse(q), s.ram, i, prec);
        ReduceOfReduced(s.gamma);
        Normalize(s.gamma, s.ram, s.rho, s.subexp, s.alpha, e, false)
  }

  /** `shift(i)` as written: the shift amount is the one the list
      comprehension leaves behind, the shift quotient puts the factorial part
      on the scale of `den(gamma)`, and the constructor keeps the old
      ramification. */
  function ShiftAsWritten(s: DSeries, i: int): (r: Result<DSeries>)
    requires WellFormed(s)
    ensures s.expansion == [] ==> r == Ok(s)
    ensures r.Err? <==> (s.expansion != [] &&
      (WorkingPrec(s).None? || !Divides(s.gamma.den, s.ram) || LeakedShift(s, i) < 0 ||
       (LeakedShift(s, i) > 0 && Q.Insufficient(WorkingPrec(s).value, LeakedShift(s, i), s.gamma))))
  {
    if s.expansion == [] then Ok(s)
    else if WorkingPrec(s).None? then Err(HostError("an exact expansion has no working precision"))
    else if !Divides(s.gamma.den, s.ram) then Err(HostError("ram/den(gamma) is not an integer"))
    else
      var prec := WorkingPrec(s).value;
      var j := LeakedShift(s, i);
      var sub := QuotientSubexp(s);
      match Q.ShiftQuotientAsWritten(prec, j, s.gamma, s.rho, Some(sub), s.alpha)
      case Err(err) => Err(err)
      case Ok(q) =>
        var e := ShiftedExpansion(s.expansion, Reverse(q), s.ram, j, prec);
        NormalizeAsWritten(s.gamma, s.ram, s.rho, s.subexp, s.alpha, e, false)
  }

  /** `__call__(arg)`: only a polynomial `n + i` with a nonnegative integer
      `i` is accepted, and means `shift(i)`; any other polynomial of degree
      at least one is a `ValueError`, anything else (a constant, a number) is
      not implemented. */
  function Call(s: DSeries, arg: Poly): (r: Result<DSeries>)
    requires WellFormed(s) && Canonical(arg)
    ensures |arg| <= 1 ==> r == Err(NotImplementedError)
    ensures |arg| > 1 && !IsShiftArgument(arg) ==> r == Err(ValueError(""))
    ensures IsShiftArgument(arg) ==> r == Shift(s, arg[0].Floor) && arg[0].Floor >= 0
  {
    if |arg| <= 1 then Err(NotImplementedError)
    else if !IsShiftArgument(arg) then Err(ValueError(""))
    else Shift(s, arg[0].Floor)
  }

  /** `n + i` with `i` a nonnegative integer. */
  predicate IsShiftArgument(arg: Poly) {
    |arg| == 2 && arg[1] == 1.0 && IsInteger(arg[0]) && arg[0] >= 0.0
  }

  /** `s(n + i)` is `s.shift(i)` for every natural `i`. */
  lemma CallIsShift(s: DSeries, i: nat)
    requires WellFormed(s)
    ensures Call(s, [i as real, 1.0]) == Shift(s, i)
  {
    assert (i as real).Floor == i;
  }

  /** `s(n - 1)` is refused: the constant must be a nonnegative integer. */
  lemma CallRefusesNegative(s: DSeries)
    requires WellFormed(s)
    ensures Call(s, [-1.0, 1.0]) == Err(ValueError(""))
  {
  }

  // ---------------------------------------------------------------------------
  // The shift amount as written

  /** `(n/e)^(n/2) * (1 + O(n^(-1/2)))`. */
  const HalfFactorial: DSeries := DSeries(Rat(1, 2), 2, 1.0, [], 0.0, [PS.Series([1.0], PS.Fin(1))])

  lemma HalfFactorialNormal()
    ensures Normal(HalfFactorial) && WorkingPrec(HalfFactorial) == Some(1) && Divides(2, 2)
  {
    var s := HalfFactorial;
    assert Gcd(1, 2) == 1;
    assert !Covers(s.gamma, s.subexp, s.expansion, s.ram, 1);
    ValuationAt([1.0], 0);
    assert T.MinOrd(s.expansion) == 0;
    DividesWitness(2, 2, 1);
  }

  /** With `den(gamma) = 2` the list comprehension leaves `i = 1` whatever
      shift was asked for: as written, `shift(-1)` goes through as a shift by
      one, where the intended method refuses the negative amount. */
  lemma ShiftLeakExample()
    ensures forall i :: LeakedShift(HalfFactorial, i) == 1
    ensures ShiftAsWritten(HalfFactorial, -1).Ok?
    ensures Shift(HalfFactorial, -1) == Err(ValueError("only nonnegative shifts are allowed"))
  {
    HalfFactorialNormal();
    assert SubexpBound(HalfFactorial) == 2;
  }

  /** An exact expansion cannot be shifted: the one of the monoid has no
      working precision. */
  lemma ShiftNeedsPrecision(i: int)
    ensures WellFormed(One) && Shift(One, i).Err? && Shift(One, i).error.HostError?
  {
    ZeroOneNormal();
    assert T.Prec(One.expansion) == PS.Inf;
  }

  // ---------------------------------------------------------------------------
  // The substitutions for the shift zero

  /** `x^d` read backwards is `1`. */
  lemma ReverseMonomial(d: nat)
    ensures Reverse(Monomial(1.0, d)) == [1.0]
  {
    var m := Monomial(1.0, d);
    TrimCanonical(m);
    var r := Reverse(m);
    forall e | 0 <= e ensures Coef(r, e) == Coef([1.0], e) {
      if e <= d {
        assert Coef(r, e) == m[d - e];
      }
    }
    CanonicalExt(r, [1.0]);
  }

  /** For the shift `0`, `x_shifted` is `x`. */
  lemma XShiftedAtZero(ram: nat, prec: nat)
    requires ram > 0
    ensures XShifted(ram, 0, prec) == Monomial(1.0, 1)
  {
    var r := XShifted(ram, 0, prec);
    forall e | 0 <= e ensures Coef(r, e) == Coef(Monomial(1.0, 1), e) {
      if e >= 1 && (e - 1) % ram == 0 && (e - 1) / ram <= prec {
        var k := (e - 1) / ram;
        if k == 0 {
          SQ.BinomialLow(-1.0 / ram as real);
          assert e == 1;
        } else {
          ZeroPower(k);
          assert e != 1;
        }
      }
    }
    CanonicalExt(r, Monomial(1.0, 1));
  }

  /** For the shift `0`, `logx_shifted` is zero. */
  lemma LogShiftedAtZero(ram: nat, prec: nat)
    requires ram > 0
    ensures LogShifted(ram, 0, prec) == []
  {
    var r := LogShifted(ram, 0, prec);
    forall e | 0 <= e ensures Coef(r, e) == 0.0 {
      if e >= 1 && e % ram == 0 && e / ram <= prec {
        ZeroPower(e / ram);
        assert -(0 as real) == 0.0;
      }
    }
    CanonicalExt(r, []);
  }

  /** `0^k = 0` for `k >= 1`. */
  lemma ZeroPower(k: nat)
    requires k >= 1
    ensures RealPow(0.0, k) == 0.0
  {
  }

  /** Multiplying by `x` moves every coefficient up by one. */
  lemma MulByX(q: Poly)
    requires Canonical(q) && q != []
    ensures Mul(Monomial(1.0, 1), q) == [0.0] + q
  {
    var r := Mul(Monomial(1.0, 1), q);
    forall e | 0 <= e ensures Coef(r, e) == Coef([0.0] + q, e) {
      MulCoef(Monomial(1.0, 1), q, e);
      Q.ConvSumMonomial(1.0, 1, q, e, e + 1);
    }
    CanonicalExt(r, [0.0] + q);
  }

  /** One step of Horner's rule at `x`: `c + x*q` is `[c] + q`. */
  lemma HornerAtX(c: real, q: Poly)
    requires Canonical(q) && (q == [] ==> c != 0.0)
    ensures Add(Constant(c), if q == [] then [] else [0.0] + q) == [c] + q
  {
    var l := Add(Constant(c), if q == [] then [] else [0.0] + q);
    forall e | 0 <= e ensures Coef(l, e) == Coef([c] + q, e) {
      if e >= 1 && q != [] {
        assert Coef([0.0] + q, e) == Coef(q, e - 1) == Coef([c] + q, e);
      }
    }
    CanonicalExt(l, [c] + q);
  }

  /** Substituting `x` for `x` changes nothing. */
  lemma {:induction false} ComposeWithX(p: Poly)
    requires Canonical(p)
    ensures Compose(p, Monomial(1.0, 1)) == p
    decreases |p|
  {
    if p != [] {
      var q := p[1..];
      assert q != [] ==> q[|q| - 1] == p[|p| - 1];
      ComposeWithX(q);
      assert p == [p[0]] + q;
      ComposeWithXStep(p[0], q);
    }
  }

  /** One step of Horner's rule: a polynomial that substituting `x` leaves
      alone stays so with a constant term put in front. */
  lemma ComposeWithXStep(c: real, q: Poly)
    requires Canonical(q) && (q == [] ==> c != 0.0) && Compose(q, Monomial(1.0, 1)) == q
    ensures Compose([c] + q, Monomial(1.0, 1)) == [c] + q
  {
    assert ([c] + q)[1..] == q && ([c] + q)[0] == c;
    if q != [] {
      MulByX(q);
    } else {
      assert Mul(Monomial(1.0, 1), []) == [];
    }
    HornerAtX(c, q);
  }

  /** The constant `c` composed with anything is `c`. */
  lemma ComposeConstant(c: real, xs: Poly)
    requires c != 0.0
    ensures Compose([c], xs) == [c]
  {
    assert [c][1..] == [];
    CanonicalExt(Add([c], []), [c]);
  }

  /** A series whose known part fits the precision is its own `PS(c, prec)`. */
  lemma ShiftCoefficientOfOne(p: PS.Series, xs: Poly, prec: nat)
    requires PS.Valid(p) && Compose(p.c, xs) == p.c && p.prec == PS.Fin(prec)
    ensures ShiftCoefficient(p, [1.0], xs, prec) == p
  {
    SQ.OneTimes(p.c);
    PS.MakeValid(p);
  }

  // ---------------------------------------------------------------------------
  // The substitution of `LOG`

  /** `LOG` as a tail. */
  lemma LogTail()
    ensures T.TTrim([PS.Zero, PS.One]) == [PS.Zero, PS.One]
  {
  }

  /** A constant tail is left alone by `LOG -> LOG + s`. */
  lemma ShiftLogConstant(a: T.Tail, s: PS.Series)
    requires T.ValidTail(a) && |a| == 1 && PS.Valid(s)
    ensures T.ShiftLog(a, s) == a
  {
    assert a[1..] == [];
    T.AddZero(a);
    assert T.Constant(a[0]) == a;
  }

  /** The exact zero times a series is the exact zero. */
  lemma ZeroTimesSeries(x: PS.Series)
    requires PS.Valid(x)
    ensures PS.Mul(PS.Zero, x) == PS.Zero
  {
    assert PS.Val(PS.Zero) == PS.Inf;
  }

  /** The coefficients of `LOG*b`, summed up to the term `n >= 2`, are
      those summed up to the second term: `LOG` has no third coefficient. */
  lemma ConvTermOfLog(b: T.Tail, k: nat, n: nat)
    requires T.ValidTail(b) && n >= 2
    ensures T.ConvTerm([PS.Zero, PS.One], b, k, n) == T.ConvTerm([PS.Zero, PS.One], b, k, 2)
  {
    for m := 2 to n
      invariant T.ConvTerm([PS.Zero, PS.One], b, k, m) == T.ConvTerm([PS.Zero, PS.One], b, k, 2)
    {
    }
  }

  /** The first term of coefficient `k` of `LOG*b` is zero. */
  lemma ConvTermLogFirst(b: T.Tail, k: nat)
    requires T.ValidTail(b)
    ensures T.ConvTerm([PS.Zero, PS.One], b, k, 1) == PS.Zero
  {
    assert T.ConvTerm([PS.Zero, PS.One], b, k, 0) == PS.Zero;
    if k < |b| {
      ZeroTimesSeries(b[k]);
      PS.AddZero(PS.Zero);
    }
  }

  /** The second term of coefficient `k >= 1` of `LOG*b` is `b[k - 1]`. */
  lemma ConvTermLogSecond(b: T.Tail, k: nat)
    requires T.ValidTail(b) && 1 <= k <= |b|
    ensures T.ConvTerm([PS.Zero, PS.One], b, k, 2) == b[k - 1]
  {
    var l := [PS.Zero, PS.One];
    ConvTermLogFirst(b, k);
    assert l[1] == PS.One && 0 <= k - 1 < |b|;
    assert T.ConvTerm(l, b, k, 2) == PS.Add(T.ConvTerm(l, b, k, 1), PS.Mul(PS.One, b[k - 1]));
    PS.MulOne(b[k - 1]);
    PS.AddZero(b[k - 1]);
  }

  /** Coefficient `k` of `LOG*b` is coefficient `k - 1` of `b`. */
  lemma ConvTermLogAt(b: T.Tail, k: nat)
    requires T.ValidTail(b) && k <= |b|
    ensures T.ConvTerm([PS.Zero, PS.One], b, k, k + 1) == ([PS.Zero] + b)[k]
  {
    if k == 0 {
      ConvTermLogFirst(b, k);
    } else {
      ConvTermOfLog(b, k, k + 1);
      ConvTermLogSecond(b, k);
    }
  }

  /** Multiplying by `LOG` moves every coefficient up by one. */
  lemma MulByLog(b: T.Tail)
    requires T.ValidTail(b) && b != []
    ensures T.Mul([PS.Zero, PS.One], b) == [PS.Zero] + b
  {
    var r := [PS.Zero] + b;
    forall k | 0 <= k < |r| ensures T.ConvTerm([PS.Zero, PS.One], b, k, k + 1) == r[k] {
      ConvTermLogAt(b, k);
    }
    assert r[|r| - 1] == b[|b| - 1];
    T.MulIs([PS.Zero, PS.One], b, r);
  }

  /** One step of Horner's rule at `LOG`: `c + LOG*b` is `[c] + b`. */
  lemma HornerAtLog(c: PS.Series, b: T.Tail)
    requires PS.Valid(c) && (PS.IsZero(c) ==> c == PS.Zero) && T.ValidTail(b) && b != []
    ensures T.Add(T.Constant(c), [PS.Zero] + b) == [c] + b
  {
    var l := [PS.Zero] + b;
    var a := T.Constant(c);
    var t := seq(Max(|a|, |l|), j requires 0 <= j => T.AddAt(a, l, j));
    assert |t| == |b| + 1;
    forall j | 0 <= j < |t| ensures t[j] == ([c] + b)[j] {
      HornerAtLogAt(c, b, j);
    }
    assert t == [c] + b;
    assert t[|t| - 1] == b[|b| - 1];
    T.TTrimValid(t);
  }

  /** Coefficient `j` of `c + LOG*b`. */
  lemma HornerAtLogAt(c: PS.Series, b: T.Tail, j: nat)
    requires PS.Valid(c) && (PS.IsZero(c) ==> c == PS.Zero) && T.ValidTail(b) && b != [] && j <= |b|
    ensures T.AddAt(T.Constant(c), [PS.Zero] + b, j) == ([c] + b)[j]
  {
    if j == 0 {
      PS.AddZero(c);
    } else {
      assert ([PS.Zero] + b)[j] == b[j - 1] == ([c] + b)[j];
    }
  }

  /** The zero coefficients of `a` are exact zeros. */
  predicate ExactZeros(a: T.Tail) {
    forall j :: 0 <= j < |a| && PS.IsZero(a[j]) ==> a[j] == PS.Zero
  }

  /** One step of `LOG -> LOG + 0` by Horner's rule: prepending an exact
      coefficient to a tail the shift leaves alone gives a tail it leaves alone. */
  lemma ShiftLogByZeroStep(c: PS.Series, b: T.Tail)
    requires PS.Valid(c) && (PS.IsZero(c) ==> c == PS.Zero)
    requires T.ValidTail(b) && b != [] && T.ShiftLog(b, PS.Zero) == b
    ensures T.ValidTail([c] + b) && T.ShiftLog([c] + b, PS.Zero) == [c] + b
  {
    var a := [c] + b;
    assert a[|a| - 1] == b[|b| - 1];
    assert a[1..] == b && a[0] == c;
    LogTail();
    assert T.ShiftLog(a, PS.Zero) == T.Add(T.Constant(c), T.Mul([PS.Zero, PS.One], b));
    MulByLog(b);
    HornerAtLog(c, b);
  }

  /** Dropping the first coefficient keeps a tail valid with exact zeros. */
  lemma ExactZerosRest(a: T.Tail)
    requires T.ValidTail(a) && |a| >= 2 && ExactZeros(a)
    ensures T.ValidTail(a[1..]) && ExactZeros(a[1..]) && a[1..] != []
    ensures PS.Valid(a[0]) && (PS.IsZero(a[0]) ==> a[0] == PS.Zero) && a == [a[0]] + a[1..]
  {
    var b := a[1..];
    assert b[|b| - 1] == a[|a| - 1];
    forall j | 0 <= j < |b| && PS.IsZero(b[j]) ensures b[j] == PS.Zero {
      assert b[j] == a[j + 1];
    }
  }

  /** `LOG -> LOG + 0` leaves a tail alone when its zero coefficients are exact. */
  lemma {:induction false} ShiftLogByZero(a: T.Tail)
    requires T.ValidTail(a) && a != [] && ExactZeros(a)
    ensures T.ShiftLog(a, PS.Zero) == a
    decreases |a|
  {
    if |a| == 1 {
      ShiftLogConstant(a, PS.Zero);
    } else {
      var b := a[1..];
      ExactZerosRest(a);
      ShiftLogByZero(b);
      ShiftLogByZeroStep(a[0], b);
    }
  }

  // ---------------------------------------------------------------------------
  // Shifts that change nothing

  /** The constant `1 + O(n^(-p))`. */
  function ConstantSeries(p: nat): (c: DSeries)
    requires p >= 1
    ensures Normal(c) && c.expansion != [] && WorkingPrec(c) == Some(p)
  {
    var c := DSeries(Rat(0, 1), 1, 1.0, [], 0.0, [PS.Series([1.0], PS.Fin(p))]);
    assert Gcd(0, 1) == 1;
    ValuationAt([1.0], 0);
    assert T.MinOrd(c.expansion) == 0;
    c
  }

  /** `shift(i)` once the quotient `q` is known. */
  lemma ShiftUnfold(s: DSeries, i: int, prec: nat, q: Poly)
    requires WellFormed(s) && s.expansion != [] && WorkingPrec(s) == Some(prec) && Divides(s.gamma.den, s.ram)
    requires Q.ShiftQuotient(prec, i, s.gamma, s.rho, Some(QuotientSubexp(s)), s.alpha) == Ok(q)
    ensures i >= 0
    ensures Shift(s, i) == Normalize(s.gamma, s.ram, s.rho, s.subexp, s.alpha,
      ShiftedExpansion(s.expansion, Reverse(q), s.ram, i, prec), false)
  {
  }

  /** The quotient of the constant is `x^p`, for every shift. */
  lemma ConstantSeriesQuotient(p: nat, i: nat)
    requires p >= 1
    ensures Divides(1, 1) && QuotientSubexp(ConstantSeries(p)) == Q.Subexp([], 1)
    ensures Q.ShiftQuotient(p, i, Q.NoGamma, 1.0, Some(Q.Subexp([], 1)), 0.0) == Ok(Monomial(1.0, p))
  {
    var c := ConstantSeries(p);
    DividesWitness(1, 1, 1);
    assert SubexpBound(c) == 1;
    var sub := Q.Subexp([], 1);
    Q.NoGammaReduced();
    Q.ConstantQuotient(p, i, Some(sub));
    Q.ShiftQuotientAtZero(p, Q.NoGamma, 1.0, Some(sub), 0.0);
    assert Q.Ram(Q.NoGamma, Some(sub)) == 1;
  }

  /** The substitutions leave the constant's expansion alone. */
  lemma ConstantSeriesExpansion(p: nat, i: nat)
    requires p >= 1
    ensures ShiftedExpansion(ConstantSeries(p).expansion, [1.0], 1, i, p) == ConstantSeries(p).expansion
  {
    var e := ConstantSeries(p).expansion;
    var xs := XShifted(1, i, p);
    ComposeConstant(1.0, xs);
    ShiftCoefficientOfOne(e[0], xs, p);
    assert MapShifted(e, [1.0], xs, p) == e;
    ShiftLogConstant(e, PS.Exact(LogShifted(1, i, p)));
  }

  /** A constant is its own shift, by every natural amount: the quotient is
      `1` and the substitutions leave a constant alone. */
  lemma ShiftOfConstant(p: nat, i: nat)
    requires p >= 1
    ensures Shift(ConstantSeries(p), i) == Ok(ConstantSeries(p))
  {
    var c := ConstantSeries(p);
    ConstantSeriesQuotient(p, i);
    ReverseMonomial(p);
    ShiftUnfold(c, i, p, Monomial(1.0, p));
    ConstantSeriesExpansion(p, i);
    NormalizeFixpoint(c);
  }

  /** Every nonzero coefficient is known to `O(x^p)` and every zero one is exact. */
  predicate UniformPrec(e: T.Tail, p: nat) {
    ExactZeros(e) && forall j :: 0 <= j < |e| && !PS.IsZero(e[j]) ==> e[j].prec == PS.Fin(p)
  }

  lemma UniformWorkingPrec(s: DSeries, p: nat)
    requires WellFormed(s) && s.expansion != [] && UniformPrec(s.expansion, p)
    ensures WorkingPrec(s) == Some(p)
  {
    var e := s.expansion;
    assert !PS.IsZero(e[|e| - 1]);
  }

  /** The substitutions of the shift by zero leave a uniform expansion alone. */
  lemma ShiftedExpansionAtZero(e: T.Tail, ram: nat, p: nat)
    requires T.ValidTail(e) && e != [] && ram > 0 && UniformPrec(e, p)
    ensures ShiftedExpansion(e, [1.0], ram, 0, p) == e
  {
    var x := Monomial(1.0, 1);
    XShiftedAtZero(ram, p);
    LogShiftedAtZero(ram, p);
    var m := seq(|e|, j requires 0 <= j < |e| =>
      if PS.IsZero(e[j]) then PS.Zero else ShiftCoefficient(e[j], [1.0], x, p));
    forall j | 0 <= j < |e| ensures m[j] == e[j] {
      if !PS.IsZero(e[j]) {
        ComposeWithX(e[j].c);
        ShiftCoefficientOfOne(e[j], x, p);
      }
    }
    assert m == e;
    T.TTrimValid(e);
    assert PS.Exact([]) == PS.Zero;
    ShiftLogByZero(e);
  }

  /** `shift(0)` is the identity on a normalised series whose coefficients
      share one precision and whose ramification `den(gamma)` divides. */
  lemma ShiftByZero(s: DSeries, p: nat)
    requires Normal(s) && s.expansion != [] && Divides(s.gamma.den, s.ram) && UniformPrec(s.expansion, p)
    ensures Shift(s, 0) == Ok(s)
  {
    MulNat(s.ram, p);
    UniformWorkingPrec(s, p);
    var sub := QuotientSubexp(s);
    Q.ShiftQuotientAtZero(p, s.gamma, s.rho, Some(sub), s.alpha);
    assert Q.Ram(s.gamma, Some(sub)) == s.ram;
    ReverseMonomial(s.ram * p);
    ShiftUnfold(s, 0, p, Monomial(1.0, s.ram * p));
    ShiftedExpansionAtZero(s.expansion, s.ram, p);
    NormalizeFixpoint(s);
  }
}
