/** The constructor of discrete generalized series as the library runs it:
    a scan for the smallest valuation, an lcm accumulated over the
    exponents, and dictionaries of rewritten exponents. Each step is proved
    to compute the corresponding stage of `Discrete.Normalize`. */
module DiscreteConstruct {
  import opened Numbers
  import opened Polynomials
  import PS = PowerSeries
  import T = Tails
  import opened Outcomes
  import C = Continuous
  import opened Discrete

  /** `diff = min(c.valuation() for c in expansion.coeffs())`, one
      coefficient at a time, the zero ones included. */
  method MinValuation(expansion: T.Tail) returns (d: nat)
    requires T.ValidTail(expansion) && expansion != []
    ensures d == Diff(expansion)
  {
    var v := PS.Val(expansion[0]);
    for j := 1 to |expansion|
      invariant forall i :: 0 <= i < j ==> T.PLe(v, PS.Val(expansion[i]))
      invariant exists i :: 0 <= i < j && PS.Val(expansion[i]) == v
    {
      var w := PS.Val(expansion[j]);
      if !T.PLe(v, w) {
        v := w;
      }
    }
    AttainedMinimum(expansion, v, PS.Fin(Diff(expansion)));
    d := v.n;
  }

  /** Two lower bounds of the valuations that both occur among them are equal. */
  lemma AttainedMinimum(expansion: T.Tail, v: PS.Prec, w: PS.Prec)
    requires T.ValidTail(expansion)
    requires forall i :: 0 <= i < |expansion| ==> T.PLe(v, PS.Val(expansion[i]))
    requires forall i :: 0 <= i < |expansion| ==> T.PLe(w, PS.Val(expansion[i]))
    requires exists i :: 0 <= i < |expansion| && PS.Val(expansion[i]) == v
    requires exists i :: 0 <= i < |expansion| && PS.Val(expansion[i]) == w
    ensures v == w
  {
    var i1 :| 0 <= i1 < |expansion| && PS.Val(expansion[i1]) == v;
    var i2 :| 0 <= i2 < |expansion| && PS.Val(expansion[i2]) == w;
    assert T.PLe(w, v) && T.PLe(v, w);
  }

  /** `new_ram`: the lcm of the denominator of `gamma` with the denominators
      over `subexp`, then over every nonzero coefficient of the expansion. */
  method ComputeNewRam(gamma: Rat, subexp: Poly, expansion: T.Tail, ram: nat) returns (n: nat)
    requires gamma.den > 0 && ram > 0
    ensures n == NewRam(gamma, subexp, expansion, ram)
  {
    var start := LcmFold(gamma.den, C.Dens(subexp, ram));
    n := C.LcmList(gamma.den, C.Dens(subexp, ram));
    for j := 0 to |expansion|
      invariant n > 0 && C.TailLcm(n, expansion[j..], ram) == C.TailLcm(start, expansion, ram)
    {
      assert expansion[j..][1..] == expansion[j + 1..];
      if !PS.IsZero(expansion[j]) {
        n := C.LcmList(n, C.Dens(expansion[j].c, ram));
      }
    }
  }

  /** The dictionaries `{e*n/ram: p[e]}` for `subexp` and for every
      coefficient of the expansion; the rebuilt coefficients are exact. */
  method RescaleData(subexp: Poly, expansion: T.Tail, ram: nat, n: nat) returns (sub: Poly, exp: T.Tail)
    requires ram > 0 && n > 0 && Canonical(subexp) && T.ValidTail(expansion)
    requires C.DensDivide(subexp, ram, n) && C.TailDensDivide(expansion, ram, n)
    ensures sub == Rescale(subexp, ram, n) && exp == RescaleTail(expansion, ram, n)
  {
    sub := RescalePoly(subexp, ram, n);
    exp := RescaleExpansion(expansion, ram, n);
  }

  /** `{e*n/ram: p[e]}` over the exponents `e` of `p`. */
  method RescalePoly(p: Poly, ram: nat, n: nat) returns (r: Poly)
    requires ram > 0 && n > 0 && Canonical(p) && C.DensDivide(p, ram, n)
    ensures r == Rescale(p, ram, n)
  {
    RescaleMultiples(p, ram, n);
    r := C.Rekey(Inflate(p, n), ram);
  }

  /** The expansion rebuilt coefficient by coefficient. */
  method RescaleExpansion(expansion: T.Tail, ram: nat, n: nat) returns (exp: T.Tail)
    requires ram > 0 && n > 0 && T.ValidTail(expansion) && C.TailDensDivide(expansion, ram, n)
    ensures exp == RescaleTail(expansion, ram, n)
  {
    exp := [];
    for j := 0 to |expansion|
      invariant RescaledPrefix(exp, expansion, ram, n, j)
    {
      var c := RescaleSeries(expansion, j, ram, n);
      PrefixStep(exp, expansion, ram, n, j, c);
      exp := exp + [c];
    }
  }

  ghost predicate RescaledPrefix(exp: T.Tail, expansion: T.Tail, ram: nat, n: nat, j: nat)
    requires ram > 0 && n > 0 && T.ValidTail(expansion) && C.TailDensDivide(expansion, ram, n)
    requires j <= |expansion|
  {
    exp == RescaleTail(expansion, ram, n)[..j]
  }

  lemma PrefixStep(exp: T.Tail, expansion: T.Tail, ram: nat, n: nat, j: nat, c: PS.Series)
    requires ram > 0 && n > 0 && T.ValidTail(expansion) && C.TailDensDivide(expansion, ram, n)
    requires j < |expansion| && RescaledPrefix(exp, expansion, ram, n, j)
    requires c == RescaleTail(expansion, ram, n)[j]
    ensures RescaledPrefix(exp + [c], expansion, ram, n, j + 1)
  {
    SliceStep(RescaleTail(expansion, ram, n), j);
  }

  lemma SliceStep<X>(s: seq<X>, j: nat)
    requires j < |s|
    ensures s[..j + 1] == s[..j] + [s[j]]
  {
  }

  /** Coefficient `j` rebuilt from `{e*n/ram: c[e]}` as an exact series. */
  method RescaleSeries(expansion: T.Tail, j: nat, ram: nat, n: nat) returns (r: PS.Series)
    requires ram > 0 && n > 0 && T.ValidTail(expansion) && C.TailDensDivide(expansion, ram, n)
    requires j < |expansion|
    ensures r == RescaleTail(expansion, ram, n)[j]
  {
    var c := RescalePoly(expansion[j].c, ram, n);
    r := PS.Series(c, PS.Inf);
  }

  lemma FoldUnfolded(expansion: T.Tail, alpha: real, ram: nat)
    requires T.ValidTail(expansion) && expansion != [] && ram > 0
    ensures var d := Diff(expansion);
      Fold(expansion, alpha, ram) ==
        if d == 0 then (expansion, alpha) else (T.ShiftDown(expansion, d), Leading(alpha, d, ram))
  {
  }

  /** The constructor as the library runs it, with the corrections of
      `Normalize`. */
  method Construct(gamma: Rat, ram: int, rho: real, subexp: Poly, alpha: real, expansion: T.Tail, makeMonic: bool)
    returns (r: Result<DSeries>)
    requires ValidRat(gamma) && Canonical(subexp) && T.ValidTail(expansion)
    ensures r == Normalize(gamma, ram, rho, subexp, alpha, expansion, makeMonic)
  {
    if ram <= 0 || (rho == 0.0 && expansion != []) {
      return Err(ValueError(""));
    }
    if expansion == [] {
      return Ok(Zero);
    }
    var rm: nat := ram;
    var e, a := FoldValuation(expansion, alpha, rm);
    var g := Reduce(gamma.num, gamma.den);
    ReduceReduced(gamma.num, gamma.den);
    var s := ReduceRamification(g, rm, rho, subexp, a, e);
    if makeMonic {
      s := MakeMonic(s);
    }
    return Ok(s);
  }

  /** The first stage of the constructor: the common valuation `diff` of the
      coefficients is divided out of the expansion and into `alpha`. */
  method FoldValuation(expansion: T.Tail, alpha: real, ram: nat) returns (e: T.Tail, a: real)
    requires T.ValidTail(expansion) && expansion != [] && ram > 0
    ensures (e, a) == Fold(expansion, alpha, ram)
  {
    a := alpha;
    e := expansion;
    var d := MinValuation(expansion);
    FoldUnfolded(expansion, alpha, ram);
    if d != 0 {
      a := Leading(alpha, d, ram);
      e := T.ShiftDown(expansion, d);
    }
  }

  /** The second stage: the ramification is lowered to the least one the
      exponents allow and the data rewritten for it. */
  method ReduceRamification(g: Rat, ram: nat, rho: real, subexp: Poly, alpha: real, expansion: T.Tail)
    returns (s: DSeries)
    requires Reduced(g) && ram > 0 && rho != 0.0 && Canonical(subexp) && T.ValidTail(expansion) && expansion != []
    ensures s == ReduceRam(g, ram, rho, subexp, alpha, expansion)
  {
    var n := ComputeNewRam(g, subexp, expansion, ram);
    s := DSeries(g, ram, rho, subexp, alpha, expansion);
    if n < ram {
      NewRamLeast(g, subexp, expansion, ram, n);
      var sub, exp := RescaleData(subexp, expansion, ram, n);
      s := DSeries(g, n, rho, sub, alpha, exp);
    }
  }

  /** The constructor on anything that is not a data list: a polynomial
      `p(n)` becomes `n^deg(p) * (reversed p)(n^-1)`, the zero polynomial
      the zero series. */
  function FromPolynomial(p: Poly): (r: DSeries)
    ensures Normal(r)
    ensures Trim(p) == [] ==> r == Zero
    ensures Trim(p) != [] ==>
      r.gamma == Rat(0, 1) && r.ram == 1 && r.rho == 1.0 && r.subexp == [] &&
      r.alpha == Degree(p) as real && |r.expansion| == 1 && r.expansion[0].prec == PS.Inf
    ensures Trim(p) != [] ==>
      forall i :: 0 <= i <= Degree(p) ==> Coef(r.expansion[0].c, i) == Coef(p, Degree(p) - i)
  {
    if Trim(p) == [] then
      Normalize(Rat(0, 1), 1, 1.0, [], 0.0, [], false).value
    else
      var c := PS.Exact(Reverse(p));
      ReverseCoefficients(p);
      UnitSeriesNormal(c, Degree(p) as real);
      Normalize(Rat(0, 1), 1, 1.0, [], Degree(p) as real, [c], false).value
  }

  /** The reversed polynomial has the leading coefficient as constant term
      and the coefficient of `x^(deg-i)` at `x^i`. */
  lemma ReverseCoefficients(p: Poly)
    requires Trim(p) != []
    ensures Coef(Reverse(p), 0) != 0.0
    ensures forall i :: 0 <= i <= Degree(p) ==> Coef(Reverse(p), i) == Coef(p, Degree(p) - i)
  {
    var q := Trim(p);
    assert Coef(Reverse(p), 0) == q[|q| - 1];
  }

  /** An exact series with nonzero constant term, alone in the expansion, is
      already what the constructor makes of it. */
  lemma UnitSeriesNormal(c: PS.Series, alpha: real)
    requires PS.Valid(c) && Coef(c.c, 0) != 0.0
    ensures Normal(DSeries(Rat(0, 1), 1, 1.0, [], alpha, [c]))
    ensures Normalize(Rat(0, 1), 1, 1.0, [], alpha, [c], false) == Ok(DSeries(Rat(0, 1), 1, 1.0, [], alpha, [c]))
  {
    var s := DSeries(Rat(0, 1), 1, 1.0, [], alpha, [c]);
    assert PS.Ord(c) == 0 by {
      ValuationAt(c.c, 0);
    }
    assert Normal(s);
    NormalizeFixpoint(s);
  }
}
