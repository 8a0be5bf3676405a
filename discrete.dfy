/** Discrete generalized series
      `(n/e)^(gamma*n) * rho^n * exp(subexp(n^(1/ram))) * n^alpha * expansion(n^(-1/ram), log(n))`
    held as the tuple `(gamma, ram, rho, subexp, alpha, expansion)`: `gamma`
    a rational, `subexp` a polynomial in `K[n]` whose exponent `e` stands
    for `n^(e/ram)`, and `expansion` in `K[[x]][LOG]` read at
    `x = n^(-1/ram)`. Values are immutable; every operation rebuilds its
    result through the normalizing constructor. */
module Discrete {
  import opened Numbers
  import opened Polynomials
  import PS = PowerSeries
  import T = Tails
  import opened Outcomes
  import C = Continuous

  datatype DSeries = DSeries(gamma: Rat, ram: nat, rho: real, subexp: Poly, alpha: real, expansion: T.Tail)

  /** The canonical zero: every other component zero, ramification 1. */
  const Zero: DSeries := DSeries(Rat(0, 1), 1, 0.0, [], 0.0, [])

  /** The monoid's one. */
  const One: DSeries := DSeries(Rat(0, 1), 1, 1.0, [], 0.0, T.One)

  /** `is_zero()`: the expansion is zero. */
  predicate IsZero(s: DSeries) {
    s.expansion == []
  }

  // ---------------------------------------------------------------------------
  // Ramification

  /** Ramification `m` can express `gamma` and every exponent: `m` is a
      multiple of the denominator of `gamma` and of the denominators of
      `e/ram` over the exponents `e` of `subexp` and of every coefficient of
      the expansion. */
  predicate Covers(gamma: Rat, subexp: Poly, expansion: T.Tail, ram: nat, m: nat)
    requires ram > 0
  {
    Divides(gamma.den, m) && C.DensDivide(subexp, ram, m) && C.TailDensDivide(expansion, ram, m)
  }

  /** `new_ram`: the lcm of the denominator of `gamma` with the denominators
      over `subexp`, then over the coefficients of the expansion one after
      the other. */
  function NewRam(gamma: Rat, subexp: Poly, expansion: T.Tail, ram: nat): (l: nat)
    requires gamma.den > 0 && ram > 0
    ensures l > 0
  {
    C.TailLcm(LcmFold(gamma.den, C.Dens(subexp, ram)), expansion, ram)
  }

  /** `new_ram` is the least common multiple of everything it looks at: it
      covers `gamma` and every exponent, and divides every `m` that does. */
  lemma NewRamLeast(gamma: Rat, subexp: Poly, expansion: T.Tail, ram: nat, m: nat)
    requires gamma.den > 0 && ram > 0 && m > 0
    ensures Covers(gamma, subexp, expansion, ram, NewRam(gamma, subexp, expansion, ram))
    ensures Covers(gamma, subexp, expansion, ram, m) ==> Divides(NewRam(gamma, subexp, expansion, ram), m)
  {
    var acc := LcmFold(gamma.den, C.Dens(subexp, ram));
    var l := NewRam(gamma, subexp, expansion, ram);
    C.LcmDens(gamma.den, subexp, ram);
    C.TailLcmMultiple(acc, expansion, ram);
    DividesTrans(gamma.den, acc, l);
    forall e | 0 <= e < |subexp| && subexp[e] != 0.0 ensures Divides(Den(e, ram), l) {
      DividesTrans(Den(e, ram), acc, l);
    }
    if Covers(gamma, subexp, expansion, ram, m) {
      C.LcmDensLeast(gamma.den, subexp, ram, m);
      C.TailLcmLeast(acc, expansion, ram, m);
    }
  }

  /** No ramification smaller than `ram` expresses `gamma` and the exponents. */
  predicate Minimal(s: DSeries)
    requires s.ram > 0
  {
    forall m :: 0 < m < s.ram ==> !Covers(s.gamma, s.subexp, s.expansion, s.ram, m)
  }

  /** The ramification is minimal exactly when `new_ram` is not below it. */
  lemma MinimalIff(s: DSeries)
    requires s.ram > 0 && s.gamma.den > 0
    ensures Minimal(s) <==> NewRam(s.gamma, s.subexp, s.expansion, s.ram) >= s.ram
  {
    var l := NewRam(s.gamma, s.subexp, s.expansion, s.ram);
    NewRamLeast(s.gamma, s.subexp, s.expansion, s.ram, l);
    if l >= s.ram {
      forall m | 0 < m < s.ram ensures !Covers(s.gamma, s.subexp, s.expansion, s.ram, m) {
        NewRamLeast(s.gamma, s.subexp, s.expansion, s.ram, m);
        if Covers(s.gamma, s.subexp, s.expansion, s.ram, m) {
          DividesBound(l, m);
        }
      }
    }
  }

  /** What the constructor guarantees of every series it builds. */
  predicate WellFormed(s: DSeries) {
    && s.ram >= 1 && Reduced(s.gamma) && Canonical(s.subexp) && T.ValidTail(s.expansion)
    && (s.expansion == [] ==> s == Zero)
    && (s.expansion != [] ==> s.rho != 0.0 && Minimal(s))
  }

  /** Well formed with a coefficient of valuation zero: the constructor leaves
      such a series as it is. */
  predicate Normal(s: DSeries) {
    WellFormed(s) && (s.expansion != [] ==> T.MinOrd(s.expansion) == 0)
  }

  lemma ZeroOneNormal()
    ensures Normal(Zero) && Normal(One)
  {
    assert PS.Ord(PS.One) == 0 by {
      ValuationAt(PS.One.c, 0);
    }
    assert T.MinOrd(One.expansion) == 0;
  }

  // ---------------------------------------------------------------------------
  // The normalizing constructor, stage by stage

  /** `diff = min(c.valuation() for c in expansion.coeffs())`: the zero
      coefficients count too, with their precision as valuation. */
  function Diff(expansion: T.Tail): (d: nat)
    requires T.ValidTail(expansion) && expansion != []
    ensures d <= T.MinOrd(expansion)
    ensures forall j :: 0 <= j < |expansion| ==> T.PLe(PS.Fin(d), PS.Val(expansion[j]))
    ensures exists j :: 0 <= j < |expansion| && PS.Val(expansion[j]) == PS.Fin(d)
  {
    var v := T.MinVal(expansion);
    assert T.PLe(v, PS.Val(expansion[|expansion| - 1]));
    var j0 :| 0 <= j0 < |expansion| && !PS.IsZero(expansion[j0]) && PS.Ord(expansion[j0]) == T.MinOrd(expansion);
    assert T.PLe(v, PS.Val(expansion[j0]));
    v.n
  }

  /** The exponent `alpha - v/ram` of the leading power of `n` when the
      expansion starts at `x^v = n^(-v/ram)`. */
  function Leading(alpha: real, v: nat, ram: nat): real
    requires ram > 0
  {
    alpha - v as real / ram as real
  }

  /** Divides every coefficient of the expansion by `x^diff` (the zero ones
      become the exact zero) and lowers `alpha` by `diff/ram`: the leading
      exponent stays where it was. */
  function Fold(expansion: T.Tail, alpha: real, ram: nat): (r: (T.Tail, real))
    requires T.ValidTail(expansion) && expansion != [] && ram > 0
    ensures T.ValidTail(r.0) && |r.0| == |expansion| && r.0 != []
    ensures T.MinOrd(r.0) == T.MinOrd(expansion) - Diff(expansion) && r.1 == Leading(alpha, Diff(expansion), ram)
    ensures Leading(r.1, T.MinOrd(r.0), ram) == Leading(alpha, T.MinOrd(expansion), ram)
    ensures T.MinOrd(expansion) == 0 ==> r == (expansion, alpha)
    ensures forall j :: 0 <= j < |expansion| ==> r.0[j].c == ShiftDown(expansion[j].c, Diff(expansion))
    ensures forall j :: 0 <= j < |expansion| && !PS.IsZero(expansion[j]) ==>
      r.0[j].prec == PS.PMinus(expansion[j].prec, Diff(expansion))
  {
    var d := Diff(expansion);
    if d == 0 then
      FoldNothing(expansion, alpha, ram);
      (expansion, alpha)
    else
      FoldShifted(expansion, alpha, ram, d);
      C.ShiftDownContent(expansion, d);
      (T.ShiftDown(expansion, d), Leading(alpha, d, ram))
  }

  /** With `diff = 0` there is nothing to divide by. */
  lemma FoldNothing(expansion: T.Tail, alpha: real, ram: nat)
    requires ram > 0
    ensures Leading(alpha, 0, ram) == alpha
    ensures forall j :: 0 <= j < |expansion| ==> ShiftDown(expansion[j].c, 0) == expansion[j].c
    ensures forall j :: 0 <= j < |expansion| ==> PS.PMinus(expansion[j].prec, 0) == expansion[j].prec
  {
  }

  /** Dividing by `x^diff` lowers the least valuation by `diff` and keeps
      the leading exponent. */
  lemma FoldShifted(expansion: T.Tail, alpha: real, ram: nat, d: nat)
    requires T.ValidTail(expansion) && expansion != [] && ram > 0 && d <= T.MinOrd(expansion)
    ensures |T.ShiftDown(expansion, d)| == |expansion|
    ensures T.MinOrd(T.ShiftDown(expansion, d)) == T.MinOrd(expansion) - d
    ensures Leading(Leading(alpha, d, ram), T.MinOrd(T.ShiftDown(expansion, d)), ram) == Leading(alpha, T.MinOrd(expansion), ram)
  {
    T.ShiftDownBy(expansion, d);
    LeadingShift(alpha, T.MinOrd(expansion), d, ram, T.MinOrd(T.ShiftDown(expansion, d)));
  }

  lemma LeadingShift(alpha: real, m: nat, d: nat, ram: nat, k: nat)
    requires ram > 0 && d <= m && k == m - d
    ensures Leading(Leading(alpha, d, ram), k, ram) == Leading(alpha, m, ram)
  {
    var r := ram as real;
    assert (m - d) as real / r + d as real / r == m as real / r;
  }

  /** The exponent `e*n/ram` that stands over `n` for the power `e/ram`. */
  function Image(e: nat, ram: nat, n: nat): nat
    requires ram > 0
  {
    e * n / ram
  }

  /** `p` with every exponent `e`, standing for `e/ram`, rewritten as
      `e*n/ram`, standing for the same power over `n`: the dictionary
      `{e/quo: p[e]}` with `quo = ram/n`. */
  function Rescale(p: Poly, ram: nat, n: nat): (r: Poly)
    requires ram > 0 && n > 0 && Canonical(p) && C.DensDivide(p, ram, n)
    ensures Canonical(r)
    ensures forall e :: 0 <= e < |p| && p[e] != 0.0 ==> Coef(r, Image(e, ram, n)) == p[e]
  {
    RescaleMultiples(p, ram, n);
    var r := Deflate(Inflate(p, n), ram);
    forall e | 0 <= e < |p| && p[e] != 0.0 ensures Coef(r, Image(e, ram, n)) == p[e] {
      RescaleAt(p, ram, n, e);
    }
    r
  }

  /** The exponents of `p(x^n)` are multiples of `ram`. */
  lemma RescaleMultiples(p: Poly, ram: nat, n: nat)
    requires ram > 0 && n > 0 && C.DensDivide(p, ram, n)
    ensures AllMultiples(Inflate(p, n), ram)
  {
    var P := Inflate(p, n);
    forall i | 0 <= i < |P| && P[i] != 0.0 ensures Divides(ram, i) {
      InflatedMultiple(p, ram, n, i);
    }
  }

  lemma InflatedMultiple(p: Poly, ram: nat, n: nat, i: nat)
    requires ram > 0 && n > 0 && C.DensDivide(p, ram, n)
    requires i < |Inflate(p, n)| && Inflate(p, n)[i] != 0.0
    ensures Divides(ram, i)
  {
    var P := Inflate(p, n);
    assert Coef(P, i) == P[i];
    assert i % n == 0;
    var e := i / n;
    assert Coef(p, e) != 0.0;
    DenDividesProduct(e, ram, n);
    assert i == e * n;
  }

  /** Coefficient `e*n/ram` of the rescaled polynomial is `p[e]`. */
  lemma RescaleAt(p: Poly, ram: nat, n: nat, e: nat)
    requires ram > 0 && n > 0 && C.DensDivide(p, ram, n) && e < |p| && p[e] != 0.0
    requires AllMultiples(Inflate(p, n), ram)
    ensures Image(e, ram, n) * ram == e * n
    ensures Coef(Deflate(Inflate(p, n), ram), Image(e, ram, n)) == p[e]
  {
    DenDividesProduct(e, ram, n);
    DividesIntro(ram, e * n);
    InflateAt(p, n, e);
    assert Image(e, ram, n) * ram == n * e;
  }

  /** A common multiple of the rescaled denominators is one of the original
      denominators: `e/ram` and `(e*n/ram)/n` are the same fraction. */
  lemma RescaleCoversBack(p: Poly, ram: nat, n: nat, m: nat)
    requires ram > 0 && n > 0 && Canonical(p) && C.DensDivide(p, ram, n)
    requires C.DensDivide(Rescale(p, ram, n), n, m)
    ensures C.DensDivide(p, ram, m)
  {
    var r := Rescale(p, ram, n);
    RescaleMultiples(p, ram, n);
    forall e | 0 <= e < |p| && p[e] != 0.0 ensures Divides(Den(e, ram), m) {
      var f := Image(e, ram, n);
      RescaleAt(p, ram, n, e);
      assert Coef(r, f) == p[e];
      assert f < |r| && r[f] != 0.0;
      DenCross(e, ram, f, n);
    }
  }

  /** A coefficient rescaled and rebuilt from its dictionary, so exact. */
  function RescaleCoef(s: PS.Series, ram: nat, n: nat): (r: PS.Series)
    requires ram > 0 && n > 0 && PS.Valid(s) && C.DensDivide(s.c, ram, n)
    ensures PS.Valid(r) && r.prec == PS.Inf && r.c == Rescale(s.c, ram, n)
    ensures !PS.IsZero(s) ==> !PS.IsZero(r)
    ensures !PS.IsZero(s) && PS.Ord(s) == 0 ==> PS.Ord(r) == 0
  {
    if !PS.IsZero(s) then
      RescaleNonzero(s.c, ram, n);
      PS.Series(Rescale(s.c, ram, n), PS.Inf)
    else PS.Series(Rescale(s.c, ram, n), PS.Inf)
  }

  /** The first nonzero coefficient moves to index `0` when it was there. */
  lemma RescaleNonzero(p: Poly, ram: nat, n: nat)
    requires ram > 0 && n > 0 && Canonical(p) && p != [] && C.DensDivide(p, ram, n)
    ensures Rescale(p, ram, n) != []
    ensures p[0] != 0.0 ==> Rescale(p, ram, n)[0] == p[0]
  {
    var r := Rescale(p, ram, n);
    var o := |p| - 1;
    assert Coef(r, Image(o, ram, n)) == p[o];
    if p[0] != 0.0 {
      assert Coef(r, Image(0, ram, n)) == p[0];
      assert Image(0, ram, n) == 0;
    }
  }

  /** Every coefficient of the expansion rescaled. */
  function RescaleTail(t: T.Tail, ram: nat, n: nat): (r: T.Tail)
    requires ram > 0 && n > 0 && T.ValidTail(t) && C.TailDensDivide(t, ram, n)
    ensures T.ValidTail(r) && |r| == |t|
    ensures forall j :: 0 <= j < |t| ==> r[j] == RescaleCoef(t[j], ram, n)
  {
    seq(|t|, j requires 0 <= j < |t| => RescaleCoef(t[j], ram, n))
  }

  lemma RescaleTailCoversBack(t: T.Tail, ram: nat, n: nat, m: nat)
    requires ram > 0 && n > 0 && T.ValidTail(t) && C.TailDensDivide(t, ram, n)
    requires C.TailDensDivide(RescaleTail(t, ram, n), n, m)
    ensures C.TailDensDivide(t, ram, m)
  {
    var r := RescaleTail(t, ram, n);
    forall j | 0 <= j < |t| ensures C.DensDivide(t[j].c, ram, m) {
      RescaleCoversBack(t[j].c, ram, n, m);
    }
  }

  /** Rescaling keeps a coefficient of valuation zero. */
  lemma RescaleTailOrderZero(t: T.Tail, ram: nat, n: nat)
    requires ram > 0 && n > 0 && T.ValidTail(t) && C.TailDensDivide(t, ram, n) && t != [] && T.MinOrd(t) == 0
    ensures T.MinOrd(RescaleTail(t, ram, n)) == 0
  {
    var r := RescaleTail(t, ram, n);
    var j0 :| 0 <= j0 < |t| && !PS.IsZero(t[j0]) && PS.Ord(t[j0]) == 0;
    assert r[j0] == RescaleCoef(t[j0], ram, n);
  }

  /** Rewrites `subexp` and the expansion for `new_ram` when that is smaller
      than `ram`, and stores `new_ram`. */
  function ReduceRam(gamma: Rat, ram: nat, rho: real, subexp: Poly, alpha: real, expansion: T.Tail): (s: DSeries)
    requires Reduced(gamma) && ram > 0 && rho != 0.0 && Canonical(subexp) && T.ValidTail(expansion) && expansion != []
    ensures WellFormed(s) && s.gamma == gamma && s.rho == rho && s.alpha == alpha && s.ram <= ram
    ensures |s.expansion| == |expansion|
    ensures T.MinOrd(expansion) == 0 ==> T.MinOrd(s.expansion) == 0
    ensures s.ram == ram ==> s.subexp == subexp && s.expansion == expansion
    ensures s.ram < ram ==> Covers(gamma, subexp, expansion, ram, s.ram)
    ensures s.ram == Min(NewRam(gamma, subexp, expansion, ram), ram)
  {
    var n := NewRam(gamma, subexp, expansion, ram);
    NewRamLeast(gamma, subexp, expansion, ram, n);
    if n < ram then
      var s := DSeries(gamma, n, rho, Rescale(subexp, ram, n), alpha, RescaleTail(expansion, ram, n));
      RescaledMinimal(gamma, ram, rho, subexp, alpha, expansion);
      if T.MinOrd(expansion) == 0 then
        RescaleTailOrderZero(expansion, ram, n);
        s
      else s
    else
      var s := DSeries(gamma, ram, rho, subexp, alpha, expansion);
      MinimalIff(s);
      s
  }

  /** The reduced series stands for the same powers of `n` as the data. */
  lemma ReduceRamSamePowers(gamma: Rat, ram: nat, rho: real, subexp: Poly, alpha: real, expansion: T.Tail)
    requires Reduced(gamma) && ram > 0 && rho != 0.0 && Canonical(subexp) && T.ValidTail(expansion) && expansion != []
    ensures var s := ReduceRam(gamma, ram, rho, subexp, alpha, expansion);
      Inflate(s.subexp, ram) == Inflate(subexp, s.ram) &&
      forall j :: 0 <= j < |expansion| ==> Inflate(s.expansion[j].c, ram) == Inflate(expansion[j].c, s.ram)
  {
    var n := NewRam(gamma, subexp, expansion, ram);
    NewRamLeast(gamma, subexp, expansion, ram, n);
    if n < ram {
      RescaleSamePowers(subexp, ram, n);
      RescaleTailSamePowers(expansion, ram, n);
    }
  }

  /** `p` over `ram` and its rescaling over `n` stand for the same powers:
      `e/ram` and `f/n` agree exactly when `e*n == f*ram`. */
  lemma RescaleSamePowers(p: Poly, ram: nat, n: nat)
    requires ram > 0 && n > 0 && Canonical(p) && C.DensDivide(p, ram, n)
    ensures Inflate(Rescale(p, ram, n), ram) == Inflate(p, n)
  {
    RescaleMultiples(p, ram, n);
    InflateDeflate(Inflate(p, n), ram);
  }

  lemma RescaleTailSamePowers(t: T.Tail, ram: nat, n: nat)
    requires ram > 0 && n > 0 && T.ValidTail(t) && C.TailDensDivide(t, ram, n)
    ensures forall j :: 0 <= j < |t| ==> Inflate(RescaleTail(t, ram, n)[j].c, ram) == Inflate(t[j].c, n)
  {
    forall j | 0 <= j < |t| ensures Inflate(RescaleTail(t, ram, n)[j].c, ram) == Inflate(t[j].c, n) {
      RescaleSamePowers(t[j].c, ram, n);
    }
  }

  lemma RescaledMinimal(gamma: Rat, ram: nat, rho: real, subexp: Poly, alpha: real, expansion: T.Tail)
    requires gamma.den > 0 && ram > 0 && Canonical(subexp) && T.ValidTail(expansion)
    requires NewRam(gamma, subexp, expansion, ram) < ram
    ensures var n := NewRam(gamma, subexp, expansion, ram);
      Covers(gamma, subexp, expansion, ram, n) &&
      Minimal(DSeries(gamma, n, rho, Rescale(subexp, ram, n), alpha, RescaleTail(expansion, ram, n)))
  {
    var n := NewRam(gamma, subexp, expansion, ram);
    NewRamLeast(gamma, subexp, expansion, ram, n);
    var R, RT := Rescale(subexp, ram, n), RescaleTail(expansion, ram, n);
    forall m | 0 < m < n ensures !Covers(gamma, R, RT, n, m) {
      if Covers(gamma, R, RT, n, m) {
        RescaleCoversBack(subexp, ram, n, m);
        RescaleTailCoversBack(expansion, ram, n, m);
        NewRamLeast(gamma, subexp, expansion, ram, m);
        DividesBound(n, m);
      }
    }
  }

  // ---------------------------------------------------------------------------
  // make_monic

  /** The expansion divided by the first nonzero coefficient of its leading coefficient. */
  function Monic(t: T.Tail): (r: T.Tail)
    requires T.ValidTail(t) && t != []
    ensures T.ValidTail(r) && T.SameSupport(t, r) && T.MonicDivisor(r) == 1.0
  {
    var k := 1.0 / T.MonicDivisor(t);
    T.ScaleSupport(k, t);
    T.MonicAfterScale(t);
    T.Scale(k, t)
  }

  function MakeMonic(s: DSeries): (r: DSeries)
    requires WellFormed(s)
    ensures WellFormed(r) && r == s.(expansion := r.expansion) && T.SameSupport(s.expansion, r.expansion)
    ensures s.expansion != [] ==> T.MonicDivisor(r.expansion) == 1.0
    ensures Normal(s) ==> Normal(r)
  {
    if s.expansion == [] then s
    else
      var t := Monic(s.expansion);
      SameSupportWellFormed(s, t);
      s.(expansion := t)
  }

  /** Well-formedness only looks at where the expansion has nonzero terms. */
  lemma SameSupportWellFormed(s: DSeries, t: T.Tail)
    requires WellFormed(s) && T.ValidTail(t) && T.SameSupport(s.expansion, t)
    ensures WellFormed(s.(expansion := t))
    ensures Normal(s) ==> Normal(s.(expansion := t))
  {
    if t != [] {
      SameSupportMinimal(s, t);
      if Normal(s) {
        T.SameSupportMinOrd(s.expansion, t);
      }
    }
  }

  lemma SameSupportMinimal(s: DSeries, t: T.Tail)
    requires s.ram > 0 && Minimal(s) && T.SameSupport(s.expansion, t)
    ensures Minimal(s.(expansion := t))
  {
    forall m | 0 < m < s.ram ensures !C.TailDensDivide(t, s.ram, m) || !Covers(s.gamma, s.subexp, s.expansion, s.ram, m) {
      SameSupportDens(s.expansion, t, s.ram, m);
    }
  }

  lemma SameSupportDens(a: T.Tail, b: T.Tail, ram: nat, m: nat)
    requires ram > 0 && T.SameSupport(a, b)
    ensures C.TailDensDivide(a, ram, m) ==> C.TailDensDivide(b, ram, m)
  {
    if C.TailDensDivide(a, ram, m) {
      forall j | 0 <= j < |b| ensures C.DensDivide(b[j].c, ram, m) {
        assert Polynomials.SameSupport(a[j].c, b[j].c);
        assert C.DensDivide(a[j].c, ram, m);
      }
    }
  }

  // ---------------------------------------------------------------------------
  // The constructor

  /** `r` stands for the data once `diff` is folded: `gamma` reduced, the
      same `rho`, `alpha` lowered by `diff/ram`, a ramification no larger,
      and `subexp` and every coefficient, divided by `x^diff`, carrying the
      same coefficient on the same power of `n` (`e/ram` over `ram` and
      `f/r.ram` over `r.ram` are one power exactly when `e*r.ram == f*ram`). */
  predicate Represents(r: DSeries, gamma: Rat, ram: nat, rho: real, subexp: Poly, alpha: real, expansion: T.Tail)
    requires ValidRat(gamma) && ram > 0 && T.ValidTail(expansion) && expansion != []
  {
    && r.gamma == Reduce(gamma.num, gamma.den) && r.rho == rho && r.alpha == Leading(alpha, Diff(expansion), ram)
    && 0 < r.ram <= ram && |r.expansion| == |expansion|
    && Inflate(r.subexp, ram) == Inflate(subexp, r.ram)
    && forall j :: 0 <= j < |expansion| ==>
         Inflate(r.expansion[j].c, ram) == Inflate(ShiftDown(expansion[j].c, Diff(expansion)), r.ram)
  }

  /** The constructor `DiscreteGeneralizedSeries(parent, [gamma, ram, rho,
      subexp, alpha, expansion], make_monic)` with the two corrections listed
      as findings: the ramification found by the reduction is stored, and a
      zero expansion is accepted whatever `rho` (so the canonical zero, whose
      `rho` is 0, can be rebuilt). A nonpositive ramification, or `rho = 0`
      with a nonzero expansion, is refused; a zero expansion gives the
      canonical zero; otherwise `gamma` is reduced, `diff` folded into
      `alpha`, and the ramification lowered as far as the exponents allow. */
  function Normalize(gamma: Rat, ram: int, rho: real, subexp: Poly, alpha: real, expansion: T.Tail, makeMonic: bool): (r: Result<DSeries>)
    requires ValidRat(gamma) && Canonical(subexp) && T.ValidTail(expansion)
    ensures r.Err? <==> ram <= 0 || (rho == 0.0 && expansion != [])
    ensures r.Err? ==> r.error == ValueError("")
    ensures r.Ok? ==> WellFormed(r.value)
    ensures r.Ok? && expansion == [] ==> r.value == Zero
    ensures r.Ok? && expansion != [] ==>
      r.value.gamma == Reduce(gamma.num, gamma.den) && r.value.rho == rho && r.value.ram <= ram &&
      |r.value.expansion| == |expansion| && r.value.alpha == Leading(alpha, Diff(expansion), ram)
    ensures r.Ok? && expansion != [] && Diff(expansion) == T.MinOrd(expansion) ==> Normal(r.value)
    ensures r.Ok? && expansion != [] && makeMonic ==> T.MonicDivisor(r.value.expansion) == 1.0
    ensures r.Ok? && expansion != [] && !makeMonic ==> Represents(r.value, gamma, ram, rho, subexp, alpha, expansion)
    ensures r.Ok? && expansion != [] && !makeMonic && T.MinOrd(expansion) == 0 && r.value.ram == ram ==>
      r.value.subexp == subexp && r.value.expansion == expansion
  {
    if ram <= 0 || (rho == 0.0 && expansion != []) then Err(ValueError(""))
    else if expansion == [] then
      ZeroOneNormal();
      Ok(Zero)
    else
      var g := Reduce(gamma.num, gamma.den);
      ReduceReduced(gamma.num, gamma.den);
      var f := Fold(expansion, alpha, ram);
      var s := ReduceRam(g, ram, rho, subexp, f.1, f.0);
      ReduceRamSamePowers(g, ram, rho, subexp, f.1, f.0);
      Ok(if makeMonic then MakeMonic(s) else s)
  }

  /** The ramification the constructor stores is `new_ram` of the folded
      data when that is smaller than the requested one, and the requested
      one otherwise. */
  lemma NormalizeRam(gamma: Rat, ram: nat, rho: real, subexp: Poly, alpha: real, expansion: T.Tail, makeMonic: bool)
    requires ValidRat(gamma) && Canonical(subexp) && T.ValidTail(expansion) && ram > 0 && rho != 0.0 && expansion != []
    ensures Normalize(gamma, ram, rho, subexp, alpha, expansion, makeMonic).value.ram ==
      Min(NewRam(Reduce(gamma.num, gamma.den), subexp, Fold(expansion, alpha, ram).0, ram), ram)
  {
  }

  /** A normal series is left alone by the constructor: normalizing is idempotent. */
  lemma NormalizeFixpoint(s: DSeries)
    requires Normal(s)
    ensures Normalize(s.gamma, s.ram, s.rho, s.subexp, s.alpha, s.expansion, false) == Ok(s)
  {
    if s.expansion != [] {
      ReduceOfReduced(s.gamma);
      MinimalIff(s);
      assert Fold(s.expansion, s.alpha, s.ram) == (s.expansion, s.alpha);
      assert ReduceRam(s.gamma, s.ram, s.rho, s.subexp, s.alpha, s.expansion) == s;
    }
  }

  /** The constructor as written: it refuses `rho = 0` before looking at the
      expansion, and it rewrites `subexp` and the expansion for `new_ram`
      but keeps the old ramification. */
  function NormalizeAsWritten(gamma: Rat, ram: int, rho: real, subexp: Poly, alpha: real, expansion: T.Tail, makeMonic: bool): (r: Result<DSeries>)
    requires ValidRat(gamma) && Canonical(subexp) && T.ValidTail(expansion)
    ensures r.Err? <==> ram <= 0 || rho == 0.0
    ensures r.Err? ==> r.error == ValueError("")
    ensures r.Ok? && expansion == [] ==> r.value == Zero
    ensures r.Ok? && expansion != [] ==>
      var c := Normalize(gamma, ram, rho, subexp, alpha, expansion, makeMonic);
      c.Ok? && r.value == c.value.(ram := ram)
  {
    if rho == 0.0 || ram <= 0 then Err(ValueError(""))
    else if expansion == [] then Ok(Zero)
    else
      var g := Reduce(gamma.num, gamma.den);
      ReduceReduced(gamma.num, gamma.den);
      var f := Fold(expansion, alpha, ram);
      var s := ReduceRam(g, ram, rho, subexp, f.1, f.0).(ram := ram);
      Ok(if makeMonic then s.(expansion := Monic(s.expansion)) else s)
  }
}
