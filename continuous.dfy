/** Continuous generalized series
      `exp(integral of exp(x^(-1/ram))/x dx) * tail(x^(1/ram), log(x))`
    with `exp` in `K[x]` (its constant coefficient is the power of `x`) and
    `tail` in `K[[x]][LOG]`. Values are immutable; every operation rebuilds
    its result through the normalizing constructor. */
module Continuous {
  import opened Numbers
  import opened Polynomials
  import PS = PowerSeries
  import T = Tails
  import opened Outcomes

  datatype CSeries = CSeries(ram: nat, exp: Poly, tail: T.Tail)

  /** The canonical zero: exponential part 0, ramification 1. */
  const Zero: CSeries := CSeries(1, [], [])

  /** The monoid's one: exponential part 0, tail 1. */
  const One: CSeries := CSeries(1, [], T.One)

  /** `order()`: the power of `x` in front of the tail, the constant
      coefficient of the exponential part; infinite (`None`) for zero. */
  function Order(s: CSeries): (o: Option<real>)
    ensures o.None? <==> s.tail == []
  {
    if s.tail == [] then None else Some(Coef(s.exp, 0))
  }

  /** Every exponent of `exp` and of every tail coefficient is a multiple of `q`. */
  predicate Multiples(exp: Poly, tail: T.Tail, q: nat) {
    AllMultiples(exp, q) && T.AllMultiples(tail, q)
  }

  /** No ramification smaller than `ram` can express the exponents. */
  predicate Minimal(s: CSeries) {
    forall q :: 1 < q <= s.ram && Divides(q, s.ram) ==> !Multiples(s.exp, s.tail, q)
  }

  /** What the constructor guarantees of every series it builds. */
  predicate Valid(s: CSeries) {
    && s.ram >= 1 && Canonical(s.exp) && T.ValidTail(s.tail)
    && (s.tail == [] ==> s.ram == 1 && s.exp == [])
    && (s.tail != [] ==> T.MinOrd(s.tail) == 0 && Minimal(s))
  }

  // ---------------------------------------------------------------------------
  // The normalizing constructor, stage by stage

  /** Moves the smallest valuation `v` of the tail coefficients into the
      exponential part as `v/ram`, dividing every coefficient by `x^v`. */
  function FoldValuation(tail: T.Tail, exp: Poly, ram: nat): (r: (Poly, T.Tail))
    requires T.ValidTail(tail) && tail != [] && ram > 0 && Canonical(exp)
    ensures Canonical(r.0) && T.ValidTail(r.1) && |r.1| == |tail| && T.MinOrd(r.1) == 0
    ensures Coef(r.0, 0) == Coef(exp, 0) + T.MinOrd(tail) as real / ram as real
    ensures forall i :: i != 0 ==> Coef(r.0, i) == Coef(exp, i)
    ensures forall j :: 0 <= j < |tail| ==> r.1[j].c == ShiftDown(tail[j].c, T.MinOrd(tail))
    ensures forall j :: 0 <= j < |tail| && !PS.IsZero(tail[j]) ==> r.1[j].prec == PS.PMinus(tail[j].prec, T.MinOrd(tail))
  {
    var v := T.MinOrd(tail);
    if v == 0 then (exp, tail)
    else
      T.ShiftDownMinOrd(tail);
      ShiftDownContent(tail, v);
      (AddConstant(exp, v as real / ram as real), T.ShiftDown(tail, v))
  }

  /** Dividing a tail by `x^v` shifts the known coefficients of every LOG
      coefficient down by `v` and lowers the precision of the nonzero ones. */
  lemma ShiftDownContent(tail: T.Tail, v: nat)
    requires T.ValidTail(tail) && |T.ShiftDown(tail, v)| == |tail|
    ensures forall j :: 0 <= j < |tail| ==> T.ShiftDown(tail, v)[j].c == ShiftDown(tail[j].c, v)
    ensures forall j :: 0 <= j < |tail| && !PS.IsZero(tail[j]) ==> T.ShiftDown(tail, v)[j].prec == PS.PMinus(tail[j].prec, v)
  {
    var r := T.ShiftDown(tail, v);
    forall j | 0 <= j < |tail| ensures r[j].c == ShiftDown(tail[j].c, v) {
      assert r[j] == T.ShiftCoef(tail[j], v);
    }
  }

  /** The denominators of `e/ram` over the exponents `e` of `p`. */
  function Dens(p: Poly, ram: nat): (ds: seq<nat>)
    requires ram > 0
    ensures forall k :: 0 <= k < |ds| ==> ds[k] > 0
  {
    var es := Exponents(p);
    seq(|es|, k requires 0 <= k < |es| => Den(es[k], ram))
  }

  /** The lcm with the denominators of every tail coefficient, one coefficient after the other. */
  function TailLcm(acc: nat, tail: seq<PS.Series>, ram: nat): (l: nat)
    requires acc > 0 && ram > 0
    ensures l > 0
    decreases |tail|
  {
    if tail == [] then acc else TailLcm(LcmFold(acc, Dens(tail[0].c, ram)), tail[1..], ram)
  }

  /** The ramification the exponents need: the lcm of the denominators of the
      exponential part, and of the tail too when that is not yet `ram`. */
  function NewRam(exp: Poly, tail: T.Tail, ram: nat): (l: nat)
    requires ram > 0
    ensures l > 0
  {
    var l := LcmFold(1, Dens(exp, ram));
    if l < ram then TailLcm(l, tail, ram) else l
  }

  /** Every denominator of `e/ram`, `e` an exponent of `p`, divides `m`. */
  predicate DensDivide(p: Poly, ram: nat, m: nat)
    requires ram > 0
  {
    forall e :: 0 <= e < |p| && p[e] != 0.0 ==> Divides(Den(e, ram), m)
  }

  predicate TailDensDivide(tail: seq<PS.Series>, ram: nat, m: nat)
    requires ram > 0
  {
    forall j :: 0 <= j < |tail| ==> DensDivide(tail[j].c, ram, m)
  }

  lemma LcmDens(acc: nat, p: Poly, ram: nat)
    requires acc > 0 && ram > 0
    ensures Divides(acc, LcmFold(acc, Dens(p, ram))) && DensDivide(p, ram, LcmFold(acc, Dens(p, ram)))
  {
    var ds := Dens(p, ram);
    LcmFoldMultiple(acc, ds);
    forall e | 0 <= e < |p| && p[e] != 0.0 ensures Divides(Den(e, ram), LcmFold(acc, ds)) {
      var k :| 0 <= k < |Exponents(p)| && Exponents(p)[k] == e;
      assert ds[k] == Den(e, ram);
    }
  }

  lemma LcmDensLeast(acc: nat, p: Poly, ram: nat, m: nat)
    requires acc > 0 && ram > 0 && Divides(acc, m) && DensDivide(p, ram, m)
    ensures Divides(LcmFold(acc, Dens(p, ram)), m)
  {
    LcmFoldLeast(acc, Dens(p, ram), m);
  }

  lemma {:induction false} TailLcmMultiple(acc: nat, tail: seq<PS.Series>, ram: nat)
    requires acc > 0 && ram > 0
    ensures Divides(acc, TailLcm(acc, tail, ram)) && TailDensDivide(tail, ram, TailLcm(acc, tail, ram))
    decreases |tail|
  {
    if tail != [] {
      var acc' := LcmFold(acc, Dens(tail[0].c, ram));
      var l := TailLcm(acc, tail, ram);
      LcmDens(acc, tail[0].c, ram);
      TailLcmMultiple(acc', tail[1..], ram);
      DividesTrans(acc, acc', l);
      forall e | 0 <= e < |tail[0].c| && tail[0].c[e] != 0.0 ensures Divides(Den(e, ram), l) {
        DividesTrans(Den(e, ram), acc', l);
      }
      forall j | 1 <= j < |tail| ensures DensDivide(tail[j].c, ram, l) {
        assert tail[j] == tail[1..][j - 1];
      }
    }
  }

  lemma {:induction false} TailLcmLeast(acc: nat, tail: seq<PS.Series>, ram: nat, m: nat)
    requires acc > 0 && ram > 0 && Divides(acc, m) && TailDensDivide(tail, ram, m)
    ensures Divides(TailLcm(acc, tail, ram), m)
    decreases |tail|
  {
    if tail != [] {
      LcmDensLeast(acc, tail[0].c, ram, m);
      forall j | 0 <= j < |tail[1..]| ensures DensDivide(tail[1..][j].c, ram, m) {
        assert tail[1..][j] == tail[j + 1];
      }
      TailLcmLeast(LcmFold(acc, Dens(tail[0].c, ram)), tail[1..], ram, m);
    }
  }

  /** The new ramification divides the old one. */
  lemma NewRamDivides(exp: Poly, tail: T.Tail, ram: nat)
    requires ram > 0
    ensures Divides(NewRam(exp, tail, ram), ram)
  {
    var lE := LcmFold(1, Dens(exp, ram));
    assert Divides(1, ram);
    assert DensDivide(exp, ram, ram);
    LcmDensLeast(1, exp, ram, ram);
    if lE < ram {
      assert TailDensDivide(tail, ram, ram);
      TailLcmLeast(lE, tail, ram, ram);
    } else {
      DividesBound(lE, ram);
    }
  }

  /** The new ramification covers the exponential part, and the tail too
      whenever it differs from the old one. */
  lemma NewRamCovers(exp: Poly, tail: T.Tail, ram: nat)
    requires ram > 0
    ensures DensDivide(exp, ram, NewRam(exp, tail, ram))
    ensures NewRam(exp, tail, ram) != ram ==> TailDensDivide(tail, ram, NewRam(exp, tail, ram))
  {
    var lE := LcmFold(1, Dens(exp, ram));
    var l := NewRam(exp, tail, ram);
    LcmDens(1, exp, ram);
    if lE < ram {
      assert l == TailLcm(lE, tail, ram);
      TailLcmMultiple(lE, tail, ram);
      forall e | 0 <= e < |exp| && exp[e] != 0.0 ensures Divides(Den(e, ram), l) {
        DividesTrans(Den(e, ram), lE, l);
      }
    } else {
      assert l == lE;
      NewRamDivides(exp, tail, ram);
      DividesBound(l, ram);
    }
  }

  /** The new ramification divides every common multiple of all denominators. */
  lemma NewRamLeast(exp: Poly, tail: T.Tail, ram: nat, m: nat)
    requires ram > 0 && m > 0
    ensures DensDivide(exp, ram, m) && TailDensDivide(tail, ram, m) ==> Divides(NewRam(exp, tail, ram), m)
  {
    if DensDivide(exp, ram, m) && TailDensDivide(tail, ram, m) {
      var lE := LcmFold(1, Dens(exp, ram));
      assert Divides(1, m);
      LcmDensLeast(1, exp, ram, m);
      if lE < ram {
        TailLcmLeast(lE, tail, ram, m);
      }
    }
  }

  /** `Den(e, ram)` divides `d` iff `ram/d` divides `e`, lifted to all exponents. */
  lemma DensDivideMultiples(p: Poly, ram: nat, d: nat)
    requires ram > 0 && Divides(d, ram)
    ensures DensDivide(p, ram, d) <==> AllMultiples(p, ram / d)
  {
    forall e | 0 <= e < |p| && p[e] != 0.0 ensures Divides(Den(e, ram), d) <==> Divides(ram / d, e) {
      DenDivides(e, ram, d);
    }
  }

  lemma TailDensDivideMultiples(tail: seq<PS.Series>, ram: nat, d: nat)
    requires ram > 0 && Divides(d, ram)
    ensures TailDensDivide(tail, ram, d) <==> T.AllMultiples(tail, ram / d)
  {
    forall j | 0 <= j < |tail| ensures DensDivide(tail[j].c, ram, d) <==> AllMultiples(tail[j].c, ram / d) {
      DensDivideMultiples(tail[j].c, ram, d);
    }
  }

  /** Exponents that are multiples of `quo` and, once divided by `quo`,
      multiples of `q`, are multiples of `q*quo`. */
  lemma DeflatedMultiples(p: Poly, quo: nat, q: nat)
    requires quo > 0 && q > 0 && AllMultiples(p, quo) && AllMultiples(Deflate(p, quo), q)
    ensures AllMultiples(p, q * quo)
  {
    var d := Deflate(p, quo);
    forall e | 0 <= e < |p| && p[e] != 0.0 ensures Divides(q * quo, e) {
      DividesIntro(quo, e);
      var i := e / quo;
      assert Coef(d, i) == Coef(p, i * quo) == p[e];
      DividesIntro(q, i);
      var t := i / q;
      MulAssocComm(q, t, quo);
      MulPos(q, quo);
      DividesWitness(q * quo, e, t);
    }
  }

  lemma TailDeflatedMultiples(tail: T.Tail, d: seq<PS.Series>, quo: nat, q: nat)
    requires quo > 0 && q > 0 && T.AllMultiples(tail, quo) && |d| == |tail|
    requires forall j :: 0 <= j < |d| ==> d[j].c == Deflate(tail[j].c, quo)
    requires forall j :: 0 <= j < |d| ==> AllMultiples(d[j].c, q)
    ensures T.AllMultiples(tail, q * quo)
  {
    forall j | 0 <= j < |tail| ensures AllMultiples(tail[j].c, q * quo) {
      DeflatedMultiples(tail[j].c, quo, q);
    }
  }

  /** Rescales the exponents to the smallest ramification they allow. */
  function ReduceRam(exp: Poly, tail: T.Tail, ram: nat): (s: CSeries)
    requires ram > 0 && Canonical(exp) && T.ValidTail(tail)
    ensures s.ram == NewRam(exp, tail, ram) && Divides(s.ram, ram)
    ensures Canonical(s.exp) && T.ValidTail(s.tail) && |s.tail| == |tail|
    ensures Coef(s.exp, 0) == Coef(exp, 0)
    ensures s.ram == ram ==> s.exp == exp && s.tail == tail
    ensures s.ram != ram ==>
      ram / s.ram > 0 && AllMultiples(exp, ram / s.ram) && T.AllMultiples(tail, ram / s.ram) &&
      s.exp == Deflate(exp, ram / s.ram) && s.tail == T.Deflate(tail, ram / s.ram)
  {
    var l := NewRam(exp, tail, ram);
    NewRamDivides(exp, tail, ram);
    NewRamCovers(exp, tail, ram);
    if l == ram then CSeries(ram, exp, tail)
    else
      DensDivideMultiples(exp, ram, l);
      TailDensDivideMultiples(tail, ram, l);
      var quo := ram / l;
      CSeries(l, Deflate(exp, quo), T.Deflate(tail, quo))
  }

  /** The rescaled series is normalized when the tail already had valuation zero. */
  lemma ReduceRamValid(exp: Poly, tail: T.Tail, ram: nat)
    requires ram > 0 && Canonical(exp) && T.ValidTail(tail) && tail != [] && T.MinOrd(tail) == 0
    ensures Valid(ReduceRam(exp, tail, ram))
  {
    var s := ReduceRam(exp, tail, ram);
    var l := NewRam(exp, tail, ram);
    NewRamDivides(exp, tail, ram);
    NewRamCovers(exp, tail, ram);
    DividesIntro(l, ram);
    var quo := ram / l;
    PosCofactor(l, quo);
    if l != ram {
      DensDivideMultiples(exp, ram, l);
      TailDensDivideMultiples(tail, ram, l);
      var j0 :| 0 <= j0 < |tail| && !PS.IsZero(tail[j0]) && PS.Ord(tail[j0]) == 0;
      assert Coef(s.tail[j0].c, 0) == Coef(tail[j0].c, 0) != 0.0;
      assert PS.Ord(s.tail[j0]) == 0;
    }
    forall q | 1 < q <= l && Divides(q, l) ensures !Multiples(s.exp, s.tail, q) {
      MinimalStep(exp, tail, ram, q);
    }
  }

  /** A common factor `q > 1` of the rescaled exponents and of the new
      ramification would make a smaller common multiple of the denominators. */
  lemma MinimalStep(exp: Poly, tail: T.Tail, ram: nat, q: nat)
    requires ram > 0 && Canonical(exp) && T.ValidTail(tail)
    requires 1 < q && Divides(q, NewRam(exp, tail, ram))
    ensures !Multiples(ReduceRam(exp, tail, ram).exp, ReduceRam(exp, tail, ram).tail, q)
  {
    var l := NewRam(exp, tail, ram);
    NewRamDivides(exp, tail, ram);
    var s := ReduceRam(exp, tail, ram);
    if Multiples(s.exp, s.tail, q) {
      UndoDeflation(exp, tail, ram, q, s);
    }
    var d := CofactorStep(l, q, ram);
    DensDivideMultiples(exp, ram, d);
    TailDensDivideMultiples(tail, ram, d);
    NewRamLeast(exp, tail, ram, d);
    assert Divides(l, d) ==> l <= d by {
      if Divides(l, d) {
        DividesBound(l, d);
      }
    }
  }

  /** For `q | l | ram`, `d = l/q` is a divisor of `ram` smaller than `l`
      with `ram/d == q*(ram/l)`. */
  lemma CofactorStep(l: nat, q: nat, ram: nat) returns (d: nat)
    requires 1 < q && Divides(q, l) && Divides(l, ram) && ram > 0
    ensures d > 0 && d < l && Divides(d, ram) && ram / d == q * (ram / l)
  {
    DividesIntro(l, ram);
    var quo := ram / l;
    PosCofactor(l, quo);
    DividesIntro(q, l);
    d := l / q;
    PosCofactor(q, d);
    MulAssocComm(d, q, quo);
    DividesWitness(d, ram, q * quo);
    MulStrict(1, q, d);
  }

  /** Common factors of the rescaled exponents, times the rescaling factor,
      are common factors of the original exponents. */
  lemma UndoDeflation(exp: Poly, tail: T.Tail, ram: nat, q: nat, s: CSeries)
    requires ram > 0 && Canonical(exp) && T.ValidTail(tail) && q > 0
    requires s == ReduceRam(exp, tail, ram) && Multiples(s.exp, s.tail, q)
    ensures s.ram > 0 && Multiples(exp, tail, q * (ram / s.ram))
  {
    NewRamDivides(exp, tail, ram);
    if s.ram != ram {
      DeflatedBoth(exp, tail, ram / s.ram, q, s.tail);
    } else {
      assert ram / s.ram == 1;
    }
  }

  lemma DeflatedBoth(exp: Poly, tail: T.Tail, quo: nat, q: nat, d: T.Tail)
    requires T.ValidTail(tail) && quo > 0 && q > 0 && AllMultiples(exp, quo) && T.AllMultiples(tail, quo)
    requires |d| == |tail| && forall j :: 0 <= j < |d| ==> d[j] == PS.Deflate(tail[j], quo)
    requires Multiples(Deflate(exp, quo), d, q)
    ensures Multiples(exp, tail, q * quo)
  {
    DeflatedMultiples(exp, quo, q);
    TailDeflatedMultiples(tail, d, quo, q);
  }

  /** `__eq__` within one parent: the same ramification and exponential part,
      and tails that agree up to their precisions. */
  predicate Equal(a: CSeries, b: CSeries) {
    a.ram == b.ram && a.exp == b.exp && T.Equal(a.tail, b.tail)
  }

  /** Divides the tail by the first nonzero coefficient of its leading coefficient. */
  function MakeMonic(s: CSeries): (r: CSeries)
    requires Valid(s)
    ensures Valid(r) && r.ram == s.ram && r.exp == s.exp && T.SameSupport(s.tail, r.tail)
  {
    if s.tail == [] then s
    else
      var k := 1.0 / T.MonicDivisor(s.tail);
      var t := T.Scale(k, s.tail);
      T.ScaleSupport(k, s.tail);
      SameSupportValid(s, t);
      CSeries(s.ram, s.exp, t)
  }

  /** Normalization only looks at where the tail's nonzero terms are. */
  lemma SameSupportValid(s: CSeries, t: T.Tail)
    requires Valid(s) && T.ValidTail(t) && T.SameSupport(s.tail, t)
    ensures Valid(CSeries(s.ram, s.exp, t))
  {
    if t != [] {
      T.SameSupportMinOrd(s.tail, t);
      forall q | 1 < q <= s.ram && Divides(q, s.ram) ensures !Multiples(s.exp, t, q) {
        T.SameSupportMultiples(s.tail, t, q);
      }
    }
  }

  /** The constructor `ContinuousGeneralizedSeries(parent, tail, exp, ramification, make_monic)`:
      a nonpositive ramification is refused, a zero tail gives the canonical
      zero, and otherwise the valuation is folded into the exponential part
      and the ramification reduced as far as the exponents allow. */
  function Normalize(tail: T.Tail, exp: Poly, ram: int, makeMonic: bool): (r: Result<CSeries>)
    requires T.ValidTail(tail)
    ensures ram <= 0 ==> r == Err(ValueError("ramification must be a positive integer"))
    ensures ram > 0 ==> r.Ok? && Valid(r.value) && Divides(r.value.ram, ram)
    ensures ram > 0 && tail == [] ==> r == Ok(Zero)
    ensures ram > 0 && tail != [] ==>
      |r.value.tail| == |tail| &&
      Coef(r.value.exp, 0) == Coef(exp, 0) + T.MinOrd(tail) as real / ram as real
    ensures ram > 0 && tail != [] && !makeMonic ==> Represents(r.value, tail, exp, ram)
    ensures ram > 0 && tail != [] && !makeMonic && T.MinOrd(tail) == 0 && r.value.ram == ram ==>
      r.value.exp == Trim(exp) && r.value.tail == tail
  {
    if ram <= 0 then Err(ValueError("ramification must be a positive integer"))
    else if tail == [] then Ok(Zero)
    else
      var folded := FoldValuation(tail, Trim(exp), ram);
      var s := ReduceRam(folded.0, folded.1, ram);
      ReduceRamValid(folded.0, folded.1, ram);
      FoldedRepresents(tail, exp, ram);
      Ok(if makeMonic then MakeMonic(s) else s)
  }

  /** A tail of order zero leaves the order to the constant of the exponential part. */
  lemma NormalizedOrder(tail: T.Tail, exp: Poly, ram: nat)
    requires T.ValidTail(tail) && ram > 0 && (tail != [] ==> T.MinOrd(tail) == 0)
    ensures Order(Normalize(tail, exp, ram, false).value) == if tail == [] then None else Some(Coef(exp, 0))
  {
    if tail != [] {
      assert 0 as real / ram as real == 0.0;
    }
  }

  /** `r` stands for the data `(tail, exp, ram)` once the least valuation `v`
      of the tail is folded: put back into the ramification `ram`, its
      exponential part is `exp + v/ram` and every tail coefficient is the
      given one divided by `x^v`. */
  predicate Represents(r: CSeries, tail: T.Tail, exp: Poly, ram: nat)
    requires T.ValidTail(tail) && tail != [] && ram > 0
  {
    && r.ram > 0 && Divides(r.ram, ram) && ram / r.ram > 0 && |r.tail| == |tail|
    && Inflate(r.exp, ram / r.ram) == AddConstant(exp, T.MinOrd(tail) as real / ram as real)
    && forall j :: 0 <= j < |tail| ==> Inflate(r.tail[j].c, ram / r.ram) == ShiftDown(tail[j].c, T.MinOrd(tail))
  }

  /** The constructor stores the folded data, rewritten for the new ramification. */
  lemma FoldedRepresents(tail: T.Tail, exp: Poly, ram: nat)
    requires T.ValidTail(tail) && tail != [] && ram > 0
    ensures var f := FoldValuation(tail, Trim(exp), ram);
      Represents(ReduceRam(f.0, f.1, ram), tail, exp, ram)
  {
    var f := FoldValuation(tail, Trim(exp), ram);
    FoldedExp(tail, exp, ram);
    ReduceRamInflates(f.0, f.1, ram);
    RepresentsIntro(tail, exp, ram, f.0, f.1, ReduceRam(f.0, f.1, ram));
  }

  /** The folded exponential part is `exp + v/ram`. */
  lemma FoldedExp(tail: T.Tail, exp: Poly, ram: nat)
    requires T.ValidTail(tail) && tail != [] && ram > 0
    ensures FoldValuation(tail, Trim(exp), ram).0 == AddConstant(exp, T.MinOrd(tail) as real / ram as real)
  {
    var e := FoldValuation(tail, Trim(exp), ram).0;
    var c := T.MinOrd(tail) as real / ram as real;
    AddConstantTrim(e, exp, c);
  }

  lemma AddConstantTrim(e: Poly, exp: Poly, c: real)
    requires Canonical(e) && Coef(e, 0) == Coef(Trim(exp), 0) + c
    requires forall i :: i != 0 ==> Coef(e, i) == Coef(Trim(exp), i)
    ensures e == AddConstant(exp, c)
  {
    CanonicalExt(e, AddConstant(exp, c));
  }

  lemma RepresentsIntro(tail: T.Tail, exp: Poly, ram: nat, e: Poly, t: T.Tail, r: CSeries)
    requires T.ValidTail(tail) && tail != [] && ram > 0 && |t| == |tail|
    requires e == AddConstant(exp, T.MinOrd(tail) as real / ram as real)
    requires forall j :: 0 <= j < |tail| ==> t[j].c == ShiftDown(tail[j].c, T.MinOrd(tail))
    requires r.ram > 0 && Divides(r.ram, ram) && ram / r.ram > 0 && |r.tail| == |t|
    requires Inflate(r.exp, ram / r.ram) == e
    requires forall j :: 0 <= j < |t| ==> Inflate(r.tail[j].c, ram / r.ram) == t[j].c
    ensures Represents(r, tail, exp, ram)
  {
  }

  /** Put back into the old ramification, the rescaled data is the data. */
  lemma ReduceRamInflates(exp: Poly, tail: T.Tail, ram: nat)
    requires ram > 0 && Canonical(exp) && T.ValidTail(tail)
    ensures var s := ReduceRam(exp, tail, ram);
      s.ram > 0 && ram / s.ram > 0 && Inflate(s.exp, ram / s.ram) == exp &&
      forall j :: 0 <= j < |tail| ==> Inflate(s.tail[j].c, ram / s.ram) == tail[j].c
  {
    var s := ReduceRam(exp, tail, ram);
    DividesIntro(s.ram, ram);
    var q := ram / s.ram;
    PosCofactor(s.ram, q);
    if s.ram == ram {
      DividesWitness(ram, ram, 1);
      assert q == 1 && s.exp == exp;
      InflateByOne(s.exp);
      forall j | 0 <= j < |tail| ensures Inflate(s.tail[j].c, q) == tail[j].c {
        InflateByOne(s.tail[j].c);
      }
    } else {
      assert s.exp == Deflate(exp, q);
      InflateDeflate(exp, q);
      forall j | 0 <= j < |tail| ensures Inflate(s.tail[j].c, q) == tail[j].c {
        assert s.tail[j] == PS.Deflate(tail[j], q);
        InflateDeflate(tail[j].c, q);
      }
    }
  }

  /** Folding the valuation never lowers the order below the requested exponent. */
  lemma NormalizeOrderAbove(tail: T.Tail, exp: Poly, ram: nat)
    requires T.ValidTail(tail) && ram > 0
    ensures Normalize(tail, exp, ram, false).value.tail != [] ==>
      Coef(Normalize(tail, exp, ram, false).value.exp, 0) >= Coef(exp, 0)
  {
    if tail != [] {
      NonnegativeQuotient(T.MinOrd(tail), ram);
    }
  }

  lemma NonnegativeQuotient(v: nat, r: nat)
    requires r > 0
    ensures v as real / r as real >= 0.0
  {
  }

  /** A normalized series is left alone by the constructor: normalizing is idempotent. */
  lemma NormalizeFixpoint(s: CSeries)
    requires Valid(s)
    ensures Normalize(s.tail, s.exp, s.ram, false) == Ok(s)
  {
    if s.tail != [] {
      TrimCanonical(s.exp);
      NewRamOfValid(s);
    }
  }

  /** With a canonical exponential part and a tail of valuation zero, the
      constructor only reduces the ramification. */
  lemma NormalizeUnfolded(tail: T.Tail, exp: Poly, ram: nat)
    requires T.ValidTail(tail) && tail != [] && T.MinOrd(tail) == 0 && Canonical(exp) && ram > 0
    ensures Normalize(tail, exp, ram, false) == Ok(ReduceRam(exp, tail, ram))
  {
    TrimCanonical(exp);
  }

  /** A normalized nonzero series already has the ramification its exponents need. */
  lemma NewRamOfValid(s: CSeries)
    requires Valid(s) && s.tail != []
    ensures NewRam(s.exp, s.tail, s.ram) == s.ram
  {
    var l := NewRam(s.exp, s.tail, s.ram);
    NewRamBelow(s.exp, s.tail, s.ram);
    var q := s.ram / l;
    assert 1 < q <= s.ram && Divides(q, s.ram) ==> !Multiples(s.exp, s.tail, q);
  }

  /** When the denominators allow a smaller ramification `l`, all exponents
      are multiples of `ram/l`, a proper divisor of `ram`. */
  lemma NewRamBelow(exp: Poly, tail: T.Tail, ram: nat)
    requires ram > 0
    ensures NewRam(exp, tail, ram) != ram ==>
      var q := ram / NewRam(exp, tail, ram);
      1 < q <= ram && Divides(q, ram) && Multiples(exp, tail, q)
  {
    var l := NewRam(exp, tail, ram);
    NewRamDivides(exp, tail, ram);
    NewRamCovers(exp, tail, ram);
    if l != ram {
      DensDivideMultiples(exp, ram, l);
      TailDensDivideMultiples(tail, ram, l);
      ProperCofactor(l, ram);
    }
  }

  /** `make_monic`: the leading coefficient's first nonzero coefficient becomes 1. */
  lemma MakeMonicIsMonic(s: CSeries)
    requires Valid(s) && s.tail != []
    ensures T.MonicDivisor(MakeMonic(s).tail) == 1.0
  {
    T.MonicAfterScale(s.tail);
  }

  /** The copying constructor: the series is taken over unchanged, divided by
      its leading coefficient's first nonzero coefficient when asked to. */
  function Copy(s: CSeries, makeMonic: bool): (r: CSeries)
    requires Valid(s)
    ensures Valid(r) && r.ram == s.ram && r.exp == s.exp && T.SameSupport(s.tail, r.tail)
    ensures !makeMonic ==> r == s
    ensures makeMonic && s.tail != [] ==> T.MonicDivisor(r.tail) == 1.0
  {
    if makeMonic && s.tail != [] then
      MakeMonicIsMonic(s);
      MakeMonic(s)
    else
      assert T.SameSupport(s.tail, s.tail);
      s
  }

  // ---------------------------------------------------------------------------
  // The constructor as the library runs it: scans and dictionary rebuilds

  /** `min(c.valuation() for c in p.coefficients())`, one coefficient at a time. */
  method MinValuation(tail: T.Tail) returns (v: nat)
    requires T.ValidTail(tail) && tail != []
    ensures v == T.MinOrd(tail)
  {
    var found := false;
    v := 0;
    for j := 0 to |tail|
      invariant found ==> exists i :: 0 <= i < j && !PS.IsZero(tail[i]) && PS.Ord(tail[i]) == v
      invariant found ==> forall i :: 0 <= i < j && !PS.IsZero(tail[i]) ==> v <= PS.Ord(tail[i])
      invariant !found ==> forall i :: 0 <= i < j ==> PS.IsZero(tail[i])
    {
      if !PS.IsZero(tail[j]) {
        var o := PS.Ord(tail[j]);
        if !found || o < v {
          v := o;
          found := true;
        }
      }
    }
    assert !PS.IsZero(tail[|tail| - 1]);
    var m := T.MinOrd(tail);
    var i1 :| 0 <= i1 < |tail| && !PS.IsZero(tail[i1]) && PS.Ord(tail[i1]) == v;
    var i2 :| 0 <= i2 < |tail| && !PS.IsZero(tail[i2]) && PS.Ord(tail[i2]) == m;
    assert v <= m && m <= v;
  }

  /** `lcm(acc, d_1, ..., d_n)` over a list of denominators. */
  method LcmList(acc: nat, ds: seq<nat>) returns (l: nat)
    requires acc > 0 && forall k :: 0 <= k < |ds| ==> ds[k] > 0
    ensures l == LcmFold(acc, ds)
  {
    l := acc;
    for k := 0 to |ds|
      invariant l > 0 && LcmFold(l, ds[k..]) == LcmFold(acc, ds)
    {
      assert ds[k..][1..] == ds[k + 1..];
      l := Lcm(l, ds[k]);
    }
  }

  /** The new keys `e/quo` of the exponents `e` of `p`. */
  function Keys(p: Poly, quo: nat): (ks: seq<nat>)
    requires quo > 0 && AllMultiples(p, quo)
    ensures |ks| == |Exponents(p)|
    ensures forall a, b :: 0 <= a < b < |ks| ==> ks[a] < ks[b]
    ensures forall k :: 0 <= k < |ks| ==> ks[k] < (if |p| == 0 then 0 else (|p| - 1) / quo + 1)
  {
    var es := Exponents(p);
    var ks := seq(|es|, k requires 0 <= k < |es| => es[k] / quo);
    KeysFacts(p, quo, es, ks);
    ks
  }

  lemma KeysFacts(p: Poly, quo: nat, es: seq<nat>, ks: seq<nat>)
    requires quo > 0 && AllMultiples(p, quo) && es == Exponents(p)
    requires |ks| == |es| && forall k :: 0 <= k < |ks| ==> ks[k] == es[k] / quo
    ensures forall k :: 0 <= k < |ks| ==> es[k] == ks[k] * quo
    ensures forall a, b :: 0 <= a < b < |ks| ==> ks[a] < ks[b]
    ensures forall k :: 0 <= k < |ks| ==> ks[k] < (if |p| == 0 then 0 else (|p| - 1) / quo + 1)
  {
    forall k | 0 <= k < |ks| ensures es[k] == ks[k] * quo {
      DividesIntro(quo, es[k]);
    }
    forall k | 0 <= k < |ks| ensures ks[k] < (if |p| == 0 then 0 else (|p| - 1) / quo + 1) {
      if ks[k] >= (|p| - 1) / quo + 1 {
        DeflateBeyond(ks[k], quo, |p|);
      }
    }
    ExponentsIncreasing(p, 0);
    forall a, b | 0 <= a < b < |ks| ensures ks[a] < ks[b] {
      MulMonotone(ks[b], ks[a], quo);
    }
  }

  /** Every exponent of `p` that is `i*quo` has key `i`. */
  lemma KeyOfExponent(p: Poly, quo: nat, i: nat)
    requires quo > 0 && AllMultiples(p, quo)
    ensures i * quo < |p| && p[i * quo] != 0.0 ==> i in Keys(p, quo)
  {
    var es, ks := Exponents(p), Keys(p, quo);
    KeysFacts(p, quo, es, ks);
    if i * quo < |p| && p[i * quo] != 0.0 {
      var k :| 0 <= k < |es| && es[k] == i * quo;
      MulCancel(ks[k], i, quo);
    }
  }

  /** The plan of the rebuilt dictionary `{e/quo: p[e]}`: `es` are the exponents of `p`,
      `ks` their keys `e/quo` and `n` the length of the deflation. */
  predicate KeyPlan(p: Poly, quo: nat, es: seq<nat>, ks: seq<nat>, n: nat) {
    quo > 0 && AllMultiples(p, quo) && es == Exponents(p) && ks == Keys(p, quo)
    && n == (if |p| == 0 then 0 else (|p| - 1) / quo + 1)
  }

  lemma KeysDeflate(p: Poly, quo: nat, es: seq<nat>, ks: seq<nat>, n: nat, r: Poly)
    requires KeyPlan(p, quo, es, ks, n) && |r| == n
    requires forall k :: 0 <= k < |ks| ==> r[ks[k]] == p[es[k]]
    requires forall i :: 0 <= i < n && i !in ks ==> r[i] == 0.0
    ensures r == Deflate(p, quo)
  {
    forall i | 0 <= i < |r| ensures r[i] == Coef(p, i * quo) {
      KeysDeflateAt(p, quo, es, ks, r, i);
    }
    var d := Deflate(p, quo);
    assert |d| == |r|;
    forall i | 0 <= i < |r| ensures r[i] == d[i] {
      assert Coef(d, i) == Coef(p, i * quo);
    }
  }

  lemma KeysDeflateAt(p: Poly, quo: nat, es: seq<nat>, ks: seq<nat>, r: Poly, i: nat)
    requires quo > 0 && AllMultiples(p, quo) && es == Exponents(p) && ks == Keys(p, quo)
    requires |r| == (if |p| == 0 then 0 else (|p| - 1) / quo + 1) && i < |r|
    requires forall k :: 0 <= k < |ks| ==> r[ks[k]] == p[es[k]]
    requires forall i :: 0 <= i < |r| && i !in ks ==> r[i] == 0.0
    ensures r[i] == Coef(p, i * quo)
  {
    KeysFacts(p, quo, es, ks);
    if i in ks {
      var k :| 0 <= k < |ks| && ks[k] == i;
    } else {
      KeyOfExponent(p, quo, i);
      MulMonotone(0, i, quo);
    }
  }

  /** Rebuilds `p(x^(1/quo))` from the dictionary `{e/quo: p[e]}` over the
      exponents `e` of `p` (the dictionary held as a dense coefficient list). */
  method Rekey(p: Poly, quo: nat) returns (r: Poly)
    requires quo > 0 && AllMultiples(p, quo)
    ensures r == Deflate(p, quo)
  {
    var es := Exponents(p);
    var ks := Keys(p, quo);
    var n := if |p| == 0 then 0 else (|p| - 1) / quo + 1;
    r := Place(p, quo, es, ks, n);
  }

  lemma KeysInRange(p: Poly, quo: nat, es: seq<nat>, ks: seq<nat>, n: nat)
    requires KeyPlan(p, quo, es, ks, n)
    ensures |ks| == |es|
    ensures forall k :: 0 <= k < |es| ==> es[k] < |p| && ks[k] < n
    ensures forall a, b :: 0 <= a < b < |ks| ==> ks[a] < ks[b]
  {
  }

  /** Starts from `n` zeros and writes the coefficient `p[es[k]]` at index
      `ks[k]`, key after key. */
  method Place(p: Poly, quo: nat, es: seq<nat>, ks: seq<nat>, n: nat) returns (r: Poly)
    requires KeyPlan(p, quo, es, ks, n)
    ensures r == Deflate(p, quo)
  {
    KeysInRange(p, quo, es, ks, n);
    r := seq(n, i => 0.0);
    for k := 0 to |es|
      invariant |r| == n
      invariant forall k' :: 0 <= k' < k ==> r[ks[k']] == p[es[k']]
      invariant forall i :: 0 <= i < n && i !in ks[..k] ==> r[i] == 0.0
    {
      var next := r[ks[k] := p[es[k]]];
      PlaceStep(p, es, ks, r, k, next);
      r := next;
    }
    assert ks[..|es|] == ks;
    KeysDeflate(p, quo, es, ks, n, r);
  }

  /** Writing the `k`-th coefficient at its key keeps every earlier key's
      coefficient (the keys are distinct) and zeros elsewhere. */
  lemma PlaceStep(p: Poly, es: seq<nat>, ks: seq<nat>, r: Poly, k: nat, next: Poly)
    requires k < |ks| == |es| && es[k] < |p| && ks[k] < |r| && next == r[ks[k] := p[es[k]]]
    requires forall a, b :: 0 <= a < b < |ks| ==> ks[a] < ks[b]
    requires forall k' :: 0 <= k' < k ==> ks[k'] < |r| && es[k'] < |p| && r[ks[k']] == p[es[k']]
    requires forall i :: 0 <= i < |r| && i !in ks[..k] ==> r[i] == 0.0
    ensures forall k' :: 0 <= k' < k + 1 ==> next[ks[k']] == p[es[k']]
    ensures forall i :: 0 <= i < |next| && i !in ks[..k + 1] ==> next[i] == 0.0
  {
    assert ks[..k + 1] == ks[..k] + [ks[k]];
  }

  /** `new_ram`: the lcm over the exponential part, then, while it is below
      `ram`, over the tail coefficients one after the other. */
  method ComputeNewRam(exp: Poly, tail: T.Tail, ram: nat) returns (newRam: nat)
    requires ram > 0
    ensures newRam == NewRam(exp, tail, ram)
  {
    var lE := LcmList(1, Dens(exp, ram));
    newRam := lE;
    if newRam < ram {
      for j := 0 to |tail|
        invariant newRam > 0 && TailLcm(newRam, tail[j..], ram) == TailLcm(lE, tail, ram)
      {
        assert tail[j..][1..] == tail[j + 1..];
        if !PS.IsZero(tail[j]) {
          newRam := LcmList(newRam, Dens(tail[j].c, ram));
        }
      }
    }
  }

  /** Rewrites the exponents for the smaller ramification `newRam`. */
  method Rescale(exp: Poly, tail: T.Tail, ram: nat, newRam: nat) returns (s: CSeries)
    requires ram > 0 && Canonical(exp) && T.ValidTail(tail)
    requires newRam == NewRam(exp, tail, ram)
    ensures s == ReduceRam(exp, tail, ram)
  {
    if newRam == ram {
      return CSeries(ram, exp, tail);
    }
    NewRamDivides(exp, tail, ram);
    NewRamCovers(exp, tail, ram);
    DensDivideMultiples(exp, ram, newRam);
    TailDensDivideMultiples(tail, ram, newRam);
    var quo := ram / newRam;
    DividesIntro(newRam, ram);
    PosCofactor(newRam, quo);
    var e' := Rekey(exp, quo);
    var p': T.Tail := [];
    for j := 0 to |tail|
      invariant |p'| == j && forall i :: 0 <= i < j ==> p'[i] == PS.Deflate(tail[i], quo)
    {
      var c := Rekey(tail[j].c, quo);
      p' := p' + [PS.Series(c, PS.Inf)];
    }
    T.DeflatePointwise(tail, quo, p');
    s := CSeries(newRam, e', p');
  }

  /** The constructor as the library runs it. */
  method Construct(tail: T.Tail, exp: Poly, ram: int, makeMonic: bool) returns (r: Result<CSeries>)
    requires T.ValidTail(tail)
    ensures r == Normalize(tail, exp, ram, makeMonic)
  {
    if ram <= 0 {
      return Err(ValueError("ramification must be a positive integer"));
    }
    if tail == [] {
      return Ok(Zero);
    }
    var e := Trim(exp);
    var p := tail;
    var v := MinValuation(tail);
    if v != 0 {
      T.ShiftDownMinOrd(tail);
      e := AddConstant(e, v as real / ram as real);
      p := T.ShiftDown(tail, v);
    }
    assert (e, p) == FoldValuation(tail, Trim(exp), ram);
    var newRam := ComputeNewRam(e, p, ram);
    var s := Rescale(e, p, ram, newRam);
    ReduceRamValid(e, p, ram);
    if makeMonic {
      s := MakeMonic(s);
    }
    return Ok(s);
  }
}
