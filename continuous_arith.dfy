/** The arithmetic of continuous generalized series: rewriting a series for
    a larger ramification, products, negation, sums of similar series and
    inverses. Each operation brings its operands to a common ramification
    and hands the result to the normalizing constructor. */
module ContinuousArith {
  import opened Numbers
  import opened Polynomials
  import PS = PowerSeries
  import T = Tails
  import opened Outcomes
  import opened Continuous
  import opened ContinuousParts

  const MultipleMessage: string := "s must be a positive integer multiple of the ramification"

  // ---------------------------------------------------------------------------
  // Rewriting for a larger ramification

  /** `__inflate(s)`: the exponential part and tail of `a` written for
      ramification `s`, substituting `x^(s/ram)` for `x` in both. A
      nonpositive `s` is refused; for an `s` that is not a multiple of the
      ramification the substitution of a fractional power fails in the host
      library. */
  function InflateTo(a: CSeries, s: int): (r: Result<(Poly, T.Tail)>)
    requires Valid(a)
    ensures s == a.ram ==> r == Ok((a.exp, a.tail))
    ensures s != a.ram && s <= 0 ==> r == Err(ValueError(MultipleMessage))
    ensures s > 0 ==> (r.Ok? <==> Divides(a.ram, s))
    ensures r.Ok? ==>
      Canonical(r.value.0) && T.ValidTail(r.value.1) && |r.value.1| == |a.tail| &&
      Coef(r.value.0, 0) == Coef(a.exp, 0)
  {
    if s == a.ram then Ok((a.exp, a.tail))
    else if s <= 0 then Err(ValueError(MultipleMessage))
    else if s % a.ram != 0 then Err(HostError("x^(s/r) with s/r not an integer"))
    else
      var quo := s / a.ram;
      DividesIntro(a.ram, s);
      PosCofactor(a.ram, quo);
      Ok((Inflate(a.exp, quo), T.Inflate(a.tail, quo)))
  }

  /** Inflating a polynomial scales each exponent and the ramification
      alike, so the denominators of the exponents stay the same. */
  lemma DensInflate(p: Poly, k: nat, r: nat)
    requires k > 0 && r > 0
    ensures k * r > 0 && SameElements(Dens(p, r), Dens(Inflate(p, k), k * r))
  {
    MulPos(k, r);
    var xs, ys := Dens(p, r), Dens(Inflate(p, k), k * r);
    forall i | 0 <= i < |xs| ensures xs[i] in ys {
      DenOfInflated(p, k, r, Exponents(p)[i]);
    }
    forall i | 0 <= i < |ys| ensures ys[i] in xs {
      DenOfDeflated(p, k, r, Exponents(Inflate(p, k))[i]);
    }
  }

  lemma DenOfInflated(p: Poly, k: nat, r: nat, e: nat)
    requires k > 0 && r > 0 && e < |p| && p[e] != 0.0
    ensures k * r > 0 && Den(e, r) in Dens(Inflate(p, k), k * r)
  {
    MulPos(k, r);
    var P := Inflate(p, k);
    InflateAt(p, k, e);
    assert Coef(P, k * e) == p[e];
    var fs := Exponents(P);
    var m :| 0 <= m < |fs| && fs[m] == k * e;
    DenScaled(e, r, k);
    assert Dens(P, k * r)[m] == Den(e, r);
  }

  lemma DenOfDeflated(p: Poly, k: nat, r: nat, f: nat)
    requires k > 0 && r > 0 && f < |Inflate(p, k)| && Inflate(p, k)[f] != 0.0
    ensures k * r > 0 && Den(f, k * r) in Dens(p, r)
  {
    MulPos(k, r);
    var P := Inflate(p, k);
    assert Coef(P, f) == P[f];
    assert f % k == 0;
    DividesIntro(k, f);
    var e := f / k;
    InflateAt(p, k, e);
    assert Coef(p, e) == P[f];
    var es := Exponents(p);
    var m :| 0 <= m < |es| && es[m] == e;
    DenScaled(e, r, k);
    assert Dens(p, r)[m] == Den(f, k * r);
  }

  /** The lcm over the tail only depends on the denominators of each coefficient. */
  lemma {:induction false} TailLcmSame(acc: nat, xs: seq<PS.Series>, r: nat, ys: seq<PS.Series>, rr: nat)
    requires acc > 0 && r > 0 && rr > 0 && |xs| == |ys|
    requires forall j :: 0 <= j < |xs| ==> SameElements(Dens(xs[j].c, r), Dens(ys[j].c, rr))
    ensures TailLcm(acc, xs, r) == TailLcm(acc, ys, rr)
    decreases |xs|
  {
    if xs != [] {
      LcmFoldSameElements(acc, Dens(xs[0].c, r), Dens(ys[0].c, rr));
      forall j | 0 <= j < |xs[1..]| ensures SameElements(Dens(xs[1..][j].c, r), Dens(ys[1..][j].c, rr)) {
        assert xs[1..][j] == xs[j + 1] && ys[1..][j] == ys[j + 1];
      }
      TailLcmSame(LcmFold(acc, Dens(xs[0].c, r)), xs[1..], r, ys[1..], rr);
    }
  }

  /** The lcm over a tail that needs no more than `r` is `r`. */
  lemma TailLcmOfRam(tail: seq<PS.Series>, r: nat)
    requires r > 0
    ensures TailLcm(r, tail, r) == r
  {
    TailLcmMultiple(r, tail, r);
    assert TailDensDivide(tail, r, r);
    TailLcmLeast(r, tail, r, r);
    DividesAntisym(r, TailLcm(r, tail, r));
  }

  /** After inflating by `k > 1`, the exponents still need exactly the old ramification. */
  lemma NewRamInflate(exp: Poly, tail: T.Tail, r: nat, k: nat)
    requires Canonical(exp) && T.ValidTail(tail) && r > 0 && k > 1
    requires NewRam(exp, tail, r) == r
    ensures k * r > 0 && NewRam(Inflate(exp, k), T.Inflate(tail, k), k * r) == r
  {
    var E, Tl := Inflate(exp, k), T.Inflate(tail, k);
    DensInflate(exp, k, r);
    LcmFoldSameElements(1, Dens(exp, r), Dens(E, k * r));
    var lE := LcmFold(1, Dens(exp, r));
    forall j | 0 <= j < |tail| ensures SameElements(Dens(tail[j].c, r), Dens(Tl[j].c, k * r)) {
      assert Tl[j].c == Inflate(tail[j].c, k);
      DensInflate(tail[j].c, k, r);
    }
    MulStrict(1, k, r);
    if lE < r {
      TailLcmSame(lE, tail, r, Tl, k * r);
    } else {
      TailLcmSame(r, tail, r, Tl, k * r);
      TailLcmOfRam(tail, r);
    }
  }

  /** Inflating keeps a coefficient of valuation zero. */
  lemma InflateMinOrdZero(tail: T.Tail, k: nat)
    requires T.ValidTail(tail) && tail != [] && T.MinOrd(tail) == 0 && k > 0
    ensures T.MinOrd(T.Inflate(tail, k)) == 0
  {
    var Tl := T.Inflate(tail, k);
    var j0 :| 0 <= j0 < |tail| && !PS.IsZero(tail[j0]) && PS.Ord(tail[j0]) == 0;
    var s := Tl[j0];
    InflateAt(tail[j0].c, k, 0);
    assert Coef(s.c, 0) == Coef(tail[j0].c, 0);
    OrdZero(s);
  }

  /** A series with a nonzero constant term has valuation zero. */
  lemma OrdZero(s: PS.Series)
    requires PS.Valid(s) && Coef(s.c, 0) != 0.0
    ensures !PS.IsZero(s) && PS.Ord(s) == 0
  {
  }

  /** What `__inflate(s)` promises: handing its result to the constructor
      with ramification `s` gives the series back. The tail comes back with
      the precision of exact series, so it is equal as the library compares. */
  lemma InflateRoundTrip(a: CSeries, k: nat)
    requires Valid(a) && k > 0
    ensures k * a.ram > 0 && InflateTo(a, k * a.ram).Ok?
    ensures var b := Normalize(InflateTo(a, k * a.ram).value.1, InflateTo(a, k * a.ram).value.0, k * a.ram, false);
      b.Ok? && Equal(b.value, a)
  {
    MulPos(k, a.ram);
    DividesWitness(a.ram, k * a.ram, k);
    if k == 1 {
      NormalizeFixpoint(a);
    } else if a.tail != [] {
      var E, Tl := Inflate(a.exp, k), T.Inflate(a.tail, k);
      InflateToMultiple(a, k);
      InflateMinOrdZero(a.tail, k);
      NormalizeUnfolded(Tl, E, k * a.ram);
      ReduceInflated(a, k);
    }
  }

  /** For a proper multiple of the ramification, `__inflate` substitutes an integer power. */
  lemma InflateToMultiple(a: CSeries, k: nat)
    requires Valid(a) && k > 1
    ensures k * a.ram > 0 && InflateTo(a, k * a.ram) == Ok((Inflate(a.exp, k), T.Inflate(a.tail, k)))
  {
    MulStrict(1, k, a.ram);
    DividesWitness(a.ram, k * a.ram, k);
  }

  /** The ramification reduction of the constructor undoes the inflation. */
  lemma ReduceInflated(a: CSeries, k: nat)
    requires Valid(a) && a.tail != [] && k > 1
    ensures k * a.ram > 0
    ensures var s := ReduceRam(Inflate(a.exp, k), T.Inflate(a.tail, k), k * a.ram);
      s.ram == a.ram && s.exp == a.exp && T.Equal(s.tail, a.tail)
  {
    MulPos(k, a.ram);
    DividesWitness(a.ram, k * a.ram, k);
    var E, Tl := Inflate(a.exp, k), T.Inflate(a.tail, k);
    NewRamOfValid(a);
    NewRamInflate(a.exp, a.tail, a.ram, k);
    MulStrict(1, k, a.ram);
    var s := ReduceRam(E, Tl, k * a.ram);
    DeflateInflate(a.exp, k);
    forall j | 0 <= j < |a.tail| ensures PS.Equal(s.tail[j], a.tail[j]) {
      DeflateInflate(a.tail[j].c, k);
    }
  }

  // ---------------------------------------------------------------------------
  // Bringing two series to their common ramification

  /** Two operands written for their common ramification `s`. */
  datatype Common = Common(s: nat, ae: Poly, at: T.Tail, be: Poly, bt: T.Tail)

  /** `s = lcm(a.ram, b.ram)` and both operands rewritten by `__inflate(s)`. */
  function Unify(a: CSeries, b: CSeries): (c: Common)
    requires Valid(a) && Valid(b)
    ensures c.s == Lcm(a.ram, b.ram) && c.s > 0
    ensures InflateTo(a, c.s) == Ok((c.ae, c.at)) && InflateTo(b, c.s) == Ok((c.be, c.bt))
    ensures Canonical(c.ae) && Canonical(c.be) && T.ValidTail(c.at) && T.ValidTail(c.bt)
    ensures |c.at| == |a.tail| && |c.bt| == |b.tail|
    ensures Coef(c.ae, 0) == Coef(a.exp, 0) && Coef(c.be, 0) == Coef(b.exp, 0)
  {
    var s := Lcm(a.ram, b.ram);
    LcmMultiple(a.ram, b.ram);
    var (ae, at) := InflateTo(a, s).value;
    var (be, bt) := InflateTo(b, s).value;
    Common(s, ae, at, be, bt)
  }

  /** Unifying in the other order swaps the operands. */
  lemma UnifySwap(a: CSeries, b: CSeries)
    requires Valid(a) && Valid(b)
    ensures var c, d := Unify(a, b), Unify(b, a);
      d == Common(c.s, c.be, c.bt, c.ae, c.at)
  {
    LcmComm(a.ram, b.ram);
  }

  // ---------------------------------------------------------------------------
  // Products

  /** `_mul_`: both factors rewritten for the lcm of the ramifications; the
      exponential parts add and the tails multiply. */
  function Mul(a: CSeries, b: CSeries): (r: CSeries)
    requires Valid(a) && Valid(b)
    ensures Valid(r) && Divides(r.ram, Lcm(a.ram, b.ram))
    ensures a.tail == [] || b.tail == [] ==> r == Zero
    ensures var c := Unify(a, b); var t := T.Mul(c.at, c.bt);
      t != [] ==> Represents(r, t, Polynomials.Add(c.ae, c.be), c.s)
  {
    var c := Unify(a, b);
    Normalize(T.Mul(c.at, c.bt), Polynomials.Add(c.ae, c.be), c.s, false).value
  }

  /** The product does not depend on the order of the factors. */
  lemma MulComm(a: CSeries, b: CSeries)
    requires Valid(a) && Valid(b)
    ensures Mul(a, b) == Mul(b, a)
  {
    var c, d := Unify(a, b), Unify(b, a);
    UnifySwap(a, b);
    T.MulComm(c.at, c.bt);
    Polynomials.AddComm(c.ae, c.be);
    assert T.Mul(d.at, d.bt) == T.Mul(c.at, c.bt) && Polynomials.Add(d.ae, d.be) == Polynomials.Add(c.ae, c.be);
  }

  /** Rewritten for a multiple of its ramification, a nonzero series still
      has a tail coefficient of valuation zero. */
  lemma InflatedMinOrd(a: CSeries, s: nat)
    requires Valid(a) && a.tail != [] && s > 0 && Divides(a.ram, s)
    ensures InflateTo(a, s).Ok? && T.MinOrd(InflateTo(a, s).value.1) == 0
  {
    if s != a.ram {
      DividesIntro(a.ram, s);
      PosCofactor(a.ram, s / a.ram);
      InflateMinOrdZero(a.tail, s / a.ram);
    }
  }

  /** For factors without logarithms the orders add. */
  lemma MulOrder(a: CSeries, b: CSeries)
    requires Valid(a) && Valid(b) && |a.tail| == 1 && |b.tail| == 1
    ensures |Mul(a, b).tail| == 1
    ensures Order(Mul(a, b)) == Some(Coef(a.exp, 0) + Coef(b.exp, 0))
  {
    var c := Unify(a, b);
    LcmMultiple(a.ram, b.ram);
    InflatedMinOrd(a, c.s);
    InflatedMinOrd(b, c.s);
    T.MulUnits(c.at, c.bt);
    var t, e := T.Mul(c.at, c.bt), Polynomials.Add(c.ae, c.be);
    assert Mul(a, b) == Normalize(t, e, c.s, false).value;
    NormalizedOrder(t, e, c.s);
    assert Coef(e, 0) == Coef(a.exp, 0) + Coef(b.exp, 0);
  }

  /** Rewriting the one for any ramification changes nothing. */
  lemma InflateOne(s: nat)
    requires s > 0
    ensures InflateTo(One, s) == Ok(([], T.One))
  {
    DividesWitness(1, s, s);
    if s != 1 {
      T.InflateOne(s);
    }
  }

  /** The one is neutral for the product, on both sides. */
  lemma MulOne(a: CSeries)
    requires Valid(a)
    ensures Mul(a, One) == a && Mul(One, a) == a
  {
    DividesWitness(1, a.ram, a.ram);
    LcmOfDivisor(1, a.ram);
    LcmComm(1, a.ram);
    InflateOne(a.ram);
    CanonicalExt(Polynomials.Add(a.exp, []), a.exp);
    CanonicalExt(Polynomials.Add([], a.exp), a.exp);
    T.MulOne(a.tail);
    T.OneMul(a.tail);
    NormalizeFixpoint(a);
  }

  // ---------------------------------------------------------------------------
  // Negation

  /** `_neg_`: the tail negated; the exponential part and the ramification
      stay, and the constructor has nothing to normalize. */
  function Neg(a: CSeries): (r: CSeries)
    requires Valid(a)
    ensures Valid(r) && r.ram == a.ram && r.exp == a.exp && r.tail == T.Neg(a.tail)
  {
    T.NegSupport(a.tail);
    SameSupportValid(a, T.Neg(a.tail));
    NormalizeFixpoint(CSeries(a.ram, a.exp, T.Neg(a.tail)));
    Normalize(T.Neg(a.tail), a.exp, a.ram, false).value
  }

  /** Negation is an involution. */
  lemma NegNeg(a: CSeries)
    requires Valid(a)
    ensures Neg(Neg(a)) == a
  {
    T.NegNeg(a.tail);
  }

  // ---------------------------------------------------------------------------
  // Similarity and sums

  /** The reference set of `similar`: the integers or the rationals. */
  datatype Reference = ZZ | QQ

  /** A constant of the coefficient field lies in the reference set. */
  predicate InReference(x: real, ref: Reference) {
    ref == QQ || IsInteger(x)
  }

  /** `s*(Ae - Be)`: the difference of the exponential parts in units of `1/s`. */
  function ScaledDifference(c: Common): Poly {
    Scale(c.s as real, Sub(c.ae, c.be))
  }

  /** `similar(b, reference)`: rewritten for the lcm `s` of the
      ramifications, `s` times the difference of the exponential parts is a
      constant of the reference set. */
  predicate Similar(a: CSeries, b: CSeries, ref: Reference)
    requires Valid(a) && Valid(b)
  {
    var d := ScaledDifference(Unify(a, b));
    |d| <= 1 && InReference(Coef(d, 0), ref)
  }

  /** Similarity is symmetric. */
  lemma SimilarSymmetric(a: CSeries, b: CSeries, ref: Reference)
    requires Valid(a) && Valid(b)
    ensures Similar(a, b, ref) <==> Similar(b, a, ref)
  {
    ScaledDifferenceSwap(a, b);
    NegatedInReference(ScaledDifference(Unify(a, b)), ref);
  }

  /** Swapping the operands negates their scaled difference. */
  lemma ScaledDifferenceSwap(a: CSeries, b: CSeries)
    requires Valid(a) && Valid(b)
    ensures ScaledDifference(Unify(b, a)) == Polynomials.Neg(ScaledDifference(Unify(a, b)))
  {
    var c := Unify(a, b);
    UnifySwap(a, b);
    ScaledSubSwap(c.s as real, c.ae, c.be);
  }

  /** `k*(q - p)` is `-(k*(p - q))`. */
  lemma ScaledSubSwap(k: real, p: Poly, q: Poly)
    ensures Scale(k, Sub(q, p)) == Polynomials.Neg(Scale(k, Sub(p, q)))
  {
    CanonicalExt(Sub(q, p), Polynomials.Neg(Sub(p, q)));
    ScaleNeg(k, Sub(p, q));
  }

  /** A constant lies in the reference set exactly when its negation does. */
  lemma NegatedInReference(y: Poly, ref: Reference)
    ensures (|y| <= 1 && InReference(Coef(y, 0), ref)) <==>
      (|Polynomials.Neg(y)| <= 1 && InReference(Coef(Polynomials.Neg(y), 0), ref))
  {
    NegInteger(Coef(y, 0));
  }

  /** Every series is similar to itself. */
  lemma SimilarReflexive(a: CSeries, ref: Reference)
    requires Valid(a)
    ensures Similar(a, a, ref)
  {
    LcmOfDivisor(a.ram, a.ram) by {
      DividesWitness(a.ram, a.ram, 1);
    }
    CanonicalExt(Sub(a.exp, a.exp), []);
    assert (0.0).Floor as real == 0.0;
  }

  lemma NegInteger(x: real)
    ensures IsInteger(x) <==> IsInteger(-x)
  {
    if IsInteger(x) {
      assert (-x).Floor == -(x.Floor);
    }
    if IsInteger(-x) {
      assert x.Floor == -((-x).Floor);
    }
  }

  const SimilarMessage: string := "can only add generalized series if they are \"similar\"."

  /** `_add_`: a zero operand gives the other one; otherwise the operands
      must be similar. Rewritten for the common ramification `s`, the one
      whose exponent is larger by the integer `d/s` has its tail multiplied
      by `x^d` and added to the other's; the smaller exponential part is kept. */
  function Add(a: CSeries, b: CSeries): (r: Result<CSeries>)
    requires Valid(a) && Valid(b)
    ensures a.tail == [] ==> r == Ok(b)
    ensures a.tail != [] && b.tail == [] ==> r == Ok(a)
    ensures a.tail != [] && b.tail != [] && !Similar(a, b, ZZ) ==> r == Err(ValueError(SimilarMessage))
    ensures a.tail != [] && b.tail != [] && Similar(a, b, ZZ) ==>
      r.Ok? && Valid(r.value) && Divides(r.value.ram, Lcm(a.ram, b.ram))
    ensures r.Ok? && r.value.tail != [] ==>
      Coef(r.value.exp, 0) >= Coef(a.exp, 0) || Coef(r.value.exp, 0) >= Coef(b.exp, 0)
    ensures a.tail != [] && b.tail != [] && Similar(a, b, ZZ) && Coef(a.exp, 0) != Coef(b.exp, 0) ==>
      Order(r.value) == Some(if Coef(a.exp, 0) < Coef(b.exp, 0) then Coef(a.exp, 0) else Coef(b.exp, 0))
  {
    if a.tail == [] then Ok(b)
    else if b.tail == [] then Ok(a)
    else if !Similar(a, b, ZZ) then Err(ValueError(SimilarMessage))
    else if Coef(a.exp, 0) != Coef(b.exp, 0) then
      SimilarSumOrder(a, b);
      Ok(SimilarSum(a, b))
    else Ok(SimilarSum(a, b))
  }

  /** The sum of similar nonzero operands is the constructor applied, at the
      common ramification `s`, to the smaller exponential part and the tail
      `t + x^d*u`, where `t` is the tail of that operand, `u` the other's and
      `d/s` the difference of the exponential parts. */
  lemma AddTails(a: CSeries, b: CSeries)
    requires Valid(a) && Valid(b) && a.tail != [] && b.tail != [] && Similar(a, b, ZZ)
    ensures Add(a, b).Ok?
    ensures var c := Unify(a, b); var d := Coef(ScaledDifference(c), 0).Floor;
      d < 0 && ShiftedTail(c.at, c.bt, Abs(d)) != [] ==> Represents(Add(a, b).value, ShiftedTail(c.at, c.bt, Abs(d)), c.ae, c.s)
    ensures var c := Unify(a, b); var d := Coef(ScaledDifference(c), 0).Floor;
      d >= 0 && ShiftedTail(c.bt, c.at, Abs(d)) != [] ==> Represents(Add(a, b).value, ShiftedTail(c.bt, c.at, Abs(d)), c.be, c.s)
  {
    var c := Unify(a, b);
    AddSimilar(a, b);
    SumAtFloorTails(c, Coef(ScaledDifference(c), 0).Floor);
  }

  /** Similar nonzero operands are summed at their common ramification. */
  lemma AddSimilar(a: CSeries, b: CSeries)
    requires Valid(a) && Valid(b) && a.tail != [] && b.tail != [] && Similar(a, b, ZZ)
    ensures Add(a, b) == Ok(SumAtFloor(Unify(a, b), Coef(ScaledDifference(Unify(a, b)), 0).Floor))
  {
  }

  /** Similar nonzero operands of different orders: the sum keeps the smaller order. */
  lemma SimilarSumOrder(a: CSeries, b: CSeries)
    requires Valid(a) && Valid(b) && a.tail != [] && b.tail != [] && Similar(a, b, ZZ)
    requires Coef(a.exp, 0) != Coef(b.exp, 0)
    ensures Order(SimilarSum(a, b)) == Some(if Coef(a.exp, 0) < Coef(b.exp, 0) then Coef(a.exp, 0) else Coef(b.exp, 0))
  {
    var c := Unify(a, b);
    LcmMultiple(a.ram, b.ram);
    InflatedMinOrd(a, c.s);
    InflatedMinOrd(b, c.s);
    SumAlignedOrder(c);
  }

  /** The sum of two similar operands, rewritten for the lcm of their ramifications. */
  function SimilarSum(a: CSeries, b: CSeries): (r: CSeries)
    requires Valid(a) && Valid(b)
    ensures Valid(r) && Divides(r.ram, Lcm(a.ram, b.ram))
    ensures r.tail != [] ==> Coef(r.exp, 0) >= Coef(a.exp, 0) || Coef(r.exp, 0) >= Coef(b.exp, 0)
  {
    SumAligned(Unify(a, b))
  }

  /** Two operands rewritten for a common ramification `s`, each with a
      canonical exponential part and a valid tail. */
  predicate Aligned(c: Common) {
    c.s > 0 && Canonical(c.ae) && Canonical(c.be) && T.ValidTail(c.at) && T.ValidTail(c.bt)
  }

  /** The operands in the other order. */
  function Swap(c: Common): (r: Common)
    ensures Aligned(c) ==> Aligned(r)
  {
    Common(c.s, c.be, c.bt, c.ae, c.at)
  }

  /** The sum of two aligned operands: the one whose exponent is larger by
      `d/s` has its tail multiplied by `x^d`, and the smaller exponential part
      is kept. */
  function SumAligned(c: Common): (r: CSeries)
    requires Aligned(c)
    ensures Valid(r) && Divides(r.ram, c.s)
    ensures r.tail != [] ==> Coef(r.exp, 0) >= Coef(c.ae, 0) || Coef(r.exp, 0) >= Coef(c.be, 0)
  {
    SumAtFloor(c, Coef(ScaledDifference(c), 0).Floor)
  }

  /** The aligned sum when `d` is the floor of the scaled difference: the
      operand with the larger exponent has its tail shifted by `|d|`. */
  function SumAtFloor(c: Common, d: int): (r: CSeries)
    requires Aligned(c)
    ensures Valid(r) && Divides(r.ram, c.s)
    ensures r.tail != [] ==> Coef(r.exp, 0) >= Coef(c.ae, 0) || Coef(r.exp, 0) >= Coef(c.be, 0)
  {
    if d < 0 then ShiftedSum(c.ae, c.at, c.bt, c.s, Abs(d))
    else ShiftedSum(c.be, c.bt, c.at, c.s, Abs(d))
  }

  /** The aligned sum at floor `d` is the constructor applied to the smaller
      exponential part and `t + x^|d|*u`. */
  lemma SumAtFloorTails(c: Common, d: int)
    requires Aligned(c)
    ensures d < 0 && ShiftedTail(c.at, c.bt, Abs(d)) != [] ==> Represents(SumAtFloor(c, d), ShiftedTail(c.at, c.bt, Abs(d)), c.ae, c.s)
    ensures d >= 0 && ShiftedTail(c.bt, c.at, Abs(d)) != [] ==> Represents(SumAtFloor(c, d), ShiftedTail(c.bt, c.at, Abs(d)), c.be, c.s)
  {
    if d < 0 {
      assert SumAtFloor(c, d) == ShiftedSum(c.ae, c.at, c.bt, c.s, Abs(d));
    } else {
      assert SumAtFloor(c, d) == ShiftedSum(c.be, c.bt, c.at, c.s, Abs(d));
    }
  }

  /** Aligned operands whose orders differ by an integer multiple of `1/s`:
      the sum keeps the smaller order. */
  lemma SumAlignedOrder(c: Common)
    requires Aligned(c) && IsInteger(Coef(ScaledDifference(c), 0)) && Coef(c.ae, 0) != Coef(c.be, 0)
    requires c.at != [] && T.MinOrd(c.at) == 0 && c.bt != [] && T.MinOrd(c.bt) == 0
    ensures Order(SumAligned(c)) == Some(if Coef(c.ae, 0) < Coef(c.be, 0) then Coef(c.ae, 0) else Coef(c.be, 0))
  {
    var x := Coef(ScaledDifference(c), 0);
    var d := x.Floor;
    ScaledDifferenceSign(c);
    FloorSign(x);
    assert SumAligned(c) == SumAtFloor(c, d);
    if Coef(c.ae, 0) < Coef(c.be, 0) {
      assert d < 0;
      assert SumAtFloor(c, d) == ShiftedSum(c.ae, c.at, c.bt, c.s, Abs(d));
    } else {
      assert d > 0;
      assert SumAtFloor(c, d) == ShiftedSum(c.be, c.bt, c.at, c.s, Abs(d));
    }
  }

  /** The scaled difference has the sign of the difference of the orders. */
  lemma ScaledDifferenceSign(c: Common)
    requires c.s > 0
    ensures Coef(c.ae, 0) < Coef(c.be, 0) ==> Coef(ScaledDifference(c), 0) < 0.0
    ensures Coef(c.ae, 0) > Coef(c.be, 0) ==> Coef(ScaledDifference(c), 0) > 0.0
  {
    ScaleAt(c.s as real, Sub(c.ae, c.be), 0);
    ProductSign(c.s as real, Coef(Sub(c.ae, c.be), 0));
  }

  lemma FloorSign(x: real)
    requires IsInteger(x)
    ensures x < 0.0 ==> x.Floor < 0
    ensures x > 0.0 ==> x.Floor > 0
  {
  }

  lemma ProductSign(k: real, y: real)
    requires k > 0.0
    ensures y < 0.0 ==> k * y < 0.0
    ensures y > 0.0 ==> k * y > 0.0
  {
  }

  /** Swapping the operands and negating a nonzero floor gives the same sum. */
  lemma SumAtFloorSwap(c: Common, d: int)
    requires Aligned(c) && d != 0
    ensures SumAtFloor(Swap(c), -d) == SumAtFloor(c, d)
  {
    assert Abs(-d) == Abs(d);
  }

  /** `t + x^d*u`. */
  function ShiftedTail(t: T.Tail, u: T.Tail, d: nat): (r: T.Tail)
    requires T.ValidTail(t) && T.ValidTail(u)
    ensures T.ValidTail(r)
  {
    T.Add(T.MulSeries(PS.Exact(Monomial(1.0, d)), u), t)
  }

  /** `lo` with tail `t + x^d*u`: the sum of two operands over the same
      ramification `s` whose exponential parts differ by `d/s`, written with
      the smaller one. When `d > 0` the added terms cannot cancel the
      coefficient of valuation zero of `t`, so the order is that of `lo`. */
  function ShiftedSum(lo: Poly, t: T.Tail, u: T.Tail, s: nat, d: nat): (r: CSeries)
    requires Canonical(lo) && T.ValidTail(t) && T.ValidTail(u) && s > 0
    ensures Valid(r) && Divides(r.ram, s)
    ensures r.tail != [] ==> Coef(r.exp, 0) >= Coef(lo, 0)
    ensures ShiftedTail(t, u, d) != [] ==> Represents(r, ShiftedTail(t, u, d), lo, s)
    ensures d > 0 && t != [] && T.MinOrd(t) == 0 ==> Order(r) == Some(Coef(lo, 0))
  {
    var sum := ShiftedTail(t, u, d);
    NormalizeOrderAbove(sum, lo, s);
    if d > 0 && t != [] && T.MinOrd(t) == 0 then
      T.ShiftedAddMinOrd(t, u, d);
      NormalizedOrder(sum, lo, s);
      Normalize(sum, lo, s, false).value
    else
      Normalize(sum, lo, s, false).value
  }

  /** `x^0` as an exact series is the one. */
  lemma ExactMonomialZero()
    ensures PS.Exact(Monomial(1.0, 0)) == PS.One
  {
    CanonicalExt(PS.Exact(Monomial(1.0, 0)).c, [1.0]);
  }

  /** A scaled difference that is zero means equal exponential parts. */
  lemma SameExponent(c: Common)
    requires Canonical(c.ae) && Canonical(c.be) && c.s > 0
    requires |ScaledDifference(c)| <= 1 && Coef(ScaledDifference(c), 0) == 0.0
    ensures c.ae == c.be
  {
    var D := ScaledDifference(c);
    assert D == [];
    forall i | 0 <= i ensures Coef(c.ae, i) == Coef(c.be, i) {
      ZeroProduct(c.s as real, Coef(Sub(c.ae, c.be), i));
    }
    CanonicalExt(c.ae, c.be);
  }

  lemma ZeroProduct(k: real, y: real)
    requires k != 0.0 && k * y == 0.0
    ensures y == 0.0
  {
  }

  /** The floor of the negation of an integer is the negated floor. */
  lemma FloorNeg(x: real)
    requires IsInteger(x)
    ensures (-x).Floor == -x.Floor
  {
    assert -x == (-x.Floor) as real;
  }

  /** A series plus its negation is zero. */
  lemma AddNeg(a: CSeries)
    requires Valid(a)
    ensures Add(a, Neg(a)) == Ok(Zero)
  {
    if a.tail != [] {
      var b := Neg(a);
      LcmOfDivisor(a.ram, a.ram) by {
        DividesWitness(a.ram, a.ram, 1);
      }
      var c := Unify(a, b);
      assert c == Common(a.ram, a.exp, a.tail, a.exp, T.Neg(a.tail));
      SimilarReflexive(a, ZZ);
      SumAlignedNeg(c);
      assert SimilarSum(a, b) == Zero;
    }
  }

  /** Aligned operands with the same exponential part and opposite tails sum to zero. */
  lemma SumAlignedNeg(c: Common)
    requires Aligned(c) && c.ae == c.be && c.bt == T.Neg(c.at)
    ensures SumAligned(c) == Zero
  {
    CanonicalExt(Sub(c.ae, c.be), []);
    assert ScaledDifference(c) == [];
    assert (0.0).Floor == 0;
    ExactMonomialZero();
    T.MulSeriesOne(c.at);
    T.AddNeg(c.at);
  }

  /** The sum does not depend on the order of the operands. */
  lemma AddComm(a: CSeries, b: CSeries)
    requires Valid(a) && Valid(b)
    ensures Add(a, b) == Add(b, a)
  {
    if a.tail != [] && b.tail != [] {
      SimilarSymmetric(a, b, ZZ);
      if Similar(a, b, ZZ) {
        UnifySwap(a, b);
        ScaledDifferenceSwap(a, b);
        SumAlignedSwap(Unify(a, b));
      }
    }
  }

  /** For operands whose scaled difference is an integer, the aligned sum
      does not depend on their order. */
  lemma SumAlignedSwap(c: Common)
    requires Aligned(c) && IsInteger(Coef(ScaledDifference(c), 0))
    requires ScaledDifference(Swap(c)) == Polynomials.Neg(ScaledDifference(c))
    requires |ScaledDifference(c)| <= 1
    ensures SumAligned(Swap(c)) == SumAligned(c)
  {
    var d := Coef(ScaledDifference(c), 0).Floor;
    SwapFloor(c);
    if d == 0 {
      SumAlignedLevel(c);
    } else {
      SumAtFloorSwap(c, d);
    }
  }

  /** Swapping integral operands negates the floor of the scaled difference. */
  lemma SwapFloor(c: Common)
    requires IsInteger(Coef(ScaledDifference(c), 0))
    requires ScaledDifference(Swap(c)) == Polynomials.Neg(ScaledDifference(c))
    ensures Coef(ScaledDifference(Swap(c)), 0).Floor == -Coef(ScaledDifference(c), 0).Floor
  {
    var x := Coef(ScaledDifference(c), 0);
    FloorNeg(x);
    NegAt(ScaledDifference(c), 0);
  }

  /** Operands whose exponential parts differ by less than `1/s` add in either order. */
  lemma SumAlignedLevel(c: Common)
    requires Aligned(c) && IsInteger(Coef(ScaledDifference(c), 0)) && Coef(ScaledDifference(c), 0).Floor == 0
    requires ScaledDifference(Swap(c)) == Polynomials.Neg(ScaledDifference(c))
    requires |ScaledDifference(c)| <= 1
    ensures SumAligned(Swap(c)) == SumAligned(c)
  {
    SameExponent(c);
    ExactMonomialZero();
    T.MulSeriesOne(c.at);
    T.MulSeriesOne(c.bt);
    T.AddComm(c.at, c.bt);
  }

  // ---------------------------------------------------------------------------
  // Inverses

  const LogMessage: string := "generalized series involving logarithms are not invertible"

  /** The reciprocal of the tail in the tail ring and the negated exponential
      part, for the same ramification. The host library has no inverse for a
      tail of positive degree in `LOG`. */
  function InvertTail(a: CSeries): (r: Result<CSeries>)
    requires Valid(a)
  {
    match T.Inverse(a.tail)
    case None => Err(HostError("the tail has no inverse in the tail ring"))
    case Some(t) => Ok(Normalize(t, Polynomials.Neg(a.exp), a.ram, false).value)
  }

  /** `__invert__` with `has_logarithms()` as intended: zero and logarithmic
      series are refused; otherwise the order is negated. */
  function Invert(a: CSeries): (r: Result<CSeries>)
    requires Valid(a)
    ensures a.tail == [] ==> r == Err(ZeroDivisionError)
    ensures HasLogarithms(a) ==> r == Err(ValueError(LogMessage))
    ensures T.Degree(a.tail) == 0 ==>
      r.Ok? && Valid(r.value) && Divides(r.value.ram, a.ram) && |r.value.tail| == 1 &&
      Order(r.value) == Some(-Coef(a.exp, 0))
    ensures T.Degree(a.tail) == 0 ==>
      T.Inverse(a.tail).Some? && T.Inverse(a.tail).value != [] &&
      Represents(r.value, T.Inverse(a.tail).value, Polynomials.Neg(a.exp), a.ram)
    ensures r.Ok? && r.value.ram == a.ram ==>
      r.value.exp == Polynomials.Neg(a.exp) && r.value.tail == T.Inverse(a.tail).value
  {
    if IsZero(a) then Err(ZeroDivisionError)
    else if HasLogarithms(a) then Err(ValueError(LogMessage))
    else
      InvertUnit(a);
      InvertTail(a)
  }

  /** A series whose tail has degree zero in `LOG` has an inverse of the negated order. */
  lemma InvertUnit(a: CSeries)
    requires Valid(a) && |a.tail| == 1
    ensures InvertTail(a).Ok? && Valid(InvertTail(a).value) && Divides(InvertTail(a).value.ram, a.ram)
    ensures |InvertTail(a).value.tail| == 1 && Order(InvertTail(a).value) == Some(-Coef(a.exp, 0))
    ensures T.Inverse(a.tail).Some? && T.Inverse(a.tail).value != [] &&
      Represents(InvertTail(a).value, T.Inverse(a.tail).value, Polynomials.Neg(a.exp), a.ram)
    ensures InvertTail(a).value.ram == a.ram ==>
      InvertTail(a).value.exp == Polynomials.Neg(a.exp) && InvertTail(a).value.tail == T.Inverse(a.tail).value
  {
    InvertUnitTail(a);
    var t := T.Inverse(a.tail).value;
    var e := Polynomials.Neg(a.exp);
    assert InvertTail(a) == Normalize(t, e, a.ram, false);
    assert Coef(e, 0) == -Coef(a.exp, 0);
    assert T.MinOrd(t) as real / a.ram as real == 0.0;
    TrimCanonical(e);
  }

  /** A tail of degree zero of a valid series is a unit of order zero, and so is its inverse. */
  lemma InvertUnitTail(a: CSeries)
    requires Valid(a) && |a.tail| == 1
    ensures T.Inverse(a.tail).Some? && |T.Inverse(a.tail).value| == 1
    ensures T.MinOrd(T.Inverse(a.tail).value) == 0
  {
    assert PS.Ord(a.tail[0]) == 0;
    PS.InverseUnit(a.tail[0]);
  }

  /** `a * ~a == 1` whenever the inverse keeps the ramification of `a`:
      the exponential parts cancel and the tail times its inverse is one up
      to precision. */
  lemma InvertMulOne(a: CSeries)
    requires Valid(a) && Invert(a).Ok? && Invert(a).value.ram == a.ram
    ensures Equal(Mul(a, Invert(a).value), One)
  {
    var i := Invert(a).value;
    var w := PS.Mul(a.tail[0], PS.Inverse(a.tail[0]));
    InvertUnified(a);
    MulInverseArgs(a, i);
    MulUnfold(a, i);
    NormalizeOne(Unify(a, i), w, Mul(a, i));
  }

  /** A series and an inverse of the same ramification need no rewriting. */
  lemma InvertUnified(a: CSeries)
    requires Valid(a) && Invert(a).Ok? && Invert(a).value.ram == a.ram
    ensures var i := Invert(a).value;
      && |a.tail| == 1 && Coef(a.tail[0].c, 0) != 0.0 && PS.Valid(a.tail[0])
      && Unify(a, i) == Common(a.ram, a.exp, a.tail, Polynomials.Neg(a.exp), [PS.Inverse(a.tail[0])])
      && T.MinOrd(a.tail) == 0 && T.MinOrd([PS.Inverse(a.tail[0])]) == 0
  {
    var u := a.tail[0];
    InvertUnitTail(a);
    PS.InverseUnit(u);
    assert T.Inverse(a.tail).value == [PS.Inverse(u)];
    LcmSelf(a.ram);
  }

  /** The data the product of `a` and its inverse hands the constructor. */
  lemma MulInverseArgs(a: CSeries, i: CSeries)
    requires Valid(a) && Valid(i) && |a.tail| == 1 && Coef(a.tail[0].c, 0) != 0.0 && PS.Valid(a.tail[0])
    requires Unify(a, i) == Common(a.ram, a.exp, a.tail, Polynomials.Neg(a.exp), [PS.Inverse(a.tail[0])])
    requires T.MinOrd(a.tail) == 0 && T.MinOrd([PS.Inverse(a.tail[0])]) == 0
    ensures var c := Unify(a, i); var w := PS.Mul(a.tail[0], PS.Inverse(a.tail[0]));
      && Polynomials.Add(c.ae, c.be) == [] && T.Mul(c.at, c.bt) == [w] && w.c == [1.0] && PS.Valid(w)
  {
    var c := Unify(a, i);
    T.MulUnits(c.at, c.bt);
    PS.MulInverse(a.tail[0]);
    Polynomials.AddNeg(a.exp);
  }

  /** The product is the constructor applied to the data `Unify` lines up. */
  lemma MulUnfold(a: CSeries, b: CSeries)
    requires Valid(a) && Valid(b)
    ensures var c := Unify(a, b);
      Mul(a, b) == Normalize(T.Mul(c.at, c.bt), Polynomials.Add(c.ae, c.be), c.s, false).value
  {
  }

  /** The constructor applied to the data of one, at any ramification, gives one. */
  lemma NormalizeOne(c: Common, w: PS.Series, r: CSeries)
    requires Aligned(c) && Polynomials.Add(c.ae, c.be) == [] && T.Mul(c.at, c.bt) == [w] && w.c == [1.0] && PS.Valid(w)
    requires r == Normalize(T.Mul(c.at, c.bt), Polynomials.Add(c.ae, c.be), c.s, false).value
    ensures Equal(r, One)
  {
    OneData(c.s, w, r);
    IsOneIff(r);
  }

  /** What `Represents` says of the data of one. */
  lemma OneData(s: nat, w: PS.Series, r: CSeries)
    requires s > 0 && w.c == [1.0] && PS.Valid(w)
    requires r == Normalize([w], [], s, false).value
    ensures Valid(r) && IsOne(r)
  {
    assert PS.Ord(w) == 0 by {
      ValuationAt(w.c, 0);
    }
    assert T.MinOrd([w]) == 0;
    AddNothing([]);
    var k := s / r.ram;
    InflateUnit(1);
    Polynomials.InflatedConstant(r.exp, k, [], 1);
    Polynomials.InflatedConstant(r.tail[0].c, k, [1.0], 1);
  }

  /** `__invert__` as written: `has_logarithms()` returns nothing, so a
      logarithmic series is not refused and reaches the inversion in the tail
      ring, which the host library cannot carry out. */
  function InvertAsWritten(a: CSeries): (r: Result<CSeries>)
    requires Valid(a)
    ensures a.tail == [] ==> r == Err(ZeroDivisionError)
    ensures HasLogarithms(a) ==> r.Err? && r.error.HostError?
    ensures !HasLogarithms(a) ==> r == Invert(a)
  {
    if IsZero(a) then Err(ZeroDivisionError)
    else if HasLogarithmsAsWritten(a) == Some(true) then Err(ValueError(LogMessage))
    else InvertTail(a)
  }

  /** `1 + log(x)`. */
  const OnePlusLog: CSeries := CSeries(1, [], [PS.One, PS.One])

  /** `~(1 + log(x))` is refused with the documented message by the intended
      test, and fails in the host library as written. */
  lemma InvertLogExample()
    ensures Valid(OnePlusLog)
    ensures Invert(OnePlusLog) == Err(ValueError(LogMessage))
    ensures InvertAsWritten(OnePlusLog).Err? && InvertAsWritten(OnePlusLog).error.HostError?
  {
    assert PS.Ord(PS.One) == 0 by {
      ValuationAt(PS.One.c, 0);
    }
    assert T.MinOrd(OnePlusLog.tail) == 0;
  }

  // ---------------------------------------------------------------------------
  // The documented examples of similarity

  /** The tail `1 + x + x^2` of the examples. */
  const ExampleTail: T.Tail := [PS.Series([1.0, 1.0, 1.0], PS.Inf)]

  /** `A`, `B` and `C` have ramification 2 and exponential parts
      `1 + x + x^2`, `-3/2 + x + x^2` and `-2/3 + x + x^2`; `D` has
      ramification 4 and exponential part `1 + x^2 + x^4`. */
  const ExampleA: CSeries := CSeries(2, [1.0, 1.0, 1.0], ExampleTail)
  const ExampleB: CSeries := CSeries(2, [-1.5, 1.0, 1.0], ExampleTail)
  const ExampleC: CSeries := CSeries(2, [-2.0 / 3.0, 1.0, 1.0], ExampleTail)
  const ExampleD: CSeries := CSeries(4, [1.0, 0.0, 1.0, 0.0, 1.0], ExampleTail)

  /** The tail has order zero and needs no ramification. */
  lemma ExampleTailOrder()
    ensures T.ValidTail(ExampleTail) && T.MinOrd(ExampleTail) == 0
  {
    assert PS.Ord(ExampleTail[0]) == 0 by {
      ValuationAt(ExampleTail[0].c, 0);
    }
  }

  /** The four examples are series as the constructor builds them. */
  lemma ExamplesValid()
    ensures Valid(ExampleA) && Valid(ExampleB) && Valid(ExampleC) && Valid(ExampleD)
  {
    ExampleTailOrder();
    forall q | 1 < q <= 2 && Divides(q, 2) ensures !Multiples(ExampleA.exp, ExampleA.tail, q) {
      assert ExampleA.exp[1] != 0.0 && !Divides(q, 1);
    }
    forall q | 1 < q <= 4 && Divides(q, 4) ensures !Multiples(ExampleD.exp, ExampleD.tail, q) {
      assert ExampleTail[0].c[1] != 0.0 && !Divides(q, 1);
    }
  }

  /** Operands of the same ramification are already aligned. */
  lemma UnifySameRam(a: CSeries, b: CSeries)
    requires Valid(a) && Valid(b) && a.ram == b.ram
    ensures Unify(a, b) == Common(a.ram, a.exp, a.tail, b.exp, b.tail)
  {
    LcmOfDivisor(a.ram, a.ram) by {
      DividesWitness(a.ram, a.ram, 1);
    }
  }

  /** `A.similar(B)` and `B.similar(A)`. */
  lemma SimilarExampleAB()
    ensures Valid(ExampleA) && Valid(ExampleB)
    ensures Similar(ExampleA, ExampleB, ZZ) && Similar(ExampleB, ExampleA, ZZ)
  {
    ExamplesValid();
    UnifySameRam(ExampleA, ExampleB);
    var d := ScaledDifference(Unify(ExampleA, ExampleB));
    CanonicalExt(d, [5.0]);
    assert (5.0).Floor == 5;
    SimilarSymmetric(ExampleA, ExampleB, ZZ);
  }

  /** `A` and `C` are not similar over the integers, but are over the rationals. */
  lemma SimilarExampleAC()
    ensures Valid(ExampleA) && Valid(ExampleC)
    ensures !Similar(ExampleA, ExampleC, ZZ) && Similar(ExampleA, ExampleC, QQ)
  {
    ExamplesValid();
    UnifySameRam(ExampleA, ExampleC);
    var d := ScaledDifference(Unify(ExampleA, ExampleC));
    CanonicalExt(d, [10.0 / 3.0]);
    assert (10.0 / 3.0).Floor == 3;
  }

  /** `A` and `D`, of ramifications 2 and 4, are similar. */
  lemma SimilarExampleAD()
    ensures Valid(ExampleA) && Valid(ExampleD) && Similar(ExampleA, ExampleD, ZZ)
  {
    ExamplesValid();
    ExampleADAligned();
    var c := Unify(ExampleA, ExampleD);
    var d := ScaledDifference(c);
    assert forall i :: 0 <= i ==> Coef(d, i) == Coef([], i) by {
      forall i | 0 <= i ensures Coef(d, i) == 0.0 {
        assert Coef(Sub(c.ae, c.be), i) == 0.0;
      }
    }
    CanonicalExt(d, []);
    assert (0.0).Floor == 0;
  }

  /** Rewritten for ramification 4, `A` has the exponential part of `D`. */
  lemma ExampleADAligned()
    requires Valid(ExampleA) && Valid(ExampleD)
    ensures Unify(ExampleA, ExampleD).ae == ExampleD.exp && Unify(ExampleA, ExampleD).be == ExampleD.exp
  {
    LcmTwoFour();
    InflateToMultiple(ExampleA, 2);
    InflateExampleExp();
  }

  lemma LcmTwoFour()
    ensures Lcm(2, 4) == 4
  {
    assert Gcd(2, 4) == 2;
  }

  /** `1 + x + x^2` in `x^2` is `1 + x^2 + x^4`. */
  lemma InflateExampleExp()
    ensures Inflate(ExampleA.exp, 2) == ExampleD.exp
  {
    var r := Inflate(ExampleA.exp, 2);
    assert |r| == 5;
    assert r[0] == 1.0 && r[1] == 0.0 && r[2] == 1.0 && r[3] == 0.0 && r[4] == 1.0;
  }
}
