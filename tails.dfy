/** The tail ring `K[[x]][LOG]`: polynomials in `LOG` whose coefficients are
    truncated power series. `t[j]` is the coefficient of `LOG^j`. As in the
    host library, a trailing coefficient that is zero (including `O(x^n)`) is
    dropped, so the degree is `|t| - 1` and the zero tail is `[]`. */
module Tails {
  import opened Numbers
  import opened Polynomials
  import PS = PowerSeries
  import opened Outcomes

  type Series = PS.Series
  type Tail = seq<Series>

  predicate ValidTail(t: Tail) {
    (forall j :: 0 <= j < |t| ==> PS.Valid(t[j])) && (|t| == 0 || !PS.IsZero(t[|t| - 1]))
  }

  /** Coefficient of `LOG^j`, the exact zero outside the stored range. */
  function TCoef(t: Tail, j: int): Series {
    if 0 <= j < |t| then t[j] else PS.Zero
  }

  /** Drops trailing zero coefficients. */
  function TTrim(t: Tail): (r: Tail)
    requires forall j :: 0 <= j < |t| ==> PS.Valid(t[j])
    ensures ValidTail(r) && |r| <= |t| && r == t[..|r|]
    ensures forall j :: |r| <= j < |t| ==> PS.IsZero(t[j])
    decreases |t|
  {
    if |t| == 0 then t
    else if PS.IsZero(t[|t| - 1]) then TTrim(t[..|t| - 1])
    else t
  }

  lemma TTrimValid(t: Tail)
    requires ValidTail(t)
    ensures TTrim(t) == t
  {
  }

  predicate IsZero(t: Tail) {
    t == []
  }

  /** The library's `is_one()`: the constant exact-one tail. */
  predicate IsOne(t: Tail) {
    |t| == 1 && PS.IsOne(t[0])
  }

  const One: Tail := [PS.One]

  /** The degree in `LOG`, `-1` for zero. */
  function Degree(t: Tail): int {
    |t| - 1
  }

  /** Comparison as the library does it: same degree, coefficients equal up to precision. */
  predicate Equal(a: Tail, b: Tail) {
    |a| == |b| && forall j :: 0 <= j < |a| ==> PS.Equal(a[j], b[j])
  }

  /** A tail whose one coefficient has the coefficients of one is one up to precision. */
  lemma EqualOne(t: Tail)
    requires |t| == 1 && t[0].c == [1.0]
    ensures Equal(t, One)
  {
    PS.EqualOne(t[0]);
  }

  /** A constant tail. */
  function Constant(s: Series): (r: Tail)
    requires PS.Valid(s)
    ensures ValidTail(r) && (PS.IsZero(s) <==> r == [])
  {
    if PS.IsZero(s) then [] else [s]
  }

  /** Coefficient `j` of a sum: the sum where both tails have one, the one
      coefficient there is otherwise. */
  function AddAt(a: Tail, b: Tail, j: nat): (s: Series)
    requires ValidTail(a) && ValidTail(b)
    ensures PS.Valid(s)
  {
    if j < |a| && j < |b| then PS.Add(a[j], b[j]) else if j < |a| then a[j] else TCoef(b, j)
  }

  function Add(a: Tail, b: Tail): (r: Tail)
    requires ValidTail(a) && ValidTail(b)
    ensures ValidTail(r)
  {
    TTrim(seq(Max(|a|, |b|), j requires 0 <= j => AddAt(a, b, j)))
  }

  function Neg(a: Tail): (r: Tail)
    requires ValidTail(a)
    ensures ValidTail(r) && |r| == |a|
  {
    seq(|a|, j requires 0 <= j < |a| => PS.Neg(a[j]))
  }

  /** Multiplication by a field element. */
  function Scale(k: real, a: Tail): (r: Tail)
    requires ValidTail(a)
    ensures ValidTail(r)
  {
    TTrim(seq(|a|, j requires 0 <= j < |a| => PS.Scale(k, a[j])))
  }

  /** Multiplication of every coefficient by one power series. */
  function MulSeries(s: Series, a: Tail): (r: Tail)
    requires PS.Valid(s) && ValidTail(a)
    ensures ValidTail(r)
  {
    TTrim(seq(|a|, j requires 0 <= j < |a| => PS.Mul(s, a[j])))
  }

  /** `sum_{i < n, i + j == k} a[i]*b[j]`, summed in the order of `i`. */
  function ConvTerm(a: Tail, b: Tail, k: int, n: nat): (s: Series)
    requires ValidTail(a) && ValidTail(b)
    ensures PS.Valid(s)
  {
    if n == 0 then PS.Zero
    else
      var acc := ConvTerm(a, b, k, n - 1);
      var i := n - 1;
      if i < |a| && 0 <= k - i < |b| then PS.Add(acc, PS.Mul(a[i], b[k - i])) else acc
  }

  function Mul(a: Tail, b: Tail): (r: Tail)
    requires ValidTail(a) && ValidTail(b)
    ensures ValidTail(r)
    ensures a == [] || b == [] ==> r == []
  {
    if a == [] || b == [] then []
    else TTrim(Convolution(a, b))
  }

  /** The untrimmed list of convolution terms. */
  function Convolution(a: Tail, b: Tail): (r: seq<Series>)
    requires ValidTail(a) && ValidTail(b) && a != [] && b != []
    ensures |r| == |a| + |b| - 1
    ensures forall k :: 0 <= k < |r| ==> r[k] == ConvTerm(a, b, k, k + 1)
  {
    ConvTerms(a, b, |a| + |b| - 1)
  }

  /** The first `n` convolution terms. */
  function ConvTerms(a: Tail, b: Tail, n: nat): (r: seq<Series>)
    requires ValidTail(a) && ValidTail(b)
    ensures |r| == n
    ensures forall k :: 0 <= k < n ==> r[k] == ConvTerm(a, b, k, k + 1)
  {
    if n == 0 then [] else ConvTerms(a, b, n - 1) + [ConvTerm(a, b, n - 1, n)]
  }

  /** Substitutes `x^q` for `x` in every coefficient with `map_coefficients`,
      which skips the zero coefficients: they come back as the exact zero. */
  function Inflate(a: Tail, q: nat): (r: Tail)
    requires ValidTail(a) && q > 0
    ensures ValidTail(r) && |r| == |a|
    ensures forall j :: 0 <= j < |a| ==> r[j] == InflateCoef(a[j], q)
    ensures forall j :: 0 <= j < |a| ==> r[j].c == Polynomials.Inflate(a[j].c, q)
  {
    if a == [] then []
    else
      InflateLast(a[|a| - 1], q);
      seq(|a|, j requires 0 <= j < |a| => InflateCoef(a[j], q))
  }

  function InflateCoef(s: Series, q: nat): (r: Series)
    requires q > 0
    ensures PS.Valid(s) ==> PS.Valid(r)
    ensures !PS.IsZero(s) ==> r == PS.Inflate(s, q)
  {
    if PS.IsZero(s) then PS.Zero else PS.Inflate(s, q)
  }

  lemma InflateLast(s: Series, q: nat)
    requires PS.Valid(s) && !PS.IsZero(s) && q > 0
    ensures !PS.IsZero(PS.Inflate(s, q))
  {
    var c := s.c;
    DividesWitness(q, (|c| - 1) * q, |c| - 1);
    assert Coef(PS.Inflate(s, q).c, (|c| - 1) * q) == Coef(c, |c| - 1);
  }

  lemma DeflateLast(s: Series, q: nat)
    requires PS.Valid(s) && !PS.IsZero(s) && q > 0 && Polynomials.AllMultiples(s.c, q)
    ensures !PS.IsZero(PS.Deflate(s, q))
  {
    var c := s.c;
    DividesIntro(q, |c| - 1);
    assert Coef(PS.Deflate(s, q).c, (|c| - 1) / q) == Coef(c, |c| - 1);
  }

  /** Every exponent of every coefficient is a multiple of `q`. */
  predicate AllMultiples(a: Tail, q: nat) {
    forall j :: 0 <= j < |a| ==> Polynomials.AllMultiples(a[j].c, q)
  }

  /** Substitutes `x^(1/q)` for `x` in every coefficient, rebuilding each from
      its coefficient dictionary (the results are exact). */
  function Deflate(a: Tail, q: nat): (r: Tail)
    requires ValidTail(a) && q > 0 && AllMultiples(a, q)
    ensures ValidTail(r) && |r| == |a|
    ensures forall j :: 0 <= j < |a| ==> r[j] == PS.Deflate(a[j], q)
  {
    if a == [] then []
    else
      DeflateLast(a[|a| - 1], q);
      seq(|a|, j requires 0 <= j < |a| => PS.Deflate(a[j], q))
  }

  /** A tail whose coefficients are the deflated ones is the deflated tail. */
  lemma DeflatePointwise(a: Tail, q: nat, d: Tail)
    requires ValidTail(a) && q > 0 && AllMultiples(a, q)
    requires |d| == |a| && forall j :: 0 <= j < |a| ==> d[j] == PS.Deflate(a[j], q)
    ensures d == Deflate(a, q)
  {
    var r := Deflate(a, q);
    assert forall j :: 0 <= j < |a| ==> d[j] == r[j];
  }

  /** Divides every coefficient by `x^k` with `map_coefficients`, which
      rebuilds the polynomial from its nonzero coefficients: a zero
      coefficient comes back as the exact zero. */
  function ShiftDown(a: Tail, k: nat): (r: Tail)
    requires ValidTail(a)
    ensures ValidTail(r)
    ensures |r| <= |a| && forall j :: 0 <= j < |r| ==> r[j] == ShiftCoef(a[j], k)
  {
    TTrim(seq(|a|, j requires 0 <= j < |a| => ShiftCoef(a[j], k)))
  }

  function ShiftCoef(s: Series, k: nat): (r: Series)
    ensures PS.Valid(s) ==> PS.Valid(r)
  {
    if PS.IsZero(s) then PS.Zero else PS.ShiftDown(s, k)
  }

  /** The derivative with respect to `LOG`. */
  function DerivativeLog(a: Tail): (r: Tail)
    requires ValidTail(a)
    ensures ValidTail(r)
  {
    if |a| <= 1 then []
    else TTrim(seq(|a| - 1, j requires 0 <= j < |a| - 1 => PS.Scale((j + 1) as real, a[j + 1])))
  }

  /** `p -> p'*x/r` on every nonzero coefficient (`map_coefficients`: the
      zero coefficients come back as the exact zero). */
  function DerivativeX(a: Tail, r: nat): (t: Tail)
    requires ValidTail(a) && r > 0
    ensures ValidTail(t)
  {
    TTrim(seq(|a|, j requires 0 <= j < |a| =>
      if PS.IsZero(a[j]) then PS.Zero
      else PS.Scale(1.0 / r as real, PS.Mul(PS.Derivative(a[j]), PS.Exact(Monomial(1.0, 1))))))
  }

  /** `a(k*LOG)`: coefficient `j` scaled by `k^j`. */
  function ScaleLog(a: Tail, k: real): (r: Tail)
    requires ValidTail(a)
    ensures ValidTail(r)
  {
    TTrim(seq(|a|, j requires 0 <= j < |a| => PS.Scale(RealPow(k, j), a[j])))
  }

  /** `a(LOG + s)` by Horner's rule. */
  function ShiftLog(a: Tail, s: Series): (r: Tail)
    requires ValidTail(a) && PS.Valid(s)
    ensures ValidTail(r)
    decreases |a|
  {
    if |a| == 0 then []
    else
      assert ValidTail(a[1..]) by {
        if |a| > 1 { assert a[1..][|a| - 2] == a[|a| - 1]; }
      }
      Add(Constant(a[0]), Mul(TTrim([s, PS.One]), ShiftLog(a[1..], s)))
  }

  /** The valuation of a coefficient, infinite for a zero one. */
  function OrdOrInf(s: Series): (v: PS.Prec)
    requires PS.Valid(s)
    ensures v.Fin? <==> !PS.IsZero(s)
  {
    if PS.IsZero(s) then PS.Inf else PS.Fin(PS.Ord(s))
  }

  function MinOrdAll(a: seq<Series>): (v: PS.Prec)
    requires forall j :: 0 <= j < |a| ==> PS.Valid(a[j])
    ensures forall j :: 0 <= j < |a| && !PS.IsZero(a[j]) ==> v.Fin? && v.n <= PS.Ord(a[j])
    ensures v.Fin? ==> exists j :: 0 <= j < |a| && !PS.IsZero(a[j]) && PS.Ord(a[j]) == v.n
    decreases |a|
  {
    if |a| == 0 then PS.Inf
    else
      var rest := MinOrdAll(a[..|a| - 1]);
      assert forall j :: 0 <= j < |a| - 1 ==> a[..|a| - 1][j] == a[j];
      PS.PMin(rest, OrdOrInf(a[|a| - 1]))
  }

  /** The smallest valuation among the nonzero coefficients. */
  function MinOrd(a: Tail): (v: nat)
    requires ValidTail(a) && a != []
    ensures exists j :: 0 <= j < |a| && !PS.IsZero(a[j]) && PS.Ord(a[j]) == v
    ensures forall j :: 0 <= j < |a| && !PS.IsZero(a[j]) ==> v <= PS.Ord(a[j])
  {
    assert !PS.IsZero(a[|a| - 1]);
    MinOrdAll(a).n
  }

  /** The smallest valuation among all coefficients, zeros included (the
      valuation of `O(x^n)` is `n`, of the exact zero infinite). */
  function MinVal(a: seq<Series>): (v: PS.Prec)
    requires forall j :: 0 <= j < |a| ==> PS.Valid(a[j])
    ensures forall j :: 0 <= j < |a| ==> PLe(v, PS.Val(a[j]))
    ensures v.Fin? ==> exists j :: 0 <= j < |a| && PS.Val(a[j]) == v
    decreases |a|
  {
    if |a| == 0 then PS.Inf
    else
      assert forall j :: 0 <= j < |a| - 1 ==> a[..|a| - 1][j] == a[j];
      PS.PMin(MinVal(a[..|a| - 1]), PS.Val(a[|a| - 1]))
  }

  /** Removing the smallest valuation from every coefficient keeps the degree
      and leaves a coefficient of valuation zero. */
  lemma ShiftDownMinOrd(a: Tail)
    requires ValidTail(a) && a != []
    ensures |ShiftDown(a, MinOrd(a))| == |a| && MinOrd(ShiftDown(a, MinOrd(a))) == 0
  {
    var v := MinOrd(a);
    ShiftDownLength(a, v);
    var r := ShiftDown(a, v);
    var j0 :| 0 <= j0 < |a| && !PS.IsZero(a[j0]) && PS.Ord(a[j0]) == v;
    ShiftedAtOrder(a[j0], v, r[j0]);
  }

  /** Removing `d`, at most the smallest valuation, from every coefficient
      keeps the degree and lowers the smallest valuation by `d`. */
  lemma ShiftDownBy(a: Tail, d: nat)
    requires ValidTail(a) && a != [] && d <= MinOrd(a)
    ensures |ShiftDown(a, d)| == |a| && MinOrd(ShiftDown(a, d)) == MinOrd(a) - d
  {
    var m := MinOrd(a);
    ShiftDownLength(a, d);
    var r := ShiftDown(a, d);
    var j0 :| 0 <= j0 < |a| && !PS.IsZero(a[j0]) && PS.Ord(a[j0]) == m;
    ShiftedEntry(a, d, j0);
    var j1 :| 0 <= j1 < |r| && !PS.IsZero(r[j1]) && PS.Ord(r[j1]) == MinOrd(r);
    ShiftedEntry(a, d, j1);
  }

  lemma ShiftedEntry(a: Tail, d: nat, j: nat)
    requires ValidTail(a) && a != [] && d <= MinOrd(a) && j < |a| && |ShiftDown(a, d)| == |a|
    ensures !PS.IsZero(ShiftDown(a, d)[j]) <==> !PS.IsZero(a[j])
    ensures !PS.IsZero(a[j]) ==> PS.Ord(ShiftDown(a, d)[j]) == PS.Ord(a[j]) - d
  {
    if !PS.IsZero(a[j]) {
      ShiftedOrd(a[j], d);
    }
  }

  /** Dividing a nonzero series by `x^d`, `d` at most its valuation, lowers the valuation by `d`. */
  lemma ShiftedOrd(s: Series, d: nat)
    requires PS.Valid(s) && !PS.IsZero(s) && d <= PS.Ord(s)
    ensures !PS.IsZero(PS.ShiftDown(s, d)) && PS.Ord(PS.ShiftDown(s, d)) == PS.Ord(s) - d
  {
    var r := PS.ShiftDown(s, d);
    var o := PS.Ord(s);
    assert Coef(r.c, o - d) == Coef(s.c, o) != 0.0;
    forall i | 0 <= i < o - d ensures r.c[i] == 0.0 {
      assert Coef(r.c, i) == Coef(s.c, i + d);
    }
    ValuationAt(r.c, o - d);
  }

  /** Shifting by at most the valuation of the last coefficient keeps it nonzero. */
  lemma ShiftDownLength(a: Tail, v: nat)
    requires ValidTail(a) && a != [] && v <= PS.Ord(a[|a| - 1])
    ensures |ShiftDown(a, v)| == |a|
  {
    var s := seq(|a|, j requires 0 <= j < |a| => ShiftCoef(a[j], v));
    var last := a[|a| - 1];
    var o := PS.Ord(last);
    assert Coef(s[|a| - 1].c, o - v) == Coef(last.c, o) != 0.0;
    assert TTrim(s) == s;
  }

  /** Shifting a nonzero series down by its valuation leaves valuation `0`. */
  lemma ShiftedAtOrder(s: Series, v: nat, r: Series)
    requires PS.Valid(s) && !PS.IsZero(s) && v == PS.Ord(s) && r == PS.ShiftDown(s, v)
    ensures PS.Valid(r) && !PS.IsZero(r) && PS.Ord(r) == 0
  {
    assert Coef(r.c, 0) == Coef(s.c, v) != 0.0;
  }

  /** The same degree and, coefficient by coefficient, the same nonzero terms. */
  predicate SameSupport(a: Tail, b: Tail) {
    |a| == |b| && forall j :: 0 <= j < |a| ==> Polynomials.SameSupport(a[j].c, b[j].c)
  }

  lemma SameSupportMinOrd(a: Tail, b: Tail)
    requires ValidTail(a) && ValidTail(b) && a != [] && SameSupport(a, b)
    ensures MinOrd(a) == MinOrd(b)
  {
    forall j | 0 <= j < |a| && !PS.IsZero(a[j]) ensures !PS.IsZero(b[j]) && PS.Ord(a[j]) == PS.Ord(b[j]) {
      SameSupportValuation(a[j].c, b[j].c);
    }
    forall j | 0 <= j < |b| && !PS.IsZero(b[j]) ensures !PS.IsZero(a[j]) {
      assert Polynomials.SameSupport(a[j].c, b[j].c);
    }
  }

  lemma SameSupportValuation(p: Poly, q: Poly)
    requires Polynomials.SameSupport(p, q) && exists i :: 0 <= i < |p| && p[i] != 0.0
    ensures exists i :: 0 <= i < |q| && q[i] != 0.0
    ensures Valuation(p) == Valuation(q)
  {
    var v := Valuation(p);
    assert q[v] != 0.0;
    var w := Valuation(q);
    assert p[w] != 0.0;
  }

  lemma SameSupportMultiples(a: Tail, b: Tail, q: nat)
    requires SameSupport(a, b)
    ensures AllMultiples(a, q) <==> AllMultiples(b, q)
  {
    forall j | 0 <= j < |a| ensures Polynomials.AllMultiples(a[j].c, q) <==> Polynomials.AllMultiples(b[j].c, q) {
      assert Polynomials.SameSupport(a[j].c, b[j].c);
    }
  }

  /** Negation and scaling by a nonzero constant keep the support. */
  lemma NegSupport(a: Tail)
    requires ValidTail(a)
    ensures SameSupport(a, Neg(a))
  {
  }

  lemma ScaleSupport(k: real, a: Tail)
    requires ValidTail(a) && k != 0.0
    ensures SameSupport(a, Scale(k, a))
    ensures forall j :: 0 <= j < |a| ==> Scale(k, a)[j].c == Polynomials.Scale(k, a[j].c)
    ensures forall j :: 0 <= j < |a| ==> Scale(k, a)[j].prec == a[j].prec
  {
    var s := seq(|a|, j requires 0 <= j < |a| => PS.Scale(k, a[j]));
    forall j | 0 <= j < |a| ensures s[j].c == Polynomials.Scale(k, a[j].c) {
      Polynomials.ScaleSupport(k, a[j].c);
      if a[j].prec.Fin? {
        TruncateShort(Polynomials.Scale(k, a[j].c), a[j].prec.n);
      }
      TrimCanonical(Polynomials.Scale(k, a[j].c));
    }
    if |a| > 0 {
      Polynomials.ScaleSupport(k, a[|a| - 1].c);
    }
    assert TTrim(s) == s;
    forall j | 0 <= j < |a| ensures Polynomials.SameSupport(a[j].c, s[j].c) {
      Polynomials.ScaleSupport(k, a[j].c);
    }
  }

  /** Substituting `k*LOG` for `LOG` with `k` nonzero keeps the support. */
  lemma ScaleLogSupport(a: Tail, k: real)
    requires ValidTail(a) && k != 0.0
    ensures SameSupport(a, ScaleLog(a, k))
  {
    var s := seq(|a|, j requires 0 <= j < |a| => PS.Scale(RealPow(k, j), a[j]));
    forall j | 0 <= j < |a| ensures Polynomials.SameSupport(a[j].c, s[j].c) {
      RealPowNonzero(k, j);
      ScaleEntrySupport(RealPow(k, j), a[j]);
    }
    if |a| > 0 {
      assert !PS.IsZero(s[|a| - 1]) by {
        assert Polynomials.SameSupport(a[|a| - 1].c, s[|a| - 1].c);
      }
    }
    assert TTrim(s) == s;
  }

  /** Scaling a coefficient by a nonzero constant keeps its nonzero terms. */
  lemma ScaleEntrySupport(c: real, s: Series)
    requires PS.Valid(s) && c != 0.0
    ensures Polynomials.SameSupport(s.c, PS.Scale(c, s).c)
  {
    Polynomials.ScaleSupport(c, s.c);
    if s.prec.Fin? {
      TruncateShort(Polynomials.Scale(c, s.c), s.prec.n);
    }
    TrimCanonical(Polynomials.Scale(c, s.c));
  }

  /** Dividing by `MonicDivisor` makes the leading coefficient's first nonzero coefficient 1. */
  lemma MonicAfterScale(a: Tail)
    requires ValidTail(a) && a != []
    ensures |Scale(1.0 / MonicDivisor(a), a)| == |a|
    ensures MonicDivisor(Scale(1.0 / MonicDivisor(a), a)) == 1.0
  {
    var k := 1.0 / MonicDivisor(a);
    ScaleToMonic(a[|a| - 1].c, k);
    ScaleLast(k, a);
  }

  lemma ScaleLast(k: real, a: Tail)
    requires ValidTail(a) && a != [] && k != 0.0
    ensures |Scale(k, a)| == |a| && Scale(k, a)[|a| - 1].c == Polynomials.Scale(k, a[|a| - 1].c)
  {
    ScaleSupport(k, a);
  }

  /** `p` is at most `q`, infinity being the largest precision. */
  predicate PLe(p: PS.Prec, q: PS.Prec) {
    q.Inf? || (p.Fin? && p.n <= q.n)
  }

  /** The smallest precision among the nonzero coefficients; infinite for zero. */
  function Prec(a: Tail): (p: PS.Prec)
    ensures forall j :: 0 <= j < |a| && !PS.IsZero(a[j]) ==> PLe(p, a[j].prec)
    ensures p.Fin? ==> exists j :: 0 <= j < |a| && !PS.IsZero(a[j]) && a[j].prec == p
    decreases |a|
  {
    if |a| == 0 then PS.Inf
    else
      var rest := Prec(a[..|a| - 1]);
      assert forall j :: 0 <= j < |a| - 1 ==> a[..|a| - 1][j] == a[j];
      if PS.IsZero(a[|a| - 1]) then rest else PS.PMin(rest, a[|a| - 1].prec)
  }

  /** The first nonzero coefficient of the leading coefficient, by which
      `make_monic` divides. */
  function MonicDivisor(a: Tail): (c: real)
    requires ValidTail(a) && a != []
    ensures c != 0.0
  {
    LowestCoefficient(a[|a| - 1].c)
  }

  /** The inverse in the tail ring, defined for the constant tails whose
      coefficient is a unit; `None` otherwise. */
  function Inverse(a: Tail): (r: Option<Tail>)
    requires ValidTail(a)
    ensures r.Some? ==> ValidTail(r.value)
    ensures r.Some? <==> |a| == 1 && Coef(a[0].c, 0) != 0.0
  {
    if |a| == 1 && Coef(a[0].c, 0) != 0.0 then
      var s := PS.Inverse(a[0]);
      Some(Constant(s))
    else None
  }

  // ---------------------------------------------------------------------------
  // Ring identities used by the series arithmetic

  /** A sequence of zero coefficients trims to the zero tail. */
  lemma TTrimZeros(t: Tail)
    requires forall j :: 0 <= j < |t| ==> PS.Valid(t[j]) && PS.IsZero(t[j])
    ensures TTrim(t) == []
  {
  }

  /** `t + x^d*u` with `d > 0` keeps a coefficient of valuation zero when `t` has one:
      the added terms all start at `x^d`. */
  lemma ShiftedAddMinOrd(t: Tail, u: Tail, d: nat)
    requires ValidTail(t) && ValidTail(u) && t != [] && MinOrd(t) == 0 && d > 0
    ensures var sum := Add(MulSeries(PS.Exact(Monomial(1.0, d)), u), t);
      sum != [] && MinOrd(sum) == 0
  {
    var m := MulSeries(PS.Exact(Monomial(1.0, d)), u);
    var sum := Add(m, t);
    var j0 :| 0 <= j0 < |t| && !PS.IsZero(t[j0]) && PS.Ord(t[j0]) == 0;
    ShiftedAddAt(t, u, d, j0);
    AddKeeps(m, t, j0);
    ValuationAt(sum[j0].c, 0);
    assert MinOrd(sum) <= PS.Ord(sum[j0]) == 0;
  }

  /** Coefficient `j` of `t + x^d*u` has the constant term of `t[j]`. */
  lemma ShiftedAddAt(t: Tail, u: Tail, d: nat, j: nat)
    requires ValidTail(t) && ValidTail(u) && d > 0 && j < |t| && !PS.IsZero(t[j]) && PS.Ord(t[j]) == 0
    ensures Coef(AddAt(MulSeries(PS.Exact(Monomial(1.0, d)), u), t, j).c, 0) != 0.0
  {
    var m := MulSeries(PS.Exact(Monomial(1.0, d)), u);
    if j < |m| {
      assert m[j] == PS.Mul(PS.Exact(Monomial(1.0, d)), u[j]);
      PS.ShiftUpConstant(u[j], d);
    }
  }

  /** A coefficient of a sum that is not zero survives the trimming. */
  lemma AddKeeps(a: Tail, b: Tail, j: nat)
    requires ValidTail(a) && ValidTail(b) && j < |b| && Coef(AddAt(a, b, j).c, 0) != 0.0
    ensures j < |Add(a, b)| && Add(a, b)[j] == AddAt(a, b, j)
  {
    var full := seq(Max(|a|, |b|), i requires 0 <= i => AddAt(a, b, i));
    assert full[j] == AddAt(a, b, j);
  }

  /** Multiplying every coefficient by the exact one changes nothing. */
  lemma MulSeriesOne(a: Tail)
    requires ValidTail(a)
    ensures MulSeries(PS.One, a) == a
  {
    forall j | 0 <= j < |a| ensures PS.Mul(PS.One, a[j]) == a[j] {
      PS.MulOne(a[j]);
    }
    assert seq(|a|, j requires 0 <= j < |a| => PS.Mul(PS.One, a[j])) == a;
  }

  lemma {:induction false} ConvTermOneBelow(a: Tail, k: nat, n: nat)
    requires ValidTail(a) && n <= k
    ensures ConvTerm(a, One, k, n) == PS.Zero
  {
    if n > 0 {
      ConvTermOneBelow(a, k, n - 1);
    }
  }

  lemma ConvTermOne(a: Tail, k: nat)
    requires ValidTail(a) && k < |a|
    ensures ConvTerm(a, One, k, k + 1) == a[k]
  {
    ConvTermOneBelow(a, k, k);
    PS.MulOne(a[k]);
    PS.AddZero(a[k]);
  }

  /** The constant tail one is neutral for multiplication. */
  lemma MulOne(a: Tail)
    requires ValidTail(a)
    ensures Mul(a, One) == a
  {
    if a != [] {
      forall k | 0 <= k < |a| ensures ConvTerm(a, One, k, k + 1) == a[k] {
        ConvTermOne(a, k);
      }
      MulIs(a, One, a);
    }
  }

  /** A valid tail whose entries are the convolution terms is the product. */
  lemma MulIs(a: Tail, b: Tail, r: Tail)
    requires ValidTail(a) && ValidTail(b) && ValidTail(r) && a != [] && b != []
    requires |r| == |a| + |b| - 1 && forall k :: 0 <= k < |r| ==> ConvTerm(a, b, k, k + 1) == r[k]
    ensures Mul(a, b) == r
  {
    assert Convolution(a, b) == r;
    TTrimValid(r);
  }

  lemma {:induction false} ConvTermOneLeft(a: Tail, k: nat, n: nat)
    requires ValidTail(a) && k < |a| && 1 <= n
    ensures ConvTerm(One, a, k, n) == a[k]
  {
    if n == 1 {
      PS.MulOne(a[k]);
      PS.AddZero(a[k]);
    } else {
      ConvTermOneLeft(a, k, n - 1);
    }
  }

  /** The constant tail one is neutral on the left as well. */
  lemma OneMul(a: Tail)
    requires ValidTail(a)
    ensures Mul(One, a) == a
  {
    if a != [] {
      forall k | 0 <= k < |a| ensures ConvTerm(One, a, k, k + 1) == a[k] {
        ConvTermOneLeft(a, k, k + 1);
      }
      MulIs(One, a, a);
    }
  }

  /** The product `a[i]*b[k-i]` of the convolution for `LOG^k`; the exact
      zero where an index falls outside an operand. */
  function Term(a: Tail, b: Tail, k: int, i: int): (s: Series)
    requires ValidTail(a) && ValidTail(b)
    ensures PS.Valid(s)
  {
    if 0 <= i < |a| && 0 <= k - i < |b| then PS.Mul(a[i], b[k - i]) else PS.Zero
  }

  /** The products of the two operand orders pair up from opposite ends. */
  lemma TermSwap(a: Tail, b: Tail, k: int, i: int)
    requires ValidTail(a) && ValidTail(b)
    ensures Term(a, b, k, i) == Term(b, a, k, k - i)
  {
    if 0 <= i < |a| && 0 <= k - i < |b| {
      PS.MulComm(a[i], b[k - i]);
    }
  }

  /** `f(lo) + ... + f(hi - 1)`. */
  function Sum(f: int -> real, lo: int, hi: int): real
    decreases hi - lo
  {
    if hi <= lo then 0.0 else f(lo) + Sum(f, lo + 1, hi)
  }

  lemma {:induction false} SumLast(f: int -> real, lo: int, hi: int)
    requires lo < hi
    ensures Sum(f, lo, hi) == Sum(f, lo, hi - 1) + f(hi - 1)
    decreases hi - lo
  {
    if lo < hi - 1 {
      SumLast(f, lo + 1, hi);
    }
  }

  /** Reindexing `i := k - i` sums the same terms from the other end. */
  lemma {:induction false} SumReindex(f: int -> real, g: int -> real, k: int, lo: int, hi: int)
    requires forall i :: lo <= i < hi ==> f(i) == g(k - i)
    ensures Sum(f, lo, hi) == Sum(g, k - hi + 1, k - lo + 1)
    decreases hi - lo
  {
    if lo < hi {
      SumReindex(f, g, k, lo + 1, hi);
      SumLast(g, k - hi + 1, k - lo + 1);
    }
  }

  /** The coefficient of `x^e` in the product `a[i]*b[k-i]`. */
  function TermCoef(a: Tail, b: Tail, k: int, e: int): int -> real
    requires ValidTail(a) && ValidTail(b)
  {
    i => Coef(Term(a, b, k, i).c, e)
  }

  /** `f(lo) && ... && f(hi - 1)`. */
  predicate All(f: int -> bool, lo: int, hi: int)
    decreases hi - lo
  {
    hi <= lo || (f(lo) && All(f, lo + 1, hi))
  }

  lemma {:induction false} AllLast(f: int -> bool, lo: int, hi: int)
    requires lo < hi
    ensures All(f, lo, hi) == (All(f, lo, hi - 1) && f(hi - 1))
    decreases hi - lo
  {
    if lo < hi - 1 {
      AllLast(f, lo + 1, hi);
    }
  }

  /** Reindexing `i := k - i` checks the same conditions from the other end. */
  lemma {:induction false} AllReindex(f: int -> bool, g: int -> bool, k: int, lo: int, hi: int)
    requires forall i :: lo <= i < hi ==> f(i) == g(k - i)
    ensures All(f, lo, hi) == All(g, k - hi + 1, k - lo + 1)
    decreases hi - lo
  {
    if lo < hi {
      AllReindex(f, g, k, lo + 1, hi);
      AllLast(g, k - hi + 1, k - lo + 1);
    }
  }

  /** Whether the product `a[i]*b[k-i]` knows the coefficient of `x^e`. */
  function TermKnown(a: Tail, b: Tail, k: int, e: int): int -> bool
    requires ValidTail(a) && ValidTail(b)
  {
    i => PS.Below(e, Term(a, b, k, i).prec)
  }

  /** The sum of the first `n` products knows a coefficient exactly when
      every product does. */
  lemma {:induction false} ConvTermPrec(a: Tail, b: Tail, k: int, n: nat, e: int)
    requires ValidTail(a) && ValidTail(b)
    ensures PS.Below(e, ConvTerm(a, b, k, n).prec) == All(TermKnown(a, b, k, e), 0, n)
  {
    if n > 0 {
      ConvTermPrec(a, b, k, n - 1, e);
      ConvTermStep(a, b, k, n);
      AllLast(TermKnown(a, b, k, e), 0, n);
    }
  }

  /** Where it is known, a coefficient of the sum of the first `n` products
      is the sum of theirs. */
  lemma {:induction false} ConvTermCoef(a: Tail, b: Tail, k: int, n: nat, e: int)
    requires ValidTail(a) && ValidTail(b) && PS.Below(e, ConvTerm(a, b, k, n).prec)
    ensures Coef(ConvTerm(a, b, k, n).c, e) == Sum(TermCoef(a, b, k, e), 0, n)
  {
    if n > 0 {
      ConvTermStep(a, b, k, n);
      var acc, t := ConvTerm(a, b, k, n - 1), Term(a, b, k, n - 1);
      assert PS.Below(e, acc.prec) && PS.Below(e, t.prec);
      ConvTermCoef(a, b, k, n - 1, e);
      SumLast(TermCoef(a, b, k, e), 0, n);
      assert Coef(ConvTerm(a, b, k, n).c, e) == Coef(acc.c, e) + Coef(t.c, e);
    }
  }

  /** One more product added to the convolution sum. */
  lemma ConvTermStep(a: Tail, b: Tail, k: int, n: nat)
    requires ValidTail(a) && ValidTail(b) && n > 0
    ensures ConvTerm(a, b, k, n) == PS.Add(ConvTerm(a, b, k, n - 1), Term(a, b, k, n - 1))
  {
    var acc := ConvTerm(a, b, k, n - 1);
    if !(0 <= n - 1 < |a| && 0 <= k - (n - 1) < |b|) {
      PS.AddZero(acc);
    }
  }

  /** One convolution term does not depend on the order of the operands. */
  lemma ConvTermComm(a: Tail, b: Tail, k: nat)
    requires ValidTail(a) && ValidTail(b)
    ensures ConvTerm(a, b, k, k + 1) == ConvTerm(b, a, k, k + 1)
  {
    var s, t := ConvTerm(a, b, k, k + 1), ConvTerm(b, a, k, k + 1);
    forall e ensures PS.Below(e, s.prec) <==> PS.Below(e, t.prec) {
      ConvTermKnownComm(a, b, k, e);
    }
    PS.PrecExt(s.prec, t.prec);
    forall e | PS.Below(e, s.prec) ensures Coef(s.c, e) == Coef(t.c, e) {
      ConvTermCoefComm(a, b, k, e);
    }
    PS.SeriesExt(s, t);
  }

  /** Both orders of the operands know the same coefficients of a convolution term. */
  lemma ConvTermKnownComm(a: Tail, b: Tail, k: nat, e: int)
    requires ValidTail(a) && ValidTail(b)
    ensures PS.Below(e, ConvTerm(a, b, k, k + 1).prec) == PS.Below(e, ConvTerm(b, a, k, k + 1).prec)
  {
    ConvTermPrec(a, b, k, k + 1, e);
    ConvTermPrec(b, a, k, k + 1, e);
    var f, g := TermKnown(a, b, k, e), TermKnown(b, a, k, e);
    forall i | 0 <= i < k + 1 ensures f(i) == g(k - i) {
      TermKnownSwap(a, b, k, e, i);
    }
    AllReindex(f, g, k, 0, k + 1);
  }

  lemma TermKnownSwap(a: Tail, b: Tail, k: int, e: int, i: int)
    requires ValidTail(a) && ValidTail(b)
    ensures TermKnown(a, b, k, e)(i) == TermKnown(b, a, k, e)(k - i)
  {
    TermSwap(a, b, k, i);
  }

  /** Where it is known, a coefficient of a convolution term is the same for both orders. */
  lemma ConvTermCoefComm(a: Tail, b: Tail, k: nat, e: int)
    requires ValidTail(a) && ValidTail(b)
    requires PS.Below(e, ConvTerm(a, b, k, k + 1).prec) && PS.Below(e, ConvTerm(b, a, k, k + 1).prec)
    ensures Coef(ConvTerm(a, b, k, k + 1).c, e) == Coef(ConvTerm(b, a, k, k + 1).c, e)
  {
    ConvTermCoef(a, b, k, k + 1, e);
    ConvTermCoef(b, a, k, k + 1, e);
    TermCoefsReversed(a, b, k, e);
  }

  lemma TermCoefsReversed(a: Tail, b: Tail, k: nat, e: int)
    requires ValidTail(a) && ValidTail(b)
    ensures Sum(TermCoef(a, b, k, e), 0, k + 1) == Sum(TermCoef(b, a, k, e), 0, k + 1)
  {
    var f, g := TermCoef(a, b, k, e), TermCoef(b, a, k, e);
    forall i | 0 <= i < k + 1 ensures f(i) == g(k - i) {
      TermCoefSwap(a, b, k, e, i);
    }
    SumReindex(f, g, k, 0, k + 1);
  }

  lemma TermCoefSwap(a: Tail, b: Tail, k: int, e: int, i: int)
    requires ValidTail(a) && ValidTail(b)
    ensures TermCoef(a, b, k, e)(i) == TermCoef(b, a, k, e)(k - i)
  {
    TermSwap(a, b, k, i);
  }

  /** Two tails free of `LOG` whose coefficient has valuation zero multiply
      to the tail of the product of the coefficients, again of valuation
      zero: its constant term is the product of theirs. */
  lemma MulUnits(a: Tail, b: Tail)
    requires ValidTail(a) && ValidTail(b) && |a| == 1 && |b| == 1 && MinOrd(a) == 0 && MinOrd(b) == 0
    ensures Mul(a, b) == [PS.Mul(a[0], b[0])] && MinOrd(Mul(a, b)) == 0
  {
    var m := PS.Mul(a[0], b[0]);
    UnitConstant(a);
    UnitConstant(b);
    PS.MulConstant(a[0], b[0]);
    MulSingle(a, b);
    assert !PS.IsZero(m) && PS.Ord(m) == 0;
  }

  /** The coefficient of a tail free of `LOG` and of valuation zero has a
      nonzero constant term. */
  lemma UnitConstant(a: Tail)
    requires ValidTail(a) && |a| == 1 && MinOrd(a) == 0
    ensures Coef(a[0].c, 0) != 0.0
  {
    assert !PS.IsZero(a[0]) && PS.Ord(a[0]) == 0;
  }

  /** Tails of one coefficient multiply coefficientwise. */
  lemma MulSingle(a: Tail, b: Tail)
    requires ValidTail(a) && ValidTail(b) && |a| == 1 && |b| == 1 && !PS.IsZero(PS.Mul(a[0], b[0]))
    ensures Mul(a, b) == [PS.Mul(a[0], b[0])]
  {
    var m := ConvTerm(a, b, 0, 1);
    ConvTermFirst(a, b);
    MulIs(a, b, [m]);
  }

  /** The constant term in `LOG` of a product. */
  lemma ConvTermFirst(a: Tail, b: Tail)
    requires ValidTail(a) && ValidTail(b) && a != [] && b != []
    ensures ConvTerm(a, b, 0, 1) == PS.Mul(a[0], b[0])
  {
    ConvTermStep(a, b, 0, 1);
    PS.AddZero(PS.Mul(a[0], b[0]));
  }

  /** The product of tails is commutative. */
  lemma MulComm(a: Tail, b: Tail)
    requires ValidTail(a) && ValidTail(b)
    ensures Mul(a, b) == Mul(b, a)
  {
    if a != [] && b != [] {
      var s, t := Convolution(a, b), Convolution(b, a);
      forall k | 0 <= k < |s| ensures s[k] == t[k] {
        ConvTermComm(a, b, k);
      }
      assert s == t;
    }
  }

  lemma AddComm(a: Tail, b: Tail)
    requires ValidTail(a) && ValidTail(b)
    ensures Add(a, b) == Add(b, a)
  {
    var n := Max(|a|, |b|);
    var s, t := seq(n, j requires 0 <= j => AddAt(a, b, j)), seq(n, j requires 0 <= j => AddAt(b, a, j));
    forall j | 0 <= j < n ensures s[j] == t[j] {
      if j < |a| && j < |b| {
        PS.AddComm(a[j], b[j]);
      }
    }
    assert s == t;
  }

  /** Adding the zero tail changes nothing. */
  lemma AddZero(a: Tail)
    requires ValidTail(a)
    ensures Add(a, []) == a && Add([], a) == a
  {
    var s, t := seq(|a|, j requires 0 <= j => AddAt(a, [], j)), seq(|a|, j requires 0 <= j => AddAt([], a, j));
    assert s == a && t == a;
  }

  /** Negation is an involution. */
  lemma NegNeg(a: Tail)
    requires ValidTail(a)
    ensures Neg(Neg(a)) == a
  {
    forall j | 0 <= j < |a| ensures PS.Neg(PS.Neg(a[j])) == a[j] {
      PS.NegNeg(a[j]);
    }
  }

  /** A tail minus itself is zero. */
  lemma AddNeg(a: Tail)
    requires ValidTail(a)
    ensures Add(a, Neg(a)) == []
  {
    var b := Neg(a);
    var t := seq(|a|, j requires 0 <= j => AddAt(a, b, j));
    forall j | 0 <= j < |a| ensures PS.Valid(t[j]) && PS.IsZero(t[j]) {
      PS.AddNeg(a[j]);
    }
    TTrimZeros(t);
  }

  /** Substituting a power of `x` into the constant one leaves it alone. */
  lemma InflateOne(q: nat)
    requires q > 0
    ensures Inflate(One, q) == One
  {
    assert Polynomials.Inflate([1.0], q) == [1.0];
  }
}
