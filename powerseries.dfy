/** Truncated power series `K[[x]]` as the host computer-algebra library
    represents them: the known coefficients together with a precision, written
    `O(x^n)` for a finite precision `n` and exact otherwise. Sums keep the
    smaller precision, products the precision the valuations allow, and
    comparison looks only at the coefficients both operands know. */
module PowerSeries {
  import opened Numbers
  import opened Polynomials

  /** Default precision of the power series rings used for the tails. */
  const DefaultPrec: nat := 20

  datatype Prec = Fin(n: nat) | Inf

  /** The coefficient of `x^i` is known at precision `p`. */
  predicate Below(i: int, p: Prec) {
    p.Inf? || i < p.n
  }

  function PMin(a: Prec, b: Prec): (m: Prec)
    ensures forall i :: Below(i, m) <==> Below(i, a) && Below(i, b)
    ensures m == a || m == b
  {
    if a.Inf? then b else if b.Inf? then a else Fin(Min(a.n, b.n))
  }

  function PPlus(a: Prec, b: Prec): (s: Prec)
    ensures s.Inf? <==> a.Inf? || b.Inf?
  {
    if a.Fin? && b.Fin? then Fin(a.n + b.n) else Inf
  }

  function PTimes(a: Prec, q: nat): Prec {
    if a.Fin? then Fin(a.n * q) else Inf
  }

  /** `a - k`, floored at zero. */
  function PMinus(a: Prec, k: nat): Prec {
    if a.Fin? then Fin(if a.n >= k then a.n - k else 0) else Inf
  }

  /** The known coefficients `c` (canonical, all below the precision) and the precision. */
  datatype Series = Series(c: Poly, prec: Prec)

  predicate Valid(s: Series) {
    Canonical(s.c) && (s.prec.Fin? ==> |s.c| <= s.prec.n)
  }

  /** The series `c + O(x^prec)`: `c` cut at the precision. */
  function Make(c: Poly, prec: Prec): (s: Series)
    ensures Valid(s) && s.prec == prec
    ensures forall i :: Coef(s.c, i) == if Below(i, prec) then Coef(c, i) else 0.0
  {
    if prec.Fin? then Series(Truncate(c, prec.n), prec) else Series(Trim(c), prec)
  }

  /** One coefficient of `c + O(x^prec)`. */
  lemma MakeAt(c: Poly, prec: Prec, i: int)
    ensures Coef(Make(c, prec).c, i) == if Below(i, prec) then Coef(c, i) else 0.0
  {
  }

  function Exact(p: Poly): (s: Series)
    ensures Valid(s) && s.prec == Inf
    ensures forall i :: Coef(s.c, i) == Coef(p, i)
  {
    Make(p, Inf)
  }

  const Zero: Series := Series([], Inf)
  const One: Series := Series([1.0], Inf)

  /** The library's `is_zero()`: no known nonzero coefficient (`O(x^n)` is zero). */
  predicate IsZero(s: Series) {
    s.c == []
  }

  predicate IsOne(s: Series) {
    s.c == [1.0]
  }

  /** The valuation; for a zero series its precision (infinite for the exact zero). */
  function Val(s: Series): (v: Prec)
    requires Valid(s)
    ensures IsZero(s) ==> v == s.prec
    ensures !IsZero(s) ==>
      v.Fin? && v.n < |s.c| && s.c[v.n] != 0.0 && forall i :: 0 <= i < v.n ==> s.c[i] == 0.0
  {
    if s.c == [] then s.prec else Fin(Valuation(s.c))
  }

  /** The valuation of a nonzero series, as a number. */
  function Ord(s: Series): (v: nat)
    requires Valid(s) && !IsZero(s)
    ensures v < |s.c| && s.c[v] != 0.0 && forall i :: 0 <= i < v ==> s.c[i] == 0.0
  {
    Valuation(s.c)
  }

  /** Comparison as the library does it: up to the smaller precision (beyond
      both coefficient lists every coefficient is zero). */
  predicate Equal(a: Series, b: Series)
    ensures Equal(a, b) <==>
      forall i :: 0 <= i && Below(i, PMin(a.prec, b.prec)) ==> Coef(a.c, i) == Coef(b.c, i)
  {
    forall i :: 0 <= i < Max(|a.c|, |b.c|) && Below(i, PMin(a.prec, b.prec)) ==> Coef(a.c, i) == Coef(b.c, i)
  }

  function Add(a: Series, b: Series): (s: Series)
    ensures Valid(s) && s.prec == PMin(a.prec, b.prec)
    ensures forall i :: Below(i, s.prec) ==> Coef(s.c, i) == Coef(a.c, i) + Coef(b.c, i)
  {
    Make(Polynomials.Add(a.c, b.c), PMin(a.prec, b.prec))
  }

  function Neg(a: Series): (s: Series)
    ensures Valid(a) ==> Valid(s)
    ensures s.prec == a.prec && forall i :: Coef(s.c, i) == -Coef(a.c, i)
  {
    Series(Polynomials.Neg(a.c), a.prec)
  }

  /** Multiplication by a field element. */
  function Scale(k: real, a: Series): (s: Series)
    ensures Valid(s) && s.prec == a.prec
    ensures forall i {:trigger Coef(s.c, i)} :: Below(i, s.prec) ==> Coef(s.c, i) == k * Coef(a.c, i)
  {
    ScaledCoefficients(k, a);
    Make(Polynomials.Scale(k, a.c), a.prec)
  }

  lemma ScaledCoefficients(k: real, a: Series)
    ensures forall i {:trigger Coef(Make(Polynomials.Scale(k, a.c), a.prec).c, i)} :: Below(i, a.prec) ==>
      Coef(Make(Polynomials.Scale(k, a.c), a.prec).c, i) == k * Coef(a.c, i)
  {
    forall i | Below(i, a.prec) ensures Coef(Make(Polynomials.Scale(k, a.c), a.prec).c, i) == k * Coef(a.c, i) {
      ScaledCoefficient(k, a, i);
    }
  }

  lemma ScaledCoefficient(k: real, a: Series, i: int)
    requires Below(i, a.prec)
    ensures Coef(Make(Polynomials.Scale(k, a.c), a.prec).c, i) == k * Coef(a.c, i)
  {
    MakeAt(Polynomials.Scale(k, a.c), a.prec, i);
    ScaleAt(k, a.c, i);
  }

  /** The product; its precision is `min(val(a) + prec(b), val(b) + prec(a))`. */
  function Mul(a: Series, b: Series): (s: Series)
    requires Valid(a) && Valid(b)
    ensures Valid(s) && s.prec == PMin(PPlus(Val(a), b.prec), PPlus(Val(b), a.prec))
  {
    Make(Polynomials.Mul(a.c, b.c), PMin(PPlus(Val(a), b.prec), PPlus(Val(b), a.prec)))
  }

  /** Division by `x^k`, dropping the terms below `x^k` (`shift(-k)`, `// x^k`). */
  function ShiftDown(a: Series, k: nat): (s: Series)
    ensures Valid(a) ==> Valid(s)
    ensures s.prec == PMinus(a.prec, k)
    ensures forall i :: 0 <= i ==> Coef(s.c, i) == Coef(a.c, i + k)
  {
    Series(Polynomials.ShiftDown(a.c, k), PMinus(a.prec, k))
  }

  /** Multiplication by `x^k`. */
  function ShiftUp(a: Series, k: nat): (s: Series)
    requires Valid(a)
    ensures Valid(s)
  {
    Mul(Exact(Monomial(1.0, k)), a)
  }

  /** Multiplied by `x^d` with `d > 0`, a series has a known, zero constant coefficient. */
  lemma ShiftUpConstant(a: Series, d: nat)
    requires Valid(a) && d > 0
    ensures Coef(ShiftUp(a, d).c, 0) == 0.0 && Below(0, ShiftUp(a, d).prec)
  {
    var x := Exact(Monomial(1.0, d));
    assert x.c[d] == 1.0;
    ValuationAt(x.c, d);
    MulCoef(x.c, a.c, 0);
    MakeAt(Polynomials.Mul(x.c, a.c), ShiftUp(a, d).prec, 0);
  }

  /** `a(x^q)`: the precision scales with `q`. */
  function Inflate(a: Series, q: nat): (s: Series)
    requires q > 0
    ensures Valid(a) ==> Valid(s)
    ensures s.prec == PTimes(a.prec, q)
    ensures forall i :: 0 <= i ==> Coef(s.c, i) == if i % q == 0 then Coef(a.c, i / q) else 0.0
  {
    if a.prec.Fin? && Valid(a) && |a.c| > 0 then
      InflateFits(|a.c|, a.prec.n, q);
      Series(Polynomials.Inflate(a.c, q), PTimes(a.prec, q))
    else
      Series(Polynomials.Inflate(a.c, q), PTimes(a.prec, q))
  }

  lemma InflateFits(len: nat, prec: nat, q: nat)
    requires q > 0 && 0 < len <= prec
    ensures (len - 1) * q + 1 <= prec * q
  {
    MulStrict(len - 1, prec, q);
  }

  /** `a(x^(1/q))`, rebuilt from the coefficient dictionary: the result is exact. */
  function Deflate(a: Series, q: nat): (s: Series)
    requires q > 0
    ensures s.prec == Inf
    ensures Canonical(a.c) && AllMultiples(a.c, q) ==> Valid(s)
    ensures forall i :: 0 <= i ==> Coef(s.c, i) == Coef(a.c, i * q)
  {
    Series(Polynomials.Deflate(a.c, q), Inf)
  }

  /** The derivative; one coefficient of precision is lost. */
  function Derivative(a: Series): (s: Series)
    ensures Valid(s) && s.prec == PMinus(a.prec, 1)
  {
    Make(Polynomials.Derivative(a.c), PMinus(a.prec, 1))
  }

  /** `sum_{1 <= j < n} a[j]*b[k-j]`: the convolution without its `j = 0` term. */
  function TailConv(a: Poly, b: seq<real>, k: int, n: nat): real {
    if n <= 1 then 0.0 else TailConv(a, b, k, n - 1) + Coef(a, n - 1) * Coef(b, k - (n - 1))
  }

  /** The next coefficient of `1/a` from the ones before it. */
  function NextInverseCoef(a: Poly, b: seq<real>): real
    requires Coef(a, 0) != 0.0
  {
    (if |b| == 0 then 1.0 else -TailConv(a, b, |b|, |b| + 1)) / Coef(a, 0)
  }

  /** The first `n` coefficients of `1/a`. */
  function InverseCoefs(a: Poly, n: nat): (b: seq<real>)
    requires Coef(a, 0) != 0.0
    ensures |b| == n
  {
    if n == 0 then [] else
      var b := InverseCoefs(a, n - 1);
      b + [NextInverseCoef(a, b)]
  }

  /** The inverse of a unit. An exact unit that is not a constant gets the
      ring's default precision. */
  function Inverse(a: Series): (s: Series)
    requires Valid(a) && Coef(a.c, 0) != 0.0
    ensures Valid(s)
    ensures s.prec == (if a.prec.Inf? then (if |a.c| == 1 then Inf else Fin(DefaultPrec)) else a.prec)
  {
    if a.prec.Inf? && |a.c| == 1 then Exact([1.0 / a.c[0]])
    else
      var p := if a.prec.Inf? then DefaultPrec else a.prec.n;
      Make(InverseCoefs(a.c, p), Fin(p))
  }

  /** The products `a*b` and `b*a` agree. */
  lemma MulComm(a: Series, b: Series)
    requires Valid(a) && Valid(b)
    ensures Mul(a, b) == Mul(b, a)
  {
    forall k | 0 <= k ensures Coef(Polynomials.Mul(a.c, b.c), k) == Coef(Polynomials.Mul(b.c, a.c), k) {
      MulCoef(a.c, b.c, k);
      MulCoef(b.c, a.c, k);
      ConvSumComm(a.c, b.c, k);
    }
    CanonicalExt(Polynomials.Mul(a.c, b.c), Polynomials.Mul(b.c, a.c));
    var pa := PPlus(Val(a), b.prec);
    var pb := PPlus(Val(b), a.prec);
    assert PMin(pa, pb) == PMin(pb, pa);
  }

  /** The convolution is symmetric. */
  lemma ConvSumComm(p: Poly, q: Poly, k: nat)
    ensures ConvSum(p, q, k, k + 1) == ConvSum(q, p, k, k + 1)
  {
    ConvSumReverse(p, q, k, k + 1);
  }

  /** `sum_{j < n} p[j]*q[k-j]` summed from the other end. */
  function ConvSumFrom(p: Poly, q: Poly, k: int, lo: int, hi: int): real
    decreases hi - lo
  {
    if hi <= lo then 0.0 else Coef(p, lo) * Coef(q, k - lo) + ConvSumFrom(p, q, k, lo + 1, hi)
  }

  lemma {:induction false} ConvSumAsFrom(p: Poly, q: Poly, k: int, n: nat)
    ensures ConvSum(p, q, k, n) == ConvSumFrom(p, q, k, 0, n)
  {
    if n > 0 {
      ConvSumAsFrom(p, q, k, n - 1);
      ConvSumFromLast(p, q, k, 0, n);
    }
  }

  lemma {:induction false} ConvSumFromLast(p: Poly, q: Poly, k: int, lo: int, hi: int)
    requires lo < hi
    ensures ConvSumFrom(p, q, k, lo, hi) == ConvSumFrom(p, q, k, lo, hi - 1) + Coef(p, hi - 1) * Coef(q, k - (hi - 1))
    decreases hi - lo
  {
    if lo < hi - 1 {
      ConvSumFromLast(p, q, k, lo + 1, hi);
    }
  }

  /** Reindexing `j := k - j` turns the sum over `[lo, hi)` of `p*q` into the
      sum over `(k - hi, k - lo]` of `q*p`. */
  lemma {:induction false} ConvSumFromReindex(p: Poly, q: Poly, k: int, lo: int, hi: int)
    ensures ConvSumFrom(p, q, k, lo, hi) == ConvSumFrom(q, p, k, k - hi + 1, k - lo + 1)
    decreases hi - lo
  {
    if lo < hi {
      ConvSumFromReindex(p, q, k, lo + 1, hi);
      ConvSumFromLast(q, p, k, k - hi + 1, k - lo + 1);
    }
  }

  lemma ConvSumReverse(p: Poly, q: Poly, k: nat, n: nat)
    requires n == k + 1
    ensures ConvSum(p, q, k, n) == ConvSum(q, p, k, n)
  {
    ConvSumAsFrom(p, q, k, n);
    ConvSumAsFrom(q, p, k, n);
    ConvSumFromReindex(p, q, k, 0, n);
  }

  /** The convolution only looks at coefficients. */
  lemma {:induction false} ConvSumCongruent(p: Poly, q: Poly, q': seq<real>, k: int, n: nat)
    requires forall i :: Coef(q, i) == Coef(q', i)
    ensures ConvSum(p, q, k, n) == ConvSum(p, q', k, n)
  {
    if n > 0 {
      ConvSumCongruent(p, q, q', k, n - 1);
      assert Coef(q, k - (n - 1)) == Coef(q', k - (n - 1));
    }
  }

  lemma {:induction false} ConvSumSplit(p: Poly, q: seq<real>, k: int, n: nat)
    requires n >= 1
    ensures ConvSum(p, q, k, n) == Coef(p, 0) * Coef(q, k) + TailConv(p, q, k, n)
  {
    if n > 1 {
      ConvSumSplit(p, q, k, n - 1);
    }
  }

  /** `TailConv` at `k` only reads the coefficients below `k`. */
  lemma {:induction false} TailConvPrefix(a: Poly, b: seq<real>, b': seq<real>, k: int, n: nat)
    requires n <= k + 1
    requires forall i :: 0 <= i < k ==> Coef(b, i) == Coef(b', i)
    ensures TailConv(a, b, k, n) == TailConv(a, b', k, n)
  {
    if n > 1 {
      TailConvPrefix(a, b, b', k, n - 1);
    }
  }

  lemma {:induction false} InverseCoefsPrefix(a: Poly, n: nat, m: nat)
    requires Coef(a, 0) != 0.0 && m <= n
    ensures InverseCoefs(a, n)[..m] == InverseCoefs(a, m)
    decreases n
  {
    if m < n {
      InverseCoefsPrefix(a, n - 1, m);
      assert InverseCoefs(a, n)[..n - 1] == InverseCoefs(a, n - 1);
    }
  }

  /** The coefficients of `a * InverseCoefs(a, n)` below `x^n` are those of `1`. */
  lemma InverseCoefsProduct(a: Poly, n: nat, k: nat)
    requires Coef(a, 0) != 0.0 && k < n
    ensures ConvSum(a, InverseCoefs(a, n), k, k + 1) == if k == 0 then 1.0 else 0.0
  {
    var b := InverseCoefs(a, n);
    var pre := InverseCoefs(a, k);
    InverseCoefsAt(a, n, k);
    var t := TailConv(a, pre, k, k + 1);
    var x := if k == 0 then 1.0 else -t;
    assert Coef(b, k) == x / Coef(a, 0);
    CancelDivision(Coef(a, 0), x);
    assert Coef(a, 0) * Coef(b, k) == x;
    ConvSumSplit(a, b, k, k + 1);
    TailConvPrefix(a, b, pre, k, k + 1);
    assert ConvSum(a, b, k, k + 1) == x + t;
    assert k == 0 ==> t == 0.0;
  }

  /** Coefficient `k` of the longer list is the next coefficient after the
      first `k`, and the ones before it are those first `k`. */
  lemma InverseCoefsAt(a: Poly, n: nat, k: nat)
    requires Coef(a, 0) != 0.0 && k < n
    ensures Coef(InverseCoefs(a, n), k) == NextInverseCoef(a, InverseCoefs(a, k))
    ensures forall i :: 0 <= i < k ==> Coef(InverseCoefs(a, n), i) == Coef(InverseCoefs(a, k), i)
  {
    var b := InverseCoefs(a, n);
    var pre := InverseCoefs(a, k);
    InverseCoefsPrefix(a, n, k + 1);
    InverseCoefsPrefix(a, n, k);
    assert b[..k + 1] == pre + [NextInverseCoef(a, pre)];
    assert b[k] == b[..k + 1][k];
    forall i | 0 <= i < k ensures Coef(b, i) == Coef(pre, i) {
      assert b[i] == b[..k][i];
    }
  }

  lemma CancelDivision(a: real, x: real)
    requires a != 0.0
    ensures a * (x / a) == x
  {
  }

  /** The inverse is a right inverse up to the known precision. */
  lemma InverseCorrect(a: Series)
    requires Valid(a) && Coef(a.c, 0) != 0.0
    ensures Equal(Mul(a, Inverse(a)), One)
  {
    var inv := Inverse(a);
    var m := Mul(a, inv);
    forall k | 0 <= k && Below(k, PMin(m.prec, One.prec))
      ensures Coef(m.c, k) == Coef(One.c, k)
    {
      MulCoef(a.c, inv.c, k);
      if a.prec.Inf? && |a.c| == 1 {
        InverseConstant(a, inv, k);
      } else {
        InverseTruncatedAt(a, inv, m, k);
      }
    }
  }

  lemma InverseTruncatedAt(a: Series, inv: Series, m: Series, k: nat)
    requires Valid(a) && Coef(a.c, 0) != 0.0 && !(a.prec.Inf? && |a.c| == 1)
    requires inv == Inverse(a) && m == Mul(a, inv) && Below(k, m.prec)
    ensures ConvSum(a.c, inv.c, k, k + 1) == Coef(One.c, k)
  {
    var p := if a.prec.Inf? then DefaultPrec else a.prec.n;
    assert inv == Make(InverseCoefs(a.c, p), Fin(p));
    InverseLeading(a.c, p, inv);
    assert k < p;
    InverseBelowPrec(a.c, p, inv, k);
  }

  /** The truncated inverse starts with `1/a[0]`, which is not zero. */
  lemma InverseLeading(a: Poly, p: nat, inv: Series)
    requires Coef(a, 0) != 0.0 && p > 0 && inv == Make(InverseCoefs(a, p), Fin(p))
    ensures Valid(inv) && Coef(inv.c, 0) != 0.0 && Val(inv) == Fin(0)
  {
    var c0 := 1.0 / Coef(a, 0);
    ReciprocalNonzero(Coef(a, 0), c0);
    InverseCoefsPrefix(a, p, 1);
    assert InverseCoefs(a, p)[0] == InverseCoefs(a, 1)[0] == c0;
  }

  lemma InverseBelowPrec(a: Poly, p: nat, inv: Series, k: nat)
    requires Coef(a, 0) != 0.0 && k < p && inv == Make(InverseCoefs(a, p), Fin(p))
    ensures ConvSum(a, inv.c, k, k + 1) == Coef(One.c, k)
  {
    ConvSumCongruent(a, inv.c, InverseCoefs(a, p), k, k + 1);
    InverseCoefsProduct(a, p, k);
  }

  lemma InverseConstant(a: Series, inv: Series, k: nat)
    requires Valid(a) && |a.c| == 1 && a.c[0] != 0.0 && inv.c == [1.0 / a.c[0]]
    ensures ConvSum(a.c, inv.c, k, k + 1) == Coef(One.c, k)
  {
    if k == 0 {
      assert ConvSum(a.c, inv.c, 0, 1) == a.c[0] * (1.0 / a.c[0]);
    } else {
      ConvSumZero(a.c, inv.c, k, k + 1);
    }
  }

  // ---------------------------------------------------------------------------
  // Ring identities used by the series arithmetic

  /** A valid series is its own `c + O(x^prec)`. */
  lemma MakeValid(s: Series)
    requires Valid(s)
    ensures Make(s.c, s.prec) == s
  {
    if s.prec.Fin? {
      TruncateShort(s.c, s.prec.n);
    } else {
      TrimCanonical(s.c);
    }
  }

  /** The constant term of a product of two series of valuation zero is the
      product of theirs, and it is known. */
  lemma MulConstant(a: Series, b: Series)
    requires Valid(a) && Valid(b) && Coef(a.c, 0) != 0.0 && Coef(b.c, 0) != 0.0
    ensures Coef(Mul(a, b).c, 0) == Coef(a.c, 0) * Coef(b.c, 0)
    ensures Coef(Mul(a, b).c, 0) != 0.0
  {
    var p := Polynomials.Mul(a.c, b.c);
    MulCoef(a.c, b.c, 0);
    assert ConvSum(a.c, b.c, 0, 1) == Coef(a.c, 0) * Coef(b.c, 0);
    assert Val(a) == Fin(0) && Val(b) == Fin(0);
    assert Below(0, Mul(a, b).prec);
    MakeAt(p, Mul(a, b).prec, 0);
    ProductNonzero(Coef(a.c, 0), Coef(b.c, 0));
  }

  /** A unit times its inverse is the constant one, up to the precision of the product. */
  lemma MulInverse(a: Series)
    requires Valid(a) && Coef(a.c, 0) != 0.0
    ensures Mul(a, Inverse(a)).c == [1.0]
  {
    var inv := Inverse(a);
    var m := Mul(a, inv);
    InverseUnit(a);
    ValuationAt(inv.c, 0);
    MulConstant(a, inv);
    InverseCorrect(a);
    forall i | 0 <= i ensures Coef(m.c, i) == Coef([1.0], i) {
      if !Below(i, m.prec) {
        assert Coef(m.c, i) == 0.0;
      }
    }
    CanonicalExt(m.c, [1.0]);
  }

  /** A series whose coefficients are those of one is one up to its precision. */
  lemma EqualOne(s: Series)
    requires s.c == [1.0]
    ensures Equal(s, One)
  {
  }

  lemma PrecExt(p: Prec, q: Prec)
    requires forall i :: Below(i, p) <==> Below(i, q)
    ensures p == q
  {
    if p.Fin? {
      assert !Below(p.n, q);
    }
    if q.Fin? {
      assert !Below(q.n, p);
    }
  }

  /** Two series with the same precision and the same known coefficients are equal. */
  lemma SeriesExt(s: Series, t: Series)
    requires Valid(s) && Valid(t) && s.prec == t.prec
    requires forall i :: 0 <= i && Below(i, s.prec) ==> Coef(s.c, i) == Coef(t.c, i)
    ensures s == t
  {
    forall i | 0 <= i ensures Coef(s.c, i) == Coef(t.c, i) {
      if !Below(i, s.prec) {
        assert Coef(s.c, i) == 0.0 && Coef(t.c, i) == 0.0;
      }
    }
    CanonicalExt(s.c, t.c);
  }

  lemma {:induction false} ConvSumOne(p: Poly, k: nat, n: nat)
    ensures ConvSum(p, [1.0], k, n) == if k < n then Coef(p, k) else 0.0
  {
    if n > 0 {
      ConvSumOne(p, k, n - 1);
    }
  }

  /** The exact one is neutral for multiplication, on both sides. */
  lemma MulOne(a: Series)
    requires Valid(a)
    ensures Mul(a, One) == a && Mul(One, a) == a
  {
    PolyMulOne(a.c);
    assert Val(One) == Fin(0);
    assert PMin(PPlus(Val(a), Inf), PPlus(Fin(0), a.prec)) == a.prec;
    MakeValid(a);
    MulComm(a, One);
  }

  /** Multiplying the coefficients by the constant one changes nothing. */
  lemma PolyMulOne(p: Poly)
    requires Canonical(p)
    ensures Polynomials.Mul(p, [1.0]) == p
  {
    forall k | 0 <= k ensures Coef(Polynomials.Mul(p, [1.0]), k) == Coef(p, k) {
      MulCoef(p, [1.0], k);
      ConvSumOne(p, k, k + 1);
    }
    CanonicalExt(Polynomials.Mul(p, [1.0]), p);
  }

  /** The exact zero is neutral for addition. */
  lemma AddZero(a: Series)
    requires Valid(a)
    ensures Add(Zero, a) == a && Add(a, Zero) == a
  {
    CanonicalExt(Polynomials.Add([], a.c), a.c);
    CanonicalExt(Polynomials.Add(a.c, []), a.c);
    MakeValid(a);
  }

  lemma AddComm(a: Series, b: Series)
    ensures Add(a, b) == Add(b, a)
  {
    CanonicalExt(Polynomials.Add(a.c, b.c), Polynomials.Add(b.c, a.c));
    assert PMin(a.prec, b.prec) == PMin(b.prec, a.prec);
  }

  /** Negation is an involution. */
  lemma NegNeg(a: Series)
    ensures Neg(Neg(a)) == a
  {
    assert Polynomials.Neg(Polynomials.Neg(a.c)) == a.c;
  }

  /** A series minus itself has no known nonzero coefficient. */
  lemma AddNeg(a: Series)
    ensures IsZero(Add(a, Neg(a)))
  {
    CanonicalExt(Polynomials.Add(a.c, Polynomials.Neg(a.c)), []);
  }

  /** The inverse of a unit is a unit: its constant coefficient is not zero. */
  lemma InverseUnit(a: Series)
    requires Valid(a) && Coef(a.c, 0) != 0.0
    ensures !IsZero(Inverse(a)) && Ord(Inverse(a)) == 0
  {
    var inv := Inverse(a);
    if a.prec.Inf? && |a.c| == 1 {
      ReciprocalNonzero(a.c[0], 1.0 / a.c[0]);
      assert Coef(inv.c, 0) == 1.0 / a.c[0];
    } else {
      var p := if a.prec.Inf? then DefaultPrec else a.prec.n;
      InverseLeading(a.c, p, inv);
    }
  }
}
