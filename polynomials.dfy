/** Dense univariate polynomials over the coefficient field: `p[i]` is the
    coefficient of `x^i`. A canonical polynomial has no trailing zero, so two
    canonical polynomials are equal exactly when they are equal as polynomials
    (this is how the exponential parts and the shift-quotient certificates are
    compared). */
module Polynomials {
  import opened Numbers

  type Poly = seq<real>

  predicate Canonical(p: Poly) {
    |p| == 0 || p[|p| - 1] != 0.0
  }

  /** Coefficient of `x^i`, zero outside the stored range. */
  function Coef(p: Poly, i: int): real {
    if 0 <= i < |p| then p[i] else 0.0
  }

  /** Drops trailing zeros. */
  function Trim(p: Poly): (r: Poly)
    ensures Canonical(r) && |r| <= |p| && r == p[..|r|]
    ensures forall i :: Coef(r, i) == Coef(p, i)
    ensures forall i :: |r| <= i < |p| ==> p[i] == 0.0
    decreases |p|
  {
    if |p| == 0 then p
    else if p[|p| - 1] == 0.0 then Trim(p[..|p| - 1])
    else p
  }

  lemma TrimCanonical(p: Poly)
    requires Canonical(p)
    ensures Trim(p) == p
  {
  }

  /** Two canonical polynomials with the same coefficients are equal. */
  lemma {:induction false} CanonicalExt(p: Poly, q: Poly)
    requires Canonical(p) && Canonical(q)
    requires forall i :: 0 <= i ==> Coef(p, i) == Coef(q, i)
    ensures p == q
  {
    assert Coef(p, |q| - 1) == Coef(q, |q| - 1) && Coef(p, |p| - 1) == Coef(q, |p| - 1);
    if |p| == |q| {
      forall i | 0 <= i < |p| ensures p[i] == q[i] {
        assert Coef(p, i) == Coef(q, i);
      }
    }
  }

  /** The degree, `-1` for the zero polynomial (the host library's convention). */
  function Degree(p: Poly): int {
    |Trim(p)| - 1
  }

  function Constant(c: real): (r: Poly)
    ensures Canonical(r) && Coef(r, 0) == c
  {
    if c == 0.0 then [] else [c]
  }

  /** `c*x^k`. */
  function Monomial(c: real, k: nat): (r: Poly)
    ensures Canonical(r)
    ensures forall i :: Coef(r, i) == if i == k then c else 0.0
  {
    if c == 0.0 then [] else seq(k + 1, i requires 0 <= i <= k => if i == k then c else 0.0)
  }

  lemma MonomialZero(k: nat)
    ensures Monomial(0.0, k) == []
  {
  }

  function Add(p: Poly, q: Poly): (r: Poly)
    ensures Canonical(r)
    ensures forall i :: Coef(r, i) == Coef(p, i) + Coef(q, i)
  {
    Trim(seq(Max(|p|, |q|), i => Coef(p, i) + Coef(q, i)))
  }

  lemma AddComm(p: Poly, q: Poly)
    ensures Add(p, q) == Add(q, p)
  {
    CanonicalExt(Add(p, q), Add(q, p));
  }

  function Neg(p: Poly): (r: Poly)
    ensures |r| == |p| && (Canonical(p) ==> Canonical(r))
    ensures forall i :: Coef(r, i) == -Coef(p, i)
  {
    seq(|p|, i requires 0 <= i < |p| => -p[i])
  }

  /** `p + (-p)` is the zero polynomial. */
  lemma AddNeg(p: Poly)
    ensures Add(p, Neg(p)) == []
  {
    CanonicalExt(Add(p, Neg(p)), []);
  }

  function Sub(p: Poly, q: Poly): (r: Poly)
    ensures Canonical(r)
    ensures forall i :: Coef(r, i) == Coef(p, i) - Coef(q, i)
  {
    Add(p, Neg(q))
  }

  function Scale(c: real, p: Poly): (r: Poly)
    ensures Canonical(r)
    ensures forall i :: Coef(r, i) == c * Coef(p, i)
  {
    Trim(seq(|p|, i requires 0 <= i < |p| => c * p[i]))
  }

  /** One coefficient of a negated polynomial. */
  lemma NegAt(p: Poly, i: int)
    ensures Coef(Neg(p), i) == -Coef(p, i)
  {
  }

  /** One coefficient of a scaled polynomial. */
  lemma ScaleAt(c: real, p: Poly, i: int)
    ensures Coef(Scale(c, p), i) == c * Coef(p, i)
  {
  }

  /** Scaling respects equal coefficients (stated once, so that callers need
      no reasoning about products). */
  lemma ScaleCongruent(c: real, p: Poly, q: Poly, i: int)
    requires Coef(p, i) == Coef(q, i)
    ensures Coef(Scale(c, p), i) == Coef(Scale(c, q), i)
  {
  }

  /** Scaling commutes with negation. */
  lemma ScaleNeg(k: real, p: Poly)
    ensures Scale(k, Neg(p)) == Neg(Scale(k, p))
  {
    var l, r := Scale(k, Neg(p)), Neg(Scale(k, p));
    forall i | 0 <= i ensures Coef(l, i) == Coef(r, i) {
      ScaleNegAt(k, p, i);
    }
    CanonicalExt(l, r);
  }

  lemma ScaleNegAt(k: real, p: Poly, i: nat)
    ensures Coef(Scale(k, Neg(p)), i) == Coef(Neg(Scale(k, p)), i)
  {
    ScaleOfNegAt(k, p, i);
    ScaleAt(k, p, i);
    NegAt(Scale(k, p), i);
  }

  lemma ScaleOfNegAt(k: real, p: Poly, i: nat)
    ensures Coef(Scale(k, Neg(p)), i) == -(k * Coef(p, i))
  {
    NegAt(p, i);
    ScaleAt(k, Neg(p), i);
    TimesNeg(k, Coef(p, i));
  }

  lemma TimesNeg(k: real, x: real)
    ensures k * -x == -(k * x)
  {
  }

  lemma ScaleVanishes(c: real, p: Poly, i: int)
    requires Coef(p, i) == 0.0
    ensures Coef(Scale(c, p), i) == 0.0
  {
  }

  /** Adds `c` to the constant coefficient. */
  function AddConstant(p: Poly, c: real): (r: Poly)
    ensures Canonical(r)
    ensures Coef(r, 0) == Coef(p, 0) + c
    ensures forall i :: i != 0 ==> Coef(r, i) == Coef(p, i)
  {
    Add(p, Constant(c))
  }

  /** `sum_{j < n} p[j]*q[k-j]`. */
  function ConvSum(p: Poly, q: Poly, k: int, n: nat): real {
    if n == 0 then 0.0 else ConvSum(p, q, k, n - 1) + Coef(p, n - 1) * Coef(q, k - (n - 1))
  }

  function Mul(p: Poly, q: Poly): (r: Poly)
    ensures Canonical(r)
  {
    if |p| == 0 || |q| == 0 then []
    else Trim(seq(|p| + |q| - 1, k requires 0 <= k => ConvSum(p, q, k, k + 1)))
  }

  /** The coefficients of a product are the convolution sums. */
  lemma MulCoef(p: Poly, q: Poly, k: nat)
    ensures Coef(Mul(p, q), k) == ConvSum(p, q, k, k + 1)
  {
    if |p| == 0 || |q| == 0 {
      ConvSumZero(p, q, k, k + 1);
    } else if k >= |p| + |q| - 1 {
      ConvSumZero(p, q, k, k + 1);
    }
  }

  /** Outside the product's support every convolution term vanishes. */
  lemma {:induction false} ConvSumZero(p: Poly, q: Poly, k: int, n: nat)
    requires |p| == 0 || |q| == 0 || k >= |p| + |q| - 1
    ensures ConvSum(p, q, k, n) == 0.0
  {
    if n > 0 {
      ConvSumZero(p, q, k, n - 1);
    }
  }

  /** Scaling by one changes nothing. */
  lemma ScaleOne(p: Poly)
    requires Canonical(p)
    ensures Scale(1.0, p) == p
  {
    CanonicalExt(Scale(1.0, p), p);
  }

  /** A factor of the left operand comes out of a product. */
  lemma MulScaleLeft(c: real, p: Poly, q: Poly)
    ensures Mul(Scale(c, p), q) == Scale(c, Mul(p, q))
  {
    forall k | 0 <= k ensures Coef(Mul(Scale(c, p), q), k) == Coef(Scale(c, Mul(p, q)), k) {
      MulScaleLeftAt(c, p, q, k);
    }
    CanonicalExt(Mul(Scale(c, p), q), Scale(c, Mul(p, q)));
  }

  lemma MulScaleLeftAt(c: real, p: Poly, q: Poly, k: nat)
    ensures Coef(Mul(Scale(c, p), q), k) == Coef(Scale(c, Mul(p, q)), k)
  {
    MulCoefScale(c, p, Scale(c, p), q, k);
    ScaleAt(c, Mul(p, q), k);
  }

  /** `sp` is `p` with every coefficient multiplied by `c`. */
  ghost predicate ScaledBy(sp: Poly, c: real, p: Poly) {
    forall i :: Coef(sp, i) == c * Coef(p, i)
  }

  /** A coefficient of a product with a scaled left operand is scaled. */
  lemma MulCoefScale(c: real, p: Poly, sp: Poly, q: Poly, k: nat)
    requires ScaledBy(sp, c, p)
    ensures Coef(Mul(sp, q), k) == c * Coef(Mul(p, q), k)
  {
    MulCoef(sp, q, k);
    MulCoef(p, q, k);
    ConvSumScale(c, p, sp, q, k, k + 1);
  }

  /** The convolution with a scaled left operand is scaled. */
  lemma {:induction false} ConvSumScale(c: real, p: Poly, sp: Poly, q: Poly, k: int, n: nat)
    requires ScaledBy(sp, c, p)
    ensures ConvSum(sp, q, k, n) == c * ConvSum(p, q, k, n)
  {
    if n > 0 {
      ConvSumScale(c, p, sp, q, k, n - 1);
      Distribute(c, ConvSum(sp, q, k, n - 1), ConvSum(p, q, k, n - 1), Coef(sp, n - 1), Coef(p, n - 1),
        Coef(q, k - (n - 1)));
    }
  }

  /** One step of a scaled sum of products. */
  lemma Distribute(c: real, u: real, t: real, x: real, a: real, b: real)
    requires u == c * t && x == c * a
    ensures u + x * b == c * (t + a * b)
  {
  }


  /** Coefficients `0..n-1` (the host library's `padded_list(n)`). */
  function PaddedList(p: Poly, n: nat): (r: seq<real>)
    ensures |r| == n && forall i :: 0 <= i < n ==> r[i] == Coef(p, i)
  {
    seq(n, i => Coef(p, i))
  }

  /** The polynomial whose coefficient list is `s` read backwards. */
  function Reversed(s: seq<real>): (r: Poly)
    ensures Canonical(r) && |r| <= |s|
    ensures forall i :: 0 <= i < |s| ==> Coef(r, i) == s[|s| - 1 - i]
  {
    Trim(seq(|s|, i requires 0 <= i < |s| => s[|s| - 1 - i]))
  }

  /** The host library's `reverse()`: the coefficient list up to the degree, backwards. */
  function Reverse(p: Poly): (r: Poly)
    ensures Canonical(r)
  {
    Reversed(Trim(p))
  }

  /** `p mod x^n`: the terms of degree below `n`. */
  function Truncate(p: Poly, n: nat): (r: Poly)
    ensures Canonical(r)
    ensures forall i :: Coef(r, i) == if i < n then Coef(p, i) else 0.0
  {
    Trim(seq(n, i => Coef(p, i)))
  }

  lemma TruncateShort(p: Poly, n: nat)
    requires Canonical(p) && |p| <= n
    ensures Truncate(p, n) == p
  {
    CanonicalExt(Truncate(p, n), p);
  }

  /** The host library's `shift(-k)`: divides by `x^k`, dropping the terms below `x^k`. */
  function ShiftDown(p: Poly, k: nat): (r: Poly)
    ensures Canonical(p) ==> Canonical(r)
    ensures forall i :: 0 <= i ==> Coef(r, i) == Coef(p, i + k)
    ensures k == 0 ==> r == p
  {
    if k <= |p| then
      assert p[0..] == p;
      p[k..]
    else []
  }

  /** `p(x^q)`: every exponent multiplied by `q`. */
  function Inflate(p: Poly, q: nat): (r: Poly)
    requires q > 0
    ensures Canonical(p) ==> Canonical(r)
    ensures forall i :: 0 <= i ==> Coef(r, i) == if i % q == 0 then Coef(p, i / q) else 0.0
  {
    if |p| == 0 then []
    else
      var r := seq((|p| - 1) * q + 1, i requires 0 <= i => if i % q == 0 && i / q < |p| then p[i / q] else 0.0);
      InflateBounds(|p|, q);
      r
  }

  /** The stored range of `p(x^q)` holds exactly the multiples `i` of `q` with `i/q < |p|`. */
  lemma InflateBounds(n: nat, q: nat)
    requires q > 0 && n > 0
    ensures forall i :: 0 <= i < (n - 1) * q + 1 && i % q == 0 ==> i / q < n
    ensures forall i :: 0 <= i && i % q == 0 && i / q < n ==> i < (n - 1) * q + 1
    ensures (n - 1) * q % q == 0 && (n - 1) * q / q == n - 1
  {
    forall i | 0 <= i < (n - 1) * q + 1 && i % q == 0 ensures i / q < n {
      InflateIndex(i, q, n);
    }
    forall i | 0 <= i && i % q == 0 && i / q < n ensures i < (n - 1) * q + 1 {
      InflateIndexBack(i, q, n);
    }
    DividesWitness(q, (n - 1) * q, n - 1);
  }

  lemma InflateIndex(i: nat, q: nat, n: nat)
    requires q > 0 && n > 0 && i < (n - 1) * q + 1
    ensures i / q < n
  {
    if i / q >= n {
      MulStrict(n - 1, i / q, q);
    }
  }

  lemma InflateIndexBack(i: nat, q: nat, n: nat)
    requires q > 0 && i % q == 0 && i / q < n
    ensures i < (n - 1) * q + 1
  {
    assert i == (i / q) * q;
    if i / q < n - 1 {
      MulStrict(i / q, n - 1, q);
    }
  }

  /** Coefficient `q*e` of `p(x^q)` is coefficient `e` of `p`. */
  lemma InflateAt(p: Poly, q: nat, e: nat)
    requires q > 0
    ensures Coef(Inflate(p, q), q * e) == Coef(p, e)
  {
    DividesWitness(q, q * e, e);
  }

  /** `p(x^n)` equals `0` or `1` (written as `k(x^q)`) only for `p` that constant. */
  lemma InflatedConstant(p: Poly, n: nat, k: Poly, q: nat)
    requires Canonical(p) && n > 0 && q > 0 && (k == [] || k == [1.0])
    requires Inflate(p, n) == Inflate(k, q)
    ensures p == k
  {
    InflateUnit(n);
    InflateUnit(q);
    DeflateInflate(p, n);
  }

  /** Every exponent of `p(x^q)` is a multiple of `q`, and deflating gives `p` back. */
  lemma DeflateInflate(p: Poly, q: nat)
    requires Canonical(p) && q > 0
    ensures AllMultiples(Inflate(p, q), q) && Deflate(Inflate(p, q), q) == p
  {
    var r := Inflate(p, q);
    forall e | 0 <= e < |r| && r[e] != 0.0 ensures Divides(q, e) {
      assert Coef(r, e) == r[e];
    }
    var d := Deflate(r, q);
    forall i | 0 <= i ensures Coef(d, i) == Coef(p, i) {
      InflateAt(p, q, i);
    }
    CanonicalExt(d, p);
  }

  /** When every exponent of `p` is a multiple of `q`, `p(x^(1/q))` put back
      into `x^q` is `p`. */
  lemma InflateDeflate(p: Poly, q: nat)
    requires Canonical(p) && q > 0 && AllMultiples(p, q)
    ensures Inflate(Deflate(p, q), q) == p
  {
    var r := Inflate(Deflate(p, q), q);
    forall i | 0 <= i ensures Coef(r, i) == Coef(p, i) {
      if i % q == 0 {
        DividesIntro(q, i);
        assert (i / q) * q == i;
      } else if i < |p| {
        assert p[i] == 0.0;
      }
    }
    CanonicalExt(r, p);
  }

  /** Substituting `x^1` changes nothing. */
  lemma InflateByOne(p: Poly)
    requires Canonical(p)
    ensures Inflate(p, 1) == p
  {
    CanonicalExt(Inflate(p, 1), p);
  }

  /** The constant polynomials `0` and `1` are unchanged by `Inflate` and `Deflate`. */
  lemma InflateUnit(q: nat)
    requires q > 0
    ensures Inflate([], q) == [] && Deflate([], q) == []
    ensures Inflate([1.0], q) == [1.0] && Deflate([1.0], q) == [1.0]
  {
    assert Coef([1.0], 0) == 1.0;
  }

  /** The inverse of `Inflate` on the exponents that are multiples of `q`:
      coefficient `i` is the old coefficient `i*q`. */
  function Deflate(p: Poly, q: nat): (r: Poly)
    requires q > 0
    ensures forall i :: 0 <= i ==> Coef(r, i) == Coef(p, i * q)
    ensures Canonical(p) && AllMultiples(p, q) ==> Canonical(r)
  {
    var n := if |p| == 0 then 0 else (|p| - 1) / q + 1;
    DeflateBounds(p, q);
    seq(n, i requires 0 <= i < n => Coef(p, i * q))
  }

  lemma DeflateBounds(p: Poly, q: nat)
    requires q > 0
    ensures forall i :: 0 <= i && |p| > 0 && i >= (|p| - 1) / q + 1 ==> i * q >= |p|
    ensures Canonical(p) && |p| > 0 && AllMultiples(p, q) ==> ((|p| - 1) / q) * q == |p| - 1
  {
    forall i | 0 <= i && |p| > 0 && i >= (|p| - 1) / q + 1 ensures i * q >= |p| {
      DeflateBeyond(i, q, |p|);
    }
    if Canonical(p) && |p| > 0 && AllMultiples(p, q) {
      DividesIntro(q, |p| - 1);
    }
  }

  lemma DeflateBeyond(i: nat, q: nat, m: nat)
    requires q > 0 && m > 0 && i >= (m - 1) / q + 1
    ensures i * q >= m
  {
    var k := (m - 1) / q;
    assert m - 1 == k * q + (m - 1) % q;
    if i > k + 1 {
      MulStrict(k + 1, i, q);
    }
    assert (k + 1) * q == k * q + q;
  }

  /** The exponents `i >= from` with a nonzero coefficient, in increasing order
      (the host library's `exponents()`). */
  function ExponentsFrom(p: Poly, from: nat): (es: seq<nat>)
    ensures forall k :: 0 <= k < |es| ==> from <= es[k] < |p| && p[es[k]] != 0.0
    ensures forall e :: from <= e < |p| && p[e] != 0.0 ==> e in es
    decreases |p| - from
  {
    if from >= |p| then []
    else if p[from] != 0.0 then [from] + ExponentsFrom(p, from + 1)
    else ExponentsFrom(p, from + 1)
  }

  function Exponents(p: Poly): (es: seq<nat>)
    ensures forall k :: 0 <= k < |es| ==> es[k] < |p| && p[es[k]] != 0.0
    ensures forall e :: 0 <= e < |p| && p[e] != 0.0 ==> e in es
  {
    ExponentsFrom(p, 0)
  }

  /** The exponents come in increasing order. */
  lemma {:induction false} ExponentsIncreasing(p: Poly, from: nat)
    ensures forall a, b :: 0 <= a < b < |ExponentsFrom(p, from)| ==>
      ExponentsFrom(p, from)[a] < ExponentsFrom(p, from)[b]
    decreases |p| - from
  {
    if from < |p| {
      ExponentsIncreasing(p, from + 1);
    }
  }

  /** The same length and the same nonzero coefficients. */
  predicate SameSupport(p: Poly, q: Poly) {
    |p| == |q| && forall i :: 0 <= i < |p| ==> (p[i] != 0.0 <==> q[i] != 0.0)
  }

  lemma {:induction false} SameSupportExponents(p: Poly, q: Poly, from: nat)
    requires SameSupport(p, q)
    ensures ExponentsFrom(p, from) == ExponentsFrom(q, from)
    decreases |p| - from
  {
    if from < |p| {
      SameSupportExponents(p, q, from + 1);
      assert p[from] != 0.0 <==> q[from] != 0.0;
    }
  }

  /** Multiplying by a nonzero constant keeps the nonzero coefficients where they are. */
  lemma ScaleSupport(c: real, p: Poly)
    requires c != 0.0 && Canonical(p)
    ensures SameSupport(p, Scale(c, p))
  {
    var r := Scale(c, p);
    if |p| > 0 {
      assert Coef(r, |p| - 1) != 0.0;
    }
    assert |r| == |p|;
    forall i | 0 <= i < |p| ensures p[i] != 0.0 <==> r[i] != 0.0 {
      assert Coef(r, i) == c * Coef(p, i);
    }
  }

  /** Scaling a canonical polynomial by a nonzero constant scales each stored coefficient. */
  lemma ScaleEntries(c: real, p: Poly)
    requires c != 0.0 && Canonical(p)
    ensures |Scale(c, p)| == |p| && forall i {:trigger Scale(c, p)[i]} :: 0 <= i < |p| ==> Scale(c, p)[i] == c * p[i]
  {
    ScaleSupport(c, p);
    forall i | 0 <= i < |p| ensures Scale(c, p)[i] == c * p[i] {
      assert Coef(Scale(c, p), i) == c * Coef(p, i);
    }
  }

  /** Multiplying every coefficient by a nonzero constant scales the first
      nonzero coefficient. */
  lemma LowestOfScaled(c: real, p: Poly, r: Poly)
    requires c != 0.0 && exists i :: 0 <= i < |p| && p[i] != 0.0
    requires |r| == |p| && forall i {:trigger r[i]} :: 0 <= i < |p| ==> r[i] == c * p[i]
    ensures exists i :: 0 <= i < |r| && r[i] != 0.0
    ensures LowestCoefficient(r) == c * LowestCoefficient(p)
  {
    ValuationOfScaled(c, p, r);
  }

  /** ... and keeps its position. */
  lemma ValuationOfScaled(c: real, p: Poly, r: Poly)
    requires c != 0.0 && exists i :: 0 <= i < |p| && p[i] != 0.0
    requires |r| == |p| && forall i {:trigger r[i]} :: 0 <= i < |p| ==> r[i] == c * p[i]
    ensures exists i :: 0 <= i < |r| && r[i] != 0.0
    ensures Valuation(r) == Valuation(p)
  {
    var v := Valuation(p);
    ProductNonzero(c, p[v]);
    ValuationAt(r, v);
  }

  /** Dividing by the first nonzero coefficient makes it 1. */
  lemma ScaleToMonic(p: Poly, k: real)
    requires Canonical(p) && (exists i :: 0 <= i < |p| && p[i] != 0.0) && k == 1.0 / LowestCoefficient(p)
    ensures exists i :: 0 <= i < |Scale(k, p)| && Scale(k, p)[i] != 0.0
    ensures LowestCoefficient(Scale(k, p)) == 1.0
  {
    var c := LowestCoefficient(p);
    ScaleEntries(k, p);
    LowestOfScaled(k, p, Scale(k, p));
    InverseTimes(c, k, LowestCoefficient(Scale(k, p)));
  }

  lemma InverseTimes(c: real, k: real, x: real)
    requires c != 0.0 && k == 1.0 / c && x == k * c
    ensures x == 1.0
  {
  }

  lemma ReciprocalNonzero(c: real, k: real)
    requires c != 0.0 && k == 1.0 / c
    ensures k != 0.0
  {
  }

  lemma ProductNonzero(a: real, b: real)
    requires a != 0.0 && b != 0.0
    ensures a * b != 0.0
  {
  }

  /** The first nonzero coefficient is the one after a run of zeros. */
  lemma ValuationAt(p: Poly, v: nat)
    requires v < |p| && p[v] != 0.0 && forall i :: 0 <= i < v ==> p[i] == 0.0
    ensures Valuation(p) == v
  {
    var w := Valuation(p);
    assert !(w < v) && !(v < w);
  }

  /** Every exponent with a nonzero coefficient is a multiple of `q`. */
  predicate AllMultiples(p: Poly, q: nat) {
    forall e :: 0 <= e < |p| && p[e] != 0.0 ==> Divides(q, e)
  }

  /** Index of the first nonzero coefficient of a nonzero polynomial. */
  function Valuation(p: Poly): (v: nat)
    requires exists i :: 0 <= i < |p| && p[i] != 0.0
    ensures v < |p| && p[v] != 0.0 && forall i :: 0 <= i < v ==> p[i] == 0.0
    decreases |p|
  {
    if p[0] != 0.0 then 0
    else
      assert exists i :: 0 <= i < |p[1..]| && p[1..][i] != 0.0 by {
        var i :| 0 <= i < |p| && p[i] != 0.0;
        assert p[1..][i - 1] == p[i];
      }
      1 + Valuation(p[1..])
  }

  /** First nonzero coefficient. */
  function LowestCoefficient(p: Poly): (c: real)
    requires exists i :: 0 <= i < |p| && p[i] != 0.0
    ensures c != 0.0
  {
    p[Valuation(p)]
  }

  /** The formal derivative. */
  function Derivative(p: Poly): (r: Poly)
    ensures Canonical(r)
    ensures forall i :: 0 <= i ==> Coef(r, i) == (i + 1) as real * Coef(p, i + 1)
  {
    if |p| <= 1 then []
    else Trim(seq(|p| - 1, i requires 0 <= i < |p| - 1 => (i + 1) as real * p[i + 1]))
  }

  /** `p(q)` by Horner's rule. */
  function Compose(p: Poly, q: Poly): (r: Poly)
    ensures Canonical(r)
    decreases |p|
  {
    if |p| == 0 then [] else Add(Constant(p[0]), Mul(q, Compose(p[1..], q)))
  }

  /** `p^k`. */
  function Power(p: Poly, k: nat): (r: Poly)
    ensures Canonical(r)
  {
    if k == 0 then [1.0] else Mul(p, Power(p, k - 1))
  }
}
