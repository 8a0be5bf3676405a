/** The helpers behind the shift of discrete series: the generalized
    binomial coefficient `_binomial` and the truncated exponentials
    `_super_expansion` and `_sub_expansion`. Polynomials are in `K[x]`;
    `p mod x^n` is `Truncate`, `shift(-k)` is `ShiftDown`, and
    `padded_list` then `reverse` is `Reversed(PaddedList(..))`. */
module ShiftQuotient {
  import opened Numbers
  import opened Polynomials
  import PS = PowerSeries
  import opened Outcomes

  // ---------------------------------------------------------------------------
  // The generalized binomial coefficient

  /** The falling factorial `lam*(lam-1)*...*(lam-k+1)`. */
  function Falling(lam: real, k: nat): real {
    if k == 0 then 1.0 else Falling(lam, k - 1) * (lam - (k - 1) as real)
  }

  /** `lam*(lam-1)*...*(lam-j+1)/j!`, for any `lam` in the field. */
  function Binomial(lam: real, j: nat): real {
    Falling(lam, j) / Factorial(j) as real
  }

  /** The falling factorial peeled from the top: `lam * (lam-1)^(k-1)`. */
  lemma {:induction false} FallingTop(lam: real, k: nat)
    requires k >= 1
    ensures Falling(lam, k) == lam * Falling(lam - 1.0, k - 1)
  {
    if k > 1 {
      FallingTop(lam, k - 1);
      var a := Falling(lam - 1.0, k - 2);
      var c := lam - (k - 1) as real;
      assert Falling(lam, k) == (lam * a) * c;
      assert Falling(lam - 1.0, k - 1) == a * c;
      assert (lam * a) * c == lam * (a * c);
    }
  }

  /** `n` falling `n` times is `n!`. */
  lemma {:induction false} FallingSelf(n: nat)
    ensures Falling(n as real, n) == Factorial(n) as real
  {
    if n > 0 {
      FallingTop(n as real, n);
      FallingSelf(n - 1);
      assert (n - 1) as real == n as real - 1.0;
    }
  }

  /** A natural `n` falls to zero after `n + 1` steps. */
  lemma {:induction false} FallingNatural(n: nat, k: nat)
    requires k > n
    ensures Falling(n as real, k) == 0.0
  {
    if k - 1 > n {
      FallingNatural(n, k - 1);
    } else {
      assert n as real - (k - 1) as real == 0.0;
    }
  }

  /** `_binomial(lam, j)`: `b` multiplied by `lam/(j - jj)` while `lam` steps down. */
  method ComputeBinomial(lam: real, j: nat) returns (b: real)
    ensures b == Binomial(lam, j)
  {
    b := 1.0;
    var l := lam;
    for jj := 0 to j
      invariant l == lam - jj as real
      invariant b * Falling(j as real, jj) == Falling(lam, jj)
    {
      BinomialStep(lam, j, jj, b);
      b := b * (l / (j - jj) as real);
      l := l - 1.0;
    }
    FallingSelf(j);
    DivideOut(b, Factorial(j) as real, Falling(lam, j));
  }

  /** One round of the loop keeps `b * (j)_jj == (lam)_jj`. */
  lemma BinomialStep(lam: real, j: nat, jj: nat, b: real)
    requires jj < j && b * Falling(j as real, jj) == Falling(lam, jj)
    ensures (b * ((lam - jj as real) / (j - jj) as real)) * Falling(j as real, jj + 1) == Falling(lam, jj + 1)
  {
    FallingNext(lam, jj);
    FallingNext(j as real, jj);
    assert (j - jj) as real == j as real - jj as real;
    StepArithmetic(b, Falling(j as real, jj), Falling(lam, jj), lam - jj as real, (j - jj) as real);
  }

  lemma StepArithmetic(b: real, x: real, y: real, l: real, d: real)
    requires d != 0.0 && b * x == y
    ensures (b * (l / d)) * (x * d) == y * l
  {
    var q := l / d;
    assert q * d == l;
    assert (b * q) * (x * d) == (b * x) * (q * d);
  }

  lemma DivideOut(b: real, f: real, y: real)
    requires f > 0.0 && b * f == y
    ensures b == y / f
  {
  }

  lemma FallingNext(lam: real, k: nat)
    ensures Falling(lam, k + 1) == Falling(lam, k) * (lam - k as real)
  {
  }

  /** `_binomial(lam, 0) = 1` and `_binomial(lam, 1) = lam`. */
  lemma BinomialLow(lam: real)
    ensures Binomial(lam, 0) == 1.0 && Binomial(lam, 1) == lam
  {
  }

  /** For a natural `n`, `_binomial(n, j)` vanishes once `j > n`. */
  lemma BinomialNaturalVanishes(n: nat, j: nat)
    requires j > n
    ensures Binomial(n as real, j) == 0.0
  {
    FallingNatural(n, j);
    var f := Factorial(j) as real;
    assert Binomial(n as real, j) == 0.0 / f;
  }

  /** Pascal's rule, for every `lam` in the field. */
  lemma BinomialPascal(lam: real, j: nat)
    ensures Binomial(lam + 1.0, j + 1) == Binomial(lam, j) + Binomial(lam, j + 1)
  {
    var f, fj := Falling(lam, j), Factorial(j) as real;
    var d := (j as real + 1.0) * fj;
    PascalLeft(lam, j);
    PascalRight(lam, j);
    PascalArithmetic(f, fj, lam, j as real);
    SumOfParts(Binomial(lam + 1.0, j + 1), Binomial(lam, j), Binomial(lam, j + 1),
      ((lam + 1.0) * f) / d, f / fj, (f * (lam - j as real)) / d);
  }

  lemma SumOfParts(a: real, b: real, c: real, x: real, y: real, z: real)
    requires a == x && x == y + z && b == y && c == z
    ensures a == b + c
  {
  }

  lemma PascalLeft(lam: real, j: nat)
    ensures Binomial(lam + 1.0, j + 1) == ((lam + 1.0) * Falling(lam, j)) / ((j as real + 1.0) * Factorial(j) as real)
  {
    FallingRise(lam, j);
    FactorialNext(j);
  }

  lemma PascalRight(lam: real, j: nat)
    ensures Binomial(lam, j + 1) == (Falling(lam, j) * (lam - j as real)) / ((j as real + 1.0) * Factorial(j) as real)
  {
    FallingNext(lam, j);
    FactorialNext(j);
  }

  lemma FallingRise(lam: real, j: nat)
    ensures Falling(lam + 1.0, j + 1) == (lam + 1.0) * Falling(lam, j)
  {
    FallingTop(lam + 1.0, j + 1);
    assert lam + 1.0 - 1.0 == lam;
  }

  lemma FactorialNext(j: nat)
    ensures Factorial(j + 1) as real == (j as real + 1.0) * Factorial(j) as real
  {
  }

  lemma PascalArithmetic(f: real, fj: real, lam: real, j: real)
    requires fj > 0.0 && j >= 0.0
    ensures ((lam + 1.0) * f) / ((j + 1.0) * fj) == f / fj + (f * (lam - j)) / ((j + 1.0) * fj)
  {
    var d := (j + 1.0) * fj;
    assert d > 0.0;
    assert f / fj == ((j + 1.0) * f) / d;
    assert ((j + 1.0) * f) / d + (f * (lam - j)) / d == ((j + 1.0) * f + f * (lam - j)) / d;
    assert (j + 1.0) * f + f * (lam - j) == (lam + 1.0) * f;
  }

  // ---------------------------------------------------------------------------
  // Truncated exponentials

  /** `inner^k mod x^n`, each power reduced as soon as it is formed. */
  function TruncPower(inner: Poly, k: nat, n: nat): (r: Poly)
    ensures Canonical(r)
  {
    if k == 0 then [1.0] else Truncate(Mul(TruncPower(inner, k - 1, n), inner), n)
  }

  /** `1 + sum_{k=1..K} (inner^k mod x^n)/k!`, the sum the loops accumulate. */
  function TruncExp(inner: Poly, K: nat, n: nat): (r: Poly)
    ensures Canonical(r)
  {
    if K == 0 then [1.0]
    else Add(TruncExp(inner, K - 1, n), Scale(InvFactorial(K), TruncPower(inner, K, n)))
  }

  /** `1/k!`. */
  function InvFactorial(k: nat): real {
    1.0 / Factorial(k) as real
  }

  /** The same sum without reducing: `sum_{k=0..K} inner^k/k!`, the
      exponential series of `inner` cut after `K` terms. */
  function ExpSum(inner: Poly, K: nat): (r: Poly)
    ensures Canonical(r)
  {
    if K == 0 then [1.0]
    else Add(ExpSum(inner, K - 1), Scale(InvFactorial(K), Power(inner, K)))
  }

  /** The inner loop of both expansions: `outer` gathers `inner_pow/k!` while
      `inner_pow` is multiplied by `inner` and reduced mod `x^n`. */
  method ComputeTruncExp(inner: Poly, K: nat, n: nat) returns (outer: Poly)
    requires Canonical(inner) && n >= 1
    ensures outer == TruncExp(inner, K, n)
    ensures outer == Truncate(ExpSum(inner, K), n)
  {
    outer := [1.0];
    var innerPow := [1.0];
    for k := 1 to K + 1
      invariant innerPow == TruncPower(inner, k - 1, n)
      invariant outer == TruncExp(inner, k - 1, n)
    {
      innerPow := Truncate(Mul(innerPow, inner), n);
      outer := Add(outer, Scale(InvFactorial(k), innerPow));
    }
    TruncExpReference(inner, K, n);
  }

  /** Reducing each power as it is formed loses nothing below `x^n`: the
      loop computes the exponential series mod `x^n`. */
  lemma TruncExpReference(inner: Poly, K: nat, n: nat)
    requires Canonical(inner) && n >= 1
    ensures TruncExp(inner, K, n) == Truncate(ExpSum(inner, K), n)
  {
    ReferenceBase(inner, n);
    for k := 1 to K + 1
      invariant TruncExp(inner, k - 1, n) == Truncate(ExpSum(inner, k - 1), n)
    {
      TruncPowerReference(inner, k, n);
      ReferenceInduction(inner, k, n);
    }
  }

  lemma ReferenceBase(inner: Poly, n: nat)
    requires n >= 1
    ensures TruncExp(inner, 0, n) == Truncate(ExpSum(inner, 0), n)
  {
    TruncateShort([1.0], n);
  }

  /** One more term on both sides keeps them equal. */
  lemma ReferenceInduction(inner: Poly, K: nat, n: nat)
    requires K > 0
    requires TruncExp(inner, K - 1, n) == Truncate(ExpSum(inner, K - 1), n)
    requires TruncPower(inner, K, n) == Truncate(Power(inner, K), n)
    ensures TruncExp(inner, K, n) == Truncate(ExpSum(inner, K), n)
  {
    ExpSumUnfold(inner, K);
    TruncExpUnfold(inner, K, n);
    ReferenceStep(TruncExp(inner, K - 1, n), TruncPower(inner, K, n), ExpSum(inner, K - 1), Power(inner, K), InvFactorial(K), n);
  }

  /** Truncating commutes with `a + c*b`. */
  lemma ReferenceStep(ta: Poly, tb: Poly, a: Poly, b: Poly, c: real, n: nat)
    requires ta == Truncate(a, n) && tb == Truncate(b, n)
    ensures Add(ta, Scale(c, tb)) == Truncate(Add(a, Scale(c, b)), n)
  {
    TruncateScale(c, b, n);
    TruncateAdd(a, Scale(c, b), n);
  }

  lemma ExpSumUnfold(inner: Poly, K: nat)
    requires K > 0
    ensures ExpSum(inner, K) == Add(ExpSum(inner, K - 1), Scale(InvFactorial(K), Power(inner, K)))
  {
  }

  lemma TruncateAdd(p: Poly, q: Poly, n: nat)
    ensures Truncate(Add(p, q), n) == Add(Truncate(p, n), Truncate(q, n))
  {
    forall i | 0 <= i ensures Coef(Truncate(Add(p, q), n), i) == Coef(Add(Truncate(p, n), Truncate(q, n)), i) {
      TruncateAddAt(p, q, n, i);
    }
    CanonicalExt(Truncate(Add(p, q), n), Add(Truncate(p, n), Truncate(q, n)));
  }

  lemma TruncateAddAt(p: Poly, q: Poly, n: nat, i: int)
    ensures Coef(Truncate(Add(p, q), n), i) == Coef(Add(Truncate(p, n), Truncate(q, n)), i)
  {
  }

  lemma TruncateScale(c: real, p: Poly, n: nat)
    ensures Truncate(Scale(c, p), n) == Scale(c, Truncate(p, n))
  {
    forall i | 0 <= i ensures Coef(Truncate(Scale(c, p), n), i) == Coef(Scale(c, Truncate(p, n)), i) {
      if i < n {
        ScaleCongruent(c, Truncate(p, n), p, i);
      } else {
        ScaleVanishes(c, Truncate(p, n), i);
      }
    }
    CanonicalExt(Truncate(Scale(c, p), n), Scale(c, Truncate(p, n)));
  }

  /** `TruncPower` is the power reduced once at the end. */
  lemma TruncPowerReference(inner: Poly, k: nat, n: nat)
    requires Canonical(inner) && n >= 1
    ensures TruncPower(inner, k, n) == Truncate(Power(inner, k), n)
  {
    if k == 0 {
      TruncateShort([1.0], n);
    } else {
      TruncPowerReference(inner, k - 1, n);
      var p := Power(inner, k - 1);
      TruncateMulLeft(p, inner, n);
      PolyMulComm(p, inner);
    }
  }

  /** Reducing a factor mod `x^n` does not change the product mod `x^n`. */
  lemma TruncateMulLeft(p: Poly, q: Poly, n: nat)
    ensures Truncate(Mul(Truncate(p, n), q), n) == Truncate(Mul(p, q), n)
  {
    var tp := Truncate(p, n);
    forall i | 0 <= i ensures Coef(Truncate(Mul(tp, q), n), i) == Coef(Truncate(Mul(p, q), n), i) {
      if i < n {
        MulCoef(tp, q, i);
        MulCoef(p, q, i);
        ConvSumTruncated(p, q, n, i, i + 1);
      }
    }
    CanonicalExt(Truncate(Mul(tp, q), n), Truncate(Mul(p, q), n));
  }

  lemma {:induction false} ConvSumTruncated(p: Poly, q: Poly, n: nat, k: int, m: nat)
    requires m <= n
    ensures ConvSum(Truncate(p, n), q, k, m) == ConvSum(p, q, k, m)
  {
    if m > 0 {
      ConvSumTruncated(p, q, n, k, m - 1);
    }
  }

  /** Polynomial multiplication is commutative. */
  lemma PolyMulComm(p: Poly, q: Poly)
    ensures Mul(p, q) == Mul(q, p)
  {
    forall k | 0 <= k ensures Coef(Mul(p, q), k) == Coef(Mul(q, p), k) {
      MulCoef(p, q, k);
      MulCoef(q, p, k);
      PS.ConvSumComm(p, q, k);
    }
    CanonicalExt(Mul(p, q), Mul(q, p));
  }

  /** A product's constant term is the product of the constant terms. */
  lemma MulConstant(p: Poly, q: Poly)
    ensures Coef(Mul(p, q), 0) == Coef(p, 0) * Coef(q, 0)
  {
    MulCoef(p, q, 0);
  }

  /** When `inner` has no constant term, the truncated exponential starts with `1`. */
  lemma TruncExpConstant(inner: Poly, K: nat, n: nat)
    requires Coef(inner, 0) == 0.0 && n >= 1
    ensures Coef(TruncExp(inner, K, n), 0) == 1.0
  {
    if K > 0 {
      TruncExpConstant(inner, K - 1, n);
      TruncExpUnfold(inner, K, n);
      PowerConstantZero(TruncPower(inner, K - 1, n), inner, n);
      StepConstant(TruncExp(inner, K - 1, n), TruncPower(inner, K, n), InvFactorial(K));
    }
  }

  /** One step of each recursion. */
  lemma TruncExpUnfold(inner: Poly, K: nat, n: nat)
    requires K > 0
    ensures TruncExp(inner, K, n) == Add(TruncExp(inner, K - 1, n), Scale(InvFactorial(K), TruncPower(inner, K, n)))
    ensures TruncPower(inner, K, n) == Truncate(Mul(TruncPower(inner, K - 1, n), inner), n)
  {
  }

  lemma PowerConstantZero(prev: Poly, inner: Poly, n: nat)
    requires Coef(inner, 0) == 0.0 && n >= 1
    ensures Coef(Truncate(Mul(prev, inner), n), 0) == 0.0
  {
    MulConstant(prev, inner);
    TimesZero(Coef(prev, 0), Coef(inner, 0));
  }

  lemma StepConstant(a: Poly, b: Poly, c: real)
    requires Coef(a, 0) == 1.0 && Coef(b, 0) == 0.0
    ensures Coef(Add(a, Scale(c, b)), 0) == 1.0
  {
  }

  lemma TimesZero(c: real, y: real)
    requires y == 0.0
    ensures c * y == 0.0
  {
  }

  /** The exponential of zero is one. */
  lemma TruncExpOfZero(K: nat, n: nat)
    ensures TruncExp([], K, n) == [1.0]
  {
    assert TruncExp([], 0, n) == [1.0];
    for k := 0 to K
      invariant TruncExp([], k, n) == [1.0]
    {
      TruncExpOfZeroStep(k + 1, n);
    }
  }

  lemma TruncExpOfZeroStep(K: nat, n: nat)
    requires K > 0 && TruncExp([], K - 1, n) == [1.0]
    ensures TruncExp([], K, n) == [1.0]
  {
    var c := InvFactorial(K);
    TruncPowerOfZero(K, n);
    assert Scale(c, []) == [];
    CanonicalExt(Add([1.0], []), [1.0]);
  }

  lemma TruncPowerOfZero(k: nat, n: nat)
    requires k >= 1
    ensures TruncPower([], k, n) == []
  {
    assert Mul(TruncPower([], k - 1, n), []) == [];
    CanonicalExt(Truncate([], n), []);
  }

  /** A product with a constant factor `[1]` on the left is the other factor. */
  lemma OneTimes(p: Poly)
    requires Canonical(p)
    ensures Mul([1.0], p) == p
  {
    forall k | 0 <= k ensures Coef(Mul([1.0], p), k) == Coef(p, k) {
      MulCoef([1.0], p, k);
      OneConv(p, k, k + 1);
    }
    CanonicalExt(Mul([1.0], p), p);
  }

  lemma {:induction false} OneConv(p: Poly, k: nat, n: nat)
    requires 1 <= n <= k + 1
    ensures ConvSum([1.0], p, k, n) == Coef(p, k)
  {
    if n > 1 {
      OneConv(p, k, n - 1);
    }
  }

  // ---------------------------------------------------------------------------
  // `_super_expansion`: `(1 + i/n)^(gamma*n)`

  /** Coefficient `l >= 1` of `inner`: `gamma*i*(-i)^l/(l+1)`. */
  function SuperTerm(gamma: real, i: nat, l: nat): real {
    gamma * i as real * RealPow(-(i as real), l) / (l + 1) as real
  }

  /** `inner = gamma*i*sum_{l=1..prec} (-i*n)^l/(l+1)`, the series of
      `gamma*n*log(1 + i/n) - gamma*i` in powers of `1/n`. */
  function SuperInner(gamma: real, i: nat, prec: nat): (r: Poly)
    ensures Canonical(r) && |r| <= prec + 1 && Coef(r, 0) == 0.0
  {
    Trim(seq(prec + 1, l requires 0 <= l => if l == 0 then 0.0 else SuperTerm(gamma, i, l)))
  }

  /** `_super_expansion(gamma, i, n, prec)`: the exponential of `inner` mod
      `n^(prec+1)`, read backwards, so that `n^(prec-l)` carries the
      coefficient of `n^(-l)`. */
  function SuperExpansion(gamma: real, i: nat, prec: nat): (r: Poly) {
    Reversed(PaddedList(TruncExp(SuperInner(gamma, i, prec), prec, prec + 1), prec + 1))
  }

  /** The loop of `_super_expansion`. */
  method ComputeSuperExpansion(gamma: real, i: nat, prec: nat) returns (r: Poly)
    ensures r == SuperExpansion(gamma, i, prec)
    ensures |r| <= prec + 1 && Coef(r, prec) == 1.0
  {
    var inner := SuperInner(gamma, i, prec);
    var outer := ComputeTruncExp(inner, prec, prec + 1);
    r := Reversed(PaddedList(outer, prec + 1));
    SuperExpansionShape(gamma, i, prec);
  }

  /** The expansion has degree at most `prec`, its top coefficient is `1`
      (the limit of `(1 + i/n)^(gamma*n)*exp(-gamma*i)`), and below it come
      the coefficients of the exponential series of `inner`. */
  lemma SuperExpansionShape(gamma: real, i: nat, prec: nat)
    ensures |SuperExpansion(gamma, i, prec)| <= prec + 1
    ensures Coef(SuperExpansion(gamma, i, prec), prec) == 1.0
    ensures forall l :: 0 <= l <= prec ==>
      Coef(SuperExpansion(gamma, i, prec), prec - l) == Coef(ExpSum(SuperInner(gamma, i, prec), prec), l)
  {
    ReversedExpShape(SuperInner(gamma, i, prec), prec);
  }

  /** The shape of a truncated exponential read backwards, for any `inner`
      without constant term. */
  lemma ReversedExpShape(inner: Poly, prec: nat)
    requires Canonical(inner) && Coef(inner, 0) == 0.0
    ensures |Reversed(PaddedList(TruncExp(inner, prec, prec + 1), prec + 1))| <= prec + 1
    ensures Coef(Reversed(PaddedList(TruncExp(inner, prec, prec + 1), prec + 1)), prec) == 1.0
    ensures forall l :: 0 <= l <= prec ==>
      Coef(Reversed(PaddedList(TruncExp(inner, prec, prec + 1), prec + 1)), prec - l) == Coef(ExpSum(inner, prec), l)
  {
    var outer := TruncExp(inner, prec, prec + 1);
    TruncExpConstant(inner, prec, prec + 1);
    ReversedTop(outer, prec);
    ReversedExpSeries(inner, prec, outer);
  }

  lemma ReversedExpSeries(inner: Poly, prec: nat, outer: Poly)
    requires Canonical(inner) && outer == TruncExp(inner, prec, prec + 1)
    ensures forall l :: 0 <= l <= prec ==> Coef(Reversed(PaddedList(outer, prec + 1)), prec - l) == Coef(ExpSum(inner, prec), l)
  {
    TruncExpReference(inner, prec, prec + 1);
    ReversedSeries(outer, ExpSum(inner, prec), prec);
  }

  /** Coefficient `top - l` of the list padded to `top + 1` places and
      read backwards is coefficient `l`. */
  lemma ReversedPadded(p: Poly, top: nat)
    ensures forall l :: 0 <= l <= top ==> Coef(Reversed(PaddedList(p, top + 1)), top - l) == Coef(p, l)
  {
  }

  /** A list starting with `1`, read backwards, ends with `1`. */
  lemma ReversedTop(p: Poly, top: nat)
    requires Coef(p, 0) == 1.0
    ensures |Reversed(PaddedList(p, top + 1))| <= top + 1 && Coef(Reversed(PaddedList(p, top + 1)), top) == 1.0
  {
    ReversedPadded(p, top);
    assert Coef(Reversed(PaddedList(p, top + 1)), top - 0) == Coef(p, 0);
  }

  /** Reading `s mod x^(top+1)` backwards from `top` gives the coefficients of `s`. */
  lemma ReversedSeries(p: Poly, s: Poly, top: nat)
    requires p == Truncate(s, top + 1)
    ensures forall l :: 0 <= l <= top ==> Coef(Reversed(PaddedList(p, top + 1)), top - l) == Coef(s, l)
  {
    ReversedPadded(p, top);
  }

  /** `1` padded to `top + 1` places and read backwards is `x^top`. */
  lemma ReversedOne(top: nat)
    ensures Reversed(PaddedList([1.0], top + 1)) == Monomial(1.0, top)
  {
    var r := Reversed(PaddedList([1.0], top + 1));
    ReversedPadded([1.0], top);
    forall e | 0 <= e ensures Coef(r, e) == Coef(Monomial(1.0, top), e) {
      if e <= top {
        assert Coef(r, top - (top - e)) == Coef([1.0], top - e);
      }
    }
    CanonicalExt(r, Monomial(1.0, top));
  }

  // ---------------------------------------------------------------------------
  // `_sub_expansion`: `exp(c_1*((n+i)^(1/v) - n^(1/v)) + ...)`

  /** Coefficient of `n^(v*j - l)` in the inner sum for `c_l`: `C(l/v, j)*i^j`. */
  function SubTerm(l: nat, v: nat, i: nat, j: nat): real
    requires v > 0
  {
    Binomial(l as real / v as real, j) * RealPow(i as real, j)
  }

  /** Coefficient `e` of the inner sum: `c*C(l/v, j)*i^j` where `e = v*j - l`. */
  function SubCoef(c: real, l: nat, v: nat, i: nat, e: nat): real
    requires v > 0
  {
    if (e + l) % v == 0 then c * SubTerm(l, v, i, (e + l) / v) else 0.0
  }

  /** `inner = c*sum_{j=1..prec} C(l/v, j)*i^j*n^(v*j - l)`, for `0 < l < v`;
      its exponents lie below `top = v*prec`. */
  function SubInner(c: real, l: nat, v: nat, i: nat, top: nat): (r: Poly)
    requires 0 < l < v
    ensures Canonical(r)
  {
    Trim(seq(top, e requires 0 <= e => SubCoef(c, l, v, i, e)))
  }

  /** The inner sum has no constant term, and vanishes with `c`. */
  lemma SubInnerFacts(c: real, l: nat, v: nat, i: nat, top: nat)
    requires 0 < l < v
    ensures Coef(SubInner(c, l, v, i, top), 0) == 0.0
    ensures c == 0.0 ==> SubInner(c, l, v, i, top) == []
  {
    assert l % v == l;
    assert SubCoef(c, l, v, i, 0) == 0.0;
    if c == 0.0 {
      var s := seq(top, e requires 0 <= e => SubCoef(c, l, v, i, e));
      forall e | 0 <= e < |s| ensures s[e] == 0.0 {
        ZeroTimes(SubTerm(l, v, i, (e + l) / v));
      }
    }
  }

  lemma ZeroTimes(y: real)
    ensures 0.0 * y == 0.0
  {
  }

  /** The factor of `c_l`: its exponential, truncated mod `n^(top+1)`. */
  function SubFactor(c: real, l: nat, v: nat, i: nat, top: nat): (r: Poly)
    requires 0 < l < v
    ensures Canonical(r)
  {
    TruncExp(SubInner(c, l, v, i, top), top, top + 1)
  }

  /** `prod` after the factors of `c_1 .. c_l`, reduced mod `n^(top+1)`. */
  function SubProduct(coeffs: seq<real>, v: nat, i: nat, top: nat, l: nat): (r: Poly)
    requires l <= |coeffs| < v
    ensures Canonical(r)
  {
    if l == 0 then [1.0]
    else Truncate(Mul(SubProduct(coeffs, v, i, top, l - 1), SubFactor(coeffs[l - 1], l, v, i, top)), top + 1)
  }

  /** One factor more, for named operands. */
  lemma SubProductStep(coeffs: seq<real>, v: nat, i: nat, top: nat, l: nat, p: Poly, f: Poly)
    requires 0 < l <= |coeffs| < v
    requires p == SubProduct(coeffs, v, i, top, l - 1) && f == SubFactor(coeffs[l - 1], l, v, i, top)
    ensures SubProduct(coeffs, v, i, top, l) == Truncate(Mul(p, f), top + 1)
  {
  }

  /** Every partial product starts with `1`. */
  lemma SubProductConstant(coeffs: seq<real>, v: nat, i: nat, top: nat, l: nat)
    requires l <= |coeffs| < v
    ensures Coef(SubProduct(coeffs, v, i, top, l), 0) == 1.0
  {
    for k := 1 to l + 1
      invariant Coef(SubProduct(coeffs, v, i, top, k - 1), 0) == 1.0
    {
      var p := SubProduct(coeffs, v, i, top, k - 1);
      var f := SubFactor(coeffs[k - 1], k, v, i, top);
      SubProductStep(coeffs, v, i, top, k, p, f);
      SubFactorConstant(coeffs[k - 1], k, v, i, top);
      ProductConstantOne(p, f, top + 1);
    }
  }

  /** With every `c_l` zero each factor is `1`, and so is the product. */
  lemma SubProductOfZeros(coeffs: seq<real>, v: nat, i: nat, top: nat, l: nat)
    requires l <= |coeffs| < v && forall k :: 0 <= k < |coeffs| ==> coeffs[k] == 0.0
    ensures SubProduct(coeffs, v, i, top, l) == [1.0]
  {
    SubProductEmpty(coeffs, v, i, top);
    for k := 0 to l
      invariant SubProduct(coeffs, v, i, top, k) == [1.0]
    {
      SubProductOfZerosStep(coeffs, v, i, top, k + 1);
    }
  }

  lemma SubProductEmpty(coeffs: seq<real>, v: nat, i: nat, top: nat)
    requires |coeffs| < v
    ensures SubProduct(coeffs, v, i, top, 0) == [1.0]
  {
  }

  lemma SubProductOfZerosStep(coeffs: seq<real>, v: nat, i: nat, top: nat, l: nat)
    requires 0 < l <= |coeffs| < v && coeffs[l - 1] == 0.0
    requires SubProduct(coeffs, v, i, top, l - 1) == [1.0]
    ensures SubProduct(coeffs, v, i, top, l) == [1.0]
  {
    var f := SubFactor(coeffs[l - 1], l, v, i, top);
    SubProductStep(coeffs, v, i, top, l, [1.0], f);
    SubFactorOfZero(l, v, i, top);
    ProductOfOnes([1.0], f, top + 1);
  }

  lemma ProductConstantOne(p: Poly, q: Poly, n: nat)
    requires Coef(p, 0) == 1.0 && Coef(q, 0) == 1.0 && n >= 1
    ensures Coef(Truncate(Mul(p, q), n), 0) == 1.0
  {
    MulConstant(p, q);
  }

  lemma ProductOfOnes(p: Poly, q: Poly, n: nat)
    requires p == [1.0] && q == [1.0] && n >= 1
    ensures Truncate(Mul(p, q), n) == [1.0]
  {
    OneTimes([1.0]);
    TruncateShort([1.0], n);
  }

  /** Every factor starts with `1`. */
  lemma SubFactorConstant(c: real, l: nat, v: nat, i: nat, top: nat)
    requires 0 < l < v
    ensures Coef(SubFactor(c, l, v, i, top), 0) == 1.0
  {
    SubInnerFacts(c, l, v, i, top);
    TruncExpConstant(SubInner(c, l, v, i, top), top, top + 1);
  }

  /** The factor of a zero `c_l` is `1`. */
  lemma SubFactorOfZero(l: nat, v: nat, i: nat, top: nat)
    requires 0 < l < v
    ensures SubFactor(0.0, l, v, i, top) == [1.0]
  {
    SubInnerFacts(0.0, l, v, i, top);
    TruncExpOfZero(top, top + 1);
  }

  /** `v = m*(len(coeffs) + 1)`. */
  function SubScale(coeffs: seq<real>, m: nat): (v: nat)
    requires m > 0
    ensures v > |coeffs|
  {
    MulMonotone(1, m, |coeffs| + 1);
    m * (|coeffs| + 1)
  }

  /** `_sub_expansion((coeffs, m), i, n, prec)`: the product of the factors,
      read backwards from `n^(v*prec)`. */
  function SubExpansion(coeffs: seq<real>, m: nat, i: nat, prec: nat): (r: Poly)
    requires m > 0
  {
    var v := SubScale(coeffs, m);
    SubExpansionFrom(coeffs, v, i, v * prec)
  }

  /** The product of the factors mod `n^(top+1)`, read backwards from `n^top`. */
  function SubExpansionFrom(coeffs: seq<real>, v: nat, i: nat, top: nat): (r: Poly)
    requires |coeffs| < v
  {
    Reversed(PaddedList(SubProduct(coeffs, v, i, top, |coeffs|), top + 1))
  }

  /** The two nested loops of `_sub_expansion`. */
  method ComputeSubExpansion(coeffs: seq<real>, m: nat, i: nat, prec: nat) returns (r: Poly)
    requires m > 0
    ensures r == SubExpansion(coeffs, m, i, prec)
    ensures |r| <= SubScale(coeffs, m) * prec + 1 && Coef(r, SubScale(coeffs, m) * prec) == 1.0
  {
    var v := SubScale(coeffs, m);
    var top := v * prec;
    r := ComputeSubExpansionFrom(coeffs, v, i, top);
    SubExpansionShape(coeffs, m, i, prec);
  }

  method ComputeSubExpansionFrom(coeffs: seq<real>, v: nat, i: nat, top: nat) returns (r: Poly)
    requires |coeffs| < v
    ensures r == SubExpansionFrom(coeffs, v, i, top)
  {
    var prod := [1.0];
    SubProductEmpty(coeffs, v, i, top);
    var l := 0;
    while l < |coeffs|
      invariant l <= |coeffs|
      invariant prod == SubProduct(coeffs, v, i, top, l)
    {
      var outer := ComputeSubFactor(coeffs[l], l + 1, v, i, top);
      SubProductStep(coeffs, v, i, top, l + 1, prod, outer);
      prod := Truncate(Mul(prod, outer), top + 1);
      l := l + 1;
    }
    r := Reversed(PaddedList(prod, top + 1));
  }

  /** The inner loop of `_sub_expansion`: the truncated exponential of one `c_l`. */
  method ComputeSubFactor(c: real, l: nat, v: nat, i: nat, top: nat) returns (f: Poly)
    requires 0 < l < v
    ensures f == SubFactor(c, l, v, i, top)
  {
    var inner := SubInner(c, l, v, i, top);
    f := ComputeTruncExp(inner, top, top + 1);
  }

  /** The expansion has degree at most `v*prec` and top coefficient `1`;
      with every `c_l` zero it is exactly `n^(v*prec)`. */
  lemma SubExpansionShape(coeffs: seq<real>, m: nat, i: nat, prec: nat)
    requires m > 0
    ensures |SubExpansion(coeffs, m, i, prec)| <= SubScale(coeffs, m) * prec + 1
    ensures Coef(SubExpansion(coeffs, m, i, prec), SubScale(coeffs, m) * prec) == 1.0
    ensures (forall k :: 0 <= k < |coeffs| ==> coeffs[k] == 0.0) ==>
      SubExpansion(coeffs, m, i, prec) == Monomial(1.0, SubScale(coeffs, m) * prec)
  {
    var v := SubScale(coeffs, m);
    SubExpansionFromShape(coeffs, v, i, v * prec);
  }

  lemma SubExpansionFromShape(coeffs: seq<real>, v: nat, i: nat, top: nat)
    requires |coeffs| < v
    ensures |SubExpansionFrom(coeffs, v, i, top)| <= top + 1
    ensures Coef(SubExpansionFrom(coeffs, v, i, top), top) == 1.0
    ensures (forall k :: 0 <= k < |coeffs| ==> coeffs[k] == 0.0) ==>
      SubExpansionFrom(coeffs, v, i, top) == Monomial(1.0, top)
  {
    var p := SubProduct(coeffs, v, i, top, |coeffs|);
    SubProductConstant(coeffs, v, i, top, |coeffs|);
    ReversedTop(p, top);
    if forall k :: 0 <= k < |coeffs| ==> coeffs[k] == 0.0 {
      SubProductOfZeros(coeffs, v, i, top, |coeffs|);
      ReversedOne(top);
    }
  }
}
