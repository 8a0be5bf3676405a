/** Integer and rational helpers used by the series engine: greatest common
    divisor, least common multiple (also folded over a list, as the library's
    `lcm` of a list does), the denominator of `e/ram`, reduced fractions for
    the superexponential rate, factorials and powers over the field. */
module Numbers {

  /** `d` divides `n` (for a positive `d`). */
  predicate Divides(d: nat, n: int) {
    d > 0 && n % d == 0
  }

  function Gcd(a: nat, b: nat): nat
    decreases b
  {
    if b == 0 then a else Gcd(b, a % b)
  }

  lemma MulPos(a: int, b: int)
    requires a > 0 && b > 0
    ensures a * b > 0
  {
  }

  lemma MulNat(a: nat, b: nat)
    ensures a * b >= 0
  {
  }

  lemma MulMonotoneNat(a: nat, b: nat, c: nat)
    requires a <= b
    ensures a * c <= b * c
  {
    if c > 0 {
      MulMonotone(a, b, c);
    }
  }

  lemma MulStrict(a: int, b: int, c: int)
    requires c > 0 && a < b
    ensures a * c < b * c
  {
    assert b * c - a * c == (b - a) * c;
    MulPos(b - a, c);
  }

  lemma MulMonotone(a: int, b: int, c: int)
    requires c > 0
    ensures a <= b ==> a * c <= b * c
  {
    if a < b {
      MulStrict(a, b, c);
    }
  }

  lemma MulCancel(a: int, b: int, c: int)
    requires c > 0 && a * c == b * c
    ensures a == b
  {
    if a < b {
      MulStrict(a, b, c);
    } else if b < a {
      MulStrict(b, a, c);
    }
  }

  /** `n == q*d + r` with `0 <= r < d` fixes `n / d` and `n % d`. */
  lemma ModUnique(n: int, d: int, q: int, r: int)
    requires d > 0 && 0 <= r < d && n == q * d + r
    ensures n % d == r && n / d == q
  {
    var q', r' := n / d, n % d;
    assert n == q' * d + r';
    if q' < q {
      MulStrict(q', q, d);
      assert (q' + 1) * d <= q * d by {
        if q' + 1 < q { MulStrict(q' + 1, q, d); }
      }
    } else if q < q' {
      assert (q + 1) * d <= q' * d by {
        if q + 1 < q' { MulStrict(q + 1, q', d); }
      }
    }
  }

  lemma DividesWitness(d: nat, n: int, k: int)
    requires d > 0 && n == d * k
    ensures Divides(d, n) && n / d == k
  {
    ModUnique(n, d, k, 0);
  }

  lemma DividesIntro(d: nat, n: int)
    requires Divides(d, n)
    ensures n == d * (n / d)
  {
  }

  /** The cofactor of a positive multiple is at least one, and one exactly
      for the number itself. */
  lemma CofactorOne(d: nat, n: nat)
    requires Divides(d, n) && n > 0
    ensures n / d >= 1 && (n / d == 1 <==> n == d)
  {
    DividesIntro(d, n);
    PosCofactor(d, n / d);
    if n == d {
      DividesWitness(d, n, 1);
    }
  }

  /** A positive multiple of a positive number has a positive cofactor. */
  lemma PosCofactor(d: int, k: int)
    requires d > 0 && d * k > 0
    ensures k > 0
  {
  }

  lemma DividesMul(d: nat, n: int, c: int)
    requires Divides(d, n)
    ensures Divides(d, c * n)
  {
    var k := n / d;
    DividesIntro(d, n);
    assert c * n == d * (c * k) by {
      assert c * n == c * (d * k);
    }
    DividesWitness(d, c * n, c * k);
  }

  lemma DividesTrans(a: nat, b: nat, c: int)
    requires Divides(a, b) && Divides(b, c)
    ensures Divides(a, c)
  {
    DividesIntro(a, b);
    DividesIntro(b, c);
    var k, l := b / a, c / b;
    assert c == a * (k * l) by {
      assert c == (a * k) * l;
    }
    DividesWitness(a, c, k * l);
  }

  lemma DividesSum(d: nat, m: int, n: int)
    requires Divides(d, m) && Divides(d, n)
    ensures Divides(d, m + n) && Divides(d, m - n)
  {
    DividesIntro(d, m);
    DividesIntro(d, n);
    var k, l := m / d, n / d;
    assert m + n == d * (k + l);
    assert m - n == d * (k - l);
    DividesWitness(d, m + n, k + l);
    DividesWitness(d, m - n, k - l);
  }

  lemma DividesBound(d: nat, n: nat)
    requires Divides(d, n) && n > 0
    ensures d <= n
  {
    DividesIntro(d, n);
    var k := n / d;
    PosCofactor(d, k);
    if k > 1 { MulStrict(1, k, d); }
  }

  /** The cofactor of a proper divisor is a proper divisor greater than one. */
  lemma ProperCofactor(l: nat, n: nat)
    requires Divides(l, n) && n > 0 && l != n
    ensures 1 < n / l <= n && Divides(n / l, n)
  {
    DividesIntro(l, n);
    var q := n / l;
    PosCofactor(l, q);
    DividesWitness(q, n, l);
    DividesBound(q, n);
    assert l * 1 == l;
  }

  lemma DividesAntisym(a: nat, b: nat)
    requires Divides(a, b) && Divides(b, a)
    ensures a == b
  {
    DividesBound(a, b);
    DividesBound(b, a);
  }

  lemma ModOfScaled(c: nat, a: nat, b: nat)
    requires c > 0 && b > 0
    ensures (c * a) % (c * b) == c * (a % b)
  {
    var q, r := a / b, a % b;
    assert a == q * b + r;
    assert c * a == q * (c * b) + c * r by {
      assert c * a == c * (q * b + r);
    }
    assert c * r < c * b;
    ModUnique(c * a, c * b, q, c * r);
  }

  /** The Euclidean gcd divides both arguments. */
  lemma {:induction false} GcdDivides(a: nat, b: nat)
    requires a > 0 || b > 0
    ensures Gcd(a, b) > 0 && Divides(Gcd(a, b), a) && Divides(Gcd(a, b), b)
    decreases b
  {
    if b != 0 {
      GcdDivides(b, a % b);
      var g := Gcd(b, a % b);
      assert a == (a / b) * b + a % b;
      DividesMul(g, b, a / b);
      DividesSum(g, (a / b) * b, a % b);
    }
  }

  /** Every common divisor divides the gcd. */
  lemma {:induction false} GcdGreatest(a: nat, b: nat, d: nat)
    requires Divides(d, a) && Divides(d, b)
    ensures Divides(d, Gcd(a, b))
    decreases b
  {
    if b != 0 {
      assert a % b == a - (a / b) * b;
      DividesMul(d, b, a / b);
      DividesSum(d, a, (a / b) * b);
      GcdGreatest(b, a % b, d);
    }
  }

  lemma GcdComm(a: nat, b: nat)
    ensures Gcd(a, b) == Gcd(b, a)
  {
    if a == 0 && b == 0 {
    } else {
      GcdDivides(a, b);
      GcdDivides(b, a);
      GcdGreatest(a, b, Gcd(b, a));
      GcdGreatest(b, a, Gcd(a, b));
      DividesAntisym(Gcd(a, b), Gcd(b, a));
    }
  }

  /** The gcd is homogeneous: `gcd(c*a, c*b) == c*gcd(a, b)`. */
  lemma {:induction false} GcdScaled(c: nat, a: nat, b: nat)
    requires c > 0
    ensures Gcd(c * a, c * b) == c * Gcd(a, b)
    decreases b
  {
    if b == 0 {
    } else {
      ModOfScaled(c, a, b);
      GcdScaled(c, b, a % b);
    }
  }

  function Lcm(a: nat, b: nat): (l: nat)
    requires a > 0 && b > 0
    ensures l > 0
  {
    GcdDivides(a, b);
    DividesIntro(Gcd(a, b), b);
    var k := b / Gcd(a, b);
    PosCofactor(Gcd(a, b), k);
    a * k
  }

  /** Both arguments divide their lcm. */
  lemma LcmMultiple(a: nat, b: nat)
    requires a > 0 && b > 0
    ensures Divides(a, Lcm(a, b)) && Divides(b, Lcm(a, b))
  {
    GcdDivides(a, b);
    var g := Gcd(a, b);
    DividesIntro(g, a);
    DividesIntro(g, b);
    var k := b / g;
    var j := a / g;
    DividesWitness(a, Lcm(a, b), k);
    assert Lcm(a, b) == b * j by {
      calc {
        Lcm(a, b);
        a * k;
        (g * j) * k;
        (g * k) * j;
        b * j;
      }
    }
    DividesWitness(b, Lcm(a, b), j);
  }

  lemma MulAssocComm(x: int, y: int, z: int)
    ensures (x * y) * z == x * (y * z) == (x * z) * y == (y * z) * x
  {
  }

  /** `a*b` divides `m*b` whenever `a` divides `m`. */
  lemma ProductDivides(a: nat, b: nat, m: nat)
    requires b > 0 && Divides(a, m)
    ensures Divides(a * b, m * b)
  {
    DividesIntro(a, m);
    var s := m / a;
    MulAssocComm(a, s, b);
    assert m * b == (a * b) * s;
    MulPos(a, b);
    DividesWitness(a * b, m * b, s);
  }

  /** The lcm divides every common multiple. */
  lemma LcmLeast(a: nat, b: nat, m: nat)
    requires a > 0 && b > 0 && Divides(a, m) && Divides(b, m)
    ensures Divides(Lcm(a, b), m)
  {
    GcdDivides(a, b);
    var g := Gcd(a, b);
    DividesIntro(g, b);
    var k := b / g;
    ProductDivides(a, b, m);
    ProductDivides(b, a, m);
    assert b * a == a * b;
    assert a * m == m * a && b * m == m * b;
    GcdGreatest(m * a, m * b, a * b);
    if m == 0 {
      DividesWitness(Lcm(a, b), m, 0);
    } else {
      GcdScaled(m, a, b);
      LcmLeastStep(a, b, m, g, k);
    }
  }

  lemma LcmLeastStep(a: nat, b: nat, m: nat, g: nat, k: nat)
    requires a > 0 && b > 0 && m > 0 && g > 0
    requires g == Gcd(a, b) && b == g * k && Lcm(a, b) == a * k
    requires Divides(a * b, m * g)
    ensures Divides(Lcm(a, b), m)
  {
    DividesIntro(a * b, m * g);
    var t := (m * g) / (a * b);
    assert m * g == (a * b) * t;
    MulAssocComm(a, k, g);
    MulAssocComm(a * k, g, t);
    assert a * b == (a * k) * g;
    assert m * g == ((a * k) * t) * g;
    MulCancel(m, (a * k) * t, g);
    DividesWitness(Lcm(a, b), m, t);
  }

  lemma LcmComm(a: nat, b: nat)
    requires a > 0 && b > 0
    ensures Lcm(a, b) == Lcm(b, a)
  {
    LcmMultiple(a, b);
    LcmMultiple(b, a);
    LcmLeast(a, b, Lcm(b, a));
    LcmLeast(b, a, Lcm(a, b));
    DividesAntisym(Lcm(a, b), Lcm(b, a));
  }

  /** A number is its own lcm. */
  lemma LcmSelf(n: nat)
    requires n > 0
    ensures Divides(n, n) && Lcm(n, n) == n
  {
    DividesWitness(n, n, 1);
    LcmOfDivisor(n, n);
  }

  lemma LcmOfDivisor(a: nat, b: nat)
    requires a > 0 && b > 0 && Divides(a, b)
    ensures Lcm(a, b) == b
  {
    LcmMultiple(a, b);
    assert Divides(b, b) by { DividesWitness(b, b, 1); }
    LcmLeast(a, b, b);
    DividesAntisym(Lcm(a, b), b);
  }

  /** `lcm(acc, xs[0], xs[1], ...)`, folded left to right. */
  function LcmFold(acc: nat, xs: seq<nat>): (l: nat)
    requires acc > 0 && forall i :: 0 <= i < |xs| ==> xs[i] > 0
    ensures l > 0
    decreases |xs|
  {
    if xs == [] then acc else LcmFold(Lcm(acc, xs[0]), xs[1..])
  }

  /** The fold is a common multiple of the start value and of every element. */
  lemma {:induction false} LcmFoldMultiple(acc: nat, xs: seq<nat>)
    requires acc > 0 && forall i :: 0 <= i < |xs| ==> xs[i] > 0
    ensures Divides(acc, LcmFold(acc, xs))
    ensures forall i :: 0 <= i < |xs| ==> Divides(xs[i], LcmFold(acc, xs))
    decreases |xs|
  {
    if xs != [] {
      var l := Lcm(acc, xs[0]);
      LcmMultiple(acc, xs[0]);
      LcmFoldMultiple(l, xs[1..]);
      DividesTrans(acc, l, LcmFold(l, xs[1..]));
      DividesTrans(xs[0], l, LcmFold(l, xs[1..]));
      forall i | 1 <= i < |xs|
        ensures Divides(xs[i], LcmFold(acc, xs))
      {
        assert xs[i] == xs[1..][i - 1];
      }
    }
  }

  /** The fold divides every common multiple of the start value and the elements. */
  lemma {:induction false} LcmFoldLeast(acc: nat, xs: seq<nat>, m: nat)
    requires acc > 0 && forall i :: 0 <= i < |xs| ==> xs[i] > 0
    requires Divides(acc, m) && forall i :: 0 <= i < |xs| ==> Divides(xs[i], m)
    ensures Divides(LcmFold(acc, xs), m)
    decreases |xs|
  {
    if xs != [] {
      LcmLeast(acc, xs[0], m);
      LcmFoldLeast(Lcm(acc, xs[0]), xs[1..], m);
    }
  }

  /** Every value of either list occurs in the other. */
  predicate SameElements(xs: seq<nat>, ys: seq<nat>) {
    (forall i :: 0 <= i < |xs| ==> xs[i] in ys) && (forall i :: 0 <= i < |ys| ==> ys[i] in xs)
  }

  /** The fold only depends on which values occur in the list. */
  lemma LcmFoldSameElements(acc: nat, xs: seq<nat>, ys: seq<nat>)
    requires acc > 0 && (forall i :: 0 <= i < |xs| ==> xs[i] > 0) && (forall i :: 0 <= i < |ys| ==> ys[i] > 0)
    requires SameElements(xs, ys)
    ensures LcmFold(acc, xs) == LcmFold(acc, ys)
  {
    LcmFoldSubset(acc, xs, ys);
    LcmFoldSubset(acc, ys, xs);
    DividesAntisym(LcmFold(acc, xs), LcmFold(acc, ys));
  }

  lemma LcmFoldSubset(acc: nat, xs: seq<nat>, ys: seq<nat>)
    requires acc > 0 && (forall i :: 0 <= i < |xs| ==> xs[i] > 0) && (forall i :: 0 <= i < |ys| ==> ys[i] > 0)
    requires forall i :: 0 <= i < |xs| ==> xs[i] in ys
    ensures Divides(LcmFold(acc, xs), LcmFold(acc, ys))
  {
    var m := LcmFold(acc, ys);
    LcmFoldMultiple(acc, ys);
    forall i | 0 <= i < |xs| ensures Divides(xs[i], m) {
      assert xs[i] in ys;
      var k :| 0 <= k < |ys| && ys[k] == xs[i];
    }
    LcmFoldLeast(acc, xs, m);
  }

  /** The denominator of the reduced fraction `e/ram`. */
  function Den(e: nat, ram: nat): (d: nat)
    requires ram > 0
    ensures d > 0 && Divides(d, ram)
  {
    GcdDivides(e, ram);
    var g := Gcd(e, ram);
    DividesIntro(g, ram);
    var d := ram / g;
    PosCofactor(g, d);
    assert ram == g * d;
    DividesWitness(d, ram, g);
    d
  }

  /** `Den(e, ram)` divides `d` exactly when `e/ram` is a multiple of `1/d`,
      for a divisor `d` of `ram`: that is, when `ram/d` divides `e`. */
  lemma DenDivides(e: nat, ram: nat, d: nat)
    requires ram > 0 && Divides(d, ram)
    ensures Divides(Den(e, ram), d) <==> Divides(ram / d, e)
  {
    GcdDivides(e, ram);
    var g := Gcd(e, ram);
    DividesIntro(g, ram);
    DividesIntro(d, ram);
    var q := ram / d;
    var dd := Den(e, ram);
    PosCofactor(d, q);
    if Divides(dd, d) {
      DenDividesForward(e, ram, d, g, q, dd);
    }
    if Divides(q, e) {
      DenDividesBackward(e, ram, d, g, q, dd);
    }
  }

  lemma DenDividesForward(e: nat, ram: nat, d: nat, g: nat, q: nat, dd: nat)
    requires ram > 0 && q > 0 && g > 0 && dd > 0
    requires g == Gcd(e, ram) && Divides(g, e) && ram == g * dd && ram == d * q
    requires Divides(dd, d)
    ensures Divides(q, e)
  {
    DividesIntro(dd, d);
    var t := d / dd;
    MulAssocComm(dd, t, q);
    assert g * dd == (q * t) * dd;
    MulCancel(g, q * t, dd);
    DividesWitness(q, g, t);
    DividesTrans(q, g, e);
  }

  lemma DenDividesBackward(e: nat, ram: nat, d: nat, g: nat, q: nat, dd: nat)
    requires ram > 0 && q > 0 && g > 0 && dd > 0
    requires g == Gcd(e, ram) && ram == g * dd && ram == d * q
    requires Divides(q, e)
    ensures Divides(dd, d)
  {
    DividesWitness(q, ram, d);
    GcdGreatest(e, ram, q);
    DividesIntro(q, g);
    var t := g / q;
    MulAssocComm(q, t, dd);
    assert d * q == (dd * t) * q;
    MulCancel(d, dd * t, q);
    DividesWitness(dd, d, t);
  }

  /** Scaling numerator and ramification by the same factor keeps the denominator. */
  lemma DenScaled(e: nat, r: nat, k: nat)
    requires r > 0 && k > 0
    ensures Den(k * e, k * r) == Den(e, r)
  {
    MulPos(k, r);
    GcdScaled(k, e, r);
    GcdDivides(e, r);
    var g := Gcd(e, r);
    DividesIntro(g, r);
    var d := r / g;
    assert k * r == (k * g) * d by {
      assert k * r == k * (g * d);
    }
    MulPos(k, g);
    DividesWitness(k * g, k * r, d);
  }

  /** A fraction `num/den` with `den > 0`; reduced values are canonical. */
  datatype Rat = Rat(num: int, den: nat)

  predicate ValidRat(q: Rat) {
    q.den > 0
  }

  function Abs(n: int): nat {
    if n < 0 then -n else n
  }

  /** The canonical form of `n/d`: numerator and denominator divided by their gcd. */
  function Reduce(n: int, d: nat): (q: Rat)
    requires d > 0
    ensures ValidRat(q)
  {
    var g := Gcd(Abs(n), d);
    ReduceStep(n, d, g);
    Rat(n / g, d / g)
  }

  /** Reducing keeps the value of the fraction. */
  lemma ReduceValue(n: int, d: nat)
    requires d > 0
    ensures Reduce(n, d).num as real / Reduce(n, d).den as real == n as real / d as real
  {
    ReduceStep(n, d, Gcd(Abs(n), d));
  }

  lemma ReduceStep(n: int, d: nat, g: nat)
    requires d > 0 && g == Gcd(Abs(n), d)
    ensures g > 0 && d / g > 0
    ensures (n / g) as real / (d / g) as real == n as real / d as real
  {
    GcdDivides(Abs(n), d);
    DividesIntro(g, d);
    DividesIntro(g, Abs(n));
    assert Divides(g, n) by {
      if n < 0 {
        DividesMul(g, Abs(n), -1);
      }
    }
    DividesIntro(g, n);
    PosCofactor(g, d / g);
    ScaledFraction(n / g, d / g, g);
  }

  lemma ScaledFraction(n: int, d: int, g: int)
    requires d > 0 && g > 0
    ensures (n * g) as real / (d * g) as real == n as real / d as real
  {
    assert (n * g) as real == n as real * g as real;
    assert (d * g) as real == d as real * g as real;
  }

  /** In lowest terms, as the host library keeps every rational. */
  predicate Reduced(q: Rat) {
    q.den > 0 && Gcd(Abs(q.num), q.den) == 1
  }

  /** `Reduce` gives lowest terms. */
  lemma ReduceReduced(n: int, d: nat)
    requires d > 0
    ensures Reduced(Reduce(n, d))
  {
    var g := Gcd(Abs(n), d);
    ReduceStep(n, d, g);
    GcdDivides(Abs(n), d);
    AbsQuotient(n, g);
    var a, b := Abs(n) / g, d / g;
    GcdDivides(a, b);
    var h := Gcd(a, b);
    CommonFactor(Abs(n), g, a, h);
    CommonFactor(d, g, b, h);
    MulPos(h, g);
    GcdGreatest(Abs(n), d, h * g);
    DividesBound(h * g, g);
    if h > 1 {
      MulStrict(1, h, g);
    }
  }

  /** `Abs(n/g) == Abs(n)/g` for a divisor `g` of `n`. */
  lemma AbsQuotient(n: int, g: nat)
    requires Divides(g, Abs(n))
    ensures Divides(g, n) && Abs(n / g) == Abs(n) / g
  {
    DividesIntro(g, Abs(n));
    var k := Abs(n) / g;
    if n < 0 {
      assert n == g * (-k);
      DividesWitness(g, n, -k);
    } else {
      DividesWitness(g, n, k);
    }
  }

  /** If `x == a*g` and `h` divides `a`, then `h*g` divides `x`. */
  lemma CommonFactor(x: nat, g: nat, a: nat, h: nat)
    requires g > 0 && Divides(g, x) && a == x / g && Divides(h, a)
    ensures Divides(h * g, x)
  {
    DividesIntro(g, x);
    DividesIntro(h, a);
    var t := a / h;
    MulAssocComm(h, t, g);
    assert x == (h * g) * t;
    MulPos(h, g);
    DividesWitness(h * g, x, t);
  }

  /** A reduced fraction is its own canonical form. */
  lemma ReduceOfReduced(q: Rat)
    requires Reduced(q)
    ensures Reduce(q.num, q.den) == q
  {
  }

  /** Two fractions `e/r` and `f/s` of the same value have the same reduced denominator. */
  lemma DenCross(e: nat, r: nat, f: nat, s: nat)
    requires r > 0 && s > 0 && e * s == f * r
    ensures Den(e, r) == Den(f, s)
  {
    DenScaled(e, r, s);
    DenScaled(f, s, r);
    assert s * e == r * f && s * r == r * s;
  }

  /** When `Den(e, r)` divides `m`, the fraction `e*m/r` is an integer. */
  lemma DenDividesProduct(e: nat, r: nat, m: nat)
    requires r > 0 && Divides(Den(e, r), m)
    ensures Divides(r, e * m)
  {
    GcdDivides(e, r);
    var g := Gcd(e, r);
    DividesIntro(g, r);
    DividesIntro(g, e);
    var d := Den(e, r);
    assert d == r / g;
    DividesIntro(d, m);
    var a, t := e / g, m / d;
    assert e * m == (g * a) * (d * t);
    MulAssocComm(g, a, d * t);
    MulAssocComm(g, d, a * t);
    assert e * m == (g * d) * (a * t);
    DividesWitness(r, e * m, a * t);
  }

  function RatOfInt(n: int): Rat {
    Rat(n, 1)
  }

  function RatAdd(a: Rat, b: Rat): (r: Rat)
    requires ValidRat(a) && ValidRat(b)
    ensures ValidRat(r)
  {
    MulPos(a.den, b.den);
    Reduce(a.num * b.den + b.num * a.den, a.den * b.den)
  }

  function RatNeg(a: Rat): Rat {
    Rat(-a.num, a.den)
  }

  function RatMulInt(a: Rat, k: int): Rat
    requires ValidRat(a)
  {
    Reduce(a.num * k, a.den)
  }

  function RatToReal(a: Rat): real
    requires ValidRat(a)
  {
    a.num as real / a.den as real
  }

  /** A fraction whose numerator equals its denominator is one. */
  lemma RatToRealOne(a: Rat)
    requires ValidRat(a) && a.num == a.den
    ensures RatToReal(a) == 1.0
  {
    var d := a.den as real;
    assert d > 0.0 && a.num as real == d;
    assert d / d == 1.0;
  }

  function Factorial(n: nat): (f: nat)
    ensures f >= 1
  {
    if n == 0 then 1 else n * Factorial(n - 1)
  }

  /** `c^k` over the field. */
  function RealPow(c: real, k: nat): real {
    if k == 0 then 1.0 else c * RealPow(c, k - 1)
  }

  lemma {:induction false} RealPowNonzero(c: real, k: nat)
    requires c != 0.0
    ensures RealPow(c, k) != 0.0
  {
    if k > 0 {
      RealPowNonzero(c, k - 1);
      assert c * RealPow(c, k - 1) != 0.0;
    }
  }

  /** `c^k` over the integers. */
  function IntPow(c: int, k: nat): int {
    if k == 0 then 1 else c * IntPow(c, k - 1)
  }

  /** Whether a field element is an integer. */
  predicate IsInteger(x: real) {
    x.Floor as real == x
  }

  function Min(a: int, b: int): int {
    if a <= b then a else b
  }

  function Max(a: int, b: int): int {
    if a <= b then b else a
  }
}
