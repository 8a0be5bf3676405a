/** Rings of D-finite functions and sequences: which index domains a ring
    accepts, and powers of an element by repeated multiplication. The Ore
    algebra and the multiplication of D-finite objects are not modelled;
    an algebra is known by its identity and whether it is differential,
    and multiplication is any associative operation with a unit. */
module DFiniteRing {
  import opened Outcomes

  /** The index domain of a ring: `NN`, `ZZ`, or anything else a caller passes. */
  datatype Codomain = NN | ZZ | OtherDomain(id: nat)

  /** An Ore algebra, by identity; `isD` for the differential ones (`Dx`),
      otherwise a shift algebra (`Sn`). */
  datatype OreAlgebra = OreAlgebra(id: nat, isD: bool)

  datatype Ring = Ring(algebra: OreAlgebra, codomain: Codomain, backward: bool)

  /** What the constructor guarantees of every ring it builds. */
  predicate ValidRing(r: Ring) {
    (r.codomain == NN || r.codomain == ZZ) &&
    !(r.algebra.isD && r.codomain == ZZ) &&
    (r.backward <==> r.codomain == ZZ)
  }

  /** The constructor: the codomain must be `NN` or `ZZ`, functions (a
      differential algebra) cannot be indexed by `ZZ`, and the values at
      negative indices are computed backwards exactly when the codomain is `ZZ`. */
  function MakeRing(algebra: OreAlgebra, codomain: Codomain): (r: Result<Ring>)
    ensures r.Ok? <==> (codomain == NN || codomain == ZZ) && !(algebra.isD && codomain == ZZ)
    ensures codomain.OtherDomain? ==> r == Err(TypeError("Codomain does not fit"))
    ensures algebra.isD && codomain == ZZ ==> r == Err(NotImplementedError)
    ensures r.Ok? ==> ValidRing(r.value) && r.value.algebra == algebra && r.value.codomain == codomain
  {
    if codomain != ZZ && codomain != NN then Err(TypeError("Codomain does not fit"))
    else if algebra.isD && codomain == ZZ then Err(NotImplementedError)
    else Ok(Ring(algebra, codomain, codomain != NN))
  }

  /** Every valid ring is the one the constructor builds from its algebra
      and codomain. */
  lemma MakeRingOfValid(r: Ring)
    requires ValidRing(r)
    ensures MakeRing(r.algebra, r.codomain) == Ok(r)
  {
  }

  /** `change_codomain`: the same algebra over another index domain, the
      ring itself when the domain does not change. */
  function ChangeCodomain(ring: Ring, codomain: Codomain): (r: Result<Ring>)
    requires ValidRing(ring)
    ensures codomain.OtherDomain? ==> r == Err(TypeError("Codomain not supported"))
    ensures codomain == ring.codomain ==> r == Ok(ring)
    ensures r.Ok? ==> ValidRing(r.value) && r.value.algebra == ring.algebra && r.value.codomain == codomain
    ensures r.Err? <==> codomain.OtherDomain? || (ring.algebra.isD && codomain == ZZ)
  {
    if codomain != NN && codomain != ZZ then Err(TypeError("Codomain not supported"))
    else if ring.codomain == codomain then Ok(ring)
    else MakeRing(ring.algebra, codomain)
  }

  /** Changing the codomain and changing it back gives the ring back. */
  lemma ChangeCodomainBack(ring: Ring, codomain: Codomain)
    requires ValidRing(ring) && ChangeCodomain(ring, codomain).Ok?
    ensures ChangeCodomain(ChangeCodomain(ring, codomain).value, ring.codomain) == Ok(ring)
  {
    MakeRingOfValid(ring);
  }

  // ---------------------------------------------------------------------------
  // Powers

  /** `mul` is associative and `one` is its unit. */
  ghost predicate Monoidal<T(!new)>(mul: (T, T) -> T, one: T) {
    (forall a, b, c :: mul(mul(a, b), c) == mul(a, mul(b, c))) &&
    (forall a :: mul(one, a) == a && mul(a, one) == a)
  }

  /** The `n`-fold product `x*(x*(...*x))`. */
  function NFold<T>(mul: (T, T) -> T, one: T, x: T, n: nat): T {
    if n == 0 then one else mul(x, NFold(mul, one, x, n - 1))
  }

  /** Powers add their exponents. */
  lemma {:induction false} NFoldAdd<T(!new)>(mul: (T, T) -> T, one: T, x: T, a: nat, b: nat)
    requires Monoidal(mul, one)
    ensures NFold(mul, one, x, a + b) == mul(NFold(mul, one, x, a), NFold(mul, one, x, b))
  {
    if a > 0 {
      NFoldAdd(mul, one, x, a - 1, b);
      assert a + b - 1 == (a - 1) + b;
    }
  }

  /** The binary digits of `n`, most significant first, as `bin(n)[2:]`. */
  function Bits(n: nat): (bs: seq<bool>)
    ensures |bs| >= 1 && Value(bs) == n
    ensures n >= 1 ==> bs[0]
  {
    if n < 2 then [n == 1]
    else
      var hi := Bits(n / 2);
      assert (hi + [n % 2 == 1])[..|hi|] == hi;
      hi + [n % 2 == 1]
  }

  /** The number a sequence of binary digits, most significant first, stands for. */
  function Value(bs: seq<bool>): nat {
    if bs == [] then 0 else 2 * Value(bs[..|bs| - 1]) + (if bs[|bs| - 1] then 1 else 0)
  }

  /** Appending a binary digit doubles the power and multiplies by `x` once more for a one. */
  lemma PowStep<T(!new)>(mul: (T, T) -> T, one: T, x: T, bits: seq<bool>, i: nat)
    requires Monoidal(mul, one) && i < |bits|
    ensures var r := NFold(mul, one, x, Value(bits[..i]));
      NFold(mul, one, x, Value(bits[..i + 1])) == if bits[i] then mul(mul(r, r), x) else mul(r, r)
  {
    var k := Value(bits[..i]);
    assert bits[..i + 1][..i] == bits[..i];
    assert Value(bits[..i + 1]) == k + k + (if bits[i] then 1 else 0);
    NFoldAdd(mul, one, x, k, k);
    if bits[i] {
      NFoldAdd(mul, one, x, k + k, 1);
    }
  }

  /** `_pow(n)`: one for `0`, the element itself for `1`, `x * x^(n-1)` up
      to `10`, and above that left-to-right square-and-multiply over the
      binary digits of `n`. In every case the `n`-fold product. */
  method Pow<T(!new)>(mul: (T, T) -> T, one: T, x: T, n: nat) returns (r: T)
    requires Monoidal(mul, one)
    ensures r == NFold(mul, one, x, n)
    ensures n == 0 ==> r == one
    ensures n == 1 ==> r == x
    decreases n
  {
    if n == 0 {
      return one;
    }
    if n == 1 {
      return x;
    }
    if n <= 10 {
      var p := Pow(mul, one, x, n - 1);
      return mul(x, p);
    }
    r := one;
    var bits := Bits(n);
    for i := 0 to |bits|
      invariant r == NFold(mul, one, x, Value(bits[..i]))
    {
      PowStep(mul, one, x, bits, i);
      r := mul(r, r);
      if bits[i] {
        r := mul(r, x);
      }
    }
    assert bits[..|bits|] == bits;
  }
}
