/** D-finite sequences by their initial values: the points where those must
    be stored (the critical points around the singularities of the
    annihilating operator), negation, the zero test, and how `interlace`
    sends each index of the interlaced sequence to one of its two operands.
    The singularities come from the operator and are parameters here, and
    so is the evaluation `a[n]` of an operand. */
module DFiniteSequence {
  import opened Outcomes

  /** Stored initial values, `None` where a value is undetermined. */
  type InitialValues = map<int, Option<real>>

  /** A sequence: its annihilating operator, by identity, and its initial values. */
  datatype DSequence = DSequence(ann: nat, values: InitialValues)

  /** A D-finite object: a sequence, or a function given by the sequence of
      its Taylor coefficients. */
  datatype DObject = SequenceObject(seqn: DSequence) | FunctionObject(fann: nat, coefficients: DSequence)

  /** A set that is not empty has an element to pick. */
  lemma NonEmpty(r: set<int>)
    requires r != {}
    ensures exists y :: y in r
  {
    if forall y :: y !in r {
      assert false;
    }
  }

  // ---------------------------------------------------------------------------
  // Critical points

  /** `range(lo, hi + 1)` as a set. */
  function Interval(lo: int, hi: int): (r: set<int>)
    ensures forall k :: k in r <==> lo <= k <= hi
    decreases hi - lo
  {
    if lo > hi then {} else {lo} + Interval(lo + 1, hi)
  }

  /** `m` lies from `below` before to `above` after some singularity. */
  ghost predicate Near(sing: set<int>, below: nat, above: nat, m: int) {
    exists s :: s in sing && s - below <= m <= s + above
  }

  /** The points from `below` before to `above` after each singularity,
      gathered one singularity at a time as the loops of `critical_points` do. */
  method GatherAround(sing: set<int>, below: nat, above: nat) returns (pts: set<int>)
    ensures forall m :: m in pts <==> Near(sing, below, above, m)
  {
    pts := {};
    var rest := sing;
    while rest != {}
      invariant rest <= sing
      invariant forall m :: m in pts <==> Near(sing - rest, below, above, m)
      decreases rest
    {
      NonEmpty(rest);
      var n :| n in rest;
      var range := Interval(n - below, n + above);
      ghost var done := sing - rest;
      pts := pts + range;
      rest := rest - {n};
      assert sing - rest == done + {n};
      forall m ensures m in pts <==> Near(done + {n}, below, above, m) {
        if m in range {
          assert n in done + {n};
        }
        if Near(done + {n}, below, above, m) && m !in range {
          var s :| s in done + {n} && s - below <= m <= s + above;
          assert s in done;
        }
      }
    }
    assert sing - rest == sing;
  }

  /** `critical_points(order, backwards)`: forward, the singularities of the
      leading coefficient and the `ord` points after each; backward, those
      of the coefficient of lowest degree and the `ord` points before each,
      and nothing when the ring does not calculate backwards. `ord` is the
      order of the operator unless one is given; the singularities are
      those the operator reports. */
  method CriticalPoints(forward: set<int>, backward: set<int>, annOrder: nat, order: Option<nat>,
                        backwards: bool, backwardCalculation: bool) returns (pts: set<int>)
    ensures !backwards ==> forall m :: m in pts <==>
      Near(forward, 0, if order.Some? then order.value else annOrder, m)
    ensures backwards && backwardCalculation ==> forall m :: m in pts <==>
      Near(backward, if order.Some? then order.value else annOrder, 0, m)
    ensures backwards && !backwardCalculation ==> pts == {}
  {
    var ord := if order.Some? then order.value else annOrder;
    if !backwards {
      pts := GatherAround(forward, 0, ord);
    } else if backwardCalculation {
      pts := GatherAround(backward, ord, 0);
    } else {
      pts := {};
    }
  }

  /** The forward example: singularities `{1, 6}` and order 3. */
  lemma ForwardExample()
    ensures forall m :: Near({1, 6}, 0, 3, m) <==> m in {1, 2, 3, 4, 6, 7, 8, 9}
  {
    forall m ensures Near({1, 6}, 0, 3, m) <==> m in {1, 2, 3, 4, 6, 7, 8, 9} {
      if m in {1, 2, 3, 4, 6, 7, 8, 9} {
        var s := if m <= 4 then 1 else 6;
        assert s in {1, 6} && s <= m <= s + 3;
      }
    }
  }

  /** The backward example: singularities `{-4, 2}` and order 2. */
  lemma BackwardExample()
    ensures forall m :: Near({-4, 2}, 2, 0, m) <==> m in {-6, -5, -4, 0, 1, 2}
  {
    forall m ensures Near({-4, 2}, 2, 0, m) <==> m in {-6, -5, -4, 0, 1, 2} {
      if m in {-6, -5, -4, 0, 1, 2} {
        var s := if m <= -4 then -4 else 2;
        assert s in {-4, 2} && s - 2 <= m <= s;
      }
    }
  }

  // ---------------------------------------------------------------------------
  // Negation and the zero test

  /** Negates every stored value and keeps the undetermined ones. */
  function NegValues(iv: InitialValues): (r: InitialValues)
    ensures r.Keys == iv.Keys
    ensures forall k :: k in iv ==> (r[k].None? <==> iv[k].None?)
    ensures forall k :: k in iv && iv[k].Some? ==> r[k].value + iv[k].value == 0.0
  {
    map k | k in iv :: if iv[k].Some? then Some(-iv[k].value) else None
  }

  /** `_neg_`: the same operator, the negated initial values. */
  function Neg(a: DSequence): (r: DSequence)
    ensures r.ann == a.ann && r.values.Keys == a.values.Keys
  {
    DSequence(a.ann, NegValues(a.values))
  }

  lemma NegNeg(a: DSequence)
    ensures Neg(Neg(a)) == a
  {
    var r := Neg(Neg(a)).values;
    forall k | k in a.values ensures r[k] == a.values[k] {
    }
    assert r == a.values;
  }

  /** Every initial value is `0` or undetermined. */
  predicate AllZero(iv: InitialValues) {
    forall k :: k in iv ==> iv[k] == None || iv[k] == Some(0.0)
  }

  /** The scan of `__is_zero__` over the stored initial values. */
  method ScanZero(iv: InitialValues) returns (b: bool)
    ensures b <==> AllZero(iv)
  {
    var rest := iv.Keys;
    while rest != {}
      invariant rest <= iv.Keys
      invariant forall k :: k in iv && k !in rest ==> iv[k] == None || iv[k] == Some(0.0)
      decreases rest
    {
      NonEmpty(rest);
      var x :| x in rest;
      if iv[x] != Some(0.0) && iv[x] != None {
        return false;
      }
      rest := rest - {x};
    }
    return true;
  }

  /** `__is_zero__`: a sequence is zero when all its initial values are, a
      function when its coefficient sequence is. */
  method IsZero(a: DObject) returns (b: bool)
    ensures b <==> AllZero(if a.SequenceObject? then a.seqn.values else a.coefficients.values)
  {
    match a
    case SequenceObject(s) =>
      b := ScanZero(s.values);
    case FunctionObject(_, c) =>
      b := ScanZero(c.values);
  }

  /** The negation of a sequence is zero exactly when the sequence is. */
  lemma NegZero(a: DSequence)
    ensures AllZero(Neg(a).values) <==> AllZero(a.values)
  {
    var r := Neg(a).values;
    if AllZero(r) {
      forall k | k in a.values ensures a.values[k] == None || a.values[k] == Some(0.0) {
        assert k in r;
      }
    }
  }

  // ---------------------------------------------------------------------------
  // Interlacing

  /** Where a value of the interlaced sequence comes from: an index of the
      left operand (`self`) or of the right one. */
  datatype Source = Left(index: int) | Right(index: int)

  /** The index in the interlaced sequence `a0, b0, a1, b1, ...`. */
  function Position(src: Source): int {
    match src
    case Left(k) => 2 * k
    case Right(k) => 2 * k + 1
  }

  /** Even `n` from `self[n/2]`, odd `n` from `right[floor(n/2)]`. Python's
      `%` and integer `/` floor, as Dafny's do for the divisor 2. */
  function Route(n: int): (src: Source)
    ensures Position(src) == n
    ensures src.Left? <==> n % 2 == 0
  {
    if n % 2 == 0 then Left(n / 2) else Right(n / 2)
  }

  /** Every index of either operand is routed to from exactly one position. */
  lemma RoutePosition(src: Source)
    ensures Route(Position(src)) == src
  {
  }

  /** The value a source stands for, given the two operands' evaluations. */
  function ValueAt(src: Source, left: int -> Option<real>, right: int -> Option<real>): Option<real> {
    match src
    case Left(k) => left(k)
    case Right(k) => right(k)
  }

  /** The first initial values of the interlaced sequence, one per point. */
  method InterlacedValues(points: set<int>, left: int -> Option<real>, right: int -> Option<real>)
    returns (iv: InitialValues)
    ensures iv.Keys == points
    ensures forall n :: n in iv ==> iv[n] == ValueAt(Route(n), left, right)
  {
    iv := map[];
    var rest := points;
    while rest != {}
      invariant rest <= points && iv.Keys == points - rest
      invariant forall n :: n in iv ==> iv[n] == ValueAt(Route(n), left, right)
      decreases rest
    {
      NonEmpty(rest);
      var n :| n in rest;
      if n % 2 == 0 {
        iv := iv[n := left(n / 2)];
      } else {
        iv := iv[n := right(n / 2)];
      }
      rest := rest - {n};
    }
  }

  /** A value stored under `key`, taken from `src`. */
  datatype Entry = Entry(key: int, src: Source)

  /** Consistent: the value under a key is the one the key routes to. */
  predicate Consistent(e: Entry) {
    Position(e.src) == e.key
  }

  /** The extra value stored for a forward critical point `n` below
      `ord - min_degree`, as written: an odd index `n - ord + min_degree`
      has its value stored under `n - ord`. */
  function LowerEntryAsWritten(n: int, ord: nat, minDegree: nat): Entry {
    var m := n - ord + minDegree;
    if m % 2 == 0 then Entry(m, Left(m / 2)) else Entry(n - ord, Right(m / 2))
  }

  /** The same, storing the value of `n - ord + min_degree` under that index. */
  function LowerEntry(n: int, ord: nat, minDegree: nat): (e: Entry)
    ensures Consistent(e) && e.key == n - ord + minDegree
  {
    Entry(n - ord + minDegree, Route(n - ord + minDegree))
  }

  /** The two agree exactly when the index is even or `min_degree` is `0`. */
  lemma LowerEntryDiffers(n: int, ord: nat, minDegree: nat)
    ensures LowerEntryAsWritten(n, ord, minDegree) == LowerEntry(n, ord, minDegree) <==>
      ((n - ord + minDegree) % 2 == 0 || minDegree == 0)
    ensures LowerEntryAsWritten(0, 2, 1) == Entry(-2, Right(-1))
    ensures !Consistent(LowerEntryAsWritten(0, 2, 1))
  {
  }

  /** The extra value stored for a backward critical point `n` at least
      `min_degree`, as written: the index is `n - min_degree + ord`, but the
      side is chosen by the parity of `n + ord`. */
  function UpperEntryAsWritten(n: int, ord: nat, minDegree: nat): Entry {
    var m := n - minDegree + ord;
    if (n + ord) % 2 == 0 then Entry(m, Left(m / 2)) else Entry(m, Right(m / 2))
  }

  /** The same, choosing the side by the parity of the index itself. */
  function UpperEntry(n: int, ord: nat, minDegree: nat): (e: Entry)
    ensures Consistent(e) && e.key == n - minDegree + ord
  {
    Entry(n - minDegree + ord, Route(n - minDegree + ord))
  }

  /** The two agree exactly when `min_degree` is even. */
  lemma UpperEntryDiffers(n: int, ord: nat, minDegree: nat)
    ensures UpperEntryAsWritten(n, ord, minDegree) == UpperEntry(n, ord, minDegree) <==> minDegree % 2 == 0
    ensures UpperEntryAsWritten(1, 1, 1) == Entry(1, Left(0))
    ensures !Consistent(UpperEntryAsWritten(1, 1, 1))
  {
    var m := n - minDegree + ord;
    if minDegree % 2 == 0 {
      assert (n + ord) % 2 == m % 2;
    } else {
      assert (n + ord) % 2 != m % 2;
    }
  }
}
