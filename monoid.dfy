/** The monoid of generalized series: a coefficient field, the name of the
    variable, and whether the series are continuous (in `x` at zero) or
    discrete (in `n` at infinity). The constructor validates its three
    arguments; two monoids are equal when they agree on all three. */
module Monoid {
  import opened Outcomes

  /** The coefficient ring handed to the constructor. Rings are compared by
      identity in the library, so each carries the identity it has there. */
  datatype Field = QQ | NumberField(id: nat) | OtherRing(id: nat)

  datatype Kind = Continuous | Discrete

  datatype SeriesMonoid = SeriesMonoid(base: Field, name: string, kind: Kind)

  // ---------------------------------------------------------------------------
  // Substring search, as `str.find`

  predicate OccursAt(x: string, pat: string, i: int) {
    0 <= i && i + |pat| <= |x| && x[i..i + |pat|] == pat
  }

  ghost predicate Contains(x: string, pat: string) {
    exists i :: OccursAt(x, pat, i)
  }

  /** The first position at or after `i` where `pat` occurs, `-1` if none. */
  function FindFrom(x: string, pat: string, i: nat): (r: int)
    requires i <= |x|
    ensures r == -1 || (i <= r && OccursAt(x, pat, r))
    ensures forall j :: i <= j < (if r == -1 then |x| + 1 else r) ==> !OccursAt(x, pat, j)
    decreases |x| - i
  {
    if OccursAt(x, pat, i) then i
    else if i == |x| then -1
    else FindFrom(x, pat, i + 1)
  }

  /** `x.find(pat)`: the first position of `pat` in `x`, `-1` if it does not occur. */
  function Find(x: string, pat: string): (r: int)
    ensures r >= 0 <==> Contains(x, pat)
    ensures r >= 0 ==> OccursAt(x, pat, r) && forall j :: 0 <= j < r ==> !OccursAt(x, pat, j)
    ensures r < 0 ==> r == -1
  {
    FindFrom(x, pat, 0)
  }

  // ---------------------------------------------------------------------------
  // The constructor and equality

  /** The constructor: the base ring must be `QQ` or a number field, the
      variable name must not contain `LOG` (the name of the tail ring's
      variable), and the type must be `"continuous"` or `"discrete"`;
      checked in this order. */
  function MakeMonoid(base: Field, x: string, kind: string): (r: Result<SeriesMonoid>)
    ensures r.Ok? <==> !base.OtherRing? && !Contains(x, "LOG") && (kind == "continuous" || kind == "discrete")
    ensures base.OtherRing? ==> r == Err(TypeError("base ring must be QQ or a number field"))
    ensures !base.OtherRing? && Contains(x, "LOG") ==>
      r == Err(ValueError("generator name must not contain the substring 'LOG'"))
    ensures r.Ok? ==>
      r.value.base == base && r.value.name == x && (r.value.kind == Discrete <==> kind == "discrete")
  {
    if base.OtherRing? then Err(TypeError("base ring must be QQ or a number field"))
    else if Find(x, "LOG") >= 0 then Err(ValueError("generator name must not contain the substring 'LOG'"))
    else if kind != "continuous" && kind != "discrete" then
      Err(ValueError("type must be either \"continuous\" or \"discrete\""))
    else Ok(SeriesMonoid(base, x, if kind == "discrete" then Discrete else Continuous))
  }

  /** `__eq__`: same type, the same base ring, the same variable name. */
  predicate Equal(a: SeriesMonoid, b: SeriesMonoid) {
    a.kind == b.kind && a.base == b.base && a.name == b.name
  }

  /** Equality is an equivalence. */
  lemma EqualEquivalence(a: SeriesMonoid, b: SeriesMonoid, c: SeriesMonoid)
    ensures Equal(a, a)
    ensures Equal(a, b) ==> Equal(b, a)
    ensures Equal(a, b) && Equal(b, c) ==> Equal(a, c)
  {
  }

  /** Two constructed monoids are equal exactly when they were built from
      the same arguments. */
  lemma MakeMonoidEqual(b1: Field, x1: string, k1: string, b2: Field, x2: string, k2: string)
    requires MakeMonoid(b1, x1, k1).Ok? && MakeMonoid(b2, x2, k2).Ok?
    ensures Equal(MakeMonoid(b1, x1, k1).value, MakeMonoid(b2, x2, k2).value) <==>
      (b1 == b2 && x1 == x2 && k1 == k2)
  {
  }

  /** The code forbids `LOG` only: a name containing the lower-case `log`
      is accepted, and one containing `LOG` anywhere is refused. */
  lemma LogCaseExample()
    ensures MakeMonoid(QQ, "log", "continuous").Ok?
    ensures MakeMonoid(QQ, "xLOG", "discrete") == Err(ValueError("generator name must not contain the substring 'LOG'"))
  {
    var x := "log";
    assert x[0] != "LOG"[0];
    assert !OccursAt(x, "LOG", 0);
    assert OccursAt("xLOG", "LOG", 1);
  }
}
