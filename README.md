# Generalized series, modelled in Dafny

This project models the value engine of the generalized series in `generalized_series.py`, together with a small slice of the D-finite function rings in `src/ore_algebra/dfinite_function.py`. The verifier checks each model against its stated contracts.

A *continuous* generalized series stands for `exp(∫ p(x^(-1/r))/x dx) · q(x^(1/r), log x)`:

- `r` is the ramification;
- `p` is the exponential part, a polynomial;
- `q`, the tail, is a polynomial in `LOG` whose coefficients are truncated power series in `x^(1/r)`.

A *discrete* generalized series stands for `(n/e)^(γn) · ρ^n · exp(s(n^(1/r))) · n^α · q(n^(-1/r), log n)`. It is stored as the tuple `(gamma, ram, rho, subexp, alpha, expansion)`.

Both kinds are immutable values. Each operation works the same way:

1. rewrites its operands for a common ramification (`__inflate`);
2. combines them componentwise;
3. hands the result to a normalizing constructor.

The constructor moves the smallest valuation of the tail into the exponent. It then reduces the ramification to the least one the exponents need, and represents zero in exactly one way.

## How the model is built

**The numbers.**
- The coefficient field (`QQ` or a number field) is modelled by exact `real` arithmetic.
- `gamma` is a rational in lowest terms (`Numbers.Rat`).

**Polynomials and series.**
- Polynomials are coefficient sequences without trailing zeros, so the host library's polynomial equality is `==`.
- A truncated power series is its known coefficients plus a precision (`PowerSeries.Series`). It follows the host library's precision rules: a sum keeps the smaller precision, and a product keeps `min(val a + prec b, val b + prec a)`.
- A tail is a sequence of such series indexed by the power of `LOG` (`Tails.Tail`).

**Exponents.** They are integers in units of `1/ram`, as in the code.

**The constructors.**
- Each constructor is a function: `Continuous.Normalize` and `Discrete.Normalize`.
- Each also has a method with the library's loops: the valuation scan, the lcm accumulation and the rebuilding of exponent dictionaries. Each method is proved to compute its function.

**The D-finite slice.**
- The Ore operator's singularities are parameters.
- The evaluations `self[n]` and `right[n]` are function parameters.
- Multiplication of D-finite objects is any associative operation with a unit.

**Where the documentation and the code disagree, the model follows the code.**
- The documentation of `GeneralizedSeriesMonoid` (generalized_series.py:27) says the variable name must not contain `log`. The code (generalized_series.py:162) refuses `LOG` only, and `Monoid.LogCaseExample` states this.
- Several of the cases below are defects; they are listed under Findings with both the as-written and the corrected behaviour.
- The discrete operations (`DiscreteArith.Mul`, `Add`, `Invert`, `Neg` and `DiscreteShift.Shift`) are built on the corrected constructor `Discrete.Normalize`. It accepts the zero with `rho = 0` and stores `new_ram`. The constructor as written is `Discrete.NormalizeAsWritten`; the Findings say where the two differ.

## Model

| member | source | states |
|---|---|---|
| Monoid.Find | generalized_series.py:162 | `x.find(pat)`: the first position where `pat` occurs; `-1` exactly when it does not occur |
| Monoid.MakeMonoid | generalized_series.py:156-169 | A monoid is built exactly when the base is `QQ` or a number field, the name has no `LOG` and the type is `continuous` or `discrete`. Otherwise TypeError for the base, then ValueError for the name, with the library's messages. The result keeps base, name and type |
| Monoid.EqualEquivalence | generalized_series.py:221-225 | `__eq__` (same type, same base, same name) is reflexive, symmetric and transitive |
| Monoid.MakeMonoidEqual | generalized_series.py:221-225 | Two constructed monoids are equal exactly when they were built from the same three arguments |
| Monoid.LogCaseExample | generalized_series.py:162 | The name `log` is accepted; `xLOG` is refused with the ValueError |
| Continuous.Order | generalized_series.py:730-756 | `order()` is undefined exactly for the zero series |
| Continuous.FoldValuation | generalized_series.py:360-367 | Folding the least valuation `v` of the tail coefficients divides every coefficient by `x^v` (precision lowered by `v`), so that one has valuation 0. It adds `v/ram` to the constant term of the exponential part and changes no other term |
| Continuous.NewRamDivides | generalized_series.py:369-372 | The new ramification divides the requested one |
| Continuous.NewRamCovers | generalized_series.py:369-372 | The new ramification is a common multiple of the denominators of `e/ram` over the exponential part, and over the tail whenever it differs from `ram` |
| Continuous.NewRamLeast | generalized_series.py:369-372 | The new ramification divides every common multiple of those denominators: it is their lcm |
| Continuous.ReduceRam | generalized_series.py:369-390 | The rescaled series has ramification `new_ram`, which divides `ram`. When it is smaller, every exponent was a multiple of `ram/new_ram` and is divided by it. When it is not, nothing changes |
| Continuous.ReduceRamValid | generalized_series.py:369-390 | Rescaling a tail of valuation 0 gives a normalized series (valuation folded, ramification minimal) |
| Continuous.Normalize | generalized_series.py:331-397 | The constructor: ramification ≤ 0 gives ValueError with the library's message. A zero tail gives the canonical zero. Otherwise the result is normalized, its ramification divides the requested one, and, put back into the requested ramification, its exponential part is the given one plus `val/ram` and every tail coefficient is the given one divided by `x^val` |
| Continuous.NormalizeOrderAbove | generalized_series.py:360-367 | Normalizing never lowers the order below the given exponent |
| Continuous.NormalizeFixpoint | generalized_series.py:331-397 | A normalized series is left alone by the constructor (normalizing is idempotent) |
| Continuous.NewRamOfValid | generalized_series.py:369-372 | A normalized nonzero series already has the ramification its exponents need |
| Continuous.NewRamBelow | generalized_series.py:369-390 | When `new_ram < ram`, the factor `ram/new_ram` is a proper divisor of `ram` and divides every exponent |
| Continuous.MakeMonicIsMonic | generalized_series.py:392-393 | `make_monic` makes the first nonzero coefficient of the leading coefficient 1 |
| Continuous.Copy | generalized_series.py:341-347 | The copying constructor returns the series unchanged, or made monic with the same exponents and support |
| Continuous.MinValuation | generalized_series.py:362 | The scan `min(c.valuation() …)` computes the least valuation of the tail |
| Continuous.LcmList | generalized_series.py:369-372 | `lcm([acc] + dens)` accumulated one denominator at a time is the lcm fold |
| Continuous.ComputeNewRam | generalized_series.py:369-372 | The loop over the exponential part and then the tail computes `new_ram` |
| Continuous.Rekey | generalized_series.py:374-390 | Rebuilding a polynomial from the dictionary `{e/quo: p[e]}` gives `p(x^(1/quo))` |
| Continuous.Rescale | generalized_series.py:374-390 | The dictionary rebuilding of the exponential part and every tail coefficient computes the rescaled series |
| Continuous.Construct | generalized_series.py:331-397 | The constructor as the library runs it, loops included, computes `Normalize` |
| ContinuousArith.InflateTo | generalized_series.py:432-456 | `__inflate(s)` returns the series itself for `s == ram` and ValueError for `s <= 0`. For `s > 0` it succeeds exactly when `ram` divides `s`, keeping the number of tail coefficients and the exponent's constant term |
| ContinuousArith.InflateRoundTrip | generalized_series.py:432-456 | Handing the inflated data back to the constructor gives a series equal to the original |
| ContinuousArith.InflateToMultiple | generalized_series.py:432-456 | For a proper multiple `k·ram`, `__inflate` substitutes `x^k` in the exponential part and the tail |
| ContinuousArith.ReduceInflated | generalized_series.py:369-390 | The constructor's ramification reduction undoes an inflation |
| ContinuousArith.Unify | generalized_series.py:473-475 | Both operands are rewritten for `lcm(a.ram, b.ram)` by `__inflate` |
| ContinuousArith.UnifySwap | generalized_series.py:473-475 | Unifying in the other order swaps the operands |
| ContinuousArith.Mul | generalized_series.py:470-477 | The product is normalized, its ramification divides the lcm, and it is zero when either factor is. Otherwise it is the normal form, at the lcm ramification, of the sum of the rewritten exponential parts and the product of the rewritten tails |
| ContinuousArith.MulComm | generalized_series.py:470-477 | The product does not depend on the order of the factors |
| ContinuousArith.MulOrder | generalized_series.py:470-477 | For tails of `LOG` degree 0 the product has one `LOG` coefficient and its order is the sum of the orders |
| ContinuousArith.MulOne | generalized_series.py:470-477 | The one is neutral on both sides |
| ContinuousArith.Neg | generalized_series.py:479-484 | Negation negates the tail and keeps the exponential part and the ramification |
| ContinuousArith.NegNeg | generalized_series.py:479-484 | Negation is an involution |
| ContinuousArith.SimilarSymmetric | generalized_series.py:764-802 | `similar` is symmetric for every reference set |
| ContinuousArith.SimilarReflexive | generalized_series.py:764-802 | Every series is similar to itself |
| ContinuousArith.SimilarExampleAB | generalized_series.py:776-782 | The documented examples: `A` is similar to `B` and `B` to `A` |
| ContinuousArith.SimilarExampleAC | generalized_series.py:783-787 | `A` and `C` are not similar over the integers but are over the rationals |
| ContinuousArith.SimilarExampleAD | generalized_series.py:788-790 | `A` (ramification 2) and `D` (ramification 4) are similar |
| ContinuousArith.Add | generalized_series.py:486-508 | A zero operand gives the other operand. Non-similar operands give ValueError with the library's message. Otherwise the sum is normalized and its ramification divides the lcm. A nonzero sum starts no lower than one of the operands' exponents, and when the operands' orders differ its order is the smaller one |
| ContinuousArith.AddTails | generalized_series.py:496-508 | For similar operands the sum is the normal form, at the lcm ramification, of the lower operand's exponential part with the tail `t + x^d·u`: the lower operand's tail plus the other one's moved up by the integer difference `d` of their exponents |
| ContinuousArith.SimilarSumOrder | generalized_series.py:496-508 | For similar operands with different orders the order of the sum is the smaller order |
| ContinuousArith.SumAlignedOrder | generalized_series.py:496-508 | Over a common ramification with an integer difference of exponents, the order of the sum is the smaller order |
| ContinuousArith.ShiftedSum | generalized_series.py:496-508 | The series `lo` with tail `t + x^d·u` is normalized, starts no lower than `lo`, is the normal form of that data, and for `d > 0` and `t` of valuation 0 has order `lo`'s constant term |
| Tails.ShiftedAddMinOrd | generalized_series.py:496-508 | Adding `x^d·u` with `d > 0` to a tail of valuation 0 gives a nonzero tail of valuation 0 |
| ContinuousArith.AddNeg | generalized_series.py:486-508 | A series plus its negation is the zero |
| ContinuousArith.AddComm | generalized_series.py:486-508 | The sum does not depend on the order of the operands |
| ContinuousArith.Invert | generalized_series.py:510-520 | Zero gives ZeroDivisionError. A logarithmic series gives ValueError. A tail of degree 0 gives a normalized inverse whose order is the negated order; it is the normal form of the negated exponential part with the inverted tail, and equals them when the ramification is kept |
| ContinuousArith.InvertMulOne | generalized_series.py:510-520 | When the inverse keeps the ramification, the series times its inverse equals the one |
| ContinuousArith.InvertAsWritten | generalized_series.py:510-520 | As written, zero gives ZeroDivisionError, a logarithmic series gets no ValueError, and otherwise the result is the intended one |
| ContinuousArith.InvertLogExample | generalized_series.py:514-515 | `~(1 + log x)` is refused with the documented message by the intended test but passes the test as written |
| ContinuousParts.IsZeroIff | generalized_series.py:804-808 | `is_zero()` holds exactly for the canonical zero |
| ContinuousParts.ExponentialPart | generalized_series.py:638-657 | `exponential_part()` has tail one, a ramification dividing the series', and the order of the series; put back into the series' ramification its exponential part is the series' own |
| ContinuousParts.ExponentialPartLowersRam | generalized_series.py:638-657 | The exponential part of `x^(1/2)·(1 + x^(1/2))` is `x^(1/2)` on ramification 1: the constructor reduces the ramification |
| ContinuousParts.ExponentialPartIdempotent | generalized_series.py:638-657 | Taking the exponential part twice changes nothing |
| ContinuousParts.TailPart | generalized_series.py:687-706 | `tail()` has exponential part zero and as many `LOG` coefficients; it is zero for zero and otherwise has order 0, and put back into the series' ramification every tail coefficient is the series' own |
| ContinuousParts.TailPartIdempotent | generalized_series.py:687-706 | Taking the tail twice changes nothing |
| ContinuousParts.HasExponentialPartAlwaysTrue | generalized_series.py:659-679 | As written, `has_exponential_part()` holds for every series |
| ContinuousParts.HasExponentialPartExample | generalized_series.py:669-670 | For `G(1+x+x^2)` the documented test answers False and the test as written answers True |
| ContinuousParts.IsOneAsWrittenNever | generalized_series.py:810-814 | As written, `is_one()` holds for no series |
| ContinuousParts.OneIsOne | generalized_series.py:810-814 | The one passes the corrected `is_one()` and fails the one as written |
| ContinuousParts.IsOneIff | generalized_series.py:810-814 | The corrected `is_one()` holds exactly when the series equals the one |
| ContinuousParts.HasLogarithmsAsWritten | generalized_series.py:681-685 | As written, `has_logarithms()` returns nothing |
| ContinuousParts.Prec | generalized_series.py:902-912 | `prec()` is infinite for zero; otherwise it is the least precision of the nonzero tail coefficients, attained by one of them |
| ContinuousParts.RamificationKept | generalized_series.py:718-721 | `G(1+x+x^2, ramification=2)` keeps ramification 2 |
| ContinuousParts.RamificationReduced | generalized_series.py:722-725 | `G(1+x^2+x^4, ramification=2)` is `1+x+x^2` with ramification 1 |
| ContinuousCalculus.Substitute | generalized_series.py:816-859 | `substitute(e)`: a nonpositive `e` gives TypeError, and `e = 1` gives the series itself. Otherwise the result is normalized with as many `LOG` coefficients and order `e` times the order; for `e = a/b` in lowest terms it is the normal form, at ramification `b·ram`, of the exponential part times `a/b` in `x^a` and the tail with `LOG` scaled by `a/b` and `x` replaced by `x^a` |
| ContinuousCalculus.SubstituteReduced | generalized_series.py:847-859 | The substitution of `x^(a/b)` for a reduced positive `a/b` scales the order by `a/b` and is the normal form of the substituted exponential part and tail at ramification `b·ram` |
| ContinuousCalculus.SubstituteExample | generalized_series.py:823-828 | The documented substitutions of `1 + x^(1/2) + x`: by `3/5` it becomes `1 + x^(3/10) + x^(6/10)`, which by `10/3` gives back `1 + x + x^2`, the same as substituting `2` at once |
| ContinuousCalculus.Derivative | generalized_series.py:861-900 | The derivative of zero is zero |
| ContinuousCalculus.PowerRule | generalized_series.py:861-900 | The derivative of `x^α` is `α·x^(α-1)`, and zero for `α = 0` |
| ContinuousCalculus.LogPowerRule | generalized_series.py:861-900 | For every `k` the derivative of `log(x)^k` is `k·x^(-1)·log(x)^(k-1)`, and that of `log(x)^0` is zero |
| ContinuousCalculus.LogCubedDerivative | generalized_series.py:872-875 | The documented example: the derivative of `log(x)^3` is `x^(-1)·3·log(x)^2` |
| Discrete.NewRamLeast | generalized_series.py:987-992 | `new_ram` covers `gamma` and every exponent, and divides every ramification that does |
| Discrete.MinimalIff | generalized_series.py:987-992 | The ramification is minimal exactly when `new_ram` is not below it |
| Discrete.ZeroOneNormal | generalized_series.py:972-978 | The canonical zero and the one are normal series |
| Discrete.Diff | generalized_series.py:982 | `diff` is the least valuation among the coefficients, attained by one of them |
| Discrete.Fold | generalized_series.py:980-985 | Folding divides every coefficient by `x^diff` (precision lowered by `diff`) and lowers `alpha` by `diff/ram`, so that the leading power of `n` is unchanged. Nothing changes when `diff` is 0 |
| Discrete.ReduceRam | generalized_series.py:987-1009 | The reduction keeps `gamma`, `rho` and `alpha`, stores the smaller of `new_ram` and the requested ramification, keeps valuation 0, and is covered by the smaller ramification when it applies |
| Discrete.MakeMonic | generalized_series.py:1011-1013 | `make_monic` changes only the expansion, keeps its support and makes its leading coefficient monic |
| Discrete.Normalize | generalized_series.py:923-1013 | The corrected constructor: ValueError exactly for `ram <= 0` or a zero `rho` with a nonzero expansion. A zero expansion gives the canonical zero. Otherwise the result is well formed, with `gamma` reduced, the same `rho` and `alpha` moved by `diff/ram`; `subexp` and every coefficient divided by `x^diff` carry the same coefficients on the same powers of `n` at the stored ramification |
| Discrete.NormalizeRam | generalized_series.py:987-1009 | The stored ramification is the smaller of `new_ram` of the folded data and the requested one |
| Discrete.NormalizeFixpoint | generalized_series.py:923-1013 | A normal series is left alone by the constructor |
| Discrete.NormalizeAsWritten | generalized_series.py:923-1013 | The constructor as written: ValueError exactly for `ram <= 0` or `rho = 0`. Otherwise it gives the corrected result with the requested ramification in place of `new_ram` |
| DiscreteConstruct.MinValuation | generalized_series.py:982 | The scan over the coefficients computes `diff` |
| DiscreteConstruct.ComputeNewRam | generalized_series.py:988-992 | The lcm loop computes `new_ram` |
| DiscreteConstruct.FoldValuation | generalized_series.py:981-985 | The normalization of `alpha`, run as the constructor runs it, gives the fold of `diff`: `alpha` lowered by `diff/ram` and every coefficient divided by `x^diff` |
| DiscreteConstruct.ReduceRamification | generalized_series.py:987-1009 | The normalization of the ramification, loops included, gives the well-formed series whose ramification, at most `ram`, is the lcm of the exponents' denominators, with `subexp` and the expansion rescaled to it |
| DiscreteConstruct.RescaleData | generalized_series.py:994-1009 | The dictionary rebuilding of `subexp` and the expansion computes their rescaling |
| DiscreteConstruct.RescalePoly | generalized_series.py:998-1001 | `{e·n/ram: p[e]}` rebuilt as a polynomial is the rescaled polynomial |
| DiscreteConstruct.RescaleExpansion | generalized_series.py:1003-1009 | The expansion rebuilt coefficient by coefficient is the rescaled expansion |
| DiscreteConstruct.Construct | generalized_series.py:952-1013 | The corrected constructor, run with the library's loops, computes `Normalize`. It differs from the code in two places: it accepts `rho = 0` with a zero expansion, where the code at 961-962 refuses it, and it stores `new_ram`, which the code at 994-1009 never assigns |
| DiscreteConstruct.FromPolynomial | generalized_series.py:943-950 | A polynomial `p(n)` becomes the normal series `n^deg p · (reversed p)(1/n)` with exact coefficients, and the zero polynomial becomes zero |
| DiscreteArith.InflateTo | generalized_series.py:1062-1076 | `__inflate(s)` returns the data unchanged for `s == ram`, and otherwise substitutes `x^(s/ram)` |
| DiscreteArith.InflateRoundTrip | generalized_series.py:1062-1076 | Handing the inflated data back to the constructor gives a series equal to the original |
| DiscreteArith.ReduceRamRescales | generalized_series.py:994-1009 | When `new_ram` is a proper divisor, the reduction rescales `subexp` and the expansion to it |
| DiscreteArith.Mul | generalized_series.py:1091-1105 | The product is well formed with ramification at most the lcm, and zero when a factor is. Otherwise it is the normal form, at the lcm ramification, of `gamma` the sum, `rho` the product, `subexp` the sum, `alpha` the sum and the product of the rewritten expansions |
| DiscreteArith.MulComm | generalized_series.py:1091-1105 | The product does not depend on the order of the factors |
| DiscreteArith.MulAlpha | generalized_series.py:1091-1105 | For normal factors with expansions of `LOG` degree 0 the product is normal and its `alpha` is the sum |
| DiscreteArith.MulAsWritten | generalized_series.py:1091-1105 | As written, the product fails with ValueError exactly when a factor is zero, because zero is stored with `rho = 0` |
| DiscreteArith.ZeroTimes | generalized_series.py:961-962 | `0 * s` is zero with the corrected constructor and ValueError as written |
| DiscreteArith.MulAsWrittenAgrees | generalized_series.py:1091-1105 | For a nonzero product, the code gives the corrected product with the lcm ramification stored in place of `new_ram` |
| DiscreteArith.MulOne | generalized_series.py:1091-1105 | The one is neutral on both sides |
| DiscreteArith.Neg | generalized_series.py:1107-1111 | Negation gives a well-formed series; for a normal series it only negates the expansion |
| DiscreteArith.NegNeg | generalized_series.py:1107-1111 | Negation is an involution on normal series |
| DiscreteArith.NegAsWritten | generalized_series.py:1107-1111 | As written, negating the zero series raises ValueError |
| DiscreteArith.NegZero | generalized_series.py:961-962 | `-0` is `0` with the corrected constructor and ValueError with the one as written |
| DiscreteArith.SimilarSymmetric | generalized_series.py:1263-1274 | `similar` is symmetric |
| DiscreteArith.SimilarReflexive | generalized_series.py:1263-1274 | Every series is similar to itself |
| DiscreteArith.SimilarCoarser | generalized_series.py:1263-1274 | Similar over the integers implies similar over the rationals |
| DiscreteArith.Add | generalized_series.py:1113-1136 | A zero operand gives the other operand; non-similar operands give ValueError. Otherwise the sum is well formed, keeps `gamma` and `rho`, its ramification is at most the operands', and its `alpha` is at most the larger one |
| DiscreteArith.AddSum | generalized_series.py:1113-1136 | For similar nonzero operands the sum is zero when the expansions, the lower one lifted to the larger `alpha`, cancel; otherwise it is the normal form of the common `gamma`, `rho` and `subexp` with the larger `alpha` and those expansions added |
| DiscreteArith.AddComm | generalized_series.py:1113-1136 | The sum does not depend on the order of the operands |
| DiscreteArith.AddNeg | generalized_series.py:1113-1136 | A normal series plus its negation is zero |
| DiscreteArith.Invert | generalized_series.py:1138-1147 | Zero gives ZeroDivisionError and a logarithmic expansion gives ValueError. Otherwise the inverse exists exactly when the expansion is a unit, and is the normal form of `gamma` negated, `rho` inverted, `subexp` negated, `alpha` negated and the inverted expansion |
| DiscreteArith.InvertMulOne | generalized_series.py:1138-1147 | When the inverse keeps the ramification, the series times its inverse equals the one |
| DiscreteArith.InvertNormalForm | generalized_series.py:1138-1147 | A normal series with a unit expansion has a normal inverse with `alpha` negated |
| DiscreteArith.InvertOne | generalized_series.py:1138-1147 | The one is its own inverse |
| DiscreteArith.IsOneIff | generalized_series.py:1279-1281 | `is_one()` holds exactly when the series equals the one |
| DiscreteArith.Prec | generalized_series.py:1313-1323 | `prec()` is infinite for zero; otherwise it is the least precision of the nonzero coefficients over `ram`, attained by one of them |
| DiscreteArith.Copy | generalized_series.py:932-941 | The copying constructor returns the series, or changes only the expansion to make it monic |
| DiscreteArith.CopyAsWritten | generalized_series.py:939-940 | As written, copying a nonzero series with `make_monic` raises AttributeError; otherwise it is the intended copy |
| DiscreteArith.CopyOneExample | generalized_series.py:939-940 | Copying the one with `make_monic` fails as written and gives the one as intended |
| DiscreteArith.RamNotStoredExample | generalized_series.py:987-1009 | `1 + n^(-2/2)` given with ramification 2 is stored as written as `1 + n^(-1/2)`, and as `1 + n^(-1)` with ramification 1 when the new ramification is stored |
| ShiftQuotient.ComputeBinomial | generalized_series.py:1328-1335 | `_binomial(lam, j)`'s loop computes `lam(lam-1)…(lam-j+1)/j!` |
| ShiftQuotient.BinomialLow | generalized_series.py:1328-1335 | `_binomial(lam, 0) = 1` and `_binomial(lam, 1) = lam` |
| ShiftQuotient.BinomialNaturalVanishes | generalized_series.py:1328-1335 | For a natural `n < j`, `_binomial(n, j) = 0` |
| ShiftQuotient.BinomialPascal | generalized_series.py:1328-1335 | Pascal's rule holds for every `lam` in the field |
| ShiftQuotient.FallingSelf | generalized_series.py:1328-1335 | `n` falling `n` times is `n!` |
| ShiftQuotient.ComputeTruncExp | generalized_series.py:1341-1344 | The loop of truncated powers computes `exp(inner)` truncated mod `n^(prec+1)` |
| ShiftQuotient.TruncExpReference | generalized_series.py:1341-1344 | Truncating each power as it is formed equals truncating the whole exponential sum once |
| ShiftQuotient.TruncExpOfZero | generalized_series.py:1341-1344 | The truncated exponential of zero is one |
| ShiftQuotient.ComputeSuperExpansion | generalized_series.py:1337-1348 | The loops of `_super_expansion` compute the reversed truncated exponential, of degree at most `prec` with top coefficient 1 |
| ShiftQuotient.SuperExpansionShape | generalized_series.py:1337-1348 | Coefficient `prec - l` of `_super_expansion` is coefficient `l` of the exponential sum |
| ShiftQuotient.ComputeSubExpansion | generalized_series.py:1349-1363 | The nested loops of `_sub_expansion` compute the reversed product of truncated exponentials, of degree at most `v·prec` with top coefficient 1 |
| ShiftQuotient.SubExpansionShape | generalized_series.py:1349-1363 | `_sub_expansion` has degree at most `v·prec` and top coefficient 1, and is `n^(v·prec)` when every `c_l` is zero |
| Quotient.QuotientWith | generalized_series.py:1397-1426 | A negative shift gives ValueError, and `prec + i·gamma < 0` gives "insufficient precision"; these are the only errors |
| Quotient.ShiftQuotient | generalized_series.py:1365-1426 | The shift quotient fails exactly for a negative shift or insufficient precision |
| Quotient.ShiftQuotientAsWritten | generalized_series.py:1365-1426 | As written, it fails in the same cases |
| Quotient.AsWrittenWithoutMultiplier | generalized_series.py:1402-1415 | Without a multiplier `m` the code and the correction agree |
| Quotient.GeometricPowerQuotient | generalized_series.py:1417-1424 | For `rho^n·n^alpha` the quotient is `rho^i` times the binomial sum of `(1 + i/n)^alpha` |
| Quotient.QuotientRho | generalized_series.py:1417-1418 | For every `gamma`, `subexp` and `alpha`, `rho` does not change whether the quotient fails, and the quotient is `rho^shift` times the quotient for `rho = 1` |
| Quotient.ShiftQuotientRho | generalized_series.py:1417-1418 | The same for the quotient as written and for the corrected one |
| Quotient.ShiftQuotientAtZero | generalized_series.py:1397-1398 | The shift 0 gives `x^(ram·prec)` |
| Quotient.ConstantQuotient | generalized_series.py:1365-1426 | For a constant, every shift gives the same quotient as the shift 0 |
| Quotient.ConstantQuotientAsWritten | generalized_series.py:1397-1415 | As written, with no `gamma` and a vanishing `subexp`, every positive shift of a constant gives `x^prec` while the shift 0 gives `x^(m·prec)`; they differ whenever `m > 1` and `prec > 0` |
| DiscreteShift.SubexpList | generalized_series.py:1291 | The list comprehension collects `subexp[1] … subexp[bound-1]` |
| DiscreteShift.LeakedShift | generalized_series.py:1291 | After the comprehension, the shift amount is `bound - 1` whenever the list is not empty |
| DiscreteShift.WorkingPrec | generalized_series.py:1288 | `prec` is the least precision of the coefficients, undefined when all are exact |
| DiscreteShift.XShifted | generalized_series.py:1300 | `x_shifted` has the coefficients of `x·Σ C(-1/ram, k)(i·x^ram)^k` |
| DiscreteShift.LogShifted | generalized_series.py:1306 | `logx_shifted` has the coefficients of `-Σ (-i·x^ram)^k/k` |
| DiscreteShift.Shift | generalized_series.py:1283-1311 | Zero shifts to itself. The shift fails exactly for an exact expansion, a ramification that is not a multiple of `den(gamma)`, a negative amount, or insufficient precision. A negative amount gives the library's ValueError. The result is well formed and keeps `gamma` and `rho` |
| DiscreteShift.ShiftAsWritten | generalized_series.py:1283-1311 | As written, the failure cases are those of the leaked amount instead of the requested one |
| DiscreteShift.Call | generalized_series.py:1018-1030 | `s(arg)`: a constant gives NotImplementedError; a polynomial other than `n + i` with natural `i` gives ValueError; `n + i` gives `shift(i)` |
| DiscreteShift.CallIsShift | generalized_series.py:1018-1030 | `s(n + i)` is `s.shift(i)` for every natural `i` |
| DiscreteShift.CallRefusesNegative | generalized_series.py:1026-1027 | `s(n - 1)` is refused with ValueError |
| DiscreteShift.ShiftLeakExample | generalized_series.py:1291 | For `(n/e)^(n/2)·(1 + O(n^(-1/2)))` every shift amount leaks to 1. As written, `shift(-1)` succeeds; corrected, it is refused |
| DiscreteShift.ShiftNeedsPrecision | generalized_series.py:1288 | The one, whose expansion is exact, cannot be shifted |
| DiscreteShift.XShiftedAtZero | generalized_series.py:1300 | For shift 0, `x_shifted` is `x` |
| DiscreteShift.LogShiftedAtZero | generalized_series.py:1306 | For shift 0, `logx_shifted` is 0 |
| DiscreteShift.MulByLog | generalized_series.py:1308 | Multiplying a tail by `LOG` moves every coefficient up by one |
| DiscreteShift.ShiftLogByZero | generalized_series.py:1308 | Substituting `LOG + 0` for `LOG` leaves a tail with exact zero coefficients alone |
| DiscreteShift.ShiftOfConstant | generalized_series.py:1283-1311 | A constant `1 + O(n^(-p))` is its own shift by every natural amount |
| DiscreteShift.ShiftByZero | generalized_series.py:1283-1311 | `shift(0)` is the identity on a normal series whose coefficients share one precision |
| DFiniteRing.MakeRing | src/ore_algebra/dfinite_function.py:106-118 | A codomain other than NN or ZZ gives TypeError, and a differential algebra over ZZ gives NotImplementedError. Otherwise the ring has that algebra and codomain, and computes backwards exactly when the codomain is ZZ |
| DFiniteRing.MakeRingOfValid | src/ore_algebra/dfinite_function.py:106-118 | Every valid ring is the one the constructor builds from its algebra and codomain |
| DFiniteRing.ChangeCodomain | src/ore_algebra/dfinite_function.py:751-757 | Anything but NN or ZZ gives TypeError; the same codomain gives the ring itself; otherwise the result is a valid ring with the same algebra and the new codomain |
| DFiniteRing.ChangeCodomainBack | src/ore_algebra/dfinite_function.py:751-757 | Changing the codomain and changing it back gives the ring back |
| DFiniteRing.NFoldAdd | src/ore_algebra/dfinite_function.py:1587-1598 | For an associative multiplication with unit, `x^(a+b) = x^a · x^b` |
| DFiniteRing.Bits | src/ore_algebra/dfinite_function.py:1593 | `bin(n)[2:]`: the binary digits stand for `n` and start with 1 |
| DFiniteRing.Pow | src/ore_algebra/dfinite_function.py:1581-1598 | `_pow(n)` is the `n`-fold product: one for 0, the element for 1, by recursion up to 10 and by square-and-multiply above |
| DFiniteSequence.Interval | src/ore_algebra/dfinite_function.py:1206 | `range(lo, hi + 1)` as a set holds exactly `lo..hi` |
| DFiniteSequence.GatherAround | src/ore_algebra/dfinite_function.py:1203-1211 | The loop over the singularities gathers exactly the points from `below` before to `above` after one of them |
| DFiniteSequence.CriticalPoints | src/ore_algebra/dfinite_function.py:1196-1213 | Forward: the points from `s` to `s + ord` over the forward singularities. Backward: from `s - ord` to `s` when backward calculation is on, otherwise nothing. `ord` defaults to the operator's order |
| DFiniteSequence.ForwardExample | src/ore_algebra/dfinite_function.py:1190-1191 | Singularities `{1, 6}` and order 3 give `{1, 2, 3, 4, 6, 7, 8, 9}` |
| DFiniteSequence.BackwardExample | src/ore_algebra/dfinite_function.py:1192-1193 | Backward singularities `{-4, 2}` and order 2 give `{-6, -5, -4, 0, 1, 2}` |
| DFiniteSequence.NegValues | src/ore_algebra/dfinite_function.py:2145 | The negated initial values have the same keys, keep `None`, and negate every known value |
| DFiniteSequence.Neg | src/ore_algebra/dfinite_function.py:2145-2146 | `_neg_` keeps the operator and the keys |
| DFiniteSequence.NegNeg | src/ore_algebra/dfinite_function.py:2145-2146 | Negation is an involution |
| DFiniteSequence.ScanZero | src/ore_algebra/dfinite_function.py:1234-1237 | The scan answers True exactly when every initial value is 0 or `None` |
| DFiniteSequence.IsZero | src/ore_algebra/dfinite_function.py:1234-1238 | `__is_zero__` of a sequence, or of a function through its coefficient sequence, holds exactly when every initial value is 0 or `None` |
| DFiniteSequence.NegZero | src/ore_algebra/dfinite_function.py:2145-2146 | The negation is zero exactly when the sequence is |
| DFiniteSequence.Route | src/ore_algebra/dfinite_function.py:2373-2377 | Even `n` is routed to `self[n/2]` and odd `n` to `right[floor(n/2)]`; the routed index interlaces back to `n` |
| DFiniteSequence.RoutePosition | src/ore_algebra/dfinite_function.py:2373-2377 | Every index of either operand is routed to from exactly one position |
| DFiniteSequence.InterlacedValues | src/ore_algebra/dfinite_function.py:2372-2377 | The first initial values have one entry per point, each the value its index routes to |
| DFiniteSequence.LowerEntry | src/ore_algebra/dfinite_function.py:2395-2399 | The extra value for a forward critical point is stored under `n - ord + min_degree` and is the value that index routes to |
| DFiniteSequence.LowerEntryDiffers | src/ore_algebra/dfinite_function.py:2395-2399 | The code and the correction agree exactly when the index is even or `min_degree` is 0. For `n = 0, ord = 2, min_degree = 1` the code stores `right[-1]` under `-2` |
| DFiniteSequence.UpperEntry | src/ore_algebra/dfinite_function.py:2417-2421 | The extra value for a backward critical point is stored under `n - min_degree + ord` and is the value that index routes to |
| DFiniteSequence.UpperEntryDiffers | src/ore_algebra/dfinite_function.py:2417-2421 | The code and the correction agree exactly when `min_degree` is even. For `n = 1, ord = 1, min_degree = 1` the code stores `self[0]` under `1` |

## Left out

- Rendering (`_repr_`, `_latex_` and their regular-expression rewriting) is presentation only.
- Sage's coercion machinery is left out: `canonical_coercion` in `__eq__` and `similar`, `_coerce_map_from_`, the functor and `construction`, `base_extend` and `random_element`. Operations take two series of one monoid. For that reason, the discrete `similar` dropping `reference` on its coercion path (generalized_series.py:1268) is not modelled.
- The process-wide registry of monoids is a cache whose only promise is to return an equal monoid.
- Number fields are not modelled: the coefficient field is modelled by exact reals, and a number field is known by its identity only.
- Sage's power-series precision is modelled by the min rules for sums and products only.
- The claim that `shift` and `_generalized_series_shift_quotient` equal `f(n+i)/f(n) + O(n^(-prec))` is asymptotic analysis. Only the structural and error behaviour is modelled.
- DiscreteShift.Shift: a ramification that is not a multiple of `den(gamma)` and an all-exact expansion are HostError in the model, because the host library's behaviour there (a non-integral `m`, `min` over infinite precisions) is not part of this model.
- ContinuousArith.InvertAsWritten: a logarithmic series gives HostError rather than a value, because the reciprocal of a tail of positive `LOG` degree in the host ring is not modelled.
- ContinuousCalculus.Derivative: linearity and the general product rule are not proved, because they need negation and scaling to commute with the constructor's normalization of both parts. Its contract states the zero case; the power rule for every `x^α` and the log-power rule for every `log(x)^k` are separate lemmas.
- DiscreteArith.Add: the contract bounds the sum's `alpha` by the larger one rather than equating them, because normalization lowers it when leading terms cancel. `DiscreteArith.AddSum` states the exact value.
- ContinuousArith.Mul: the doc-test `ramification(G(1+x, ramification=2)*G(1+x, ramification=3)) == 6` is not proved, because it needs a concrete product of tails that is too costly for the verifier. The order of a product is proved to be the sum of the orders only for tails of `LOG` degree 0 (`ContinuousArith.MulOrder`). In general that needs the valuations of the leading coefficients to add (Gauss's lemma for tails), which is not modelled.
- ContinuousArith.Invert: the series times its inverse is proved to be one only when the inverse keeps the ramification. When the constructor reduces it, the proof would need multiplication to commute with the reduction, which is not modelled.
- DiscreteArith.Invert: the series times its inverse is proved to be one only when the inverse keeps the ramification. When the constructor reduces it, the rescaled coefficients are rebuilt as exact series (generalized_series.py:1003-1009), so the product equals one only up to the lost precision.
- `_sub_expansion` is modelled with `v = m·(len(coeffs) + 1)`, as written.
- The D-finite slice delegates to the Ore algebra, which is not part of this model:
  - singularities and the operator's order are parameters;
  - `self[n]` and `right[n]` are function parameters;
  - multiplication of D-finite objects is any associative operation with a unit (`DFiniteRing.Monoidal`);
  - `interlace`'s annihilator is not computed, only its index routing and the extra initial values.
- `__is_zero__` reads the stored initial values. The evaluation `self[x]` at a stored key returns that value.
- Everything else in `dfinite_function.py` is not part of this model: `lclm`, symmetric products, guessing, symbolic parsing, numerical evaluation, and sums and products.

## Findings

| source | as written | input that shows it | evidently intended | confidence | as-written member | corrected member |
|---|---|---|---|---|---|---|
| generalized_series.py:681-685 | `has_logarithms` evaluates `tail.degree() > 0` and returns nothing, so `~` never refuses a logarithmic series | `~G(1 + log x)` | return the test; `~` raises ValueError for series with logarithms | not executed | ContinuousArith.InvertLogExample | ContinuousArith.Invert |
| generalized_series.py:679 | `has_exponential_part` tests `exponential_part().is_zero()`, whose tail is one, so it is always True | `G(1+x+x^2).has_exponential_part()`, documented False at 669-670 | True exactly when the exponential part is nonzero | not executed | ContinuousParts.HasExponentialPartAlwaysTrue | ContinuousParts.HasExponentialPartExample |
| generalized_series.py:814 | `is_one` is built on the test above, so it is always False | `G(1).is_one()` | True exactly for the one | not executed | ContinuousParts.IsOneAsWrittenNever | ContinuousParts.IsOneIff |
| generalized_series.py:994-1009 | the discrete constructor rescales `subexp` and the expansion for `new_ram` but keeps the old ramification | `[0, 2, 1, 0, 0, [[1, 0, 1]]]`, that is `1 + n^(-2/2)` | store `new_ram` | not executed | DiscreteArith.RamNotStoredExample | Discrete.Normalize |
| generalized_series.py:961-962 | the constructor refuses `rho = 0` before looking at the expansion, but zero is stored with `rho = 0` | `-G(0)` for a discrete series | zero negates to zero | not executed | DiscreteArith.NegZero | DiscreteArith.Neg |
| generalized_series.py:961-962 | the same check refuses the product with zero, which passes `rho = 0·rho` to the constructor | `G(0) * s` for a discrete series | zero times a series is zero | not executed | DiscreteArith.ZeroTimes | DiscreteArith.Mul |
| generalized_series.py:939-940 | the copying constructor with `make_monic` divides `self.__tail`, which discrete series do not have | copying the one with `make_monic=True` | divide the expansion | not executed | DiscreteArith.CopyOneExample | DiscreteArith.Copy |
| generalized_series.py:1291 | the Python 2 list comprehension rebinds the shift amount `i` to the last index | `shift(-1)` of `(n/e)^(n/2)·(1 + O(n^(-1/2)))` succeeds | shift by the requested amount | not executed | DiscreteShift.ShiftLeakExample | DiscreteShift.Shift |
| generalized_series.py:1402-1415 | the `gamma` factor is on the scale `x^v = 1/n`, the other factors on `x^ram` with `ram = v·m` | `gamma = 0`, `rho = 1`, a vanishing `subexp` with `m > 1`, `alpha = 0`, `prec > 0`: every positive shift gives `x^prec` and the shift 0 gives `x^(m·prec)`, for instance `x` against `x^2` for `prec = 1`, `m = 2` | every factor on the scale `x^ram` | not executed | Quotient.ConstantQuotientAsWritten | Quotient.ConstantQuotient |
| src/ore_algebra/dfinite_function.py:2398-2399 | for an odd index the value of `n - ord + min_degree` is stored under `n - ord` | `n = 0`, `ord = 2`, `min_degree = 1` | store it under `n - ord + min_degree` | not executed | DFiniteSequence.LowerEntryDiffers | DFiniteSequence.LowerEntry |
| src/ore_algebra/dfinite_function.py:2418-2421 | the side is chosen by the parity of `n + ord` while the index is `n - min_degree + ord` | `n = 1`, `ord = 1`, `min_degree = 1` | the parity of the index itself | not executed | DFiniteSequence.UpperEntryDiffers | DFiniteSequence.UpperEntry |
