# Polynomial extremes and derivative coefficients (mav_trajectory_generation)

A Dafny model of two numerical kernels from `mav_trajectory_generation/src/polynomial.cpp`.
A trajectory segment is a polynomial in time. The feasibility checks of that library
need bounds on its derivatives (velocity, acceleration, jerk, snap).

- `DerivativeTable` (`derivative_table.dfy`) models `computeBaseCoefficients(N)`.
  This function builds the N x N table whose entry (n, i) is the factor that the n-th
  derivative puts in front of t^(i-n) when it differentiates t^i.
  The method keeps the source's steps: a zero-filled `array2<int>`, row 0 set to ones,
  then the nested loop that writes row n from column `DEG - order` as
  `(order - DEG + i)` times row n-1, with `order` dropping by one per row.
  It is proved against the falling factorial i·(i-1)·…·(i-n+1), defined independently
  (first factor peeled off). The lemmas show what the table means:
  - it is zero below the diagonal and positive on and above it;
  - it holds n! on the diagonal and i!/(i-n)! above it;
  - differentiating the term t^i n times by the power rule leaves entry (n, i)
    as the coefficient of t^(i-n).
- `ExtremumFinder` (`extremum_finder.dfy`) models both `Polynomial::findMinMax`
  overloads.
  - The root overload is a method with the source's loop. It swaps the bounds when
    `t_1 > t_2` and skips roots whose imaginary part is non-zero. It also skips roots
    whose real part is below `t_1` or above `t_2`. Every other root's value goes into
    the running min and max, and both end points go in last.
    It is proved equal to `MinMaxOf`, the smallest and largest of the candidate values.
  - The polynomial overload asks the root solver for the roots of the coefficients of
    derivative `derivative + 1`. It fails exactly when the solver fails. Otherwise it
    returns what the root overload returns.
  - `evaluate` and `getCoefficients` are function-valued fields of a `Polynomial`
    value and are not interpreted. The root solver is a function parameter that
    returns `None` on failure.
  - The double sentinels (`numeric_limits<double>::max()` / `lowest()`) are an empty
    `Option` that the first folded value replaces. Both end points are always folded
    in, so the result is the same.
  - The C++ writes min and max through pointers. When the solver fails, the method
    returns the caller's prior values unchanged, which models "not written".

The extremum finder keeps a root when its real part lies in the CLOSED interval
[t_1, t_2]: a root whose real part equals an end point is kept, because
polynomial.cpp:47 rejects only `re < t_1 || re > t_2`.

## Model

| member | source | states |
|---|---|---|
| `DerivativeTable.ComputeBaseCoefficients` | mav_trajectory_generation/src/polynomial.cpp:76-91 | For N >= 1 the result is a new N x N matrix. Row 0 is all ones. Every entry (n, i) with n >= 1 is (i-n+1) times entry (n-1, i). Entry (n, i) equals the falling factorial i·(i-1)·…·(i-n+1). |
| `DerivativeTable.FallingFactorialLastFactor` | mav_trajectory_generation/src/polynomial.cpp:82-89 | The falling factorial of n factors is (i-n+1) times the one of n-1 factors. This is the step from row n-1 to row n, with `order - DEG + i` = i-n+1. |
| `DerivativeTable.FallingFactorialZeroIff` | mav_trajectory_generation/src/polynomial.cpp:79-89 | Every entry is a non-negative integer. Entry (n, i) is zero exactly when i < n, so the n-th derivative drops the n lowest powers and keeps every other one. |
| `DerivativeTable.FallingFactorialDiagonal` | mav_trajectory_generation/src/polynomial.cpp:84-89 | The diagonal entry (n, n) is n!. |
| `DerivativeTable.FallingFactorialQuotient` | mav_trajectory_generation/src/polynomial.cpp:84-89 | For i >= n, entry (n, i) times (i-n)! is i!. |
| `DerivativeTable.NthDerivativeOfPower` | mav_trajectory_generation/src/polynomial.cpp:76-91 | Differentiating t^i n times by the power rule gives entry (n, i) times t^(i-n). Once n > i the term is gone: its coefficient, the entry, is 0. |
| `ExtremumFinder.FindMinMaxAtRoots` | mav_trajectory_generation/src/polynomial.cpp:27-63 | Always returns true. Min and max are the smallest and largest of the values at the candidate roots and at both end points of the ordered interval. |
| `ExtremumFinder.FindMinMax` | mav_trajectory_generation/src/polynomial.cpp:65-74 | Returns false exactly when the root solver fails on the coefficients of derivative `derivative + 1`, and then leaves the caller's min and max as they were. Otherwise it returns what the root overload returns for the solver's roots. |
| `ExtremumFinder.EndPointsWithinExtremes` | mav_trajectory_generation/src/polynomial.cpp:55-60 | min <= value at lo <= max and min <= value at hi <= max for the ordered bounds lo, hi, and therefore min <= max. |
| `ExtremumFinder.CandidateRootsWithinExtremes` | mav_trajectory_generation/src/polynomial.cpp:41-53 | Every root with imaginary part 0 and real part in [lo, hi] has its value between min and max. |
| `ExtremumFinder.ExtremesAttained` | mav_trajectory_generation/src/polynomial.cpp:38-60 | Min and max are each the value at lo, at hi, or at some candidate root, never a sentinel. |
| `ExtremumFinder.IntervalOrderIrrelevant` | mav_trajectory_generation/src/polynomial.cpp:31-35 | The result for (t_1, t_2) is the same as for (t_2, t_1). |
| `ExtremumFinder.RejectedRootIgnored` | mav_trajectory_generation/src/polynomial.cpp:42-49 | Removing a complex root, or a real root outside [lo, hi], from any position of the roots does not change the result. |
| `ExtremumFinder.NoCriticalPointInside` | mav_trajectory_generation/src/polynomial.cpp:41-60 | With no real root strictly inside (lo, hi), min and max are the smaller and the larger of the two end-point values. A real root on an end point is kept by the code and changes nothing, because its value is that end point's value. |
| `ExtremumFinder.CubeVelocityExtremes` | mav_trajectory_generation/src/polynomial.cpp:27-63 | For p(t) = t^3, the velocity 3t^2 on [-1, 1] (interval given either way round) with acceleration root 0 has min 0 and max 3. |
| `ExtremumFinder.LinePositionExtremes` | mav_trajectory_generation/src/polynomial.cpp:27-63 | For p(t) = t with no roots on [2, 5], min is 2 and max is 5. |

## Left out

- Floating point: doubles are reals. NaN, rounding, and the sentinel constants of lines 38-39 are not modelled. The sentinels are an empty running value, which gives the same final result because both end points are always folded in.
- Table entries are unbounded integers. The source stores them as doubles, which are exact only while the falling factorials stay below 2^53.
- `evaluate` and `getCoefficients` are uninterpreted. Their bodies are in a header that is not part of this model, so nothing is claimed about how `getCoefficients` uses the table.
- `findRootsJenkinsTraub` (line 69) is a function parameter that either fails or yields (re, im) pairs. Its iterative numerics are foreign code.
- The extremes are proved to be the smallest and largest values over the candidate points. They are not proved to be the true extremes of the derivative over the interval. That would need the roots to be all of the next derivative's real roots, plus calculus over an uninterpreted `evaluate`.
- `derivative` is a `nat`: negative orders are not modelled. The source's `int` accepts them, but what `evaluate` (and, below -1, `getCoefficients`) does with a negative order is defined in a header that is not part of this model.
- Eigen matrix and vector types are replaced by `array2<int>` and `seq<Root>`.
- The static initialisation of `Polynomial::base_coefficients_` (lines 93-94) and any concurrent reading of the shared table are left out. They are linkage and threading concerns, not sequential logic.
- `ComputeBaseCoefficients` requires N >= 1. The source takes row 0 of an N x N matrix, which does not exist for N = 0.
