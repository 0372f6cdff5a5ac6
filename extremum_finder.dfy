/** Extremes of one derivative of a polynomial segment over a closed time
    interval (Polynomial::findMinMax). The candidates are the interval's end
    points and the real roots, inside the interval, of the next derivative. */
module ExtremumFinder {

  datatype Option<T> = None | Some(value: T)

  /** A complex number as the root solver returns it. */
  datatype Root = Root(re: real, im: real)

  /** The two polynomial operations the finder uses, both abstract here:
      evaluate(t, d) is the value of the d-th derivative at time t, and
      getCoefficients(d) the coefficient vector of the d-th derivative. */
  datatype Polynomial = Polynomial(evaluate: (real, nat) -> real, getCoefficients: nat -> seq<real>)

  /** The external root solver: the roots of a coefficient vector, or None
      when it fails. */
  type RootSolver = seq<real> -> Option<seq<Root>>

  datatype Extremes = Extremes(min: real, max: real)

  /** std::min and std::max on two values. */
  function Min(a: real, b: real): (r: real)
    ensures r <= a && r <= b && (r == a || r == b)
  {
    if b < a then b else a
  }

  function Max(a: real, b: real): (r: real)
    ensures a <= r && b <= r && (r == a || r == b)
  {
    if a < b then b else a
  }

  /** Folding a value into a running minimum (maximum) that starts out empty:
      None plays the part of the largest (lowest) double the source starts from. */
  function FoldMin(acc: Option<real>, x: real): (r: real)
    ensures r <= x && (acc.Some? ==> r <= acc.value)
  {
    match acc
    case None => x
    case Some(m) => Min(m, x)
  }

  function FoldMax(acc: Option<real>, x: real): (r: real)
    ensures x <= r && (acc.Some? ==> acc.value <= r)
  {
    match acc
    case None => x
    case Some(m) => Max(m, x)
  }

  /** A closed interval [lo, hi]. */
  datatype Interval = Interval(lo: real, hi: real)

  /** The interval with its bounds in increasing order. */
  function Normalize(t1: real, t2: real): (iv: Interval)
    ensures iv.lo <= iv.hi
    ensures (iv.lo == t1 && iv.hi == t2) || (iv.lo == t2 && iv.hi == t1)
  {
    if t1 > t2 then Interval(t2, t1) else Interval(t1, t2)
  }

  /** A root is a critical point to evaluate when it is real and lies in [lo, hi]. */
  predicate IsCandidate(r: Root, lo: real, hi: real)
  {
    r.im == 0.0 && !(r.re < lo || r.re > hi)
  }

  /** The values of the derivative at the candidate roots, in the order of the roots. */
  function CriticalValues(p: Polynomial, derivative: nat, roots: seq<Root>, lo: real, hi: real): (s: seq<real>)
    ensures |s| <= |roots|
  {
    if roots == [] then []
    else
      var last := roots[|roots| - 1];
      CriticalValues(p, derivative, roots[..|roots| - 1], lo, hi)
        + (if IsCandidate(last, lo, hi) then [p.evaluate(last.re, derivative)] else [])
  }

  /** Smallest and largest element of a non-empty sequence, folded left to right. */
  function Lowest(s: seq<real>): (r: real)
    requires |s| > 0
    ensures r in s
  {
    if |s| == 1 then s[0] else Min(Lowest(s[..|s| - 1]), s[|s| - 1])
  }

  function Highest(s: seq<real>): (r: real)
    requires |s| > 0
    ensures r in s
  {
    if |s| == 1 then s[0] else Max(Highest(s[..|s| - 1]), s[|s| - 1])
  }

  /** Every value the finder looks at: the candidate roots, then both end points. */
  function CandidateValues(p: Polynomial, t1: real, t2: real, derivative: nat, roots: seq<Root>): (s: seq<real>)
    ensures 2 <= |s| <= |roots| + 2
  {
    var iv := Normalize(t1, t2);
    CriticalValues(p, derivative, roots, iv.lo, iv.hi) + [p.evaluate(iv.lo, derivative), p.evaluate(iv.hi, derivative)]
  }

  /** What findMinMax reports for the given roots. */
  function MinMaxOf(p: Polynomial, t1: real, t2: real, derivative: nat, roots: seq<Root>): (e: Extremes)
  {
    var s := CandidateValues(p, t1, t2, derivative, roots);
    Extremes(Lowest(s), Highest(s))
  }

  /** One more root folded into the critical values. */
  lemma CriticalValuesSnoc(p: Polynomial, d: nat, roots: seq<Root>, i: nat, lo: real, hi: real)
    requires i < |roots|
    ensures IsCandidate(roots[i], lo, hi) ==>
      CriticalValues(p, d, roots[..i + 1], lo, hi) == CriticalValues(p, d, roots[..i], lo, hi) + [p.evaluate(roots[i].re, d)]
    ensures !IsCandidate(roots[i], lo, hi) ==>
      CriticalValues(p, d, roots[..i + 1], lo, hi) == CriticalValues(p, d, roots[..i], lo, hi)
  {
    assert roots[..i + 1][..i] == roots[..i];
    assert CriticalValues(p, d, roots[..i], lo, hi) + [] == CriticalValues(p, d, roots[..i], lo, hi);
  }

  /** The running minimum (maximum) after folding in s: None while s is empty. */
  function RunningLowest(s: seq<real>): (r: Option<real>)
    ensures r.Some? <==> s != []
  {
    if s == [] then None else Some(Lowest(s))
  }

  function RunningHighest(s: seq<real>): (r: Option<real>)
    ensures r.Some? <==> s != []
  {
    if s == [] then None else Some(Highest(s))
  }

  /** One more value folded into Lowest and Highest. */
  lemma LowestHighestSnoc(s: seq<real>, x: real)
    ensures Lowest(s + [x]) == FoldMin(RunningLowest(s), x)
    ensures Highest(s + [x]) == FoldMax(RunningHighest(s), x)
  {
  }

  /** The end points are folded in last, after the running extremes of the
      candidate roots. */
  lemma EndPointsFoldedLast(p: Polynomial, t1: real, t2: real, d: nat, roots: seq<Root>)
    ensures var iv := Normalize(t1, t2);
      var crit := CriticalValues(p, d, roots, iv.lo, iv.hi);
      var at_lo, at_hi := p.evaluate(iv.lo, d), p.evaluate(iv.hi, d);
      MinMaxOf(p, t1, t2, d, roots)
        == Extremes(Min(FoldMin(RunningLowest(crit), at_lo), at_hi),
                    Max(FoldMax(RunningHighest(crit), at_lo), at_hi))
  {
    var iv := Normalize(t1, t2);
    var crit := CriticalValues(p, d, roots, iv.lo, iv.hi);
    var at_lo, at_hi := p.evaluate(iv.lo, d), p.evaluate(iv.hi, d);
    LowestHighestSnoc(crit, at_lo);
    LowestHighestSnoc(crit + [at_lo], at_hi);
    assert CandidateValues(p, t1, t2, d, roots) == crit + [at_lo] + [at_hi];
  }

  /** findMinMax with the roots of derivative `derivative + 1` supplied. It
      always succeeds. */
  method FindMinMaxAtRoots(p: Polynomial, t_1: real, t_2: real, derivative: nat, roots: seq<Root>)
    returns (ok: bool, min: real, max: real)
    ensures ok
    ensures Extremes(min, max) == MinMaxOf(p, t_1, t_2, derivative, roots)
  {
    var t1, t2 := t_1, t_2;
    if t1 > t2 {
      var temp := t1;
      t1 := t2;
      t2 := temp;
    }

    var lowest: Option<real> := None;
    var highest: Option<real> := None;
    for i := 0 to |roots|
      invariant var seen := CriticalValues(p, derivative, roots[..i], t1, t2);
        lowest == RunningLowest(seen) && highest == RunningHighest(seen)
    {
      ghost var seen := CriticalValues(p, derivative, roots[..i], t1, t2);
      CriticalValuesSnoc(p, derivative, roots, i, t1, t2);
      if roots[i].im != 0.0 {
        continue;
      }
      if roots[i].re < t1 || roots[i].re > t2 {
        continue;
      }
      var candidate := p.evaluate(roots[i].re, derivative);
      LowestHighestSnoc(seen, candidate);
      assert CriticalValues(p, derivative, roots[..i + 1], t1, t2) == seen + [candidate] != [];
      lowest := Some(FoldMin(lowest, candidate));
      highest := Some(FoldMax(highest, candidate));
    }
    assert roots[..|roots|] == roots;

    var candidate_t1 := p.evaluate(t1, derivative);
    var candidate_t2 := p.evaluate(t2, derivative);
    min := FoldMin(lowest, candidate_t1);
    min := Min(min, candidate_t2);
    max := FoldMax(highest, candidate_t1);
    max := Max(max, candidate_t2);

    EndPointsFoldedLast(p, t_1, t_2, derivative, roots);
    ok := true;
  }

  /** findMinMax on a polynomial: the roots of derivative `derivative + 1` come
      from the root solver. priorMin and priorMax are what the caller's min and
      max hold before the call; on failure they are left as they were. */
  method FindMinMax(p: Polynomial, t_1: real, t_2: real, derivative: nat, solve: RootSolver,
                    priorMin: real, priorMax: real)
    returns (ok: bool, min: real, max: real)
    ensures ok <==> solve(p.getCoefficients(derivative + 1)).Some?
    ensures !ok ==> min == priorMin && max == priorMax
    ensures ok ==> Extremes(min, max)
                   == MinMaxOf(p, t_1, t_2, derivative, solve(p.getCoefficients(derivative + 1)).value)
  {
    var coeffs := p.getCoefficients(derivative + 1);
    var roots_of_derivative := solve(coeffs);
    if roots_of_derivative.None? {
      return false, priorMin, priorMax;
    }
    ok, min, max := FindMinMaxAtRoots(p, t_1, t_2, derivative, roots_of_derivative.value);
  }

  // ---------------------------------------------------------------------------
  // Properties of the reported extremes

  /** Lowest and Highest bound every element and are elements. */
  lemma {:induction false} LowestHighestBound(s: seq<real>)
    requires |s| > 0
    ensures forall k :: 0 <= k < |s| ==> Lowest(s) <= s[k] <= Highest(s)
    ensures exists k :: 0 <= k < |s| && Lowest(s) == s[k]
    ensures exists k :: 0 <= k < |s| && Highest(s) == s[k]
  {
    if |s| == 1 {
      assert Lowest(s) == s[0] && Highest(s) == s[0];
    } else {
      var front := s[..|s| - 1];
      LowestHighestBound(front);
      forall k | 0 <= k < |s|
        ensures Lowest(s) <= s[k] <= Highest(s)
      {
        if k < |s| - 1 {
          assert s[k] == front[k];
        }
      }
      var j :| 0 <= j < |front| && Lowest(front) == front[j];
      if Lowest(s) == s[|s| - 1] {
      } else {
        assert Lowest(s) == s[j];
      }
      var h :| 0 <= h < |front| && Highest(front) == front[h];
      if Highest(s) == s[|s| - 1] {
      } else {
        assert Highest(s) == s[h];
      }
    }
  }

  /** Each critical value belongs to a candidate root, and each candidate root's
      value is among the critical values. */
  lemma {:induction false} CriticalValuesAreCandidates(p: Polynomial, d: nat, roots: seq<Root>, lo: real, hi: real)
    ensures forall v :: v in CriticalValues(p, d, roots, lo, hi) ==>
      exists k :: 0 <= k < |roots| && IsCandidate(roots[k], lo, hi) && v == p.evaluate(roots[k].re, d)
    ensures forall k :: 0 <= k < |roots| && IsCandidate(roots[k], lo, hi) ==>
      p.evaluate(roots[k].re, d) in CriticalValues(p, d, roots, lo, hi)
  {
    if roots != [] {
      var front := roots[..|roots| - 1];
      var last := roots[|roots| - 1];
      CriticalValuesAreCandidates(p, d, front, lo, hi);
      forall v | v in CriticalValues(p, d, roots, lo, hi)
        ensures exists k :: 0 <= k < |roots| && IsCandidate(roots[k], lo, hi) && v == p.evaluate(roots[k].re, d)
      {
        if v in CriticalValues(p, d, front, lo, hi) {
          var k :| 0 <= k < |front| && IsCandidate(front[k], lo, hi) && v == p.evaluate(front[k].re, d);
          assert roots[k] == front[k];
        } else {
          assert IsCandidate(roots[|roots| - 1], lo, hi) && v == p.evaluate(last.re, d);
        }
      }
      forall k | 0 <= k < |roots| && IsCandidate(roots[k], lo, hi)
        ensures p.evaluate(roots[k].re, d) in CriticalValues(p, d, roots, lo, hi)
      {
        if k < |roots| - 1 {
          assert roots[k] == front[k];
        }
      }
    }
  }

  /** Both end points of the ordered interval lie within the reported extremes,
      so min <= max. */
  lemma EndPointsWithinExtremes(p: Polynomial, t1: real, t2: real, d: nat, roots: seq<Root>)
    ensures var lo, hi := Normalize(t1, t2).lo, Normalize(t1, t2).hi;
            var e := MinMaxOf(p, t1, t2, d, roots);
            e.min <= p.evaluate(lo, d) <= e.max && e.min <= p.evaluate(hi, d) <= e.max
    ensures MinMaxOf(p, t1, t2, d, roots).min <= MinMaxOf(p, t1, t2, d, roots).max
  {
    var s := CandidateValues(p, t1, t2, d, roots);
    LowestHighestBound(s);
    assert s[|s| - 2] == p.evaluate(Normalize(t1, t2).lo, d);
    assert s[|s| - 1] == p.evaluate(Normalize(t1, t2).hi, d);
  }

  /** Every real root inside the interval lies within the reported extremes. */
  lemma CandidateRootsWithinExtremes(p: Polynomial, t1: real, t2: real, d: nat, roots: seq<Root>)
    ensures var lo, hi := Normalize(t1, t2).lo, Normalize(t1, t2).hi;
            var e := MinMaxOf(p, t1, t2, d, roots);
            forall k :: 0 <= k < |roots| && IsCandidate(roots[k], lo, hi) ==>
              e.min <= p.evaluate(roots[k].re, d) <= e.max
  {
    var lo, hi := Normalize(t1, t2).lo, Normalize(t1, t2).hi;
    var crit := CriticalValues(p, d, roots, lo, hi);
    var s := CandidateValues(p, t1, t2, d, roots);
    CriticalValuesAreCandidates(p, d, roots, lo, hi);
    LowestHighestBound(s);
    forall k | 0 <= k < |roots| && IsCandidate(roots[k], lo, hi)
      ensures Lowest(s) <= p.evaluate(roots[k].re, d) <= Highest(s)
    {
      var v := p.evaluate(roots[k].re, d);
      assert v in crit;
      var j :| 0 <= j < |crit| && crit[j] == v;
      assert s[j] == crit[j];
    }
  }

  /** The reported extremes are attained: each is the value at an end point or
      at a real root inside the interval, never a sentinel. */
  lemma ExtremesAttained(p: Polynomial, t1: real, t2: real, d: nat, roots: seq<Root>)
    ensures var lo, hi := Normalize(t1, t2).lo, Normalize(t1, t2).hi;
            var e := MinMaxOf(p, t1, t2, d, roots);
            (e.min == p.evaluate(lo, d) || e.min == p.evaluate(hi, d) ||
             exists k :: 0 <= k < |roots| && IsCandidate(roots[k], lo, hi) && e.min == p.evaluate(roots[k].re, d)) &&
            (e.max == p.evaluate(lo, d) || e.max == p.evaluate(hi, d) ||
             exists k :: 0 <= k < |roots| && IsCandidate(roots[k], lo, hi) && e.max == p.evaluate(roots[k].re, d))
  {
    var lo, hi := Normalize(t1, t2).lo, Normalize(t1, t2).hi;
    var crit := CriticalValues(p, d, roots, lo, hi);
    var s := CandidateValues(p, t1, t2, d, roots);
    CriticalValuesAreCandidates(p, d, roots, lo, hi);
    LowestHighestBound(s);
    var i :| 0 <= i < |s| && Lowest(s) == s[i];
    if i < |crit| {
      assert s[i] == crit[i] && crit[i] in crit;
    }
    var j :| 0 <= j < |s| && Highest(s) == s[j];
    if j < |crit| {
      assert s[j] == crit[j] && crit[j] in crit;
    }
  }

  /** The order in which the interval's bounds are given does not matter. */
  lemma IntervalOrderIrrelevant(p: Polynomial, t1: real, t2: real, d: nat, roots: seq<Root>)
    ensures MinMaxOf(p, t1, t2, d, roots) == MinMaxOf(p, t2, t1, d, roots)
  {
  }

  /** Critical values of a concatenation of root sequences. */
  lemma {:induction false} CriticalValuesAppend(p: Polynomial, d: nat, a: seq<Root>, b: seq<Root>, lo: real, hi: real)
    ensures CriticalValues(p, d, a + b, lo, hi) == CriticalValues(p, d, a, lo, hi) + CriticalValues(p, d, b, lo, hi)
  {
    if b == [] {
      assert a + b == a;
    } else {
      var front := b[..|b| - 1];
      CriticalValuesAppend(p, d, a, front, lo, hi);
      assert (a + b)[..|a + b| - 1] == a + front;
      assert (a + b)[|a + b| - 1] == b[|b| - 1];
    }
  }

  /** A root that is complex, or real but outside the interval, has no effect on
      the result, wherever it stands among the roots. */
  lemma RejectedRootIgnored(p: Polynomial, t1: real, t2: real, d: nat, before: seq<Root>, r: Root, after: seq<Root>)
    requires !IsCandidate(r, Normalize(t1, t2).lo, Normalize(t1, t2).hi)
    ensures MinMaxOf(p, t1, t2, d, before + [r] + after) == MinMaxOf(p, t1, t2, d, before + after)
  {
    var lo, hi := Normalize(t1, t2).lo, Normalize(t1, t2).hi;
    CriticalValuesAppend(p, d, before + [r], after, lo, hi);
    CriticalValuesAppend(p, d, before, [r], lo, hi);
    CriticalValuesAppend(p, d, before, after, lo, hi);
    var a, b := CriticalValues(p, d, before, lo, hi), CriticalValues(p, d, after, lo, hi);
    assert CriticalValues(p, d, [r], lo, hi) == [] by {
      assert [r][..0] == [];
      assert CriticalValues(p, d, [r], lo, hi) == CriticalValues(p, d, [], lo, hi) + [];
    }
    assert a + [] + b == a + b;
    assert CriticalValues(p, d, before + [r] + after, lo, hi) == CriticalValues(p, d, before + after, lo, hi);
  }

  /** With no real root strictly inside the interval (an accepted root can only
      sit on an end point, where its value is the end-point value), the result
      is the smaller and the larger of the two end-point values. */
  lemma NoCriticalPointInside(p: Polynomial, t1: real, t2: real, d: nat, roots: seq<Root>)
    requires var lo, hi := Normalize(t1, t2).lo, Normalize(t1, t2).hi;
      forall k :: 0 <= k < |roots| && IsCandidate(roots[k], lo, hi) ==> roots[k].re == lo || roots[k].re == hi
    ensures var lo, hi := Normalize(t1, t2).lo, Normalize(t1, t2).hi;
            MinMaxOf(p, t1, t2, d, roots)
              == Extremes(Min(p.evaluate(lo, d), p.evaluate(hi, d)), Max(p.evaluate(lo, d), p.evaluate(hi, d)))
  {
    EndPointsWithinExtremes(p, t1, t2, d, roots);
    ExtremesAttained(p, t1, t2, d, roots);
  }

  // ---------------------------------------------------------------------------
  // Worked examples

  /** p(t) = t^3 with its derivatives; coefficients lowest power first. */
  function Cube(): (p: Polynomial)
  {
    Polynomial(
      (t: real, d: nat) =>
        if d == 0 then t * t * t
        else if d == 1 then 3.0 * t * t
        else if d == 2 then 6.0 * t
        else if d == 3 then 6.0
        else 0.0,
      (d: nat) =>
        if d == 0 then [0.0, 0.0, 0.0, 1.0]
        else if d == 1 then [0.0, 0.0, 3.0, 0.0]
        else if d == 2 then [0.0, 6.0, 0.0, 0.0]
        else if d == 3 then [6.0, 0.0, 0.0, 0.0]
        else [0.0, 0.0, 0.0, 0.0])
  }

  /** The velocity 3t^2 of t^3 on [-1, 1], the acceleration 6t having its root
      at 0: minimum 0, maximum 3, whichever way round the interval is given. */
  lemma CubeVelocityExtremes()
    ensures MinMaxOf(Cube(), -1.0, 1.0, 1, [Root(0.0, 0.0)]) == Extremes(0.0, 3.0)
    ensures MinMaxOf(Cube(), 1.0, -1.0, 1, [Root(0.0, 0.0)]) == Extremes(0.0, 3.0)
  {
  }

  /** p(t) = t; its first derivative is the constant 1. */
  function Line(): (p: Polynomial)
  {
    Polynomial(
      (t: real, d: nat) => if d == 0 then t else if d == 1 then 1.0 else 0.0,
      (d: nat) => if d == 0 then [0.0, 1.0] else if d == 1 then [1.0, 0.0] else [0.0, 0.0])
  }

  /** The position t on [2, 5], the velocity having no root: the extremes are
      the end-point values 2 and 5. */
  lemma LinePositionExtremes()
    ensures MinMaxOf(Line(), 2.0, 5.0, 0, []) == Extremes(2.0, 5.0)
  {
    NoCriticalPointInside(Line(), 2.0, 5.0, 0, []);
  }

  /** A root solver stub: the acceleration's coefficient vector [0, 6, 0, 0]
      has the single root 0; any other vector makes it fail. */
  function CubeSolver(coeffs: seq<real>): (roots: Option<seq<Root>>)
  {
    if coeffs == [0.0, 6.0, 0.0, 0.0] then Some([Root(0.0, 0.0)]) else None
  }

  /** A caller of both overloads. */
  method CubeClient()
  {
    CubeVelocityExtremes();
    var ok, min, max := FindMinMax(Cube(), 1.0, -1.0, 1, CubeSolver, 7.0, 8.0);
    assert ok && min == 0.0 && max == 3.0;
    // The root solver fails on the jerk's constant coefficients: nothing is written.
    ok, min, max := FindMinMax(Cube(), 1.0, -1.0, 2, CubeSolver, 7.0, 8.0);
    assert !ok && min == 7.0 && max == 8.0;
  }
}
