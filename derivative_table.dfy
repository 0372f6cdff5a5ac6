/** The derivative coefficient table of a polynomial segment: entry (n, i) is the
    factor that the n-th derivative puts in front of the power t^(i-n) when it
    differentiates the term t^i. It is built once, as an N x N matrix, by
    computeBaseCoefficients. */
module DerivativeTable {

  /** n! */
  function Factorial(n: nat): (r: nat)
    ensures r >= 1
  {
    if n == 0 then 1 else n * Factorial(n - 1)
  }

  /** The falling factorial i * (i-1) * ... * (i-n+1): n descending factors,
      the first of them i. */
  function FallingFactorial(i: int, n: nat): (r: int)
    decreases n
  {
    if n == 0 then 1 else i * FallingFactorial(i - 1, n - 1)
  }

  /** Peeling off the LAST factor instead of the first: this is the step the
      table takes from row n-1 to row n. */
  lemma {:induction false} FallingFactorialLastFactor(i: int, n: nat)
    requires n >= 1
    ensures FallingFactorial(i, n) == (i - n + 1) * FallingFactorial(i, n - 1)
    decreases n
  {
    if n > 1 {
      FallingFactorialLastFactor(i - 1, n - 1);
      calc {
        FallingFactorial(i, n);
        i * FallingFactorial(i - 1, n - 1);
        i * ((i - n + 1) * FallingFactorial(i - 1, n - 2));
        (i - n + 1) * (i * FallingFactorial(i - 1, n - 2));
        (i - n + 1) * FallingFactorial(i, n - 1);
      }
    }
  }

  /** Below the diagonal the table is zero, on and above it positive: the n-th
      derivative removes the n lowest powers and keeps every other one. */
  lemma {:induction false} FallingFactorialZeroIff(i: nat, n: nat)
    ensures FallingFactorial(i, n) >= 0
    ensures FallingFactorial(i, n) == 0 <==> i < n
  {
    if n > 0 {
      if i == 0 {
        assert FallingFactorial(i, n) == 0 * FallingFactorial(-1, n - 1);
      } else {
        FallingFactorialZeroIff(i - 1, n - 1);
      }
    }
  }

  /** On the diagonal the table holds n!: the n-th derivative of t^n is n!. */
  lemma {:induction false} FallingFactorialDiagonal(n: nat)
    ensures FallingFactorial(n, n) == Factorial(n)
  {
    if n > 0 {
      FallingFactorialDiagonal(n - 1);
    }
  }

  /** Closed form on and above the diagonal: FallingFactorial(i, n) == i! / (i-n)!. */
  lemma {:induction false} FallingFactorialQuotient(i: nat, n: nat)
    requires n <= i
    ensures FallingFactorial(i, n) * Factorial(i - n) == Factorial(i)
  {
    if n > 0 {
      FallingFactorialQuotient(i - 1, n - 1);
      var below, rest := FallingFactorial(i - 1, n - 1), Factorial(i - n);
      calc {
        FallingFactorial(i, n) * rest;
        (i * below) * rest;
        i * (below * rest);
        i * Factorial(i - 1);
        Factorial(i);
      }
    }
  }

  /** The table while it is being built: rows above n and the first i entries
      of row n are written, the rest still holds the initial zero. */
  ghost function PartiallyWritten(r: nat, j: nat, n: nat, i: nat): (v: int)
  {
    if r < n || (r == n && j < i) then FallingFactorial(j, r) else 0
  }

  /** computeBaseCoefficients(N): the N x N table. The matrix starts zero filled
      (setZero), row 0 is set to ones, and each later row n is written from
      column DEG - order = n - 1 onwards as (order - DEG + i) times row n-1,
      with `order` dropping by one per row. */
  method ComputeBaseCoefficients(N: int) returns (m: array2<int>)
    requires N >= 1
    ensures fresh(m)
    ensures m.Length0 == N && m.Length1 == N
    ensures forall i :: 0 <= i < N ==> m[0, i] == 1
    ensures forall n, i :: 1 <= n < N && 0 <= i < N ==> m[n, i] == (i - n + 1) * m[n - 1, i]
    ensures forall n, i :: 0 <= n < N && 0 <= i < N ==> m[n, i] == FallingFactorial(i, n)
  {
    m := new int[N, N]((r, c) => 0);
    var c := 0;
    while c < N
      invariant 0 <= c <= N
      invariant forall r, j :: 0 <= r < N && 0 <= j < N ==> m[r, j] == (if r == 0 && j < c then 1 else 0)
    {
      m[0, c] := 1;
      c := c + 1;
    }

    var deg := N - 1;
    var order := deg;
    var n := 1;
    while n < N
      invariant 1 <= n <= N
      invariant order == deg - (n - 1)
      invariant forall r, j :: 0 <= r < N && 0 <= j < N ==> m[r, j] == PartiallyWritten(r, j, n, 0)
    {
      var i := deg - order;
      forall j | 0 <= j < i
        ensures FallingFactorial(j, n) == 0
      {
        FallingFactorialZeroIff(j, n);
      }
      while i < N
        invariant n - 1 <= i <= N
        invariant forall r, j :: 0 <= r < N && 0 <= j < N ==> m[r, j] == PartiallyWritten(r, j, n, i)
      {
        assert (order - deg + i) * m[n - 1, i] == FallingFactorial(i, n) by {
          assert order - deg + i == i - n + 1;
          FallingFactorialLastFactor(i, n);
        }
        m[n, i] := (order - deg + i) * m[n - 1, i];
        i := i + 1;
      }
      order := order - 1;
      n := n + 1;
    }

    forall n, i | 1 <= n < N && 0 <= i < N
      ensures m[n, i] == (i - n + 1) * m[n - 1, i]
    {
      FallingFactorialLastFactor(i, n);
    }
  }

  /** A single power term coef * t^power of a polynomial. */
  datatype Term = Term(coef: int, power: nat)

  /** Symbolic derivative of one term: c * t^p becomes (c * p) * t^(p-1), and a
      constant becomes zero. */
  function Derivative(t: Term): (d: Term)
  {
    if t.power == 0 then Term(0, 0) else Term(t.coef * t.power, t.power - 1)
  }

  /** The n-th derivative of a term, by differentiating n times. */
  function NthDerivative(t: Term, n: nat): (d: Term)
  {
    if n == 0 then t else Derivative(NthDerivative(t, n - 1))
  }

  /** What the table means: differentiating t^i n times leaves the table entry
      (n, i) as coefficient, in front of t^(i-n); once n exceeds i the term is
      gone (coefficient zero). */
  lemma {:induction false} NthDerivativeOfPower(i: nat, n: nat)
    ensures NthDerivative(Term(1, i), n) == Term(FallingFactorial(i, n), if n <= i then i - n else 0)
  {
    if n > 0 {
      NthDerivativeOfPower(i, n - 1);
      FallingFactorialLastFactor(i, n);
      if n > i {
        FallingFactorialZeroIff(i, n);
      }
    }
  }
}
