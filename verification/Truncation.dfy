// How far the integer series of one arctan call is from the exact rational partial
// sums it approximates (core-project/prog2/prog2.c:140-211).
module Truncation {
  import opened Arithmetic
  import opened ArctanSeries

  ghost function Ratio(n: nat, d: nat): real
    requires d > 0
  {
    n as real / d as real
  }

  // Rounding down loses less than one.
  lemma RatioFloor(n: nat, d: nat)
    requires d > 0
    ensures 0.0 <= Ratio(n, d) - Floor(n, d) as real < 1.0
  {
    FloorEquation(n, d);
    var q := Floor(n, d) as real;
    assert (d * Floor(n, d)) as real == d as real * q;
    RatioBetween(n as real, d as real, q);
  }

  lemma RatioBetween(n: real, d: real, q: real)
    requires d > 0.0 && d * q <= n < d * q + d
    ensures q <= n / d < q + 1.0
  {
    assert d * (n / d) == n;
    Cancel(d, q, n / d);
    assert d * (q + 1.0) == d * q + d;
    CancelStrictly(d, n / d, q + 1.0);
  }

  lemma Cancel(d: real, x: real, y: real)
    requires d > 0.0 && d * x <= d * y
    ensures x <= y
  {}

  lemma CancelStrictly(d: real, x: real, y: real)
    requires d > 0.0 && d * x < d * y
    ensures x < y
  {}

  lemma RatioAntitone(n: nat, c: nat, d: nat)
    requires 0 < c <= d
    ensures 0.0 <= Ratio(n, d) <= Ratio(n, c)
  {
    var cr, dr, x, y := c as real, d as real, Ratio(n, d), Ratio(n, c);
    assert dr * x == n as real == cr * y;
    assert dr * 0.0 == 0.0;
    Cancel(dr, 0.0, x);
    assert dr * x == cr * x + (dr - cr) * x;
    assert (dr - cr) * x >= 0.0;
    Cancel(cr, x, y);
  }

  // denom^(2k+1) * (2k+1)
  ghost function Divisor(arc: Series, k: nat): (d: nat)
    requires arc.Valid()
    ensures d > 0
  {
    Pow(arc.denom, 2 * k + 1) * (2 * k + 1)
  }

  // The exact term of round k: 100^(size-1) * multiplier / (denom^(2k+1) * (2k+1)).
  ghost function ExactTerm(arc: Series, k: nat): real
    requires arc.Valid()
  {
    Ratio(arc.Scaled(), Divisor(arc, k))
  }

  ghost function ExactSum(arc: Series, n: nat): real
    requires arc.Valid()
  {
    if n == 0 then 0.0
    else if arc.CurrentSign(n - 1) > 0 then ExactSum(arc, n - 1) + ExactTerm(arc, n - 1)
    else ExactSum(arc, n - 1) - ExactTerm(arc, n - 1)
  }

  lemma TermError(arc: Series, k: nat)
    requires arc.Valid()
    ensures 0.0 <= ExactTerm(arc, k) - arc.Term(k) as real < 1.0
  {
    arc.TermClosedForm(k);
    RatioFloor(arc.Scaled(), Divisor(arc, k));
  }

  lemma ExactTermsDecrease(arc: Series, k: nat)
    requires arc.Valid()
    ensures 0.0 <= ExactTerm(arc, k + 1) <= ExactTerm(arc, k)
  {
    PowGrows(arc.denom, 2 * k + 1, 2 * k + 3);
    MulMono(Pow(arc.denom, 2 * k + 1), Pow(arc.denom, 2 * k + 3), 2 * k + 1);
    MulMonoRight(Pow(arc.denom, 2 * k + 3), 2 * k + 1, 2 * k + 3);
    RatioAntitone(arc.Scaled(), Divisor(arc, k), Divisor(arc, k + 1));
  }

  // The k floors of the first k terms lose less than one each.
  lemma {:induction false} FloorsLose(arc: Series, k: nat)
    requires arc.Valid()
    ensures -(k as real) <= arc.Sum(k) as real - ExactSum(arc, k) <= k as real
  {
    if k > 0 {
      FloorsLose(arc, k - 1);
      TermError(arc, k - 1);
    }
  }

  // The alternating sum of the exact terms k..n, starting with a plus.
  ghost function Tail(arc: Series, k: nat, n: nat): real
    requires arc.Valid() && k <= n
    decreases n - k
  {
    if k == n then 0.0 else ExactTerm(arc, k) - Tail(arc, k + 1, n)
  }

  // An alternating sum of non-increasing terms is at most its first term.
  lemma {:induction false} TailBound(arc: Series, k: nat, n: nat)
    requires arc.Valid() && k <= n
    ensures 0.0 <= Tail(arc, k, n) <= ExactTerm(arc, k)
    decreases n - k
  {
    ExactTermsDecrease(arc, k);
    if k < n {
      TailBound(arc, k + 1, n);
    }
  }

  lemma {:induction false} SumSplits(arc: Series, k: nat, n: nat)
    requires arc.Valid() && arc.sign != 0 && k <= n
    ensures arc.CurrentSign(k) > 0 ==> ExactSum(arc, n) == ExactSum(arc, k) + Tail(arc, k, n)
    ensures arc.CurrentSign(k) <= 0 ==> ExactSum(arc, n) == ExactSum(arc, k) - Tail(arc, k, n)
    decreases n - k
  {
    if k < n {
      SumSplits(arc, k + 1, n);
      SignNonZero(arc, k);
    }
  }

  lemma {:induction false} SignNonZero(arc: Series, k: nat)
    requires arc.sign != 0
    ensures arc.CurrentSign(k) != 0 && arc.CurrentSign(k + 1) == -arc.CurrentSign(k)
  {
    arc.SignAlternates(k);
  }

  // When `powers` has run out, so has the exact term: it is below one.
  lemma ExhaustedTermBelowOne(arc: Series, k: nat)
    requires arc.Valid() && arc.PowerTerm(k) == 0
    ensures ExactTerm(arc, k) < 1.0
  {
    TermError(arc, k);
    FloorAtMost(arc.PowerTerm(k), 2 * k + 1);
  }

  // The truncation bound: the k rounds an arctan call makes are within k+1 units in
  // the last place of every longer partial sum, hence of the limit of the series.
  lemma TruncationBound(arc: Series, k: nat, n: nat)
    requires arc.Valid() && arc.sign != 0 && arc.Exhausted(k) && k <= n
    ensures -((k + 1) as real) < arc.Sum(k) as real - ExactSum(arc, n) < (k + 1) as real
  {
    FloorsLose(arc, k);
    TailBound(arc, k, n);
    SumSplits(arc, k, n);
    ExhaustedTermBelowOne(arc, k);
  }
}
