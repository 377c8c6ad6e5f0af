// Integer arithmetic shared by the models: powers, floor division and products.
module Arithmetic {

  function Pow(b: nat, e: nat): (r: nat)
    ensures b > 0 ==> r > 0
  {
    if e == 0 then 1 else b * Pow(b, e - 1)
  }

  lemma {:induction false} PowAdd(b: nat, e1: nat, e2: nat)
    ensures Pow(b, e1 + e2) == Pow(b, e1) * Pow(b, e2)
  {
    if e1 > 0 {
      PowAdd(b, e1 - 1, e2);
      MulAssoc(b, Pow(b, e1 - 1), Pow(b, e2));
    }
  }

  lemma PowTwoMore(b: nat, e: nat)
    ensures Pow(b, e + 2) == b * (b * Pow(b, e))
  {
    assert Pow(b, e + 2) == b * Pow(b, e + 1);
  }

  lemma {:induction false} PowGrows(b: nat, low: nat, high: nat)
    requires b > 0 && low <= high
    ensures Pow(b, low) <= Pow(b, high)
    decreases high
  {
    if low < high {
      PowGrows(b, low, high - 1);
      MulMono(1, b, Pow(b, high - 1));
    }
  }

  // A larger base has larger powers.
  lemma {:induction false} PowBaseGrows(a: nat, b: nat, e: nat)
    requires a <= b
    ensures Pow(a, e) <= Pow(b, e)
  {
    if e > 0 {
      PowBaseGrows(a, b, e - 1);
      MulMono(a, b, Pow(a, e - 1));
      MulMonoRight(b, Pow(a, e - 1), Pow(b, e - 1));
    }
  }

  lemma {:induction false} PowOfPow(b: nat, e: nat, k: nat)
    ensures Pow(Pow(b, e), k) == Pow(b, e * k)
  {
    if k > 0 {
      PowOfPow(b, e, k - 1);
      assert e * k == e + e * (k - 1);
      PowAdd(b, e, e * (k - 1));
    } else {
      assert e * k == 0;
    }
  }

  lemma MulAssoc(a: int, b: int, c: int)
    ensures a * b * c == a * (b * c)
  {}

  lemma MulMono(a: int, b: int, c: int)
    requires a <= b && 0 <= c
    ensures a * c <= b * c
  {}

  lemma MulMonoRight(c: int, a: int, b: int)
    requires a <= b && 0 <= c
    ensures c * a <= c * b
  {}

  lemma MulStrict(a: int, b: int, c: int)
    requires a < b && 0 < c
    ensures a * c < b * c
  {}

  // The quotient is the only q with d*q <= n < d*q + d.
  lemma QuotientUnique(n: int, d: int, q: int, r: int)
    requires d > 0 && 0 <= r < d && n == d * q + r
    ensures n / d == q && n % d == r
  {
    var q', r' := n / d, n % d;
    assert n == d * q' + r';
    if q < q' {
      MulMonoRight(d, q + 1, q');
    } else if q' < q {
      MulMonoRight(d, q' + 1, q);
    }
  }

  // How often d fits into n. The models use this recursion for floor division, so
  // that products and quotients enter a proof only where a lemma below brings them in.
  ghost function Floor(n: nat, d: nat): (q: nat)
    requires d > 0
  {
    if n < d then 0 else 1 + Floor(n - d, d)
  }

  lemma {:induction false} FloorEquation(n: nat, d: nat)
    requires d > 0
    ensures d * Floor(n, d) <= n < d * Floor(n, d) + d
  {
    if n >= d {
      FloorEquation(n - d, d);
      assert d * Floor(n, d) == d + d * Floor(n - d, d);
    }
  }

  lemma FloorUnique(n: nat, d: nat, q: int)
    requires d > 0 && d * q <= n < d * q + d
    ensures q == Floor(n, d)
  {
    FloorEquation(n, d);
    var q' := Floor(n, d);
    if q < q' {
      MulMonoRight(d, q + 1, q');
    } else if q' < q {
      MulMonoRight(d, q' + 1, q);
    }
  }

  lemma FloorIsDivision(n: nat, d: nat)
    requires d > 0
    ensures n / d == Floor(n, d) && n % d == n - d * Floor(n, d)
  {
    FloorEquation(n, d);
    QuotientUnique(n, d, Floor(n, d), n - d * Floor(n, d));
  }

  // Two successive floor divisions are one division by the product cd.
  lemma NestedFloor(n: nat, c: nat, d: nat, cd: nat)
    requires c > 0 && d > 0 && cd == c * d
    ensures cd > 0 && Floor(Floor(n, c), d) == Floor(n, cd)
  {
    MulMono(1, c, d);
    var m := Floor(n, c);
    var q := Floor(m, d);
    FloorEquation(n, c);
    FloorEquation(m, d);
    Brackets(n, c, d, q, m, cd);
    FloorUnique(n, cd, q);
  }

  lemma Brackets(n: nat, c: nat, d: nat, q: nat, m: nat, cd: nat)
    requires cd == c * d
    requires d * q <= m < d * q + d && c * m <= n < c * m + c
    ensures cd * q <= n < cd * q + cd
  {
    MulAssoc(c, d, q);
    MulMonoRight(c, d * q, m);
    MulMonoRight(c, m + 1, d * q + d);
    Distribute(c, d * q, d);
    Distribute(c, m, 1);
  }

  lemma Distribute(c: int, x: int, y: int)
    ensures c * (x + y) == c * x + c * y
  {}

  // A common factor of dividend and divisor cancels.
  lemma CancelFactor(n: nat, c: nat, d: nat)
    requires c > 0 && d > 0
    ensures c * d > 0 && c * n >= 0 && Floor(c * n, c * d) == Floor(n, d)
  {
    MulMono(1, c, d);
    MulMonoRight(c, 0, n);
    FloorUnique(c * n, c, n);
    NestedFloor(c * n, c, d, c * d);
  }

  lemma FloorShrinks(n: nat, d: nat)
    requires n > 0 && d > 1
    ensures Floor(n, d) < n
  {
    MulMono(2, d, n);
    FloorBelow(n, d, n);
  }

  lemma FloorAtLeast(n: nat, d: nat, bound: int)
    requires d > 0 && d * bound <= n
    ensures bound <= Floor(n, d)
  {
    FloorEquation(n, d);
    if Floor(n, d) < bound {
      MulMonoRight(d, Floor(n, d) + 1, bound);
    }
  }

  lemma FloorAntitone(n: nat, c: nat, d: nat)
    requires 0 < c <= d
    ensures Floor(n, d) <= Floor(n, c)
  {
    FloorEquation(n, d);
    MulMono(c, d, Floor(n, d));
    FloorAtLeast(n, c, Floor(n, d));
  }

  lemma FloorMonotone(m: nat, n: nat, d: nat)
    requires d > 0 && m <= n
    ensures Floor(m, d) <= Floor(n, d)
  {
    FloorEquation(m, d);
    FloorAtLeast(n, d, Floor(m, d));
  }

  lemma FloorAtMost(n: nat, d: nat)
    requires d > 0
    ensures Floor(n, d) <= n
  {
    FloorEquation(n, d);
    MulMono(1, d, Floor(n, d));
  }

  lemma FloorBelow(n: nat, d: nat, bound: int)
    requires d > 0 && n < d * bound
    ensures Floor(n, d) < bound
  {
    FloorEquation(n, d);
    if Floor(n, d) >= bound {
      MulMonoRight(d, bound, Floor(n, d));
    }
  }

  // Truncating division and remainder, as C defines them.
  function TruncDiv(n: int, d: int): (q: int)
    requires d > 0
  {
    if n >= 0 then n / d else -(-n / d)
  }

  function TruncRem(n: int, d: int): (r: int)
    requires d > 0
    ensures -d < r < d
    ensures 0 <= n ==> 0 <= r
    ensures n <= 0 ==> r <= 0
  {
    if n >= 0 then n % d else -(-n % d)
  }

  lemma TruncDivRem(n: int, d: int)
    requires d > 0
    ensures n == d * TruncDiv(n, d) + TruncRem(n, d)
  {
    var m := if n >= 0 then n else -n;
    assert m == d * (m / d) + m % d;
  }

  lemma ModShift(n: int, k: int, m: int)
    requires m > 0
    ensures (n + m * k) % m == n % m
  {
    var q, r := n / m, n % m;
    assert n == m * q + r;
    Distribute(m, q, k);
    QuotientUnique(n + m * k, m, q + k, r);
  }

  // m copies of n
  ghost function Multiple(m: int, n: int): int
    decreases if m < 0 then -m else m
  {
    if m == 0 then 0 else if m > 0 then Multiple(m - 1, n) + n else Multiple(m + 1, n) - n
  }

  lemma MultipleNext(m: int, n: int)
    ensures Multiple(0, n) == 0
    ensures Multiple(m + 1, n) == Multiple(m, n) + n
    ensures Multiple(m - 1, n) == Multiple(m, n) - n
  {}

  lemma {:induction false} MultipleIsProduct(m: int, n: int)
    ensures Multiple(m, n) == n * m
    decreases if m < 0 then -m else m
  {
    if m > 0 {
      MultipleIsProduct(m - 1, n);
    } else if m < 0 {
      MultipleIsProduct(m + 1, n);
    }
  }

  lemma MultipleResidue(r: int, n: int, m: int, d: int)
    requires 0 <= r < d && r == n + Multiple(m, d)
    ensures r == n % d
  {
    MultipleIsProduct(m, d);
    assert n == d * (-m) + r;
    QuotientUnique(n, d, -m, r);
  }
}
