/** The mathematical definitions that the arithmetic utilities are proved
    against: divisibility, greatest common divisors, primality, and the
    integer square root that stands for the floating-point one. */
module NumberTheory {

  /** d divides n: n is a multiple of d (zero divides only zero). */
  predicate Divides(d: nat, n: nat) {
    if d == 0 then n == 0 else n % d == 0
  }

  /** g is a greatest common divisor of a and b: a common divisor that every
      common divisor divides. */
  ghost predicate IsGcd(g: nat, a: nat, b: nat) {
    Divides(g, a) && Divides(g, b) &&
    forall d: nat :: Divides(d, a) && Divides(d, b) ==> Divides(d, g)
  }

  /** n is prime: greater than 1, with no positive divisor other than 1 and n. */
  ghost predicate Prime(n: nat) {
    n > 1 && forall d: nat :: Divides(d, n) ==> d == 1 || d == n
  }

  /** The integer square root: the largest r with r * r <= n. */
  function FloorSqrt(n: nat): (r: nat)
    ensures r * r <= n < (r + 1) * (r + 1)
    ensures n >= 2 ==> 1 <= r < n
  {
    if n == 0 then 0
    else
      var s := FloorSqrt(n - 1);
      if (s + 1) * (s + 1) <= n then s + 1 else s
  }

  /** The test is_prime performs: n > 1 and no i with 2 <= i <= floor(sqrt n)
      divides n. */
  ghost predicate TrialDivision(n: nat) {
    n > 1 && forall i: nat :: 2 <= i <= FloorSqrt(n) ==> !Divides(i, n)
  }

  /** Euclid's algorithm as a recursive definition; the loops of gcd are
      proved to compute it. */
  function Euclid(a: nat, b: nat): (g: nat)
    ensures IsGcd(g, a, b)
    decreases b
  {
    if b == 0 then
      DividesSelf(a);
      a
    else
      EuclidStep(a, b);
      Euclid(b, a % b)
  }

  // ---------------------------------------------------------------------
  // Arithmetic helpers

  lemma MultipleMod(d: nat, k: nat)
    requires d > 0
    ensures (d * k) % d == 0
  {
    var n := d * k;
    var q, r := n / d, n % d;
    assert d * (k - q) == r;
    if k > q {
      MulAtLeast(d, k - q);
    } else if k < q {
      MulAtLeast(d, q - k);
    }
  }

  lemma MulAtLeast(d: nat, k: nat)
    requires k >= 1
    ensures d * k >= d
  {
    assert d * k == d * (k - 1) + d;
  }

  lemma MulMonotone(a: nat, b: nat, c: nat, e: nat)
    requires a <= c && b <= e
    ensures a * b <= c * e
  {
    assert a * b <= c * b by {
      assert c * b - a * b == (c - a) * b;
    }
    assert c * b <= c * e by {
      assert c * e - c * b == c * (e - b);
    }
  }

  lemma DividesSelf(a: nat)
    ensures Divides(a, a) && Divides(a, 0)
  {
  }

  /** A positive multiple of d is at least d. */
  lemma DividesLe(d: nat, n: nat)
    requires Divides(d, n) && n > 0
    ensures 0 < d <= n
  {
    var q := n / d;
    assert n == d * q;
    MulAtLeast(d, q);
  }

  /** One Euclid step keeps the common divisors: for b > 0 the pairs
      (a, b) and (b, a % b) have the same common divisors. */
  lemma GcdStep(a: nat, b: nat, d: nat)
    requires b > 0
    ensures Divides(d, a) && Divides(d, b) <==> Divides(d, b) && Divides(d, a % b)
  {
    if d > 0 && b % d == 0 {
      var q, r := a / b, a % b;
      var kb := b / d;
      assert b == d * kb;
      assert a == q * b + r;
      if a % d == 0 {
        var ka := a / d;
        assert r == d * (ka - q * kb);
        MultipleMod(d, ka - q * kb);
      }
      if r % d == 0 {
        var kr := r / d;
        assert a == d * (q * kb + kr);
        MultipleMod(d, q * kb + kr);
      }
    }
  }

  lemma EuclidStep(a: nat, b: nat)
    requires b > 0
    ensures forall g: nat :: IsGcd(g, b, a % b) ==> IsGcd(g, a, b)
  {
    forall g: nat | IsGcd(g, b, a % b)
      ensures IsGcd(g, a, b)
    {
      GcdStep(a, b, g);
      forall d: nat | Divides(d, a) && Divides(d, b)
        ensures Divides(d, g)
      {
        GcdStep(a, b, d);
      }
    }
  }

  // ---------------------------------------------------------------------
  // Properties

  /** A pair has at most one greatest common divisor. */
  lemma GcdUnique(g1: nat, g2: nat, a: nat, b: nat)
    requires IsGcd(g1, a, b) && IsGcd(g2, a, b)
    ensures g1 == g2
  {
    assert Divides(g1, g2) && Divides(g2, g1);
    if g1 > 0 && g2 > 0 {
      DividesLe(g1, g2);
      DividesLe(g2, g1);
    }
  }

  /** gcd is symmetric in its arguments. */
  lemma {:induction false} GcdCommutative(a: nat, b: nat)
    ensures Euclid(a, b) == Euclid(b, a)
  {
    GcdUnique(Euclid(a, b), Euclid(b, a), a, b);
  }

  /** gcd(0, n) == n and gcd(n, 0) == n. */
  lemma GcdWithZero(n: nat)
    ensures Euclid(0, n) == n && Euclid(n, 0) == n
  {
  }

  /** The integer square root is unique: any r with r * r <= n < (r + 1)^2
      is FloorSqrt(n). */
  lemma FloorSqrtUnique(n: nat, r: nat)
    requires r * r <= n < (r + 1) * (r + 1)
    ensures FloorSqrt(n) == r
  {
    var s := FloorSqrt(n);
    if s < r {
      MulMonotone(s + 1, s + 1, r, r);
    } else if r < s {
      MulMonotone(r + 1, r + 1, s, s);
    }
  }

  /** Trial division up to floor(sqrt n) decides primality: a composite n
      always has a divisor no larger than its square root. */
  lemma TrialDivisionCorrect(n: nat)
    ensures TrialDivision(n) <==> Prime(n)
  {
    if Prime(n) {
      forall i: nat | 2 <= i <= FloorSqrt(n)
        ensures !Divides(i, n)
      {
      }
    }
    if TrialDivision(n) {
      var r := FloorSqrt(n);
      forall d: nat | Divides(d, n)
        ensures d == 1 || d == n
      {
        DividesLe(d, n);
        if d != 1 && d != n {
          var e := n / d;
          assert n == d * e;
          MultipleMod(e, d);
          assert Divides(e, n);
          if d > r && e > r {
            MulMonotone(r + 1, r + 1, d, e);
          }
        }
      }
    }
  }

  // ---------------------------------------------------------------------
  // The documented cases

  /** gcd(48, 18) == 6, gcd(56, 98) == 14, gcd(0, 5) == 5, gcd(5, 0) == 5. */
  lemma GcdExamples()
    ensures Euclid(48, 18) == 6
    ensures Euclid(56, 98) == 14
    ensures Euclid(0, 5) == 5
    ensures Euclid(5, 0) == 5
  {
  }

  /** 0, 1, 10 and 98 are not prime; 2, 7 and 97 are. */
  lemma PrimeExamples()
    ensures !Prime(0) && !Prime(1) && !Prime(10) && !Prime(98)
    ensures Prime(2) && Prime(7) && Prime(97)
  {
    assert Divides(2, 10) && Divides(2, 98);
    FloorSqrtUnique(2, 1);
    TrialDivisionCorrect(2);
    FloorSqrtUnique(7, 2);
    TrialDivisionCorrect(7);
    FloorSqrtUnique(97, 9);
    forall i: nat | 2 <= i <= 9
      ensures !Divides(i, 97)
    {
      if i == 2 {} else if i == 3 {} else if i == 4 {} else if i == 5 {}
      else if i == 6 {} else if i == 7 {} else if i == 8 {} else {}
    }
    TrialDivisionCorrect(97);
  }
}
