/** The `my_library` crate: add, factorial, gcd and is_prime on u64. */
module MyLibrary {
  import opened Machine
  import opened NumberTheory

  /** `left + right` on u64: a debug build panics when the sum does not fit,
      a release build keeps the sum modulo 2^64. */
  function Add(build: Build, left: u64, right: u64): (r: Outcome<u64>)
    ensures r.Panic? <==> build.Debug? && left as int + right as int >= Modulus
    ensures r.Value? ==> r.value as int == (left as int + right as int) % Modulus
  {
    var sum := left as int + right as int;
    if sum < Modulus then Value(sum as u64)
    else if build == Release then Value((sum - Modulus) as u64)
    else Panic
  }

  /** Whenever the sum fits in u64, both builds return it exactly. */
  lemma AddExact(build: Build, left: u64, right: u64)
    requires left as int + right as int < Modulus
    ensures Add(build, left, right) == Value((left as int + right as int) as u64)
  {
  }

  /** add is commutative, in either build. */
  lemma AddCommutative(build: Build, a: u64, b: u64)
    ensures Add(build, a, b) == Add(build, b, a)
  {
  }

  /** `acc * i` on u64, as the product of an iterator applies it. */
  function Times(build: Build, acc: u64, i: u64): (r: Outcome<u64>)
    ensures r.Panic? <==> build.Debug? && acc as int * i as int >= Modulus
    ensures r.Value? ==> r.value as int == (acc as int * i as int) % Modulus
  {
    var product := acc as int * i as int;
    if product < Modulus then Value(product as u64)
    else if build == Release then Value((product % Modulus) as u64)
    else Panic
  }

  /** The mathematical product 1 * 2 * ... * n (1 for n == 0). */
  function Fact(n: nat): nat
  {
    if n == 0 then 1 else n * Fact(n - 1)
  }

  /** `(1..=n).product()`: a left fold of `*` starting from 1. A debug build
      panics exactly when n > 20, a release build yields n! modulo 2^64. */
  function Factorial(build: Build, n: u64): (r: Outcome<u64>)
    ensures build == Debug ==> (r.Value? <==> n <= 20)
    ensures build == Release ==> r.Value?
    ensures r.Value? ==> r.value as int == Fact(n as nat) % Modulus
    ensures build == Debug && r.Value? ==> r.value as int == Fact(n as nat)
  {
    if n == 0 then Value(1)
    else
      match Factorial(build, n - 1)
      case Panic => Panic
      case Value(p) =>
        FactorialStep(build, p, n);
        Times(build, p, n)
  }

  lemma FactorialStep(build: Build, p: u64, n: u64)
    requires n > 0
    requires build == Debug ==> n - 1 <= 20
    requires p as int == Fact(n as nat - 1) % Modulus
    requires build == Debug ==> p as int == Fact(n as nat - 1)
    ensures build == Debug ==> (Times(build, p, n).Value? <==> n <= 20)
    ensures Times(build, p, n).Value? ==> Times(build, p, n).value as int == Fact(n as nat) % Modulus
  {
    if build == Debug {
      DebugStep(p, n);
    } else {
      ModMul(Fact(n as nat - 1), n as nat, Modulus);
    }
  }

  lemma DebugStep(p: u64, n: u64)
    requires 0 < n <= 21
    requires p as int == Fact(n as nat - 1)
    ensures p as int * n as int == Fact(n as nat)
    ensures p as int * n as int < Modulus <==> n <= 20
  {
    FactBoundary();
    if n <= 20 {
      FactMonotone(n as nat, 20);
    }
  }

  lemma ModMul(a: nat, b: nat, m: nat)
    requires m > 0
    ensures ((a % m) * b) % m == (a * b) % m
  {
    var q, r := a / m, a % m;
    assert a * b == r * b + m * (q * b);
    ModAddMultiple(r * b, q * b, m);
  }

  lemma ModAddMultiple(x: nat, k: nat, m: nat)
    requires m > 0
    ensures (x + m * k) % m == x % m
  {
    var n := x + m * k;
    var q0, r0 := x / m, x % m;
    assert n == m * (q0 + k) + r0;
    var q1, r1 := n / m, n % m;
    assert m * (q0 + k - q1) == r1 - r0;
    if q0 + k > q1 {
      MulAtLeast(m, q0 + k - q1);
    } else if q0 + k < q1 {
      MulAtLeast(m, q1 - q0 - k);
    }
  }

  lemma {:induction false} FactPositive(n: nat)
    ensures Fact(n) >= 1
  {
    if n > 0 {
      FactPositive(n - 1);
      MulAtLeast(Fact(n - 1), n);
    }
  }

  lemma {:induction false} FactMonotone(m: nat, n: nat)
    requires m <= n
    ensures Fact(m) <= Fact(n)
  {
    if m < n {
      FactMonotone(m, n - 1);
      FactPositive(n - 1);
      MulAtLeast(Fact(n - 1), n);
    }
  }

  /** 20! is the largest factorial that fits in u64: 21! > 2^64 - 1. */
  lemma FactBoundary()
    ensures Fact(20) == 2432902008176640000 < Modulus
    ensures Fact(21) == 51090942171709440000 >= Modulus
  {
    assert Fact(10) == 3628800;
  }

  /** The documented values: 0! == 1, 5! == 120, 20! == 2432902008176640000,
      and factorial(21) panics in a debug build. */
  lemma FactorialExamples()
    ensures Factorial(Debug, 0) == Value(1)
    ensures Factorial(Debug, 5) == Value(120)
    ensures Factorial(Debug, 20) == Value(2432902008176640000)
    ensures Factorial(Debug, 21) == Panic
  {
    FactBoundary();
  }

  /** `gcd`: the Euclidean algorithm, replacing (a, b) by (b, a % b) until
      b is zero. */
  method Gcd(a0: u64, b0: u64) returns (g: u64)
    ensures g as nat == Euclid(a0 as nat, b0 as nat)
    ensures IsGcd(g as nat, a0 as nat, b0 as nat)
  {
    var a, b := a0, b0;
    while b != 0
      invariant Euclid(a as nat, b as nat) == Euclid(a0 as nat, b0 as nat)
      decreases b
    {
      var temp := b;
      b := a % b;
      a := temp;
    }
    g := a;
  }

  /** `is_prime`: false below 2, otherwise trial division by every i with
      2 <= i <= floor(sqrt n), stopping at the first divisor. */
  method IsPrime(n: u64) returns (p: bool)
    ensures n <= 1 ==> !p
    ensures p <==> TrialDivision(n as nat)
    ensures p <==> Prime(n as nat)
  {
    TrialDivisionCorrect(n as nat);
    if n <= 1 {
      return false;
    }
    ghost var m := n as nat;
    var limit := FloorSqrt(n as nat) as u64;
    for i: u64 := 2 to limit + 1
      invariant forall k: nat :: 2 <= k < i as int ==> !Divides(k, m)
    {
      if n % i == 0 {
        assert Divides(i as nat, m);
        return false;
      }
    }
    return true;
  }
}
