/** `cli_utils::math_utils`: its own copies of gcd and is_prime, written with
    the same algorithms as the `my_library` crate. */
module MathUtils {
  import opened Machine
  import opened NumberTheory

  /** `gcd`: the Euclidean algorithm. When b is zero the loop body never runs
      and a is returned as it is. */
  method Gcd(a0: u64, b0: u64) returns (g: u64)
    ensures g as nat == Euclid(a0 as nat, b0 as nat)
    ensures IsGcd(g as nat, a0 as nat, b0 as nat)
    ensures b0 == 0 ==> g == a0
    ensures a0 == 0 ==> g == b0
  {
    GcdWithZero(a0 as nat);
    GcdWithZero(b0 as nat);
    var a, b := a0, b0;
    while b != 0
      invariant Euclid(a as nat, b as nat) == Euclid(a0 as nat, b0 as nat)
      decreases b
    {
      var temp := b;
      b := a % b;
      a := temp;
    }
    g := a;
  }

  /** `is_prime`: false for 0 and 1, otherwise trial division by every i
      with 2 <= i <= floor(sqrt n), returning false at the first divisor. */
  method IsPrime(n: u64) returns (p: bool)
    ensures n <= 1 ==> !p
    ensures p <==> TrialDivision(n as nat)
    ensures p <==> Prime(n as nat)
  {
    TrialDivisionCorrect(n as nat);
    if n <= 1 {
      return false;
    }
    ghost var m := n as nat;
    var limit := FloorSqrt(n as nat) as u64;
    for i: u64 := 2 to limit + 1
      invariant forall k: nat :: 2 <= k < i as int ==> !Divides(k, m)
    {
      if n % i == 0 {
        assert Divides(i as nat, m);
        return false;
      }
    }
    return true;
  }
}
