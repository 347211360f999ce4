/** Bitwise AND on non-negative integers, defined bit by bit, and the fact
    that masking with a run of low one-bits is a remainder. */
module Bitwise {

  function Pow2(n: nat): (r: nat)
    ensures r >= 1
  {
    if n == 0 then 1 else 2 * Pow2(n - 1)
  }

  lemma {:induction false} Pow2Add(m: nat, n: nat)
    ensures Pow2(m + n) == Pow2(m) * Pow2(n)
  {
    if n > 0 {
      Pow2Add(m, n - 1);
    }
  }

  /** `a & b` restricted to the low `width` bits of each operand. For two
      values below `Pow2(width)` this is the machine AND. */
  function And(a: nat, b: nat, width: nat): (r: nat)
    ensures r <= b
  {
    if width == 0 then 0
    else 2 * And(a / 2, b / 2, width - 1) + (if a % 2 == 1 && b % 2 == 1 then 1 else 0)
  }

  /** Splitting off the lowest bit commutes with taking a power-of-two remainder. */
  lemma ModPow2Step(a: nat, n: nat)
    requires n >= 1
    ensures a % Pow2(n) == 2 * ((a / 2) % Pow2(n - 1)) + a % 2
  {
    var p := Pow2(n - 1);
    var q, m := (a / 2) / p, (a / 2) % p;
    assert a / 2 == p * q + m;
    assert a == Pow2(n) * q + (2 * m + a % 2);
    assert 0 <= 2 * m + a % 2 < Pow2(n);
    ModUnique(a, Pow2(n), q, 2 * m + a % 2);
  }

  lemma ModUnique(a: int, d: int, q: int, m: int)
    requires 0 < d && a == d * q + m && 0 <= m < d
    ensures a % d == m
  {
    var k := a / d - q;
    assert d * (a / d) + a % d == a;
    assert d * k == m - a % d by {
      assert d * k == d * (a / d) - d * q;
    }
    MultipleOutside(d, k);
  }

  /** A number below the divisor is its own remainder. */
  lemma RemainderOfSmall(x: int, d: int)
    ensures 0 <= x < d ==> x % d == x
  {
    if 0 <= x < d {
      ModUnique(x, d, 0, x);
    }
  }

  /** A non-zero multiple of `d` is at least `d` away from zero. */
  lemma MultipleOutside(d: int, k: int)
    requires 0 < d
    ensures 1 <= k ==> d <= d * k
    ensures k <= -1 ==> d * k <= -d
  {
  }

  /** Masking with `Pow2(n) - 1` keeps exactly the remainder modulo `Pow2(n)`. */
  lemma {:induction false} AndLowOnes(a: nat, n: nat, width: nat)
    requires n <= width
    ensures And(a, Pow2(n) - 1, width) == a % Pow2(n)
  {
    if width == 0 {
    } else if n == 0 {
      assert And(a, 0, width) <= 0;
    } else {
      AndLowOnes(a / 2, n - 1, width - 1);
      AndLowOnesStep(a, n, width);
    }
  }

  /** The inductive step of `AndLowOnes`: one more mask bit keeps one more bit of `a`. */
  lemma AndLowOnesStep(a: nat, n: nat, width: nat)
    requires 1 <= n <= width
    requires And(a / 2, Pow2(n - 1) - 1, width - 1) == (a / 2) % Pow2(n - 1)
    ensures And(a, Pow2(n) - 1, width) == a % Pow2(n)
  {
    MaskHalves(n);
    AndOddMask(a, Pow2(n) - 1, width);
    ModPow2Step(a, n);
  }

  /** Against an odd mask the lowest bit of `a` survives the AND. */
  lemma AndOddMask(a: nat, b: nat, width: nat)
    requires width >= 1 && b % 2 == 1
    ensures And(a, b, width) == 2 * And(a / 2, b / 2, width - 1) + a % 2
  {
  }

  /** Dropping the lowest bit of a run of `n` one-bits leaves `n - 1` of them. */
  lemma MaskHalves(n: nat)
    requires n >= 1
    ensures (Pow2(n) - 1) / 2 == Pow2(n - 1) - 1
    ensures (Pow2(n) - 1) % 2 == 1
  {
    assert Pow2(n) - 1 == 2 * (Pow2(n - 1) - 1) + 1;
  }
}
