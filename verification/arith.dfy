/** Facts about multiplication and Euclidean division the slot counts need. */
module Arith {

  lemma MulDistributes(a: int, b: int, iv: int)
    ensures (a - b) * iv == a * iv - b * iv
  {
  }

  lemma MulSucc(n: int, k: int)
    ensures (n + 1) * k == n * k + k
  {
  }

  /** Hours and minutes are determined by the total minute count. */
  lemma HourMinuteUnique(h1: int, m1: int, h2: int, m2: int)
    requires 0 <= m1 < 60 && 0 <= m2 < 60 && h1 * 60 + m1 == h2 * 60 + m2
    ensures h1 == h2 && m1 == m2
  {
  }

  /** A minute count is its whole hours and the minutes left over. */
  lemma HourMinuteSplit(n: nat)
    ensures n == (n / 60) * 60 + n % 60 && 0 <= n % 60 < 60
    ensures n <= 1080 ==> n / 60 <= 18
  {
  }

  lemma MulAtLeast(d: int, iv: int)
    requires d >= 1 && iv >= 0
    ensures d * iv >= iv
  {
    MulDistributes(d, 1, iv);
    assert (d - 1) * iv >= 0;
  }

  /** Euclidean division is determined by quotient and remainder. */
  lemma DivModUnique(x: int, iv: int, a: int, b: int)
    requires iv > 0 && 0 <= b < iv && x == a * iv + b
    ensures x / iv == a && x % iv == b
  {
    var q, r := x / iv, x % iv;
    assert x == q * iv + r;
    MulDistributes(q, a, iv);
    MulDistributes(a, q, iv);
    if q > a {
      MulAtLeast(q - a, iv);
    } else if q < a {
      MulAtLeast(a - q, iv);
    }
  }

  lemma ModStep(x: int, iv: int)
    requires iv > 0 && x >= iv
    ensures (x - iv) % iv == x % iv
    ensures (x - iv) / iv == x / iv - 1
  {
    var q, r := x / iv, x % iv;
    MulDistributes(q, 1, iv);
    DivModUnique(x - iv, iv, q - 1, r);
  }

  /** A positive multiple of `iv` is at least `iv`. */
  lemma MultipleAtLeast(x: int, iv: int)
    requires iv > 0 && x > 0 && x % iv == 0
    ensures x >= iv
  {
    if x < iv {
      DivModUnique(x, iv, 0, x);
    }
  }

  /** Below the divisor the quotient is zero. */
  lemma DivSmall(x: int, iv: int)
    requires iv > 0 && 0 <= x < iv
    ensures x / iv == 0
  {
    DivModUnique(x, iv, 0, x);
  }

  /** How many of the minutes m, m + iv, m + 2 * iv, ... lie below 60. */
  function StepsFrom(m: nat, iv: nat): nat
    requires iv > 0
    decreases 60 - m
  {
    if m >= 60 then 0 else 1 + StepsFrom(m + iv, iv)
  }

  /** How many minute values 0, iv, 2 * iv, ... lie below 60. */
  function PerHour(iv: nat): (n: nat)
    requires iv > 0
    ensures 1 <= n <= 60
  {
    59 / iv + 1
  }

  /** Counting the steps one by one gives the closed form. */
  lemma {:induction false} StepsFromCount(m: nat, iv: nat)
    requires iv > 0
    ensures StepsFrom(m, iv) == if m < 60 then (59 - m) / iv + 1 else 0
    decreases 60 - m
  {
    if m < 60 {
      StepsFromCount(m + iv, iv);
      if m + iv < 60 {
        ModStep(59 - m, iv);
      } else {
        DivSmall(59 - m, iv);
      }
    }
  }

  lemma PerHourCountsSteps(iv: nat)
    requires iv > 0
    ensures StepsFrom(0, iv) == PerHour(iv)
  {
    StepsFromCount(0, iv);
  }

  /** `n * k` as repeated addition, for counts built up one block at a time. */
  function RepeatedAdd(n: nat, k: nat): nat {
    if n == 0 then 0 else k + RepeatedAdd(n - 1, k)
  }

  lemma {:induction false} RepeatedAddIsProduct(n: nat, k: nat)
    ensures RepeatedAdd(n, k) == n * k
  {
    if n > 0 {
      RepeatedAddIsProduct(n - 1, k);
      MulSucc(n - 1, k);
    }
  }
}
