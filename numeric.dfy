/**
 * Swift's integer arithmetic where it differs from Dafny's: conversion of a
 * floating value to an integer truncates toward zero, and `Int` division and
 * remainder truncate toward zero (the remainder takes the dividend's sign).
 */
module Numeric {

  /** `Int(x)` (and the other integer initialisers) on a floating value. */
  function Trunc(x: real): (r: int)
    ensures 0.0 <= x ==> 0 <= r && r as real <= x < r as real + 1.0
    ensures x < 0.0 ==> r <= 0 && r as real - 1.0 < x <= r as real
  {
    if x >= 0.0 then x.Floor else -((-x).Floor)
  }

  /**
   * An integer initialiser on a floating value succeeds when the truncated
   * value lies in `lo..hi`: exactly when the value lies strictly between
   * `lo - 1` and `hi + 1`.
   */
  lemma TruncInRange(x: real, lo: int, hi: int)
    requires lo <= 0 <= hi
    ensures lo as real - 1.0 < x < hi as real + 1.0 <==> lo <= Trunc(x) <= hi
  {
  }

  /** Swift's `a / b` on `Int`, for a positive divisor. */
  function Quot(a: int, b: int): (q: int)
    requires b > 0
    ensures 0 <= a ==> 0 <= b * q <= a < b * q + b
    ensures a < 0 ==> b * q - b < a <= b * q <= 0
  {
    var n := if a >= 0 then a else -a;
    var d := n / b;
    assert n == b * d + n % b && 0 <= n % b < b;
    MulSign(b, d);
    if a >= 0 then d else -d
  }

  /** Swift's `a % b` on `Int`, for a positive divisor. */
  function Rem(a: int, b: int): (r: int)
    requires b > 0
    ensures a == b * Quot(a, b) + r
    ensures 0 <= a ==> 0 <= r < b
    ensures a < 0 ==> -b < r <= 0
  {
    a - b * Quot(a, b)
  }

  /** Dividing by 60 twice is dividing by 3600, under truncation too. */
  lemma {:induction false} QuotQuot60(t: int)
    ensures Quot(Quot(t, 60), 60) == Quot(t, 3600)
  {
    var q1 := Quot(t, 60);
    var q2 := Quot(q1, 60);
    var r1 := Rem(t, 60);
    var r2 := Rem(q1, 60);
    assert t == 3600 * q2 + (60 * r2 + r1);
    if t >= 0 {
      assert 0 <= 60 * r2 + r1 < 3600;
      QuotUnique(t, 3600, q2);
    } else {
      assert -3600 < 60 * r2 + r1 <= 0;
      QuotUnique(t, 3600, q2);
    }
  }

  /** The truncated quotient is the only `q` whose product stays on the dividend's side within one divisor. */
  lemma {:induction false} QuotUnique(a: int, b: int, q: int)
    requires b > 0
    requires 0 <= a ==> 0 <= a - b * q < b
    requires a < 0 ==> -b < a - b * q <= 0
    ensures Quot(a, b) == q
  {
    var p := Quot(a, b);
    MulSign(b, p - q);
    assert b * (p - q) == b * p - b * q;
  }

  /** A multiple of a positive `b` by a non-zero factor is at least `b` away from zero. */
  lemma MulSign(b: int, d: int)
    requires b > 0
    ensures d >= 0 ==> b * d >= 0
    ensures d >= 1 ==> b * d >= b
    ensures d <= -1 ==> b * d <= -b
  {
  }
}
