/** PHP's integer operators `>>`, `<<`, `&` and `|` as the wire codec uses them: on
    non-negative integers far below PHP's 64-bit limit, so none of them overflows.
    `&` and `|` are defined bit by bit; the lemmas give their arithmetic meaning
    for the operand shapes the codec needs. */
module Bits {

  /** 2 raised to the power k. */
  function Pow2(k: nat): (r: nat)
    ensures r >= 1
  {
    if k == 0 then 1 else 2 * Pow2(k - 1)
  }

  /** `a >> k` for a non-negative a: k halvings, each dropping the lowest bit. */
  function ShiftRight(a: nat, k: nat): (r: nat)
    ensures r <= a
  {
    if k == 0 then a else ShiftRight(a / 2, k - 1)
  }

  /** `a << k` for an a small enough not to overflow: k doublings. */
  function ShiftLeft(a: nat, k: nat): (r: nat)
    ensures r >= a && (r == 0 <==> a == 0)
  {
    if k == 0 then a else 2 * ShiftLeft(a, k - 1)
  }

  /** `a & b`, one binary digit at a time from the least significant. */
  function BitAnd(a: nat, b: nat): (r: nat)
    ensures r <= a && r <= b
    decreases a
  {
    if a == 0 || b == 0 then 0
    else 2 * BitAnd(a / 2, b / 2) + (if a % 2 == 1 && b % 2 == 1 then 1 else 0)
  }

  /** `a | b`, one binary digit at a time from the least significant. */
  function BitOr(a: nat, b: nat): (r: nat)
    ensures a <= r && b <= r && r <= a + b
    decreases a
  {
    if a == 0 then b
    else if b == 0 then a
    else 2 * BitOr(a / 2, b / 2) + (if a % 2 == 1 || b % 2 == 1 then 1 else 0)
  }

  lemma Pow2Values()
    ensures Pow2(6) == 0x40 && Pow2(7) == 0x80 && Pow2(8) == 0x100
  {
  }

  lemma {:induction false} MulMonotone(d: nat, x: nat, y: nat)
    requires x <= y
    ensures d * x <= d * y
  {
    if x < y {
      MulMonotone(d, x, y - 1);
      assert d * y == d * (y - 1) + d;
    }
  }

  lemma MulGap(d: nat, x: nat, y: nat, rx: nat, ry: nat)
    requires d * x + rx == d * y + ry && ry < d
    ensures x <= y
  {
    if x > y {
      assert d * (y + 1) == d * y + d;
      MulMonotone(d, y + 1, x);
    }
  }

  /** Quotient and remainder are the only pair that rebuilds a. */
  lemma DivModUnique(a: nat, d: nat, q: nat, r: nat)
    requires d > 0 && a == d * q + r && r < d
    ensures a / d == q && a % d == r
  {
    var q0, r0 := a / d, a % d;
    assert d * q0 + r0 == a;
    MulGap(d, q, q0, r, r0);
    MulGap(d, q0, q, r0, r);
  }

  lemma ModDouble(a: nat, p: nat)
    requires p > 0
    ensures a % (2 * p) == 2 * ((a / 2) % p) + a % 2
    ensures a / (2 * p) == (a / 2) / p
  {
    var h, r := a / 2, a % 2;
    var t, u := h / p, h % p;
    assert h == p * t + u;
    assert a == 2 * h + r;
    assert 2 * (p * t) == (2 * p) * t;
    assert a == (2 * p) * t + (2 * u + r);
    DivModUnique(a, 2 * p, t, 2 * u + r);
  }

  /** Shifting right by k divides by 2^k, dropping the remainder. */
  lemma {:induction false} ShiftRightDivides(a: nat, k: nat)
    ensures ShiftRight(a, k) == a / Pow2(k)
  {
    if k > 0 {
      ShiftRightDivides(a / 2, k - 1);
      ModDouble(a, Pow2(k - 1));
    }
  }

  /** Shifting left by k multiplies by 2^k. */
  lemma {:induction false} ShiftLeftMultiplies(a: nat, k: nat)
    ensures ShiftLeft(a, k) == a * Pow2(k)
  {
    if k > 0 {
      ShiftLeftMultiplies(a, k - 1);
      assert a * Pow2(k) == 2 * (a * Pow2(k - 1));
    }
  }

  /** One digit of `a & m` for an odd mask m. */
  lemma AndOddStep(a: nat, q: nat)
    requires a > 0
    ensures BitAnd(a, 2 * q + 1) == 2 * BitAnd(a / 2, q) + a % 2
  {
    var m := 2 * q + 1;
    assert m / 2 == q && m % 2 == 1;
  }

  /** Masking with k one-bits keeps the remainder modulo 2^k (`n & 0xFF`, `b & 0x3F`). */
  lemma {:induction false} AndLowMask(a: nat, k: nat)
    ensures BitAnd(a, Pow2(k) - 1) == a % Pow2(k)
  {
    if k == 0 {
      assert Pow2(k) == 1;
      assert BitAnd(a, 0) == 0;
      assert a % 1 == 0;
    } else if a == 0 {
      assert BitAnd(a, Pow2(k) - 1) == 0;
      assert 0 % Pow2(k) == 0;
    } else {
      var p := Pow2(k - 1);
      var m := Pow2(k) - 1;
      assert Pow2(k) == 2 * p;
      AndOddStep(a, p - 1);
      AndLowMask(a / 2, k - 1);
      ModDouble(a, p);
    }
  }

  /** For b below 2^(k+1), testing bit k (`b & 0x80`) is the same as comparing b with 2^k. */
  lemma {:induction false} BitTest(b: nat, k: nat)
    requires b < Pow2(k + 1)
    ensures (BitAnd(b, Pow2(k)) != 0) == (b >= Pow2(k))
  {
    if k > 0 && b > 0 {
      BitTest(b / 2, k - 1);
    }
  }

  /** Or-ing a value shifted left by k with one below 2^k adds them
      (`0x80 | (n >> 8)` and `(x << 8) | y`). */
  lemma {:induction false} OrDisjoint(x: nat, y: nat, k: nat)
    requires y < Pow2(k)
    ensures BitOr(x * Pow2(k), y) == x * Pow2(k) + y
  {
    var a := x * Pow2(k);
    if k > 0 && a > 0 && y > 0 {
      var p := Pow2(k - 1);
      assert a == 2 * (x * p);
      OrDisjoint(x, y / 2, k - 1);
    }
  }
}
