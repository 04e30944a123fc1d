/** Unsigned integer arithmetic on `nat`: powers, the bitwise AND the decoders
    use, right shifts, and the division/remainder facts that connect a mask of
    low one-bits to a remainder. Every 64-bit quantity of the model is a `nat`
    below 2^64, so no wrap-around is ever involved. */
module Bits {

  /** b raised to the k-th power. */
  function Pow(b: nat, k: nat): (r: nat)
    ensures b > 0 ==> r > 0
  {
    if k == 0 then 1 else b * Pow(b, k - 1)
  }

  /** The bitwise AND of two non-negative integers (the `&` operator and
      `Long.and`), defined one bit at a time from the least significant end. */
  function BitAnd(a: nat, b: nat): (r: nat)
    ensures r <= a && r <= b
    decreases a
  {
    if a == 0 || b == 0 then 0
    else 2 * BitAnd(a / 2, b / 2) + (if a % 2 == 1 && b % 2 == 1 then 1 else 0)
  }

  /** The logical right shift of a non-negative value: k times dropping the
      least significant bit. It is `>>` on a non-negative 32-bit value and
      `Long.shiftRightUnsigned`; `Long.shiftRight` agrees with it on the bits
      below 64 - k, and copies the sign bit above them. */
  function ShiftRight(a: nat, k: nat): (r: nat)
    ensures r <= a
  {
    if k == 0 then a else ShiftRight(a / 2, k - 1)
  }

  /** Multiplication by a non-negative factor is monotone. */
  lemma MulMono(m: nat, x: nat, y: nat)
    requires x <= y
    ensures m * x <= m * y
  {
  }

  /** Quotient and remainder are determined by the division equation. */
  lemma DivModUnique(a: nat, m: nat, q: nat, r: nat)
    requires r < m && a == m * q + r
    ensures a / m == q && a % m == r
  {
    var q', r' := a / m, a % m;
    assert a == m * q' + r';
    if q' < q {
      MulMono(m, q' + 1, q);
    } else if q < q' {
      MulMono(m, q + 1, q');
    }
  }

  /** `b * (p * q + s) + t` regrouped around the product `b * p`. */
  lemma Regroup(b: nat, p: nat, q: nat, s: nat, t: nat)
    ensures b * (p * q + s) + t == (b * p) * q + (b * s + t)
  {
  }

  /** A two-digit mixed-radix number is below the product of the radices. */
  lemma MixedRadixBound(b: nat, p: nat, s: nat, t: nat)
    requires s < p && t < b
    ensures b * s + t < b * p
  {
    assert b * s <= b * (p - 1);
  }

  /** Dividing by b and then by p is dividing by b * p; the remainder modulo
      b * p splits into a remainder modulo p of the quotient and a remainder
      modulo b. */
  lemma ModSplit(x: nat, b: nat, p: nat)
    requires b > 0 && p > 0
    ensures x / (b * p) == (x / b) / p
    ensures (x % (b * p)) / b == (x / b) % p
    ensures (x % (b * p)) % b == x % b
  {
    var q1, r1 := x / b, x % b;
    var q2, r2 := q1 / p, q1 % p;
    assert x == b * q1 + r1;
    assert q1 == p * q2 + r2;
    Regroup(b, p, q2, r2, r1);
    assert x == (b * p) * q2 + (b * r2 + r1);
    MixedRadixBound(b, p, r2, r1);
    DivModUnique(x, b * p, q2, b * r2 + r1);
    DivModUnique(b * r2 + r1, b, r2, r1);
  }

  /** Dividing a positive number by at least two makes it smaller. */
  lemma DivDecreases(n: nat, d: nat)
    requires n > 0 && d >= 2
    ensures n / d < n
  {
    DivBelow(n, d, n);
    MulMono(n, 2, d);
  }

  /** `x / m` is below `p` exactly when `x` is below `m * p`. */
  lemma DivBelow(x: nat, m: nat, p: nat)
    requires m > 0
    ensures x < m * p <==> x / m < p
  {
    var q, r := x / m, x % m;
    assert x == m * q + r;
    if q < p {
      assert m * q <= m * (p - 1) == m * p - m;
    } else {
      assert m * q >= m * p;
    }
  }

  /** The defining equation of BitAnd for two positive operands. */
  lemma BitAndUnfold(a: nat, b: nat)
    requires a > 0 && b > 0
    ensures BitAnd(a, b) == 2 * BitAnd(a / 2, b / 2) + (if a % 2 == 1 && b % 2 == 1 then 1 else 0)
  {
  }

  /** AND with an odd mask 2 * p - 1 keeps the parity bit and masks the
      rest with p - 1. */
  lemma AndOddMask(a: nat, p: nat)
    requires a > 0 && p > 0
    ensures BitAnd(a, 2 * p - 1) == 2 * BitAnd(a / 2, p - 1) + a % 2
  {
    DivModUnique(2 * p - 1, 2, p - 1, 1);
    BitAndUnfold(a, 2 * p - 1);
  }

  /** The remainder modulo b * p, rebuilt from the remainder modulo p of the
      quotient by b and the remainder modulo b (one more digit in radix b). */
  lemma RemSplit(a: nat, b: nat, p: nat)
    requires b > 0 && p > 0
    ensures a % (b * p) == b * ((a / b) % p) + a % b
  {
    var m := a % (b * p);
    ModSplit(a, b, p);
    assert m == b * (m / b) + m % b;
  }

  /** Masking with 2^k - 1 (k low one-bits) keeps the remainder modulo 2^k. */
  lemma {:induction false} AndLowOnes(a: nat, k: nat)
    ensures BitAnd(a, Pow(2, k) - 1) == a % Pow(2, k)
  {
    if k == 0 {
      assert Pow(2, k) == 1;
    } else if a == 0 {
      assert a % Pow(2, k) == 0;
    } else {
      var p := Pow(2, k - 1);
      AndLowOnes(a / 2, k - 1);
      AndOddMask(a, p);
      RemSplit(a, 2, p);
    }
  }

  /** Shifting right by one bit distributes over AND. */
  lemma AndHalf(a: nat, b: nat)
    ensures BitAnd(a, b) / 2 == BitAnd(a / 2, b / 2)
  {
    if a > 0 && b > 0 {
      BitAndUnfold(a, b);
    }
  }

  /** Shifting right distributes over AND: `(a & b) >> k == (a >> k) & (b >> k)`. */
  lemma {:induction false} AndShiftRight(a: nat, b: nat, k: nat)
    ensures ShiftRight(BitAnd(a, b), k) == BitAnd(ShiftRight(a, k), ShiftRight(b, k))
  {
    if k > 0 {
      AndHalf(a, b);
      AndShiftRight(a / 2, b / 2, k - 1);
    }
  }

  /** Shifting right by k bits divides by 2^k. */
  lemma {:induction false} ShiftRightDiv(a: nat, k: nat)
    ensures ShiftRight(a, k) == a / Pow(2, k)
  {
    if k > 0 {
      ShiftRightDiv(a / 2, k - 1);
      ModSplit(a, 2, Pow(2, k - 1));
    }
  }

  /** Exponents add when powers of the same base multiply. */
  lemma {:induction false} PowAdd(b: nat, i: nat, j: nat)
    ensures Pow(b, i + j) == Pow(b, i) * Pow(b, j)
  {
    if j > 0 {
      PowAdd(b, i, j - 1);
      MulLeftCommute(b, Pow(b, i), Pow(b, j - 1));
    }
  }

  /** `b * (x * y) == x * (b * y)`. */
  lemma MulLeftCommute(b: nat, x: nat, y: nat)
    ensures b * (x * y) == x * (b * y)
  {
  }

  /** The powers of two that the masks and shifts of the decoders use. */
  lemma PowersOfTwo()
    ensures Pow(2, 8) == 0x100 && Pow(2, 12) == 0x1000
    ensures Pow(2, 16) == 0x1_0000 && Pow(2, 20) == 0x10_0000
    ensures Pow(2, 24) == 0x100_0000 && Pow(2, 28) == 0x1000_0000
    ensures Pow(2, 32) == 0x1_0000_0000 && Pow(2, 36) == 0x10_0000_0000
    ensures Pow(2, 48) == 0x1_0000_0000_0000
  {
    PowAdd(2, 8, 8);
    PowAdd(2, 12, 8);
    PowAdd(2, 12, 12);
    PowAdd(2, 16, 12);
    PowAdd(2, 16, 16);
    PowAdd(2, 24, 12);
    PowAdd(2, 24, 24);
  }

  /** The powers of sixteen that the hexadecimal slicing of a GUMMEI uses. */
  lemma PowersOfSixteen()
    ensures Pow(16, 2) == 0x100 && Pow(16, 3) == 0x1000 && Pow(16, 4) == 0x1_0000
    ensures Pow(16, 6) == 0x100_0000 && Pow(16, 9) == 0x10_0000_0000
  {
    PowAdd(16, 3, 3);
    PowAdd(16, 6, 3);
  }

  /** A number rebuilt from its quotient and remainder. */
  lemma DivRebuild(n: nat, d: nat)
    requires d > 0
    ensures (n / d) * d + n % d == n
  {
  }

  /** The remainder modulo b^k from the remainder of n / b modulo b^(k-1). */
  lemma RemPowStep(n: nat, b: nat, k: nat)
    requires b > 0 && k > 0
    ensures n % Pow(b, k) == ((n / b) % Pow(b, k - 1)) * b + n % b
  {
    RemSplit(n, b, Pow(b, k - 1));
  }
}
