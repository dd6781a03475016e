// The bit-level arithmetic of address translation: C's `>>`, `<<`, `&` and `|`
// on non-negative integers, the mask-building loop, and the split of a logical
// address into page number and offset.

module Bits {

  function Pow2(n: nat): (r: nat)
    ensures r > 0
  {
    if n == 0 then 1 else 2 * Pow2(n - 1)
  }

  /** `x >> n` for a non-negative `x`: n successive halvings. */
  function ShiftRight(x: nat, n: nat): nat
  {
    if n == 0 then x else ShiftRight(x / 2, n - 1)
  }

  /** `x << n` for a non-negative `x`, without the overflow of a fixed width. */
  function ShiftLeft(x: nat, n: nat): nat
    decreases n
  {
    if n == 0 then x else ShiftLeft(2 * x, n - 1)
  }

  /** Bitwise `a & b`, one low bit at a time. */
  function And(a: nat, b: nat): nat
    decreases a
  {
    if a == 0 || b == 0 then 0
    else 2 * And(a / 2, b / 2) + (if a % 2 == 1 && b % 2 == 1 then 1 else 0)
  }

  /** Bitwise `a | b`, one low bit at a time. */
  function Or(a: nat, b: nat): nat
    decreases a + b
  {
    if a == 0 then b
    else if b == 0 then a
    else 2 * Or(a / 2, b / 2) + (if a % 2 == 1 || b % 2 == 1 then 1 else 0)
  }

  /** Quotient and remainder are determined by the division identity. */
  lemma DivModUnique(x: nat, d: nat, q: nat, r: nat)
    requires d > 0 && r < d && x == q * d + r
    ensures x / d == q && x % d == r
  {
    var q', r' := x / d, x % d;
    assert x == q' * d + r';
    if q < q' {
      MulMonotone(q, q', d);
    } else if q' < q {
      MulMonotone(q', q, d);
    }
  }

  lemma MulMonotone(a: nat, b: nat, d: nat)
    requires a < b
    ensures a * d + d <= b * d
    decreases b - a
  {
    assert (a + 1) * d == a * d + d;
    if a + 1 < b {
      MulMonotone(a + 1, b, d);
    }
  }

  /** The division identity for the built-in quotient and remainder. */
  lemma DivModSplit(x: nat, d: nat)
    requires d > 0
    ensures (x / d) * d + x % d == x && x % d < d
  {
  }

  /** Dividing by 2m is halving and then dividing by m. */
  lemma DivModDouble(x: nat, m: nat)
    requires m > 0
    ensures x / (2 * m) == (x / 2) / m
    ensures x % (2 * m) == 2 * ((x / 2) % m) + x % 2
  {
    var q, r, b := (x / 2) / m, (x / 2) % m, x % 2;
    assert x / 2 == q * m + r;
    assert x == q * (2 * m) + (2 * r + b);
    DivModUnique(x, 2 * m, q, 2 * r + b);
  }

  lemma {:induction false} ShiftRightIsDiv(x: nat, n: nat)
    ensures ShiftRight(x, n) == x / Pow2(n)
  {
    if n > 0 {
      ShiftRightIsDiv(x / 2, n - 1);
      DivModDouble(x, Pow2(n - 1));
    }
  }

  lemma {:induction false} ShiftLeftIsMul(x: nat, n: nat)
    decreases n
    ensures ShiftLeft(x, n) == x * Pow2(n)
  {
    if n > 0 {
      ShiftLeftIsMul(2 * x, n - 1);
      assert 2 * x * Pow2(n - 1) == x * (2 * Pow2(n - 1));
    }
  }

  /** Masking with 2^n - 1 keeps the remainder modulo 2^n. */
  lemma {:induction false} AndMaskIsMod(x: nat, n: nat)
    ensures And(x, Pow2(n) - 1) == x % Pow2(n)
  {
    if n > 0 {
      var m := Pow2(n - 1);
      assert Pow2(n) - 1 == 2 * (m - 1) + 1;
      AndOdd(x, m - 1);
      AndMaskIsMod(x / 2, n - 1);
      DivModDouble(x, m);
      assert And(x, Pow2(n) - 1) == 2 * ((x / 2) % m) + x % 2;
    }
  }

  lemma AndOdd(x: nat, k: nat)
    ensures And(x, 2 * k + 1) == 2 * And(x / 2, k) + x % 2
  {
    var b := 2 * k + 1;
    assert b / 2 == k && b % 2 == 1;
  }

  /** Or-ing a value below 2^n into a multiple of 2^n is addition. */
  lemma {:induction false} OrDisjoint(hi: nat, lo: nat, n: nat)
    requires lo < Pow2(n)
    ensures Or(hi * Pow2(n), lo) == hi * Pow2(n) + lo
  {
    if n > 0 && hi > 0 && lo > 0 {
      var m := Pow2(n - 1);
      var a := hi * Pow2(n);
      assert a == 2 * (hi * m);
      assert a / 2 == hi * m && a % 2 == 0;
      OrDisjoint(hi, lo / 2, n - 1);
    }
  }

  /**
   * The loop of resolve_address that builds the offset mask:
   * n rounds of `mask = mask << 1; mask |= 1` starting from 0.
   */
  method BuildMask(n: nat) returns (mask: nat)
    ensures mask == Pow2(n) - 1
  {
    mask := 0;
    var i := 0;
    while i < n
      invariant 0 <= i <= n
      invariant mask == Pow2(i) - 1
    {
      ShiftLeftIsMul(mask, 1);
      OrDisjoint(mask, 1, 1);
      mask := ShiftLeft(mask, 1);
      mask := Or(mask, 1);
      i := i + 1;
    }
  }

  /**
   * Splits a logical address into `(page, offset)` as `logical >> n` and
   * `logical & (2^n - 1)`; the two parts recombine to the address.
   */
  function Decompose(logical: nat, n: nat): (r: (nat, nat))
    ensures r.0 * Pow2(n) + r.1 == logical
    ensures r.1 < Pow2(n)
  {
    ShiftRightIsDiv(logical, n);
    AndMaskIsMod(logical, n);
    DivModSplit(logical, Pow2(n));
    (ShiftRight(logical, n), And(logical, Pow2(n) - 1))
  }

  /** The physical address `(frame << n) | offset`. */
  function Compose(frame: nat, offset: nat, n: nat): nat
  {
    Or(ShiftLeft(frame, n), offset)
  }

  /** A physical address built from a frame and an in-range offset decodes back to both. */
  lemma ComposeDecompose(frame: nat, offset: nat, n: nat)
    requires offset < Pow2(n)
    ensures Compose(frame, offset, n) == frame * Pow2(n) + offset
    ensures Decompose(Compose(frame, offset, n), n) == (frame, offset)
  {
    ShiftLeftIsMul(frame, n);
    OrDisjoint(frame, offset, n);
    var d := Decompose(Compose(frame, offset, n), n);
    DivModUnique(Compose(frame, offset, n), Pow2(n), frame, offset);
    DivModUnique(Compose(frame, offset, n), Pow2(n), d.0, d.1);
  }
}
