/**
 Bitwise AND on natural numbers, and why `x & (capacity - 1)` is `x % capacity`
 for every capacity that passes the power-of-two test `capacity & (capacity - 1) == 0`.
 */
module Bits {

  /** Bitwise AND of two natural numbers, least significant bit first. */
  function BitAnd(x: nat, y: nat): nat
    decreases x
  {
    if x == 0 || y == 0 then 0 else 2 * BitAnd(x / 2, y / 2) + (x % 2) * (y % 2)
  }

  /** The ring buffer's test for a usable capacity. */
  predicate IsPowerOfTwo(c: nat) {
    c != 0 && BitAnd(c, c - 1) == 0
  }

  lemma {:induction false} BitAndSelf(x: nat)
    ensures BitAnd(x, x) == x
  {
    if x != 0 {
      BitAndSelf(x / 2);
    }
  }

  /** A power of two above 1 is the double of a power of two. */
  lemma HalfIsPowerOfTwo(c: nat)
    requires IsPowerOfTwo(c) && c > 1
    ensures c % 2 == 0 && IsPowerOfTwo(c / 2) && (c - 1) / 2 == c / 2 - 1
  {
    BitAndSelf(c / 2);
  }

  /** Masking with `capacity - 1` is reduction modulo `capacity`. */
  lemma {:induction false} MaskIsMod(x: nat, c: nat)
    requires IsPowerOfTwo(c)
    ensures BitAnd(x, c - 1) == x % c
    decreases c
  {
    if c > 1 {
      HalfIsPowerOfTwo(c);
      var h := c / 2;
      MaskIsMod(x / 2, h);
      ModByDouble(x, h);
    }
  }

  lemma ModByDouble(x: nat, h: nat)
    requires h > 0
    ensures x % (2 * h) == 2 * ((x / 2) % h) + x % 2
  {
    var q, r := (x / 2) / h, (x / 2) % h;
    assert x / 2 == h * q + r;
    assert x == (2 * h) * q + (2 * r + x % 2);
    ModUnique(x, 2 * h, q, 2 * r + x % 2);
  }

  /** Quotient and remainder are determined by the division equation. */
  lemma ModUnique(x: nat, d: nat, q: nat, r: nat)
    requires d > 0 && r < d && x == d * q + r
    ensures x % d == r && x / d == q
  {
    var k := x / d - q;
    assert d * k == r - x % d;
    assert k >= 1 ==> d * k >= d;
    assert k <= -1 ==> d * k + d <= 0;
  }

  lemma Wrapped(x: nat, c: nat)
    requires IsPowerOfTwo(c) && x < 2 * c
    ensures BitAnd(x, c - 1) == if x < c then x else x - c
  {
    hide BitAnd;
    MaskIsMod(x, c);
    ModUnique(x, c, if x < c then 0 else 1, if x < c then x else x - c);
  }

  /** `x & (c - 1)` for an index below twice the capacity: it wraps around at the end. */
  method Wrap(x: nat, c: nat) returns (r: nat)
    requires IsPowerOfTwo(c) && x < 2 * c
    ensures r == if x < c then x else x - c
  {
    r := BitAnd(x, c - 1);
    Wrapped(x, c);
  }
}
