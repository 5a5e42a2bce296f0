/**
 * C's unsigned bit operators on naturals: `&` and `|` computed bit by bit
 * from the least significant end, and the powers of two that `<<` multiplies by.
 */
module Bits {

  /** Bitwise AND of two naturals, bit by bit from the least significant end (C's `&` on unsigned values). */
  function BitAnd(a: nat, b: nat): (r: nat)
    ensures r <= a && r <= b
  {
    if a == 0 || b == 0 then 0
    else 2 * BitAnd(a / 2, b / 2) + (if a % 2 == 1 && b % 2 == 1 then 1 else 0)
  }

  /** Two to the power k. */
  function Pow2(k: nat): (r: nat)
    ensures r >= 1
  {
    if k == 0 then 1 else 2 * Pow2(k - 1)
  }

  /** AND with a mask of k low one-bits keeps the remainder modulo 2^k. */
  lemma {:induction false} BitAndLowMask(a: nat, k: nat)
    ensures BitAnd(a, Pow2(k) - 1) == a % Pow2(k)
  {
    if k == 0 {
      assert Pow2(k) == 1;
    } else if a == 0 {
    } else {
      var m := Pow2(k) - 1;
      var h := Pow2(k - 1) - 1;
      assert m == 2 * h + 1;
      BitAndOdd(a, h);
      BitAndLowMask(a / 2, k - 1);
      DivModPow2(a, k);
    }
  }

  lemma BitAndOdd(a: nat, h: nat)
    requires a > 0
    ensures BitAnd(a, 2 * h + 1) == 2 * BitAnd(a / 2, h) + a % 2
  {
    var m := 2 * h + 1;
    assert m / 2 == h;
    assert m % 2 == 1;
  }

  /** a mod 2^k, split into its lowest bit and the rest. */
  lemma DivModPow2(a: nat, k: nat)
    requires k > 0
    ensures a % Pow2(k) == 2 * ((a / 2) % Pow2(k - 1)) + a % 2
  {
    var p := Pow2(k - 1);
    assert Pow2(k) == 2 * p;
    HalveMod(a, p);
  }

  lemma HalveMod(a: nat, p: nat)
    requires p > 0
    ensures a % (2 * p) == 2 * ((a / 2) % p) + a % 2
  {
    var q := (a / 2) / p;
    var r := (a / 2) % p;
    assert a / 2 == q * p + r;
    assert a == 2 * (a / 2) + a % 2;
    assert a == (2 * p) * q + (2 * r + a % 2);
    ModUnique(a, 2 * p, q, 2 * r + a % 2);
  }

  lemma ModUnique(a: int, m: int, q: int, r: int)
    requires m > 0 && 0 <= r < m && a == m * q + r
    ensures a % m == r
  {
    var q', r' := a / m, a % m;
    assert m * q' + r' == a;
    assert m * (q - q') == r' - r by {
      assert m * (q - q') == m * q - m * q';
    }
    if q > q' {
      MulAtLeast(m, q - q');
      assert false;
    } else if q < q' {
      MulAtLeast(m, q' - q);
      assert false;
    }
  }

  lemma MulAtLeast(m: int, d: int)
    requires m > 0 && d >= 1
    ensures m * d >= m
  {
    assert m * d == m * (d - 1) + m;
    assert m * (d - 1) >= 0;
  }

  /** Bitwise OR of two naturals (C's `|` on unsigned values). */
  function BitOr(a: nat, b: nat): (r: nat)
    ensures a <= r && b <= r && r <= a + b
  {
    if a == 0 then b
    else if b == 0 then a
    else 2 * BitOr(a / 2, b / 2) + (if a % 2 == 1 || b % 2 == 1 then 1 else 0)
  }

  /** 2^(a+b) == 2^a * 2^b. */
  lemma {:induction false} Pow2Add(a: nat, b: nat)
    ensures Pow2(a + b) == Pow2(a) * Pow2(b)
  {
    if a > 0 {
      Pow2Add(a - 1, b);
      assert Pow2(a + b) == 2 * Pow2(a - 1 + b);
    }
  }

  /**
   * OR-ing in a value shifted left by k bits, when v has no bit at or above k,
   * is addition: the two operands occupy disjoint bit lanes.
   */
  lemma {:induction false} BitOrDisjoint(v: nat, b: nat, k: nat)
    requires v < Pow2(k)
    ensures BitOr(v, b * Pow2(k)) == v + b * Pow2(k)
  {
    if k == 0 {
      assert v == 0;
    } else if b == 0 || v == 0 {
      assert b == 0 ==> b * Pow2(k) == 0;
    } else {
      var p := Pow2(k - 1);
      var c := b * Pow2(k);
      assert c == 2 * (b * p) by {
        assert Pow2(k) == 2 * p;
      }
      assert c / 2 == b * p && c % 2 == 0;
      assert c != 0 by {
        MulAtLeast(Pow2(k), b);
      }
      assert v / 2 < p;
      BitOrDisjoint(v / 2, b, k - 1);
      assert BitOr(v, c) == 2 * BitOr(v / 2, c / 2) + v % 2;
    }
  }
}
