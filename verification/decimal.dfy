/**
 * The decimal arithmetic behind an account's share of the total:
 * `balance.div(total).toFixed(2)` on bignumber.js values under the
 * library's default configuration, i.e. a quotient rounded to 20 decimal
 * places with ROUND_HALF_UP, then rounded again to 2 decimal places with
 * ROUND_HALF_UP. Every quantity is an integer count of a decimal unit:
 * balances of smallest units, quotients of 10^-20, shares of 10^-2.
 */
module Decimal {

  /** One whole, in units of 10^-20 (the quotient's 20 decimal places). */
  const Places20: nat := 100_000_000_000_000_000_000

  /** The number of 10^-20 units in one hundredth. */
  const HundredthIn20: nat := 1_000_000_000_000_000_000

  /** n / d rounded to the nearest integer, a half rounded up. */
  function RoundHalfUp(n: nat, d: nat): (r: nat)
    requires d > 0
    ensures 2 * n - d < 2 * d * r <= 2 * n + d
  {
    var q := (2 * n + d) / (2 * d);
    assert q * (2 * d) + (2 * n + d) % (2 * d) == 2 * n + d;
    q
  }

  /** `balance.div(total)`: the quotient kept to 20 decimal places. */
  function Quotient20(balance: nat, total: nat): nat
    requires total > 0
  {
    RoundHalfUp(balance * Places20, total)
  }

  /** `toFixed(2)` of a value held in units of 10^-20, giving hundredths. */
  function ToFixed2(q: nat): nat
  {
    RoundHalfUp(q, HundredthIn20)
  }

  /** An account's share of the total, in hundredths. */
  function Share(balance: nat, total: nat): nat
    requires total > 0
  {
    ToFixed2(Quotient20(balance, total))
  }

  lemma MulMonotone(c: nat, x: int, y: int)
    requires x <= y
    ensures c * x <= c * y
  {
    assert c * y - c * x == c * (y - x);
  }

  lemma MulCancel(c: nat, x: int, y: int)
    requires c > 0 && c * x < c * y
    ensures x < y
  {
    if y <= x {
      MulMonotone(c, y, x);
    }
  }

  /** Rounding to the nearest integer never reverses the order of its inputs. */
  lemma {:induction false} RoundHalfUpMonotone(n1: nat, n2: nat, d: nat)
    requires d > 0 && n1 <= n2
    ensures RoundHalfUp(n1, d) <= RoundHalfUp(n2, d)
  {
    var r1, r2 := RoundHalfUp(n1, d), RoundHalfUp(n2, d);
    assert 2 * d * r1 < 2 * d * (r2 + 1);
    MulCancel(2 * d, r1, r2 + 1);
  }

  /** A quotient that is a whole number is left as it is. */
  lemma {:induction false} RoundHalfUpExact(k: nat, d: nat)
    requires d > 0
    ensures RoundHalfUp(k * d, d) == k
  {
    var r := RoundHalfUp(k * d, d);
    assert 2 * d * r < 2 * d * (k + 1);
    MulCancel(2 * d, r, k + 1);
    assert 2 * d * (k - 1) < 2 * d * r;
    MulCancel(2 * d, k - 1, r);
  }

  /** A zero balance has share 0.00, the whole total has share 1.00, and a
      balance no larger than the total has a share of at most 1.00. */
  lemma {:induction false} ShareBounds(balance: nat, total: nat)
    requires total > 0
    ensures balance == 0 ==> Share(balance, total) == 0
    ensures balance == total ==> Share(balance, total) == 100
    ensures balance <= total ==> Share(balance, total) <= 100
  {
    RoundHalfUpExact(0, total);
    RoundHalfUpExact(0, HundredthIn20);
    RoundHalfUpExact(Places20, total);
    RoundHalfUpExact(100, HundredthIn20);
    if balance <= total {
      MulMonotone(Places20, balance, total);
      assert balance * Places20 <= Places20 * total;
      RoundHalfUpMonotone(balance * Places20, Places20 * total, total);
      RoundHalfUpMonotone(Quotient20(balance, total), Places20, HundredthIn20);
      assert 100 * HundredthIn20 == Places20;
    }
  }

  /** A larger balance never gets a smaller share of the same total. */
  lemma {:induction false} ShareMonotone(b1: nat, b2: nat, total: nat)
    requires total > 0 && b1 <= b2
    ensures Share(b1, total) <= Share(b2, total)
  {
    MulMonotone(Places20, b1, b2);
    assert b1 * Places20 <= b2 * Places20;
    RoundHalfUpMonotone(b1 * Places20, b2 * Places20, total);
    RoundHalfUpMonotone(Quotient20(b1, total), Quotient20(b2, total), HundredthIn20);
  }

  /** The share s (in hundredths) differs from the exact 100 * balance / total
      by at most one half plus one half of 10^-18, the second half being the
      error of the 20-place quotient:
      |2 * 10^18 * total * s - 200 * 10^18 * balance| <= (10^18 + 1) * total. */
  lemma {:induction false} ShareError(balance: nat, total: nat)
    requires total > 0
    ensures var e := 2 * HundredthIn20 * total * Share(balance, total)
                     - 200 * HundredthIn20 * balance;
            -((HundredthIn20 + 1) * total) < e <= (HundredthIn20 + 1) * total
  {
    var E := HundredthIn20;
    var q := Quotient20(balance, total);
    var s := Share(balance, total);
    // the 20-place quotient: 2 * balance * 10^20 - total < 2 * total * q <= ... + total
    assert 2 * (balance * Places20) - total < 2 * total * q <= 2 * (balance * Places20) + total;
    // toFixed(2): 2 * q - E < 2 * E * s <= 2 * q + E, scaled by total
    assert 2 * q - E < 2 * E * s <= 2 * q + E;
    MulMonotone(total, 2 * E * s, 2 * q + E);
    MulMonotone(total, 2 * q - E + 1, 2 * E * s);
    assert total * (2 * E * s) == 2 * E * total * s;
    assert total * (2 * q + E) == 2 * total * q + E * total;
    assert total * (2 * q - E + 1) == 2 * total * q - E * total + total;
    assert balance * Places20 * 2 == 200 * E * balance;
  }

  /** The share is rounded twice, and the first rounding can decide the
      second: 0.004999999999999999999 becomes 0.00500000000000000000 at 20
      places and then 0.01, where rounding the exact quotient to 2 places
      would give 0.00. */
  lemma ShareRoundsTwice()
    ensures var b, t := 4_999_999_999_999_999_999, 1_000_000_000_000_000_000_000;
      && 2 * 100 * b < t
      && Share(b, t) == 1
  {
    var b, t := 4_999_999_999_999_999_999, 1_000_000_000_000_000_000_000;
    assert Quotient20(b, t) == 500_000_000_000_000_000;
  }
}
