/** Bitwise operators on natural numbers, the shifts of a fixed word width, and what they mean arithmetically. */
module Bits {

  function Pow2(k: nat): (p: nat)
    ensures p > 0
  {
    if k == 0 then 1 else 2 * Pow2(k - 1)
  }

  function Or(x: nat, y: nat): nat
    decreases x + y
  {
    if x == 0 && y == 0 then 0
    else 2 * Or(x / 2, y / 2) + (if x % 2 == 1 || y % 2 == 1 then 1 else 0)
  }

  function And(x: nat, y: nat): nat {
    if x == 0 || y == 0 then 0
    else 2 * And(x / 2, y / 2) + (if x % 2 == 1 && y % 2 == 1 then 1 else 0)
  }

  /** `x << k` in a word of `w` bits. */
  function Shl(w: nat, x: nat, k: nat): nat { x * Pow2(k) % Pow2(w) }

  /** `~x` in a word of `w` bits. */
  function Not(w: nat, x: nat): nat
    requires x < Pow2(w)
  {
    Pow2(w) - 1 - x
  }

  lemma {:induction false} PowAdd(i: nat, j: nat)
    ensures Pow2(i + j) == Pow2(i) * Pow2(j)
  {
    if i > 0 {
      PowAdd(i - 1, j);
      assert Pow2(i + j) == 2 * (Pow2(i - 1) * Pow2(j)) == Pow2(i) * Pow2(j);
    }
  }

  lemma {:induction false} OrZero(y: nat)
    ensures Or(0, y) == y
  {
    if y > 0 {
      OrZero(y / 2);
    }
  }

  lemma {:induction false} OrComm(x: nat, y: nat)
    ensures Or(x, y) == Or(y, x)
    decreases x + y
  {
    if x + y > 0 {
      OrComm(x / 2, y / 2);
    }
  }

  lemma HalfOfMultiple(y: nat, k: nat)
    requires k > 0
    ensures y * Pow2(k) / 2 == y * Pow2(k - 1) && y * Pow2(k) % 2 == 0
  {
    assert y * Pow2(k) == 2 * (y * Pow2(k - 1));
  }

  /** A number below 2^k and a multiple of 2^k have no bit in common, so joining them is adding them. */
  lemma {:induction false} OrDisjoint(x: nat, y: nat, k: nat)
    requires x < Pow2(k)
    ensures Or(x, y * Pow2(k)) == x + y * Pow2(k)
  {
    if k == 0 {
      OrZero(y);
    } else {
      HalfOfMultiple(y, k);
      OrDisjoint(x / 2, y, k - 1);
      assert y * Pow2(k) == 2 * (y * Pow2(k - 1));
    }
  }

  lemma {:induction false} AndAll(x: nat, w: nat)
    requires x < Pow2(w)
    ensures And(x, Pow2(w) - 1) == x
  {
    if w > 0 {
      AndAll(x / 2, w - 1);
      assert (Pow2(w) - 1) / 2 == Pow2(w - 1) - 1;
    }
  }

  lemma {:induction false} PowMonotone(k: nat, w: nat)
    requires k <= w
    ensures Pow2(k) <= Pow2(w)
  {
    if k < w {
      PowMonotone(k, w - 1);
    }
  }

  lemma HalfMod(x: nat, k: nat)
    requires k > 0
    ensures x % Pow2(k) == 2 * (x / 2 % Pow2(k - 1)) + x % 2
  {
    var p := Pow2(k - 1);
    var q, r := x / 2 / p, x / 2 % p;
    assert x / 2 == q * p + r;
    assert x == q * (2 * p) + (2 * r + x % 2) by {
      assert x == 2 * (x / 2) + x % 2;
      assert 2 * (q * p) == q * (2 * p);
    }
    ModUnique(x, q, 2 * p, 2 * r + x % 2);
  }

  lemma MulAtLeast(m: int, d: int)
    requires 0 <= m && d >= 1
    ensures m * d >= m
  {
    assert m * d == m + m * (d - 1);
  }

  lemma SmallMultipleIsZero(m: int, d: int)
    requires 0 <= m && -m < m * d < m
    ensures d == 0
  {
    if d >= 1 {
      MulAtLeast(m, d);
    } else if d <= -1 {
      MulAtLeast(m, -d);
    }
  }

  lemma ModUnique(x: int, q: int, m: nat, r: nat)
    requires x == q * m + r && r < m
    ensures x % m == r && x / m == q
  {
    var d := x / m - q;
    assert m * (x / m) + x % m == x;
    assert m * d == m * (x / m) - m * q == r - x % m;
    SmallMultipleIsZero(m, d);
  }

  /** Masking with the complement of 2^k - 1 clears the low k bits. */
  lemma {:induction false} AndHighMask(x: nat, k: nat, w: nat)
    requires x < Pow2(w) && k <= w
    ensures Pow2(k) <= Pow2(w)
    ensures And(x, Pow2(w) - Pow2(k)) == x - x % Pow2(k)
  {
    PowMonotone(k, w);
    if k == 0 {
      AndAll(x, w);
    } else {
      AndHighMask(x / 2, k - 1, w - 1);
      HalfMod(x, k);
      var m := Pow2(w) - Pow2(k);
      assert m / 2 == Pow2(w - 1) - Pow2(k - 1) && m % 2 == 0;
      hide And, Pow2;
      AndHalves(x, m);
    }
  }

  lemma AndHalves(x: nat, y: nat)
    ensures And(x, y) == 2 * And(x / 2, y / 2) + (if x % 2 == 1 && y % 2 == 1 then 1 else 0)
  {
    AndZero(x / 2);
  }

  lemma AndZero(x: nat)
    ensures And(x, 0) == 0
  {}

  lemma AllBelow(x: nat, w: nat)
    requires x < Pow2(w)
    ensures x % Pow2(w) == x
  {
    ModUnique(x, 0, Pow2(w), x);
  }

  /** Joining a number below 2^k with one shifted behind it, when the shift loses nothing. */
  lemma JoinIsSum(w: nat, x: nat, y: nat, k: nat)
    requires x < Pow2(k) && y * Pow2(k) < Pow2(w)
    ensures Or(x, Shl(w, y, k)) == x + y * Pow2(k)
  {
    AllBelow(y * Pow2(k), w);
    OrDisjoint(x, y, k);
  }
}
