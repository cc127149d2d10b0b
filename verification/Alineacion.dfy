/** The alignment macros of mariadb-10.11.2-winx64/include/mysql/server/my_global.h on words of `w` bits. */
module Alineacion {
  import opened Bits

  function MyAlign(w: nat, a: nat, l: nat): nat
    requires 0 < l <= Pow2(w)
  {
    And((a + l - 1) % Pow2(w), Not(w, l - 1))
  }

  function MyAlignDown(w: nat, a: nat, l: nat): nat
    requires 0 < l <= Pow2(w)
  {
    And(a, Not(w, l - 1))
  }

  ghost predicate IsGreatestMultipleBelow(r: int, l: nat, a: nat)
    requires l > 0
  {
    r % l == 0 && r <= a && forall m :: 0 <= m <= a && m % l == 0 ==> m <= r
  }

  ghost predicate IsLeastMultipleAbove(r: int, l: nat, a: nat)
    requires l > 0
  {
    r % l == 0 && a <= r && forall m :: m >= a && m % l == 0 ==> r <= m
  }

  lemma MultipleAbove(m: nat, l: nat, a: nat)
    requires l > 0 && m % l == 0 && m >= a
    ensures m >= (a + l - 1) - (a + l - 1) % l
  {
    var b := a + l - 1;
    var q, p := b / l, m / l;
    assert m == l * p && b == l * q + b % l;
    MulOrder(l, p, q);
  }

  lemma MulOrder(l: nat, p: int, q: int)
    ensures p < q ==> l * p <= l * q - l
    ensures p >= q ==> l * p >= l * q
  {
    assert l * q - l * p == l * (q - p);
    if p < q {
      MulAtLeast(l, q - p);
    }
  }

  lemma RoundedDown(b: nat, l: nat)
    requires l > 0
    ensures (b - b % l) % l == 0 && b - l < b - b % l <= b
  {
    assert b - b % l == (b / l) * l + 0 by { assert l * (b / l) == (b / l) * l; }
    ModUnique(b - b % l, b / l, l, 0);
  }

  lemma MultipleBelow(m: nat, l: nat, a: nat)
    requires l > 0 && m % l == 0 && m <= a
    ensures m <= a - a % l
  {
    var p, q := m / l, a / l;
    assert m == l * p && a == l * q + a % l;
    MulOrder(l, q, p);
  }

  lemma RoundedDownIsGreatest(a: nat, l: nat)
    requires l > 0
    ensures IsGreatestMultipleBelow(a - a % l, l, a)
  {
    RoundedDown(a, l);
    forall m | 0 <= m <= a && m % l == 0
      ensures m <= a - a % l
    {
      MultipleBelow(m, l, a);
    }
  }

  lemma RoundedUpIsLeast(a: nat, l: nat)
    requires l > 0
    ensures var b := a + l - 1; IsLeastMultipleAbove(b - b % l, l, a)
  {
    var b := a + l - 1;
    RoundedDown(b, l);
    forall m | m >= a && m % l == 0
      ensures b - b % l <= m
    {
      MultipleAbove(m, l, a);
    }
  }

  /** MY_ALIGN_DOWN is the greatest multiple of a power of two that is not above the argument. */
  lemma AlignDownIsGreatestMultiple(w: nat, a: nat, k: nat)
    requires k <= w && a < Pow2(w)
    ensures Pow2(k) <= Pow2(w)
    ensures IsGreatestMultipleBelow(MyAlignDown(w, a, Pow2(k)), Pow2(k), a)
  {
    hide And, Pow2, IsGreatestMultipleBelow;
    AndHighMask(a, k, w);
    RoundedDownIsGreatest(a, Pow2(k));
  }

  /** MY_ALIGN is the least multiple of a power of two that is not below the argument, when the sum does not
      overflow. */
  lemma AlignIsLeastMultiple(w: nat, a: nat, k: nat)
    requires k <= w && a + Pow2(k) - 1 < Pow2(w)
    ensures Pow2(k) <= Pow2(w)
    ensures IsLeastMultipleAbove(MyAlign(w, a, Pow2(k)), Pow2(k), a)
  {
    hide And, Pow2, IsLeastMultipleAbove;
    var b := a + Pow2(k) - 1;
    AllBelow(b, w);
    AndHighMask(b, k, w);
    RoundedUpIsLeast(a, Pow2(k));
  }

  /** MY_ALIGN rounds up exactly when the sum fits in the word; on overflow it yields 0. */
  lemma AlignRoundsUpExactlyWhen(w: nat, a: nat, k: nat)
    requires k <= w && a < Pow2(w)
    ensures Pow2(k) <= Pow2(w)
    ensures MyAlign(w, a, Pow2(k)) >= a <==> a + Pow2(k) - 1 < Pow2(w)
    ensures a + Pow2(k) - 1 >= Pow2(w) ==> MyAlign(w, a, Pow2(k)) == 0
  {
    var l := Pow2(k);
    PowMonotone(k, w);
    if a + l - 1 < Pow2(w) {
      AlignIsLeastMultiple(w, a, k);
    } else {
      var c := a + l - 1 - Pow2(w);
      ModUnique(a + l - 1, 1, Pow2(w), c);
      AndHighMask(c, k, w);
      assert c < l;
      AllBelow(c, k);
    }
  }
}
