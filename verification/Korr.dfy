/** The decoders of 2, 3, 4, 5, 6 and 8 bytes, as the two headers write them. */
module Korr {
  import opened Bits
  import opened ByteOrder

  // ---------- portable: byte_order_generic.h ----------

  function Low2(w: nat, a: seq<Byte>): nat
    requires |a| >= 2
  {
    Or(a[0], Shl(w, a[1], 8))
  }

  function Low3(w: nat, a: seq<Byte>): nat
    requires |a| >= 3
  {
    Or(Low2(w, a), Shl(w, a[2], 16))
  }

  function Low4(w: nat, a: seq<Byte>): nat
    requires |a| >= 4
  {
    Or(Low3(w, a), Shl(w, a[3], 24))
  }

  function Uint2korrPortable(a: seq<Byte>): nat
    requires |a| >= 2
  {
    Low2(32, a) % Pow2(16)
  }

  function Uint3korrPortable(a: seq<Byte>): nat
    requires |a| >= 3
  {
    Low3(32, a)
  }

  function Uint4korrPortable(a: seq<Byte>): nat
    requires |a| >= 4
  {
    Low4(32, a)
  }

  function Uint5korrPortable(a: seq<Byte>): nat
    requires |a| >= 5
  {
    Or(Low4(32, a), Shl(64, a[4], 32))
  }

  function Uint6korrPortable(a: seq<Byte>): nat
    requires |a| >= 6
  {
    Or(Uint5korrPortable(a), Shl(64, a[5], 40))
  }

  function Uint8korrPortable(a: seq<Byte>): nat
    requires |a| >= 8
  {
    Or(Low4(32, a), Shl(64, Low4(32, a[4..]), 32))
  }

  // ---------- fast: byte_order_generic_x86_64.h ----------

  /** A load of `n` bytes at offset `i`. */
  function Load(a: seq<Byte>, i: nat, n: nat): nat
    requires i + n <= |a|
  {
    LE(a[i..i + n])
  }

  function Uint5korrFast(a: seq<Byte>): nat
    requires |a| >= 5
  {
    Or(Load(a, 0, 4), Shl(64, a[4], 32))
  }

  function Uint6korrFast(a: seq<Byte>): nat
    requires |a| >= 6
  {
    Or(Load(a, 0, 4), Shl(64, Load(a, 4, 2), 32))
  }

  lemma Join(w: nat, a: seq<Byte>, m: nat, n: nat)
    requires m + n <= |a| && 8 * (m + n) <= w
    ensures Or(LE(a[..m]), Shl(w, LE(a[m..m + n]), 8 * m)) == LE(a[..m + n])
    ensures n == 1 ==> Or(LE(a[..m]), Shl(w, a[m], 8 * m)) == LE(a[..m + n])
  {
    JoinParts(w, a[..m], a[m..m + n]);
    assert a[..m] + a[m..m + n] == a[..m + n];
    if n == 1 {
      assert a[m..m + 1] == [a[m]];
      LEOne(a[m]);
    }
  }

  lemma LowIsLE(w: nat, a: seq<Byte>)
    ensures |a| >= 2 && w >= 16 ==> Low2(w, a) == LE(a[..2])
    ensures |a| >= 3 && w >= 24 ==> Low3(w, a) == LE(a[..3])
    ensures |a| >= 4 && w >= 32 ==> Low4(w, a) == LE(a[..4])
  {
    hide LE, Or, Shl;
    if |a| >= 2 && w >= 16 {
      LEOne(a[0]);
      assert a[..1] == [a[0]];
      Join(w, a, 1, 1);
      if |a| >= 3 && w >= 24 {
        Join(w, a, 2, 1);
        if |a| >= 4 && w >= 32 {
          Join(w, a, 3, 1);
        }
      }
    }
  }

  /** For every byte string, the portable and the fast unsigned decoders agree: both are the little-endian value of
      exactly the first N bytes. */
  lemma UnsignedDecodersAgree(a: seq<Byte>)
    ensures |a| >= 2 ==> Uint2korrPortable(a) == LE(a[..2]) == Load(a, 0, 2)
    ensures |a| >= 3 ==> Uint3korrPortable(a) == LE(a[..3])
    ensures |a| >= 4 ==> Uint4korrPortable(a) == LE(a[..4]) == Load(a, 0, 4)
    ensures |a| >= 5 ==> Uint5korrPortable(a) == LE(a[..5]) == Uint5korrFast(a)
    ensures |a| >= 6 ==> Uint6korrPortable(a) == LE(a[..6]) == Uint6korrFast(a)
    ensures |a| >= 8 ==> Uint8korrPortable(a) == LE(a[..8]) == Load(a, 0, 8)
  {
    hide LE, Or, Shl, Low2, Low3, Low4, Pow2, Pow256;
    LowIsLE(32, a);
    if |a| >= 2 {
      LEBound(a[..2]);
      Pow256IsPow2(2);
      AllBelow(LE(a[..2]), 16);
    }
    if |a| >= 5 { Join(64, a, 4, 1); }
    if |a| >= 6 { Join(64, a, 5, 1); Join(64, a, 4, 2); }
    if |a| >= 8 {
      LowIsLE(32, a[4..]);
      assert a[4..][..4] == a[4..8];
      Join(64, a, 4, 4);
    }
  }

  // ---------- signed decoders ----------

  /** Two's complement reading of a word of `n` bits. */
  function Signed(n: nat, v: nat): int
    requires n > 0
  {
    if v >= Pow2(n - 1) then v - Pow2(n) else v
  }

  /** The same text in both headers: sign-extend by hand, then reinterpret 32 bits. */
  function Sint3korr(a: seq<Byte>): int
    requires |a| >= 3
  {
    if And(a[2], 128) != 0
    then Signed(32, Or(Or(Or(Shl(32, 255, 24), Shl(32, a[2], 16)), Shl(32, a[1], 8)), a[0]))
    else Signed(32, Or(Or(Shl(32, a[2], 16), Shl(32, a[1], 8)), a[0]))
  }

  lemma {:induction false} AndBit(x: nat, k: nat)
    ensures And(x, Pow2(k)) == if x / Pow2(k) % 2 == 1 then Pow2(k) else 0
  {
    AndHalves(x, Pow2(k));
    hide And;
    if k == 0 {
      AndZero(x / 2);
    } else {
      AndBit(x / 2, k - 1);
      DivPow(x, k);
      assert Pow2(k) % 2 == 0 && Pow2(k) / 2 == Pow2(k - 1);
    }
  }

  lemma DivPow(x: nat, k: nat)
    requires k > 0
    ensures x / 2 / Pow2(k - 1) == x / Pow2(k)
  {
    HalfMod(x, k);
    var p := Pow2(k - 1);
    var q := x / 2 / p;
    assert x / 2 == q * p + x / 2 % p;
    assert 2 * (q * p) == q * (2 * p);
    ModUnique(x, q, 2 * p, 2 * (x / 2 % p) + x % 2);
  }

  /** High part first: the join does not depend on the order. */
  lemma JoinDown(w: nat, y: nat, k: nat, x: nat)
    requires x < Pow2(k)
    ensures Or(y * Pow2(k), x) == y * Pow2(k) + x
  {
    OrComm(y * Pow2(k), x);
    OrDisjoint(x, y, k);
  }

  lemma SmallPowers()
    ensures Pow2(7) == 128 && Pow2(8) == 0x100 && Pow2(16) == 0x1_0000
    ensures Pow2(23) == 0x80_0000 && Pow2(24) == 0x100_0000
    ensures Pow2(31) == 0x8000_0000 && Pow2(32) == 0x1_0000_0000
  {
    assert Pow2(4) == 16;
    assert Pow2(7) == 8 * Pow2(4) && Pow2(8) == 16 * Pow2(4);
    PowAdd(8, 8);
    PowAdd(8, 16);
    PowAdd(16, 16);
    assert Pow2(24) == 2 * Pow2(23) && Pow2(32) == 2 * Pow2(31);
  }

  /** The value of three bytes, low byte first. */
  function Three(x: nat, y: nat, z: nat): nat { x + 0x100 * y + 0x1_0000 * z }

  lemma LEThree(a: seq<Byte>)
    requires |a| >= 3
    ensures LE(a[..3]) == Three(a[0], a[1], a[2])
  {
    var b := a[..3];
    LEOne(a[2]);
    assert b[1..][1..] == [a[2]] && b[1..][0] == a[1];
    assert LE(b[1..]) == a[1] + 256 * LE([a[2]]);
  }

  lemma LowTwoDown(x: nat, y: nat, high: nat)
    requires x < 256 && y < 256
    ensures Or(Or(high * 0x1_0000, y * 0x100), x) == high * 0x1_0000 + y * 0x100 + x
  {
    SmallPowers();
    hide Or, Pow2;
    JoinDown(32, high, 16, y * 0x100);
    var mid := high * 0x100 + y;
    assert mid * 0x100 == high * 0x1_0000 + y * 0x100;
    JoinDown(32, mid, 8, x);
  }

  lemma HighThree(x: nat, y: nat, z: nat)
    requires x < 256 && y < 256 && z < 256
    ensures Or(Or(Shl(32, z, 16), Shl(32, y, 8)), x) == Three(x, y, z)
    ensures Or(Or(Or(Shl(32, 255, 24), Shl(32, z, 16)), Shl(32, y, 8)), x) == Three(x, y, z) + 0xff00_0000
  {
    SmallPowers();
    hide Or, Pow2;
    assert Shl(32, z, 16) == z * 0x1_0000 && Shl(32, y, 8) == y * 0x100 && Shl(32, 255, 24) == 0xff00_0000;
    LowTwoDown(x, y, z);
    JoinDown(32, 255, 24, z * 0x1_0000);
    assert 255 * Pow2(24) == 0xff00_0000;
    var high := 0xff00 + z;
    assert Or(0xff00_0000, z * 0x1_0000) == high * 0x1_0000;
    LowTwoDown(x, y, high);
  }

  lemma TopBit(z: nat)
    requires z < 256
    ensures And(z, 128) != 0 <==> z >= 128
  {
    SmallPowers();
    hide And, Pow2;
    AndBit(z, 7);
  }

  /** sint3korr is the 24-bit two's complement value of its bytes. */
  lemma Sint3korrIsSigned24(a: seq<Byte>)
    requires |a| >= 3
    ensures Sint3korr(a) == Signed(24, LE(a[..3]))
  {
    hide Or, Pow2, LE, Shl, And;
    HighThree(a[0], a[1], a[2]);
    LEThree(a);
    SmallPowers();
    TopBit(a[2]);
  }

  function Sint2korrPortable(a: seq<Byte>): int
    requires |a| >= 2
  {
    Signed(16, Low2(32, a) % Pow2(16))
  }

  function Sint4korrPortable(a: seq<Byte>): int
    requires |a| >= 4
  {
    Signed(32, Low4(32, a))
  }

  function Sint8korrPortable(a: seq<Byte>): int
    requires |a| >= 8
  {
    Signed(64, Uint8korrPortable(a))
  }

  /** The fast signed decoders load a word of 2, 4 or 8 bytes and reinterpret it. */
  function SintKorrFast(n: nat, a: seq<Byte>): int
    requires 0 < n <= |a|
  {
    Signed(8 * n, Load(a, 0, n))
  }

  /** The portable and the fast signed decoders are the two's complement value of exactly their bytes. */
  lemma SignedDecodersAgree(a: seq<Byte>)
    ensures |a| >= 2 ==> Sint2korrPortable(a) == SintKorrFast(2, a) == Signed(16, LE(a[..2]))
    ensures |a| >= 4 ==> Sint4korrPortable(a) == SintKorrFast(4, a) == Signed(32, LE(a[..4]))
    ensures |a| >= 8 ==> Sint8korrPortable(a) == SintKorrFast(8, a) == Signed(64, LE(a[..8]))
  {
    hide LE, Or, Shl, Low2, Low3, Low4, Pow2, Pow256, Signed;
    UnsignedDecodersAgree(a);
    LowIsLE(32, a);
  }

  // ---------- round trips ----------

  /** `v` is a two's complement number of `n` bytes. */
  predicate FitsSigned(v: int, n: nat)
    requires n > 0
  {
    var p: int := Pow2(8 * n - 1);
    -p <= v < p
  }

  /** The ranges of 2, 3, 4 and 8 bytes. */
  lemma SignedRanges(v: int)
    ensures FitsSigned(v, 2) <==> -0x8000 <= v < 0x8000
    ensures FitsSigned(v, 3) <==> -0x80_0000 <= v < 0x80_0000
    ensures FitsSigned(v, 4) <==> -0x8000_0000 <= v < 0x8000_0000
    ensures FitsSigned(v, 8) <==> -0x8000_0000_0000_0000 <= v < 0x8000_0000_0000_0000
  {
    SmallPowers();
    assert Pow2(16) == 2 * Pow2(15);
    assert Pow2(64) == 2 * Pow2(63);
    PowAdd(32, 32);
    hide Pow2;
  }

  /** The two's complement reading of the stored bytes of a number that fits is the number. */
  lemma SignedOfMod(v: int, n: nat)
    requires n > 0 && FitsSigned(v, n)
    ensures Signed(8 * n, v % Pow256(n)) == v
  {
    var p, q := Pow2(8 * n - 1), Pow256(n);
    Pow256IsPow2(n);
    assert q == 2 * p;
    hide Pow2, Pow256;
    if v < 0 {
      assert v == -1 * q + (v + q);
      ModUnique(v, -1, q, v + q);
    } else {
      ModUnique(v, 0, q, v);
    }
  }

  // ---------- big-endian decoders ----------

  function MiUint5korr(a: seq<Byte>): nat
    requires |a| >= 5
  {
    Bswap64(Shl(64, Or(Load(a, 0, 4), Shl(64, a[4], 32)), 24))
  }

  function MiUint6korr(a: seq<Byte>): nat
    requires |a| >= 6
  {
    Bswap64(Shl(64, Or(Load(a, 0, 4), Shl(64, Load(a, 4, 2), 32)), 16))
  }

  function MiUint7korr(a: seq<Byte>): nat
    requires |a| >= 7
  {
    Bswap64(Shl(64, Or(Or(Load(a, 0, 4), Shl(64, Load(a, 4, 2), 32)), Shl(64, a[6], 48)), 8))
  }

  function MiUint8korr(a: seq<Byte>): nat
    requires |a| >= 8
  {
    Bswap64(Load(a, 0, 8))
  }

  /** The pieces joined, shifted up and swapped are the big-endian value of exactly N bytes, that is the little-endian
      decoder on the reversed bytes. */
  lemma MiDecodersReadBigEndian(a: seq<Byte>)
    ensures |a| >= 5 ==> MiUint5korr(a) == BE(a[..5]) == LE(Reverse(a[..5]))
    ensures |a| >= 6 ==> MiUint6korr(a) == BE(a[..6]) == LE(Reverse(a[..6]))
    ensures |a| >= 7 ==> MiUint7korr(a) == BE(a[..7]) == LE(Reverse(a[..7]))
    ensures |a| >= 8 ==> MiUint8korr(a) == BE(a[..8]) == LE(Reverse(a[..8]))
  {
    hide LE, BE, Bswap64, Or, Shl, Pow2, Pow256;
    if |a| >= 5 {
      Join(64, a, 4, 1);
      SwapReadsBigEndian(a[..5]);
    }
    if |a| >= 6 {
      Join(64, a, 4, 2);
      SwapReadsBigEndian(a[..6]);
    }
    if |a| >= 7 {
      Join(64, a, 6, 1);
      SwapReadsBigEndian(a[..7]);
    }
    if |a| >= 8 {
      SwapReadsBigEndian(a[..8]);
      ShlZero(LE(a[..8])) by { LEBound(a[..8]); Pow256IsPow2(8); }
    }
  }

  lemma ShlZero(v: nat)
    requires v < Pow2(64)
    ensures Shl(64, v, 0) == v
  {
    AllBelow(v, 64);
  }
}
