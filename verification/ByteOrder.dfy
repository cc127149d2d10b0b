/** Byte-order codecs: the portable shift forms of mariadb-10.11.2-winx64/include/mysql/server/byte_order_generic.h and
    the fast forms of byte_order_generic_x86_64.h, both against little-endian numbers of any length. */
module ByteOrder {
  import opened Bits

  type Byte = n: nat | n < 256 witness 0

  // ---------- little-endian numbers of any length ----------

  function Pow256(n: nat): (p: nat)
    ensures p > 0
  {
    if n == 0 then 1 else 256 * Pow256(n - 1)
  }

  /** The value of a little-endian byte string; also what an x86 load of that many bytes yields. */
  function LE(bs: seq<Byte>): nat {
    if bs == [] then 0 else bs[0] + 256 * LE(bs[1..])
  }

  /** The low `n` bytes of `v` in two's complement, low byte first; also what an x86 store of `n` bytes writes. */
  function Encode(v: int, n: nat): (bs: seq<Byte>)
    ensures |bs| == n
    decreases n
  {
    if n == 0 then [] else [v % 256] + Encode(v / 256, n - 1)
  }

  lemma {:induction false} Pow256IsPow2(n: nat)
    ensures Pow256(n) == Pow2(8 * n)
  {
    if n > 0 {
      Pow256IsPow2(n - 1);
      PowAdd(8, 8 * (n - 1));
      assert Pow2(8) == 256 by {
        assert Pow2(4) == 16;
        PowAdd(4, 4);
      }
    }
  }

  lemma {:induction false} LEBound(bs: seq<Byte>)
    ensures LE(bs) < Pow256(|bs|)
  {
    if bs != [] {
      LEBound(bs[1..]);
    }
  }

  lemma {:induction false} LEAppend(a: seq<Byte>, b: seq<Byte>)
    ensures LE(a + b) == LE(a) + LE(b) * Pow256(|a|)
  {
    if a == [] {
      assert a + b == b;
    } else {
      var p, v := Pow256(|a| - 1), LE(b);
      assert (a + b)[1..] == a[1..] + b && (a + b)[0] == a[0];
      LEAppend(a[1..], b);
      assert LE(a + b) == a[0] + 256 * (LE(a[1..]) + v * p);
      assert Pow256(|a|) == 256 * p;
      Scale(v, p);
    }
  }

  lemma Scale(x: nat, p: nat)
    ensures 256 * (x * p) == x * (256 * p)
  {}

  lemma SplitMod(v: int, p: nat)
    requires p > 0
    ensures v % 256 + 256 * (v / 256 % p) == v % (256 * p)
    ensures v / 256 / p == v / (256 * p)
  {
    var q, r := v / 256 / p, v / 256 % p;
    assert v / 256 == q * p + r;
    assert 256 * (q * p) == q * (256 * p);
    ModUnique(v, q, 256 * p, v % 256 + 256 * r);
  }

  /** Decoding what was encoded gives the value back, modulo the width. */
  lemma {:induction false} DecodeEncode(v: int, n: nat)
    ensures LE(Encode(v, n)) == v % Pow256(n)
    decreases n
  {
    if n > 0 {
      DecodeEncode(v / 256, n - 1);
      assert Encode(v, n)[1..] == Encode(v / 256, n - 1);
      SplitMod(v, Pow256(n - 1));
    }
  }

  /** Encoding what was decoded gives the bytes back. */
  lemma {:induction false} EncodeDecode(bs: seq<Byte>)
    ensures Encode(LE(bs), |bs|) == bs
  {
    if bs != [] {
      EncodeDecode(bs[1..]);
      var v := LE(bs);
      assert v % 256 == bs[0] && v / 256 == LE(bs[1..]);
    }
  }

  lemma {:induction false} EncodeAt(v: int, n: nat, i: nat)
    requires i < n
    ensures Encode(v, n)[i] == v / Pow256(i) % 256
    decreases n
  {
    if i > 0 {
      EncodeAt(v / 256, n - 1, i - 1);
      assert Encode(v, n)[i] == Encode(v / 256, n - 1)[i - 1];
      SplitMod(v, Pow256(i - 1));
    }
  }

  /** Encoding depends only on the value modulo the width. */
  lemma EncodeMod(v: int, n: nat)
    ensures Encode(v % Pow256(n), n) == Encode(v, n)
  {
    DecodeEncode(v, n);
    EncodeDecode(Encode(v, n));
  }

  // ---------- joining pieces ----------

  /** Joining a low part with a high part shifted behind it, in a word that holds both. */
  lemma JoinParts(w: nat, a: seq<Byte>, b: seq<Byte>)
    requires 8 * (|a| + |b|) <= w
    ensures Or(LE(a), Shl(w, LE(b), 8 * |a|)) == LE(a + b)
  {
    hide Or, Shl, LE, Pow2, Pow256;
    LEBound(a);
    LEBound(a + b);
    LEAppend(a, b);
    Pow256IsPow2(|a|);
    Pow256IsPow2(|a| + |b|);
    PowMonotone(8 * (|a| + |b|), w);
    JoinIsSum(w, LE(a), LE(b), 8 * |a|);
  }

  lemma LEOne(b: Byte)
    ensures LE([b]) == b
  {
    assert [b][1..] == [];
  }

  /** The portable decoder for any number of bytes: shift each byte to its place and join. */
  function ShiftOr(w: nat, bs: seq<Byte>): nat {
    if bs == [] then 0
    else
      var n := |bs| - 1;
      Or(ShiftOr(w, bs[..n]), Shl(w, bs[n], 8 * n))
  }

  /** For every byte string that fits the word, shifting and joining is the little-endian value. */
  lemma {:induction false} ShiftOrIsLE(w: nat, bs: seq<Byte>)
    requires 8 * |bs| <= w
    ensures ShiftOr(w, bs) == LE(bs)
  {
    if bs != [] {
      var n := |bs| - 1;
      ShiftOrIsLE(w, bs[..n]);
      LEOne(bs[n]);
      JoinParts(w, bs[..n], [bs[n]]);
      assert bs == bs[..n] + [bs[n]];
    }
  }

  lemma {:induction false} EncodeSplit(v: int, m: nat, n: nat)
    ensures Encode(v, m + n) == Encode(v, m) + Encode(v / Pow256(m), n)
    decreases m
  {
    if m == 0 {
      assert [] + Encode(v, n) == Encode(v, n);
    } else {
      EncodeSplit(v / 256, m - 1, n);
      SplitMod(v, Pow256(m - 1));
      var head, mid, tail := [v % 256], Encode(v / 256, m - 1), Encode(v / 256 / Pow256(m - 1), n);
      assert head + (mid + tail) == (head + mid) + tail;
    }
  }

  // ---------- big-endian numbers ----------

  /** The value of a byte string stored high byte first. */
  function BE(bs: seq<Byte>): nat {
    if bs == [] then 0 else 256 * BE(bs[..|bs| - 1]) + bs[|bs| - 1]
  }

  function Reverse(bs: seq<Byte>): (r: seq<Byte>)
    ensures |r| == |bs| && forall i :: 0 <= i < |bs| ==> r[i] == bs[|bs| - 1 - i]
  {
    seq(|bs|, i requires 0 <= i < |bs| => bs[|bs| - 1 - i])
  }

  lemma {:induction false} BEIsReversedLE(bs: seq<Byte>)
    ensures BE(bs) == LE(Reverse(bs))
  {
    if bs != [] {
      BEIsReversedLE(bs[..|bs| - 1]);
      assert Reverse(bs)[1..] == Reverse(bs[..|bs| - 1]);
    }
  }

  function Zeros(n: nat): (bs: seq<Byte>)
    ensures |bs| == n && forall i :: 0 <= i < n ==> bs[i] == 0
  {
    seq(n, _ => 0)
  }

  lemma {:induction false} LEZeros(n: nat)
    ensures LE(Zeros(n)) == 0
  {
    if n > 0 {
      assert Zeros(n)[1..] == Zeros(n - 1);
      LEZeros(n - 1);
    }
  }

  /** The x86 instruction that reverses the eight bytes of a register. */
  function Bswap64(v: nat): nat { LE(Reverse(Encode(v, 8))) }

  lemma ShiftedWord(bs: seq<Byte>)
    requires |bs| <= 8
    ensures Shl(64, LE(bs), 8 * (8 - |bs|)) == LE(Zeros(8 - |bs|) + bs)
  {
    hide LE, Pow2, Pow256;
    var z := 8 - |bs|;
    var word := Zeros(z) + bs;
    LEZeros(z);
    LEAppend(Zeros(z), bs);
    LEBound(word);
    assert |word| == 8 && 8 * |word| == 64;
    Pow256IsPow2(8);
    Pow256IsPow2(z);
    AllBelow(LE(bs) * Pow2(8 * z), 64);
  }

  lemma ReverseAppend(a: seq<Byte>, b: seq<Byte>)
    ensures Reverse(a + b) == Reverse(b) + Reverse(a)
  {}

  lemma TrailingZeros(bs: seq<Byte>, z: nat)
    ensures LE(bs + Zeros(z)) == LE(bs)
  {
    hide LE, Pow256;
    LEAppend(bs, Zeros(z));
    LEZeros(z);
    TimesZero(Pow256(|bs|));
  }

  lemma SwappedWord(bs: seq<Byte>)
    requires |bs| <= 8
    ensures Bswap64(LE(Zeros(8 - |bs|) + bs)) == LE(Reverse(bs))
  {
    hide LE, Pow256, Encode;
    var z := 8 - |bs|;
    EncodeDecode(Zeros(z) + bs);
    ReverseAppend(Zeros(z), bs);
    assert Reverse(Zeros(z)) == Zeros(z);
    TrailingZeros(Reverse(bs), z);
  }

  lemma TimesZero(p: nat)
    ensures 0 * p == 0
  {}

  /** Loading little-endian, moving the value to the top of the register and swapping reads the bytes high byte
      first. */
  lemma SwapReadsBigEndian(bs: seq<Byte>)
    requires |bs| <= 8
    ensures Bswap64(Shl(64, LE(bs), 8 * (8 - |bs|))) == BE(bs) == LE(Reverse(bs))
  {
    hide *;
    ShiftedWord(bs);
    SwappedWord(bs);
    BEIsReversedLE(bs);
  }
}
