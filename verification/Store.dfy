/** The in-place stores of 2, 3, 4, 5, 6 and 8 bytes, as the two headers write them. */
module Store {
  import opened Bits
  import opened ByteOrder
  import opened Korr

  /** `(uchar) v`. */
  function UChar(v: int): Byte { v % 256 }

  /** `v >> k`; arithmetic for negative values. */
  function Shr(v: int, k: nat): int { v / Pow2(k) }

  /** The memory after the low `n` bytes of `v` were written at `t`. */
  function Stored(s: seq<Byte>, t: nat, n: nat, v: int): (r: seq<Byte>)
    requires t + n <= |s|
    ensures |r| == |s|
  {
    s[..t] + Encode(v, n) + s[t + n..]
  }

  lemma ByteIs(v: int, n: nat, i: nat)
    requires i < n
    ensures Encode(v, n)[i] == UChar(Shr(v, 8 * i))
  {
    EncodeAt(v, n, i);
    Pow256IsPow2(i);
  }

  /** Memory whose bytes at `t` are the shifted-out bytes of `v`, and which is otherwise the old one, is the stored
      one. */
  lemma BytesAreStored(s: seq<Byte>, r: seq<Byte>, t: nat, n: nat, v: int)
    requires t + n <= |s| == |r|
    requires forall i :: 0 <= i < n ==> r[t + i] == UChar(Shr(v, 8 * i))
    requires forall j :: 0 <= j < t || t + n <= j < |s| ==> r[j] == s[j]
    ensures r == Stored(s, t, n, v)
  {
    forall i | 0 <= i < n
      ensures r[t + i] == Encode(v, n)[i]
    {
      ByteIs(v, n, i);
    }
    forall j | 0 <= j < |s|
      ensures r[j] == Stored(s, t, n, v)[j]
    {
      if t <= j < t + n {
        assert r[t + (j - t)] == Encode(v, n)[j - t];
      }
    }
  }

  /** Two adjacent stores are one longer store. */
  lemma StoredTwice(s: seq<Byte>, t: nat, m: nat, n: nat, v: int)
    requires t + m + n <= |s|
    ensures Stored(Stored(s, t, m, v), t + m, n, v / Pow256(m)) == Stored(s, t, m + n, v)
  {
    EncodeSplit(v, m, n);
    var r := Stored(s, t, m, v);
    assert r[..t + m] == s[..t] + Encode(v, m);
    assert r[t + m + n..] == s[t + m + n..];
    assert (s[..t] + Encode(v, m)) + Encode(v / Pow256(m), n) == s[..t] + (Encode(v, m) + Encode(v / Pow256(m), n));
  }

  lemma StoredMod(s: seq<Byte>, t: nat, n: nat, v: int)
    requires t + n <= |s|
    ensures Stored(s, t, n, v % Pow256(n)) == Stored(s, t, n, v)
  {
    EncodeMod(v, n);
  }

  lemma Powers()
    ensures Pow2(0) == Pow256(0) == 1 && Pow2(8) == Pow256(1) && Pow2(16) == Pow256(2) && Pow2(24) == Pow256(3)
    ensures Pow2(32) == Pow256(4) && Pow2(40) == Pow256(5) && Pow2(64) == Pow256(8)
  {
    Pow256IsPow2(1);
    Pow256IsPow2(2);
    Pow256IsPow2(3);
    Pow256IsPow2(4);
    Pow256IsPow2(5);
    Pow256IsPow2(8);
  }

  // ---------- portable: byte_order_generic.h ----------

  lemma ShiftByNothing(v: int)
    ensures Shr(v, 0) == v
  {}

  method Int3storePortable(a: array<Byte>, t: nat, v: int)
    requires t + 3 <= a.Length
    modifies a
    ensures a[..] == Stored(old(a[..]), t, 3, v)
  {
    ghost var s := a[..];
    a[t] := UChar(v);
    a[t + 1] := UChar(Shr(v, 8));
    a[t + 2] := UChar(Shr(v, 16));
    ShiftByNothing(v);
    BytesAreStored(s, a[..], t, 3, v);
  }

  method Int4storePortable(a: array<Byte>, t: nat, v: int)
    requires t + 4 <= a.Length
    modifies a
    ensures a[..] == Stored(old(a[..]), t, 4, v)
  {
    ghost var s := a[..];
    a[t] := UChar(v);
    a[t + 1] := UChar(Shr(v, 8));
    a[t + 2] := UChar(Shr(v, 16));
    a[t + 3] := UChar(Shr(v, 24));
    ShiftByNothing(v);
    BytesAreStored(s, a[..], t, 4, v);
  }

  method Int5storePortable(a: array<Byte>, t: nat, v: int)
    requires t + 5 <= a.Length
    modifies a
    ensures a[..] == Stored(old(a[..]), t, 5, v)
  {
    ghost var s := a[..];
    a[t] := UChar(v);
    a[t + 1] := UChar(Shr(v, 8));
    a[t + 2] := UChar(Shr(v, 16));
    a[t + 3] := UChar(Shr(v, 24));
    a[t + 4] := UChar(Shr(v, 32));
    ShiftByNothing(v);
    BytesAreStored(s, a[..], t, 5, v);
  }

  method Int6storePortable(a: array<Byte>, t: nat, v: int)
    requires t + 6 <= a.Length
    modifies a
    ensures a[..] == Stored(old(a[..]), t, 6, v)
  {
    ghost var s := a[..];
    a[t] := UChar(v);
    a[t + 1] := UChar(Shr(v, 8));
    a[t + 2] := UChar(Shr(v, 16));
    a[t + 3] := UChar(Shr(v, 24));
    a[t + 4] := UChar(Shr(v, 32));
    a[t + 5] := UChar(Shr(v, 40));
    ShiftByNothing(v);
    BytesAreStored(s, a[..], t, 6, v);
  }

  method Int2storePortable(a: array<Byte>, t: nat, v: int)
    requires t + 2 <= a.Length
    modifies a
    ensures a[..] == Stored(old(a[..]), t, 2, v)
  {
    var temp := v % Pow2(32);
    a[t] := UChar(temp);
    a[t + 1] := UChar(Shr(temp, 8));
    ghost var s := old(a[..]);
    Powers();
    assert Shr(temp, 0) == temp;
    BytesAreStored(s, a[..], t, 2, temp);
    EncodeOfWord(v);
  }

  /** The low bytes of a value are those of its 32-bit conversion. */
  lemma EncodeOfWord(v: int)
    ensures Encode(v % Pow2(32), 2) == Encode(v, 2)
    ensures Encode(v % Pow2(32), 4) == Encode(v, 4)
  {
    Powers();
    EncodeMod(v, 4);
    EncodeSplit(v, 2, 2);
    EncodeSplit(v % Pow2(32), 2, 2);
    assert Encode(v, 4)[..2] == Encode(v, 2);
    assert Encode(v % Pow2(32), 4)[..2] == Encode(v % Pow2(32), 2);
  }

  method Int8storePortable(a: array<Byte>, t: nat, v: int)
    requires t + 8 <= a.Length
    modifies a
    ensures a[..] == Stored(old(a[..]), t, 8, v)
  {
    var temp, temp2 := v % Pow2(32), Shr(v, 32) % Pow2(32);
    Int4storePortable(a, t, temp);
    Int4storePortable(a, t + 4, temp2);
    ghost var s := old(a[..]);
    Powers();
    StoredMod(s, t, 4, v);
    StoredMod(Stored(s, t, 4, v), t + 4, 4, Shr(v, 32));
    StoredTwice(s, t, 4, 4, v);
  }

  // ---------- fast: byte_order_generic_x86_64.h ----------

  /** An x86 store of a word of `n` bytes. */
  method StoreWord(a: array<Byte>, t: nat, n: nat, word: nat)
    requires t + n <= a.Length
    modifies a
    ensures a[..] == Stored(old(a[..]), t, n, word)
  {
    var bytes := Encode(word, n);
    for i := 0 to n
      invariant forall j :: 0 <= j < i ==> a[t + j] == bytes[j]
      invariant forall j :: 0 <= j < t || t + i <= j < a.Length ==> a[j] == old(a[j])
    {
      a[t + i] := bytes[i];
    }
    assert a[..] == old(a[..])[..t] + bytes + old(a[..])[t + n..];
  }

  method Int2storeFast(a: array<Byte>, t: nat, v: int)
    requires t + 2 <= a.Length
    modifies a
    ensures a[..] == Stored(old(a[..]), t, 2, v)
  {
    Powers();
    StoredMod(a[..], t, 2, v);
    StoreWord(a, t, 2, v % Pow2(16));
  }

  method Int3storeFast(a: array<Byte>, t: nat, v: int)
    requires t + 3 <= a.Length
    modifies a
    ensures a[..] == Stored(old(a[..]), t, 3, v)
  {
    a[t] := UChar(v);
    a[t + 1] := UChar(Shr(v % Pow2(32), 8));
    a[t + 2] := UChar(Shr(v, 16));
    Powers();
    assert Shr(v, 0) == v;
    ByteOfWord(v);
    BytesAreStored(old(a[..]), a[..], t, 3, v);
  }

  lemma ByteOfWord(v: int)
    ensures UChar(Shr(v % Pow2(32), 8)) == UChar(Shr(v, 8))
  {
    EncodeOfWord(v);
    ByteIs(v, 2, 1);
    ByteIs(v % Pow2(32), 2, 1);
  }

  method Int4storeFast(a: array<Byte>, t: nat, v: int)
    requires t + 4 <= a.Length
    modifies a
    ensures a[..] == Stored(old(a[..]), t, 4, v)
  {
    Powers();
    StoredMod(a[..], t, 4, v);
    StoreWord(a, t, 4, v % Pow2(32));
  }

  method Int5storeFast(a: array<Byte>, t: nat, v: int)
    requires t + 5 <= a.Length
    modifies a
    ensures a[..] == Stored(old(a[..]), t, 5, v)
  {
    ghost var s := a[..];
    Int4storeFast(a, t, v);
    ghost var r := a[..];
    a[t + 4] := UChar(Shr(v, 32));
    ShiftByNothing(Shr(v, 32));
    BytesAreStored(r, a[..], t + 4, 1, Shr(v, 32));
    Powers();
    StoredTwice(s, t, 4, 1, v);
  }

  method Int6storeFast(a: array<Byte>, t: nat, v: int)
    requires t + 6 <= a.Length
    modifies a
    ensures a[..] == Stored(old(a[..]), t, 6, v)
  {
    ghost var s := a[..];
    Int4storeFast(a, t, v);
    Int2storeFast(a, t + 4, Shr(v, 32));
    Powers();
    StoredTwice(s, t, 4, 2, v);
  }

  method Int8storeFast(a: array<Byte>, t: nat, v: int)
    requires t + 8 <= a.Length
    modifies a
    ensures a[..] == Stored(old(a[..]), t, 8, v)
  {
    Powers();
    StoredMod(a[..], t, 8, v);
    StoreWord(a, t, 8, v % Pow2(64));
  }

  // ---------- store, then load ----------

  lemma StoredBytes(s: seq<Byte>, t: nat, n: nat, v: int)
    requires t + n <= |s|
    ensures Stored(s, t, n, v)[t..t + n] == Encode(v, n)
  {}

  /** For every memory, offset and value in range, every unsigned decoder returns what the store of its size wrote,
      in the portable and in the fast form. */
  lemma LoadAfterStore(s: seq<Byte>, t: nat, v: nat)
    ensures t + 2 <= |s| && v < Pow256(2) ==>
              Uint2korrPortable(Stored(s, t, 2, v)[t..]) == Load(Stored(s, t, 2, v), t, 2) == v
    ensures t + 3 <= |s| && v < Pow256(3) ==> Uint3korrPortable(Stored(s, t, 3, v)[t..]) == v
    ensures t + 4 <= |s| && v < Pow256(4) ==>
              Uint4korrPortable(Stored(s, t, 4, v)[t..]) == Load(Stored(s, t, 4, v), t, 4) == v
    ensures t + 5 <= |s| && v < Pow256(5) ==>
              Uint5korrPortable(Stored(s, t, 5, v)[t..]) == Uint5korrFast(Stored(s, t, 5, v)[t..]) == v
    ensures t + 6 <= |s| && v < Pow256(6) ==>
              Uint6korrPortable(Stored(s, t, 6, v)[t..]) == Uint6korrFast(Stored(s, t, 6, v)[t..]) == v
    ensures t + 8 <= |s| && v < Pow256(8) ==>
              Uint8korrPortable(Stored(s, t, 8, v)[t..]) == Load(Stored(s, t, 8, v), t, 8) == v
  {
    hide Pow256, Uint2korrPortable, Uint3korrPortable, Uint4korrPortable, Uint5korrPortable, Uint6korrPortable;
    hide Uint8korrPortable;
    hide Uint5korrFast, Uint6korrFast, LE;
    if t + 2 <= |s| && v < Pow256(2) { ReadsBack(s, t, 2, v); }
    if t + 3 <= |s| && v < Pow256(3) { ReadsBack(s, t, 3, v); }
    if t + 4 <= |s| && v < Pow256(4) { ReadsBack(s, t, 4, v); }
    if t + 5 <= |s| && v < Pow256(5) { ReadsBack(s, t, 5, v); }
    if t + 6 <= |s| && v < Pow256(6) { ReadsBack(s, t, 6, v); }
    if t + 8 <= |s| && v < Pow256(8) { ReadsBack(s, t, 8, v); }
  }

  lemma ReadsBack(s: seq<Byte>, t: nat, n: nat, v: nat)
    requires t + n <= |s| && v < Pow256(n)
    ensures var r := Stored(s, t, n, v)[t..];
            LE(r[..n]) == v == Load(Stored(s, t, n, v), t, n) &&
            (n == 2 ==> Uint2korrPortable(r) == v) && (n == 3 ==> Uint3korrPortable(r) == v) &&
            (n == 4 ==> Uint4korrPortable(r) == v) && (n == 5 ==> Uint5korrPortable(r) == Uint5korrFast(r) == v) &&
            (n == 6 ==> Uint6korrPortable(r) == Uint6korrFast(r) == v) && (n == 8 ==> Uint8korrPortable(r) == v)
  {
    hide Pow256, Uint2korrPortable, Uint3korrPortable, Uint4korrPortable, Uint5korrPortable, Uint6korrPortable;
    hide Uint8korrPortable;
    hide Uint5korrFast, Uint6korrFast, LE, Encode;
    StoredBytes(s, t, n, v);
    var r := Stored(s, t, n, v)[t..];
    assert r[..n] == Encode(v, n);
    DecodeEncode(v, n);
    ModUnique(v, 0, Pow256(n), v);
    UnsignedDecodersAgree(r);
  }

  lemma WordReadsBack(s: seq<Byte>, t: nat, n: nat, v: int)
    requires t + n <= |s|
    ensures LE(Stored(s, t, n, v)[t..][..n]) == v % Pow256(n)
  {
    hide Pow256, LE, Encode;
    StoredBytes(s, t, n, v);
    assert Stored(s, t, n, v)[t..][..n] == Encode(v, n);
    DecodeEncode(v, n);
  }

  /** The same for signed values: every signed decoder returns every two's complement number that the store of its size
      wrote, at any offset; sint3korr is written alike in both headers. */
  lemma SignedLoadAfterStore(s: seq<Byte>, t: nat, v: int)
    ensures t + 2 <= |s| && FitsSigned(v, 2) ==>
              Sint2korrPortable(Stored(s, t, 2, v)[t..]) == SintKorrFast(2, Stored(s, t, 2, v)[t..]) == v
    ensures t + 3 <= |s| && FitsSigned(v, 3) ==> Sint3korr(Stored(s, t, 3, v)[t..]) == v
    ensures t + 4 <= |s| && FitsSigned(v, 4) ==>
              Sint4korrPortable(Stored(s, t, 4, v)[t..]) == SintKorrFast(4, Stored(s, t, 4, v)[t..]) == v
    ensures t + 8 <= |s| && FitsSigned(v, 8) ==>
              Sint8korrPortable(Stored(s, t, 8, v)[t..]) == SintKorrFast(8, Stored(s, t, 8, v)[t..]) == v
  {
    hide Pow256, LE, Encode, Signed, Sint3korr, Sint2korrPortable, Sint4korrPortable, Sint8korrPortable, FitsSigned;
    hide SintKorrFast;
    if t + 2 <= |s| && FitsSigned(v, 2) { SignedReadsBack(s, t, 2, v); }
    if t + 3 <= |s| && FitsSigned(v, 3) { SignedReadsBack(s, t, 3, v); }
    if t + 4 <= |s| && FitsSigned(v, 4) { SignedReadsBack(s, t, 4, v); }
    if t + 8 <= |s| && FitsSigned(v, 8) { SignedReadsBack(s, t, 8, v); }
  }

  lemma SignedReadsBack(s: seq<Byte>, t: nat, n: nat, v: int)
    requires 0 < n && t + n <= |s| && FitsSigned(v, n)
    ensures var r := Stored(s, t, n, v)[t..];
            (n == 2 ==> Sint2korrPortable(r) == SintKorrFast(2, r) == v) && (n == 3 ==> Sint3korr(r) == v) &&
            (n == 4 ==> Sint4korrPortable(r) == SintKorrFast(4, r) == v) &&
            (n == 8 ==> Sint8korrPortable(r) == SintKorrFast(8, r) == v)
  {
    hide Pow256, LE, Encode, Signed, Sint3korr, Sint2korrPortable, Sint4korrPortable, Sint8korrPortable, FitsSigned;
    hide SintKorrFast;
    var r := Stored(s, t, n, v)[t..];
    WordReadsBack(s, t, n, v);
    SignedOfMod(v, n);
    SignedDecodersAgree(r);
    if n == 3 { Sint3korrIsSigned24(r); }
  }
}
