/** my_uuid2str of mariadb-10.11.2-winx64/include/mysql/server/my_sys.h: sixteen bytes as lower-case hexadecimal text in
    the layout of section 4 of RFC 9562. */
module Uuid {
  import opened Basics
  import opened Bits
  import opened ByteOrder
  import opened Korr

  const UUID_SIZE := 16
  const DIG_VEC_LOWER := "0123456789abcdef"

  /** The sixteen digits: 0 to 9, then the small letters a to f. */
  lemma LowerDigit(n: nat)
    requires n < 16
    ensures |DIG_VEC_LOWER| == 16
    ensures n < 10 ==> DIG_VEC_LOWER[n] == '0' + n as char
    ensures n >= 10 ==> DIG_VEC_LOWER[n] == 'a' + (n - 10) as char
  {}

  function HexByte(b: Byte): (s: seq<char>)
    ensures |s| == 2
  {
    [DIG_VEC_LOWER[b / 16], DIG_VEC_LOWER[b % 16]]
  }

  /** A byte is written high digit first. */
  lemma HexByteDigits(b: Byte)
    ensures b < 0xa0 ==> HexByte(b)[0] == '0' + (b / 16) as char
    ensures b >= 0xa0 ==> HexByte(b)[0] == 'a' + (b / 16 - 10) as char
    ensures b % 16 < 10 ==> HexByte(b)[1] == '0' + (b % 16) as char
    ensures b % 16 >= 10 ==> HexByte(b)[1] == 'a' + (b % 16 - 10) as char
  {
    LowerDigit(b / 16);
    LowerDigit(b % 16);
  }

  function Hex(bs: seq<Byte>): (s: seq<char>)
    ensures |s| == 2 * |bs|
  {
    if bs == [] then [] else Hex(bs[..|bs| - 1]) + HexByte(bs[|bs| - 1])
  }

  /** The text: 8-4-4-4-12 digits, or 32 digits without separators. */
  function Layout(guid: seq<Byte>, withSeparators: bool): (s: seq<char>)
    requires |guid| == UUID_SIZE
    ensures |s| == if withSeparators then 36 else 32
  {
    if withSeparators
    then Hex(guid[..4]) + ['-'] + Hex(guid[4..6]) + ['-'] + Hex(guid[6..8]) + ['-'] + Hex(guid[8..10]) + ['-']
         + Hex(guid[10..])
    else Hex(guid)
  }

  // ---------- the separator mask ----------

  const SEPARATOR_MASK: nat := Or(Or(Or(Shl(32, 1, 3), Shl(32, 1, 5)), Shl(32, 1, 7)), Shl(32, 1, 9))

  lemma ShlOne(k: nat)
    requires k < 32
    ensures Shl(32, 1, k) == Pow2(k)
  {
    PowMonotone(k + 1, 32);
    assert Pow2(k + 1) == 2 * Pow2(k);
    AllBelow(Pow2(k), 32);
  }

  lemma OrBit(x: nat, k: nat)
    requires x < Pow2(k) && k < 32
    ensures Or(x, Shl(32, 1, k)) == x + Pow2(k)
  {
    ShlOne(k);
    OrDisjoint(x, 1, k);
    assert 1 * Pow2(k) == Pow2(k);
  }

  lemma FewPowers()
    ensures Pow2(3) == 8 && Pow2(5) == 32 && Pow2(7) == 128 && Pow2(9) == 512
  {
    assert Pow2(5) == 4 * Pow2(3);
    assert Pow2(7) == 4 * Pow2(5);
    assert Pow2(9) == 4 * Pow2(7);
  }

  lemma MaskValue()
    ensures SEPARATOR_MASK == 680
  {
    FewPowers();
    hide Or, Pow2, Shl;
    ShlOne(3);
    OrBit(8, 5);
    OrBit(40, 7);
    OrBit(168, 9);
  }

  /** The mask after `i` right shifts. */
  function MaskAt(i: nat): nat { if i == 0 then 680 else MaskAt(i - 1) / 2 }

  predicate SeparatorAfter(i: nat) { i == 3 || i == 5 || i == 7 || i == 9 }

  lemma {:induction false} MaskIsSpent(i: nat)
    requires i >= 10
    ensures MaskAt(i) == 0
  {
    if i > 10 {
      MaskIsSpent(i - 1);
    } else {
      MaskTable();
    }
  }

  lemma MaskTable()
    ensures MaskAt(1) == 340 && MaskAt(2) == 170 && MaskAt(3) == 85 && MaskAt(4) == 42 && MaskAt(5) == 21
    ensures MaskAt(6) == 10 && MaskAt(7) == 5 && MaskAt(8) == 2 && MaskAt(9) == 1 && MaskAt(10) == 0
  {
    assert MaskAt(1) == 340;
    assert MaskAt(2) == 170;
    assert MaskAt(3) == 85;
    assert MaskAt(4) == 42;
    assert MaskAt(5) == 21;
    assert MaskAt(6) == 10;
    assert MaskAt(7) == 5;
    assert MaskAt(8) == 2;
    assert MaskAt(9) == 1;
  }

  /** The lowest bit of the shifted mask marks exactly the bytes with a separator behind them. */
  lemma MaskBit(i: nat)
    ensures And(MaskAt(i), 1) != 0 <==> SeparatorAfter(i)
  {
    AndBit(MaskAt(i), 0);
    MaskTable();
    if i >= 10 {
      MaskIsSpent(i);
    }
  }

  // ---------- the loop ----------

  /** What the loop has written after `i` bytes. */
  function Written(guid: seq<Byte>, i: nat, withSeparators: bool): seq<char>
    requires i <= |guid|
  {
    if i == 0 then []
    else
      Written(guid, i - 1, withSeparators) + HexByte(guid[i - 1])
      + if withSeparators && SeparatorAfter(i - 1) then ['-'] else []
  }

  lemma WrittenStep(guid: seq<Byte>, i: nat, withSeparators: bool)
    requires i < |guid|
    ensures Written(guid, i + 1, withSeparators)
            == Written(guid, i, withSeparators) + HexByte(guid[i])
               + if withSeparators && SeparatorAfter(i) then ['-'] else []
  {}

  lemma HexStep(guid: seq<Byte>, i: nat, j: nat)
    requires i <= j < |guid|
    ensures Hex(guid[i..j + 1]) == Hex(guid[i..j]) + HexByte(guid[j])
  {
    assert guid[i..j + 1][..j - i] == guid[i..j];
  }

  lemma {:induction false} WrittenFrom(guid: seq<Byte>, i: nat, j: nat, withSeparators: bool)
    requires i <= j <= |guid|
    requires forall k :: i <= k < j ==> !(withSeparators && SeparatorAfter(k))
    ensures Written(guid, j, withSeparators) == Written(guid, i, withSeparators) + Hex(guid[i..j])
  {
    if i == j {
      assert guid[i..j] == [];
    } else {
      WrittenFrom(guid, i, j - 1, withSeparators);
      hide Written, Hex, HexByte;
      WrittenStep(guid, j - 1, withSeparators);
      HexStep(guid, i, j - 1);
      var w, h, b := Written(guid, i, withSeparators), Hex(guid[i..j - 1]), HexByte(guid[j - 1]);
      assert (w + h) + b + [] == w + (h + b);
    }
  }

  /** A group of bytes, closed by a separator. */
  lemma WrittenGroup(guid: seq<Byte>, i: nat, j: nat)
    requires i < j <= |guid| && SeparatorAfter(j - 1)
    requires forall k :: i <= k < j - 1 ==> !SeparatorAfter(k)
    ensures Written(guid, j, true) == Written(guid, i, true) + Hex(guid[i..j]) + ['-']
  {
    hide Written, Hex, HexByte;
    WrittenFrom(guid, i, j - 1, true);
    WrittenStep(guid, j - 1, true);
    HexStep(guid, i, j - 1);
    var w, h, b := Written(guid, i, true), Hex(guid[i..j - 1]), HexByte(guid[j - 1]);
    assert (w + h) + b + ['-'] == w + (h + b) + ['-'];
  }

  lemma WrittenIsLayout(guid: seq<Byte>, withSeparators: bool)
    requires |guid| == UUID_SIZE
    ensures Written(guid, UUID_SIZE, withSeparators) == Layout(guid, withSeparators)
  {
    hide Hex, Written, HexByte;
    NothingWritten(guid, withSeparators);
    if withSeparators {
      WrittenGroup(guid, 0, 4);
      WrittenGroup(guid, 4, 6);
      WrittenGroup(guid, 6, 8);
      WrittenGroup(guid, 8, 10);
      WrittenFrom(guid, 10, 16, true);
      assert guid[0..4] == guid[..4] && guid[10..16] == guid[10..];
      assert [] + Hex(guid[..4]) == Hex(guid[..4]);
    } else {
      WrittenFrom(guid, 0, 16, false);
      assert guid[0..16] == guid && [] + Hex(guid) == Hex(guid);
    }
  }

  lemma NothingWritten(guid: seq<Byte>, withSeparators: bool)
    ensures Written(guid, 0, withSeparators) == []
  {}

  lemma {:induction false} WrittenFits(guid: seq<Byte>, i: nat, j: nat, withSeparators: bool)
    requires i <= j <= |guid|
    ensures |Written(guid, i, withSeparators)| <= |Written(guid, j, withSeparators)|
    decreases j - i
  {
    if i < j {
      WrittenFits(guid, i + 1, j, withSeparators);
      hide Written;
      WrittenStep(guid, i, withSeparators);
    }
  }

  /** The memory `s` with the text `w` written at its start. */
  function Memory(s: seq<char>, w: seq<char>): (r: seq<char>)
    requires |w| <= |s|
    ensures |r| == |s|
  {
    w + s[|w|..]
  }

  lemma MemoryPut(s: seq<char>, w: seq<char>, c: char)
    requires |w| < |s|
    ensures Memory(s, w)[|w| := c] == Memory(s, w + [c])
  {}

  /** `*s++ = c`. */
  method Put(s: array<char>, p: nat, c: char, ghost before: seq<char>, ghost w: seq<char>) returns (next: nat)
    requires p == |w| < |before| == s.Length && s[..] == Memory(before, w)
    modifies s
    ensures next == p + 1 && s[..] == Memory(before, w + [c])
  {
    MemoryPut(before, w, c);
    s[p] := c;
    next := p + 1;
  }

  /** One turn of the loop: two digits, and a dash when the lowest bit of the mask is set. */
  method PutByte(guid: seq<Byte>, i: nat, withSeparators: bool, mask: nat, s: array<char>, p: nat,
                 ghost before: seq<char>) returns (next: nat)
    requires i < |guid| == UUID_SIZE && mask == if withSeparators then MaskAt(i) else 0
    requires p == |Written(guid, i, withSeparators)| <= s.Length == |before|
    requires |Written(guid, UUID_SIZE, withSeparators)| <= s.Length
    requires s[..] == Memory(before, Written(guid, i, withSeparators))
    modifies s
    ensures next == |Written(guid, i + 1, withSeparators)| <= s.Length
    ensures s[..] == Memory(before, Written(guid, i + 1, withSeparators))
  {
    hide Written, Memory, And, MaskAt, Hex, HexByte, Layout, SeparatorAfter;
    ghost var w := Written(guid, i, withSeparators);
    var d, e := DIG_VEC_LOWER[guid[i] / 16], DIG_VEC_LOWER[guid[i] % 16];
    OneByte(guid, i, withSeparators, mask, d, e);
    next := Put(s, p, d, before, w);
    next := Put(s, next, e, before, w + [d]);
    if And(mask, 1) != 0 {
      next := Put(s, next, '-', before, w + [d] + [e]);
    }
  }

  method MyUuid2str(guid: seq<Byte>, s: array<char>, withSeparators: bool)
    requires |guid| == UUID_SIZE && s.Length >= |Layout(guid, withSeparators)|
    modifies s
    ensures s[..] == Memory(old(s[..]), Layout(guid, withSeparators))
  {
    ghost var before := s[..];
    WrittenIsLayout(guid, withSeparators);
    MaskValue();
    MaskStarts();
    NothingWritten(guid, withSeparators);
    NothingInMemory(before);
    hide *;
    var p: nat := 0;
    var mask: nat := if withSeparators then SEPARATOR_MASK else 0;
    for i := 0 to UUID_SIZE
      invariant mask == if withSeparators then MaskAt(i) else 0
      invariant p == |Written(guid, i, withSeparators)| <= s.Length
      invariant s[..] == Memory(before, Written(guid, i, withSeparators))
    {
      p := PutByte(guid, i, withSeparators, mask, s, p, before);
      MaskStep(i);
      mask := mask / 2;
    }
  }

  lemma MaskStarts()
    ensures MaskAt(0) == 680
  {}

  lemma NothingInMemory(s: seq<char>)
    ensures Memory(s, []) == s
  {}

  /** What one turn of the loop has to write, and how the mask moves. */
  lemma OneByte(guid: seq<Byte>, i: nat, withSeparators: bool, mask: nat, d: char, e: char)
    requires i < |guid| == UUID_SIZE && mask == if withSeparators then MaskAt(i) else 0
    requires d == DIG_VEC_LOWER[guid[i] / 16] && e == DIG_VEC_LOWER[guid[i] % 16]
    ensures And(mask, 1) != 0 ==>
              Written(guid, i + 1, withSeparators) == Written(guid, i, withSeparators) + [d] + [e] + ['-']
    ensures And(mask, 1) == 0 ==> Written(guid, i + 1, withSeparators) == Written(guid, i, withSeparators) + [d] + [e]
    ensures |Written(guid, i + 1, withSeparators)| <= |Written(guid, UUID_SIZE, withSeparators)|
    ensures mask / 2 == if withSeparators then MaskAt(i + 1) else 0
  {
    hide Written, And, MaskAt, SeparatorAfter;
    WrittenFits(guid, i + 1, UUID_SIZE, withSeparators);
    WrittenStep(guid, i, withSeparators);
    MaskBit(i);
    AndZeroLeft(1);
    MaskStep(i);
    HexByteIs(guid[i], Written(guid, i, withSeparators));
  }

  lemma HexByteIs(b: Byte, w: seq<char>)
    ensures w + [DIG_VEC_LOWER[b / 16]] + [DIG_VEC_LOWER[b % 16]] == w + HexByte(b)
    ensures w + HexByte(b) + [] == w + HexByte(b)
  {}

  lemma MaskStep(i: nat)
    ensures MaskAt(i + 1) == MaskAt(i) / 2
  {}

  lemma AndZeroLeft(x: nat)
    ensures And(0, x) == 0
  {}

  // ---------- reading it back ----------

  function DigitOf(c: char): Byte {
    if '0' <= c <= '9' then c as int - '0' as int else if 'a' <= c <= 'f' then c as int - 'a' as int + 10 else 0
  }

  /** The bytes that pairs of digits write; an odd last character is ignored. */
  function Unhex(s: seq<char>): seq<Byte> {
    if |s| < 2 then [] else [DigitOf(s[0]) * 16 % 256 + DigitOf(s[1]) % 16] + Unhex(s[2..])
  }

  function NoDashes(s: seq<char>): seq<char> { Filter(s, NotDash) }

  predicate NotDash(c: char) { c != '-' }

  function Decode(s: seq<char>): seq<Byte> { Unhex(NoDashes(s)) }

  lemma DigitRoundTrip(n: nat)
    requires n < 16
    ensures DigitOf(DIG_VEC_LOWER[n]) == n && NotDash(DIG_VEC_LOWER[n])
  {}

  lemma {:induction false} UnhexAppend(s: seq<char>, t: seq<char>)
    requires |s| % 2 == 0
    ensures Unhex(s + t) == Unhex(s) + Unhex(t)
  {
    if s == [] {
      assert s + t == t;
    } else {
      assert (s + t)[2..] == s[2..] + t;
      UnhexAppend(s[2..], t);
    }
  }

  lemma UnhexByte(b: Byte)
    ensures Unhex(HexByte(b)) == [b]
    ensures NoDashes(HexByte(b)) == HexByte(b)
  {
    DigitRoundTrip(b / 16);
    DigitRoundTrip(b % 16);
    assert HexByte(b)[2..] == [];
    FilterAll(HexByte(b), NotDash);
  }

  lemma {:induction false} UnhexHex(bs: seq<Byte>)
    ensures Unhex(Hex(bs)) == bs
    ensures NoDashes(Hex(bs)) == Hex(bs)
  {
    if bs != [] {
      var n := |bs| - 1;
      UnhexHex(bs[..n]);
      UnhexByte(bs[n]);
      assert Hex(bs) == Hex(bs[..n]) + HexByte(bs[n]) && bs == bs[..n] + [bs[n]];
      hide Hex, HexByte, Unhex, Filter;
      UnhexAppend(Hex(bs[..n]), HexByte(bs[n]));
      FilterAppend(Hex(bs[..n]), HexByte(bs[n]), NotDash);
    }
  }

  lemma NoDashesInGroups(a: seq<char>, b: seq<char>)
    requires NoDashes(b) == b
    ensures NoDashes(a + ['-'] + b) == NoDashes(a) + b
  {
    FilterAppend(a + ['-'], b, NotDash);
    FilterSnoc(a, '-', NotDash);
  }

  lemma {:induction false} HexAppend(a: seq<Byte>, b: seq<Byte>)
    ensures Hex(a + b) == Hex(a) + Hex(b)
  {
    if b == [] {
      assert a + b == a;
      assert Hex(a) + [] == Hex(a);
    } else {
      var u, c := b[..|b| - 1], b[|b| - 1];
      assert (a + b)[..|a + b| - 1] == a + u;
      HexAppend(a, u);
      assert Hex(a) + Hex(u) + HexByte(c) == Hex(a) + (Hex(u) + HexByte(c));
    }
  }

  lemma FiveGroups(guid: seq<Byte>)
    requires |guid| == UUID_SIZE
    ensures Hex(guid[..4]) + Hex(guid[4..6]) + Hex(guid[6..8]) + Hex(guid[8..10]) + Hex(guid[10..]) == Hex(guid)
  {
    hide Hex;
    HexAppend(guid[..4], guid[4..6]);
    assert guid[..4] + guid[4..6] == guid[..6];
    HexAppend(guid[..6], guid[6..8]);
    assert guid[..6] + guid[6..8] == guid[..8];
    HexAppend(guid[..8], guid[8..10]);
    assert guid[..8] + guid[8..10] == guid[..10];
    HexAppend(guid[..10], guid[10..]);
    assert guid[..10] + guid[10..] == guid;
  }

  lemma DashesDropped(guid: seq<Byte>)
    requires |guid| == UUID_SIZE
    ensures NoDashes(Layout(guid, true)) == Hex(guid)
  {
    hide Hex, NoDashes;
    var a, b, c, d, e := Hex(guid[..4]), Hex(guid[4..6]), Hex(guid[6..8]), Hex(guid[8..10]), Hex(guid[10..]);
    UnhexHex(guid[..4]);
    UnhexHex(guid[4..6]);
    UnhexHex(guid[6..8]);
    UnhexHex(guid[8..10]);
    UnhexHex(guid[10..]);
    NoDashesInGroups(a, b);
    NoDashesInGroups(a + ['-'] + b, c);
    NoDashesInGroups(a + ['-'] + b + ['-'] + c, d);
    NoDashesInGroups(a + ['-'] + b + ['-'] + c + ['-'] + d, e);
    FiveGroups(guid);
  }

  /** Reading the text back gives the sixteen bytes, in both forms. */
  lemma DecodeLayout(guid: seq<Byte>, withSeparators: bool)
    requires |guid| == UUID_SIZE
    ensures Decode(Layout(guid, withSeparators)) == guid
  {
    UnhexHex(guid);
    if withSeparators {
      DashesDropped(guid);
    }
  }

  /** The text determines the bytes. */
  lemma LayoutInjective(g: seq<Byte>, h: seq<Byte>, withSeparators: bool)
    requires |g| == UUID_SIZE == |h| && Layout(g, withSeparators) == Layout(h, withSeparators)
    ensures g == h
  {
    hide Layout, Decode;
    DecodeLayout(g, withSeparators);
    DecodeLayout(h, withSeparators);
  }

  /** The separated text has its dashes at positions 8, 13, 18 and 23 and nowhere else. */
  lemma DashPositions(guid: seq<Byte>, i: nat)
    requires |guid| == UUID_SIZE && i < 36
    ensures Layout(guid, true)[i] == '-' <==> i == 8 || i == 13 || i == 18 || i == 23
  {
    hide Hex;
    NoDashInHex(guid[..4]);
    NoDashInHex(guid[4..6]);
    NoDashInHex(guid[6..8]);
    NoDashInHex(guid[8..10]);
    NoDashInHex(guid[10..]);
  }

  lemma {:induction false} NoDashInHex(bs: seq<Byte>)
    ensures forall i :: 0 <= i < |Hex(bs)| ==> Hex(bs)[i] != '-'
  {
    if bs != [] {
      NoDashInHex(bs[..|bs| - 1]);
      DigitRoundTrip(bs[|bs| - 1] / 16);
      DigitRoundTrip(bs[|bs| - 1] % 16);
    }
  }
}
