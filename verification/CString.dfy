/** The bounded copy and append of mariadb-10.11.2-winx64/include/mysql/server/m_string.h. A C string is a text without
    NUL, stored with one NUL behind it. */
module CString {

  const NUL: char := '\0'

  lemma NulIsZero()
    ensures NUL as int == 0
  {}

  predicate IsText(s: seq<char>) { NUL !in s }

  function Take(s: seq<char>, n: nat): seq<char> { if |s| <= n then s else s[..n] }

  function Nuls(n: nat): (s: seq<char>)
    ensures |s| == n && forall i :: 0 <= i < n ==> s[i] == NUL
  {
    seq(n, _ => NUL)
  }

  /** The `n` characters that a copy leaves: as much of the source as fits before a NUL, and NULs to the end. */
  function Padded(src: seq<char>, n: nat): (s: seq<char>)
    requires n > 0
    ensures |s| == n
  {
    Take(src, n - 1) + Nuls(n - |Take(src, n - 1)|)
  }

  /** The memory `s` with `t` written over it at `d`. */
  function Over(s: seq<char>, d: nat, t: seq<char>): (r: seq<char>)
    requires d + |t| <= |s|
    ensures |r| == |s|
  {
    s[..d] + t + s[d + |t|..]
  }

  lemma OverSnoc(s: seq<char>, d: nat, t: seq<char>, x: char)
    requires d + |t| < |s|
    ensures Over(s, d, t)[d + |t| := x] == Over(s, d, t + [x])
  {}

  /** memset to NUL. */
  method Memset(dst: array<char>, d: nat, n: nat)
    requires d + n <= dst.Length
    modifies dst
    ensures dst[..] == Over(old(dst[..]), d, Nuls(n))
  {
    for i := 0 to n
      invariant dst[..] == Over(old(dst[..]), d, Nuls(i))
    {
      OverSnoc(old(dst[..]), d, Nuls(i), NUL);
      assert Nuls(i) + [NUL] == Nuls(i + 1);
      dst[d + i] := NUL;
    }
  }

  /** The first `n` characters of the source, followed by NULs where it has ended. */
  function Copied(src: seq<char>, n: nat): (s: seq<char>)
    ensures |s| == n
  {
    Take(src, n) + Nuls(n - |Take(src, n)|)
  }

  lemma CopiedSnoc(src: seq<char>, i: nat)
    ensures Copied(src, i + 1) == Copied(src, i) + [if i < |src| then src[i] else NUL]
  {}

  lemma CopiedStep(s: seq<char>, d: nat, src: seq<char>, i: nat)
    requires d + i < |s|
    ensures Over(s, d, Copied(src, i))[d + i := if i < |src| then src[i] else NUL] == Over(s, d, Copied(src, i + 1))
  {
    hide Over, Copied;
    OverSnoc(s, d, Copied(src, i), if i < |src| then src[i] else NUL);
    CopiedSnoc(src, i);
  }

  lemma NothingCopied(s: seq<char>, d: nat, src: seq<char>)
    requires d <= |s|
    ensures Over(s, d, Copied(src, 0)) == s
  {
    assert Copied(src, 0) == [];
  }

  /** strncpy: the source's characters while there are any, then NULs, `n` in all. */
  method Strncpy(dst: array<char>, d: nat, src: seq<char>, n: nat)
    requires d + n <= dst.Length
    modifies dst
    ensures dst[..] == Over(old(dst[..]), d, Copied(src, n))
  {
    ghost var s := dst[..];
    hide *;
    NothingCopied(s, d, src);
    for i := 0 to n
      invariant dst[..] == Over(s, d, Copied(src, i))
    {
      CopiedStep(s, d, src, i);
      dst[d + i] := if i < |src| then src[i] else NUL;
    }
  }

  /** safe_strcpy. It reads `dst[dst_size - 2]`, so for a size of one, which its comment allows, the character in front
      of the buffer decides; there has to be one. The flag is 1 exactly when the source does not fit, if and only if the
      size is two or more, the source is empty, or that character is no NUL. The read of `src[dst_size - 1]` is always
      inside the source. */
  method SafeStrcpy(dst: array<char>, d: nat, dstSize: nat, src: seq<char>) returns (truncated: int)
    requires 1 <= dstSize && (dstSize == 1 ==> d > 0)
    requires d + dstSize <= dst.Length && IsText(src)
    modifies dst
    ensures dst[..] == Over(old(dst[..]), d, Padded(src, dstSize))
    ensures truncated == 0 || truncated == 1
    ensures dstSize >= 2 ==> (truncated == 1 <==> |src| > dstSize - 1)
    ensures (truncated == 1 <==> |src| > dstSize - 1) <==>
            dstSize >= 2 || src == [] || old(dst[..])[d - 1] != NUL
  {
    Memset(dst, d, dstSize);
    Strncpy(dst, d, src, dstSize - 1);
    PaddedFromParts(old(dst[..]), d, src, dstSize);
    var memory := src + [NUL];
    BeforeLast(old(dst[..]), d, src, dstSize);
    assert dst[d + dstSize - 2] == dst[..][d + dstSize - 2];
    if dst[d + dstSize - 2] != NUL && memory[dstSize - 1] != NUL {
      return 1;
    }
    return 0;
  }

  /** The last character but one that a copy can fill, or the one in front of a buffer of size one. */
  lemma BeforeLast(s: seq<char>, d: nat, src: seq<char>, n: nat)
    requires n >= 1 && (n == 1 ==> d > 0) && d + n <= |s| && IsText(src)
    ensures var x := Over(s, d, Padded(src, n))[d + n - 2];
            if n == 1 then x == s[d - 1] else x != NUL <==> |src| >= n - 1
    ensures |src| >= n ==> src[n - 1] != NUL
  {
    if n >= 2 {
      assert Over(s, d, Padded(src, n))[d + n - 2] == Padded(src, n)[n - 2];
    }
  }

  lemma PaddedFromParts(s: seq<char>, d: nat, src: seq<char>, n: nat)
    requires n >= 1 && d + n <= |s|
    ensures Over(Over(s, d, Nuls(n)), d, Copied(src, n - 1)) == Over(s, d, Padded(src, n))
  {}

  // ---------- append ----------

  /** The text in a terminated buffer. */
  function Contents(s: seq<char>): (t: seq<char>)
    requires NUL in s
    ensures |t| < |s| && t == s[..|t|] && s[|t|] == NUL && IsText(t)
  {
    if s[0] == NUL then [] else [s[0]] + Contents(s[1..])
  }

  lemma {:induction false} ContentsOf(t: seq<char>, rest: seq<char>)
    requires IsText(t)
    ensures NUL in t + [NUL] + rest
    ensures Contents(t + [NUL] + rest) == t
  {
    var s := t + [NUL] + rest;
    assert s[|t|] == NUL;
    if t != [] {
      assert s[1..] == t[1..] + [NUL] + rest;
      ContentsOf(t[1..], rest);
    }
  }

  /** What one append makes of the text `c` in a buffer of `n` characters. */
  function AfterCat(c: seq<char>, n: nat, src: seq<char>): seq<char>
    requires n > 0
  {
    if |c| >= n - 1 then c else Take(c + src, n - 1)
  }

  /** Its flag: also 1 when the buffer was full already, even for an empty source. */
  predicate CatFlag(c: seq<char>, n: nat, src: seq<char>)
    requires n > 0
  {
    |c| >= n - 1 || |c| + |src| > n - 1
  }

  lemma PaddedSplit(c: seq<char>, src: seq<char>, m: nat)
    requires m > 0
    ensures |Take(src, m - 1)| < m
    ensures c + Padded(src, m) == (c + Take(src, m - 1)) + [NUL] + Nuls(m - |Take(src, m - 1)| - 1)
  {
    TakeIsShort(src, m - 1);
    hide Take, Nuls;
    var u := Take(src, m - 1);
    FirstNul(m - |u|);
    Regroup(c, u, [NUL], Nuls(m - |u| - 1));
  }

  lemma PaddedContents(c: seq<char>, src: seq<char>, n: nat)
    requires |c| + 2 <= n && IsText(c) && IsText(src)
    ensures NUL in c + Padded(src, n - |c|)
    ensures Contents(c + Padded(src, n - |c|)) == AfterCat(c, n, src)
  {
    hide *;
    var m := n - |c|;
    PaddedSplit(c, src, m);
    TakeIsShort(src, m - 1);
    JoinedText(c, Take(src, m - 1));
    ContentsOf(c + Take(src, m - 1), Nuls(m - |Take(src, m - 1)| - 1));
    AfterCatSplit(c, src, n);
  }

  lemma AfterCatSplit(c: seq<char>, src: seq<char>, n: nat)
    requires |c| + 2 <= n
    ensures AfterCat(c, n, src) == c + Take(src, n - |c| - 1)
  {
    TakeBehind(c, src, n);
  }

  lemma TakeIsShort(s: seq<char>, n: nat)
    ensures |Take(s, n)| <= n && (IsText(s) ==> IsText(Take(s, n)))
  {}

  lemma FirstNul(n: nat)
    requires n > 0
    ensures Nuls(n) == [NUL] + Nuls(n - 1)
  {}

  lemma JoinedText(a: seq<char>, b: seq<char>)
    requires IsText(a) && IsText(b)
    ensures IsText(a + b)
  {}

  lemma Regroup(a: seq<char>, b: seq<char>, c: seq<char>, d: seq<char>)
    ensures a + (b + (c + d)) == (a + b) + c + d
  {}

  lemma TakeBehind(c: seq<char>, src: seq<char>, n: nat)
    requires |c| <= n - 1
    ensures Take(c + src, n - 1) == c + Take(src, n - 1 - |c|)
  {}

  /** strlen of the buffer. */
  method Strlen(dst: array<char>, n: nat) returns (len: nat)
    requires n <= dst.Length && NUL in dst[..n]
    ensures len == |Contents(dst[..n])|
  {
    ghost var s := dst[..n];
    ghost var c := Contents(s);
    len := 0;
    while dst[len] != NUL
      invariant 0 <= len <= |c|
      decreases |c| - len
    {
      assert s[len] == dst[len];
      len := len + 1;
    }
    NoNulBefore(s, len);
  }

  lemma NoNulBefore(s: seq<char>, i: nat)
    requires NUL in s && i <= |Contents(s)| && s[i] == NUL
    ensures i == |Contents(s)|
  {
    var c := Contents(s);
    assert forall j :: 0 <= j < |c| ==> s[j] == c[j];
  }

  /** safe_strcat. The inner copy always gets room for at least two characters. */
  method SafeStrcat(dst: array<char>, dstSize: nat, src: seq<char>) returns (truncated: int)
    requires 1 <= dstSize <= dst.Length && NUL in dst[..dstSize] && IsText(src)
    modifies dst
    ensures NUL in dst[..dstSize]
    ensures Contents(dst[..dstSize]) == AfterCat(old(Contents(dst[..dstSize])), dstSize, src)
    ensures truncated == if CatFlag(old(Contents(dst[..dstSize])), dstSize, src) then 1 else 0
    ensures dst[dstSize..] == old(dst[dstSize..])
  {
    ghost var s := dst[..];
    ghost var c := Contents(dst[..dstSize]);
    assert s[..dstSize] == dst[..dstSize];
    var initLen := Strlen(dst, dstSize);
    hide Contents, Over, Padded, IsText;
    if initLen >= dstSize - 1 {
      return 1;
    }
    truncated := SafeStrcpy(dst, initLen, dstSize - initLen, src);
    assert s[..dstSize][..|c|] == s[..|c|];
    CatSplits(s, c, dstSize, src);
    assert s[dstSize..] == old(dst[dstSize..]);
    assert dst[..][..dstSize] == dst[..dstSize] && dst[..][dstSize..] == dst[dstSize..];
  }

  /** What the inner copy leaves of the buffer and behind it. */
  lemma CatSplits(s: seq<char>, c: seq<char>, n: nat, src: seq<char>)
    requires |c| + 2 <= n <= |s| && s[..|c|] == c && IsText(c) && IsText(src)
    ensures var t := Over(s, |c|, Padded(src, n - |c|));
            NUL in t[..n] && Contents(t[..n]) == AfterCat(c, n, src) && t[n..] == s[n..]
  {
    hide *;
    PaddedContents(c, src, n);
    OverTail(s, |c|, Padded(src, n - |c|));
  }

  lemma OverTail(s: seq<char>, d: nat, t: seq<char>)
    requires d + |t| <= |s|
    ensures Over(s, d, t)[..d + |t|] == s[..d] + t
    ensures Over(s, d, t)[d + |t|..] == s[d + |t|..]
  {}

  // ---------- sequences of appends ----------

  function Concat(srcs: seq<seq<char>>): seq<char> {
    if srcs == [] then [] else Concat(srcs[..|srcs| - 1]) + srcs[|srcs| - 1]
  }

  /** The text after appending every source in turn. */
  function CatAll(c: seq<char>, n: nat, srcs: seq<seq<char>>): seq<char>
    requires n > 0
  {
    if srcs == [] then c else AfterCat(CatAll(c, n, srcs[..|srcs| - 1]), n, srcs[|srcs| - 1])
  }

  /** Some call of the sequence returned 1. */
  predicate AnyFlag(c: seq<char>, n: nat, srcs: seq<seq<char>>)
    requires n > 0
  {
    srcs != [] &&
    (AnyFlag(c, n, srcs[..|srcs| - 1]) || CatFlag(CatAll(c, n, srcs[..|srcs| - 1]), n, srcs[|srcs| - 1]))
  }

  /** Any sequence of appends leaves exactly the first n - 1 characters of the whole concatenation. */
  lemma {:induction false} CatAllIsPrefix(c: seq<char>, n: nat, srcs: seq<seq<char>>)
    requires |c| < n
    ensures CatAll(c, n, srcs) == Take(c + Concat(srcs), n - 1)
  {
    if srcs == [] {
      assert c + Concat(srcs) == c;
    } else {
      var m := |srcs| - 1;
      CatAllIsPrefix(c, n, srcs[..m]);
      var before := c + Concat(srcs[..m]);
      assert c + Concat(srcs) == before + srcs[m];
    }
  }

  /** No call returns 1 if and only if everything fits and the buffer was not already full before the last call; so any
      real truncation makes some call return 1. */
  lemma {:induction false} NoFlagExactlyWhen(c: seq<char>, n: nat, srcs: seq<seq<char>>)
    requires |c| < n
    ensures !AnyFlag(c, n, srcs) <==>
            srcs == [] || (|c + Concat(srcs)| <= n - 1 && |c + Concat(srcs[..|srcs| - 1])| < n - 1)
    ensures |c + Concat(srcs)| > n - 1 ==> AnyFlag(c, n, srcs)
  {
    if srcs != [] {
      var m := |srcs| - 1;
      CatAllIsPrefix(c, n, srcs[..m]);
      NoFlagExactlyWhen(c, n, srcs[..m]);
      var before := c + Concat(srcs[..m]);
      assert c + Concat(srcs) == before + srcs[m];
      if m > 0 {
        assert Concat(srcs[..m]) == Concat(srcs[..m][..m - 1]) + srcs[..m][m - 1];
      }
    }
  }

  lemma CatAllStep(c: seq<char>, n: nat, srcs: seq<seq<char>>, i: nat)
    requires n > 0 && i < |srcs|
    ensures CatAll(c, n, srcs[..i + 1]) == AfterCat(CatAll(c, n, srcs[..i]), n, srcs[i])
    ensures AnyFlag(c, n, srcs[..i + 1]) <==>
            AnyFlag(c, n, srcs[..i]) || CatFlag(CatAll(c, n, srcs[..i]), n, srcs[i])
  {
    hide AfterCat, CatFlag;
    assert srcs[..i + 1][..|srcs[..i + 1]| - 1] == srcs[..i];
  }

  lemma NothingAppended(c: seq<char>, n: nat, srcs: seq<seq<char>>)
    requires n > 0
    ensures CatAll(c, n, srcs[..0]) == c && !AnyFlag(c, n, srcs[..0])
  {
    assert srcs[..0] == [];
  }

  /** A caller that appends one source after the other, remembering whether some call returned 1. */
  method SafeStrcatAll(dst: array<char>, dstSize: nat, srcs: seq<seq<char>>) returns (truncated: bool)
    requires 1 <= dstSize <= dst.Length && NUL in dst[..dstSize] && forall i :: 0 <= i < |srcs| ==> IsText(srcs[i])
    modifies dst
    ensures NUL in dst[..dstSize]
    ensures Contents(dst[..dstSize]) == Take(old(Contents(dst[..dstSize])) + Concat(srcs), dstSize - 1)
    ensures var whole := old(Contents(dst[..dstSize])) + Concat(srcs);
            (|whole| > dstSize - 1 ==> truncated) &&
            (srcs != [] ==>
              var before := old(Contents(dst[..dstSize])) + Concat(srcs[..|srcs| - 1]);
              !truncated <==> |whole| <= dstSize - 1 && |before| < dstSize - 1)
    ensures srcs == [] ==> !truncated
    ensures dst[dstSize..] == old(dst[dstSize..])
  {
    ghost var c := Contents(dst[..dstSize]);
    truncated := false;
    NothingAppended(c, dstSize, srcs);
    hide Contents, CatAll, AnyFlag, AfterCat, CatFlag, IsText, Concat, Take;
    for i := 0 to |srcs|
      invariant NUL in dst[..dstSize]
      invariant Contents(dst[..dstSize]) == CatAll(c, dstSize, srcs[..i])
      invariant truncated <==> AnyFlag(c, dstSize, srcs[..i])
      invariant dst[dstSize..] == old(dst[dstSize..])
    {
      CatAllStep(c, dstSize, srcs, i);
      var flag := SafeStrcat(dst, dstSize, srcs[i]);
      truncated := truncated || flag == 1;
    }
    assert srcs[..|srcs|] == srcs;
    CatAllIsPrefix(c, dstSize, srcs);
    NoFlagExactlyWhen(c, dstSize, srcs);
  }
}
