/** Appointments, clock arithmetic and the 40-minute conflict test of src/services/barberiaApi.js. */
module Scheduling {
  import opened Basics

  /** A Map key: the text `String(appointment.id)`. */
  datatype Key = Key(text: string)

  /** An appointment record. `id` is its Map key; a `None` in `id`, `clienteId` or
      `barberoId` stands for a missing field, whose `Number(...)` is NaN. */
  datatype Cita = Cita(
    id: Option<Key>,
    clienteId: Option<int>,
    barberoId: Option<int>,
    fecha: string,
    hora: string,
    estado: string,
    servicioNombre: string,
    barberoNombre: string,
    sucursalNombre: string)

  // ---------- text to minutes ----------

  predicate IsDigit(c: char) { '0' <= c <= '9' }

  predicate AllDigits(s: string) { forall i :: 0 <= i < |s| ==> IsDigit(s[i]) }

  function DigitValue(c: char): nat
    requires IsDigit(c)
  {
    c as int - '0' as int
  }

  function DecimalValue(s: string): nat
    requires AllDigits(s)
  {
    if s == "" then 0 else 10 * DecimalValue(s[..|s| - 1]) + DigitValue(s[|s| - 1])
  }

  /** `Number(s)` on decimal text; NaN is `None`. */
  function Number(s: string): Option<int> {
    if AllDigits(s) then Some(DecimalValue(s)) else None
  }

  function Split(s: string, sep: char): (parts: seq<string>)
    ensures |parts| >= 1
  {
    if sep !in s then [s]
    else
      var i := IndexOf(s, sep);
      [s[..i]] + Split(s[i + 1..], sep)
  }

  function IndexOf(s: string, c: char): (i: nat)
    requires c in s
    ensures i < |s| && s[i] == c && forall j :: 0 <= j < i ==> s[j] != c
  {
    if s[0] == c then 0 else 1 + IndexOf(s[1..], c)
  }

  function TimeToMinutes(timeString: string): Option<int> {
    var parts := Split(if timeString == "" then "00:00" else timeString, ':');
    var hours := Number(parts[0]);
    var minutes := Number(if |parts| > 1 then parts[1] else "0");
    if hours.Some? && minutes.Some? then Some(hours.value * 60 + minutes.value) else None
  }

  lemma SplitHead(h: string, rest: string, sep: char)
    requires sep !in h
    ensures Split(h, sep) == [h]
    ensures Split(h + [sep] + rest, sep) == [h] + Split(rest, sep)
  {
    var s := h + [sep] + rest;
    assert s[|h|] == sep;
    var i := IndexOf(s, sep);
    assert forall j :: 0 <= j < |h| ==> s[j] == h[j];
    assert i == |h|;
    assert s[..i] == h && s[i + 1..] == rest;
  }

  lemma TimeOfSplit(s: string, h: string, m: string)
    requires s != "" && Split(s, ':')[0] == h && |Split(s, ':')| > 1 && Split(s, ':')[1] == m
    ensures TimeToMinutes(s)
            == if AllDigits(h) && AllDigits(m) then Some(60 * DecimalValue(h) + DecimalValue(m)) else None
  {
    hide Split, AllDigits, DecimalValue;
  }

  lemma TimeOfOne(h: string)
    requires ':' !in h && h != ""
    ensures TimeToMinutes(h) == if AllDigits(h) then Some(60 * DecimalValue(h)) else None
  {
    SplitHead(h, "", ':');
    assert DecimalValue("0") == 0 by { assert "0"[..0] == ""; }
    assert AllDigits("0");
    hide Split, AllDigits, DecimalValue;
  }

  /** Reading an hour: the parts before and behind the first colon are hours and minutes, further parts do not count, a
      missing second part is 0, the empty text is midnight, and a part that is no number gives no time. */
  lemma TimeOfParts(h: string, m: string, rest: string)
    requires ':' !in h && ':' !in m
    ensures var v := if AllDigits(h) && AllDigits(m) then Some(60 * DecimalValue(h) + DecimalValue(m)) else None;
            TimeToMinutes(h + ":" + m) == v && TimeToMinutes(h + ":" + m + ":" + rest) == v
    ensures h != "" ==> TimeToMinutes(h) == if AllDigits(h) then Some(60 * DecimalValue(h)) else None
    ensures TimeToMinutes("") == Some(0)
  {
    hide Split, AllDigits, DecimalValue, TimeToMinutes;
    SplitHead(h, m, ':');
    SplitHead(m, rest, ':');
    SplitHead(h, m + ":" + rest, ':');
    assert h + ":" + (m + ":" + rest) == h + ":" + m + ":" + rest;
    TimeOfSplit(h + ":" + m, h, m);
    TimeOfSplit(h + ":" + m + ":" + rest, h, m);
    if h != "" {
      TimeOfOne(h);
    }
    MidnightIsZero();
  }

  lemma MidnightIsZero()
    ensures TimeToMinutes("") == Some(0)
  {
    SplitHead("00", "00", ':');
    SplitHead("00", "", ':');
    assert "00" + ":" + "00" == "00:00";
    assert DecimalValue("00") == 0 by { assert "00"[..1] == "0" && "0"[..0] == ""; }
  }

  function Abs(x: int): nat { if x < 0 then -x else x }

  predicate HasSchedulingConflict(candidate: Cita, existing: Cita) {
    if candidate.barberoId.None? || existing.barberoId.None? || candidate.barberoId != existing.barberoId then false
    else if candidate.fecha != existing.fecha then false
    else
      var c, e := TimeToMinutes(candidate.hora), TimeToMinutes(existing.hora);
      c.Some? && e.Some? && Abs(c.value - e.value) <= 40
  }

  /** No two positions of the list hold appointments in conflict. */
  ghost predicate Separated(s: seq<Cita>) {
    forall i, j :: 0 <= i < j < |s| ==> !HasSchedulingConflict(s[i], s[j])
  }

  /** A booking is refused when it conflicts with some element. */
  predicate ConflictsWithSome(candidate: Cita, existing: seq<Cita>) {
    exists i :: 0 <= i < |existing| && HasSchedulingConflict(candidate, existing[i])
  }

  // ---------- well-formed hours ----------

  function Digit(n: nat): (c: char)
    requires n < 10
    ensures IsDigit(c) && DigitValue(c) == n
  {
    ('0' as int + n) as char
  }

  function TwoDigits(n: nat): (s: string)
    requires n < 100
    ensures |s| == 2 && AllDigits(s)
  {
    [Digit(n / 10), Digit(n % 10)]
  }

  /** `HH:MM` for the minute `m` of a day. */
  function FormatHora(m: nat): string
    requires m < 1440
  {
    TwoDigits(m / 60) + ":" + TwoDigits(m % 60)
  }

  /** The text is `HH:MM` with 00 <= HH <= 23 and 00 <= MM <= 59. */
  predicate ValidHora(h: string) {
    |h| == 5 && IsDigit(h[0]) && IsDigit(h[1]) && h[2] == ':' && IsDigit(h[3]) && IsDigit(h[4])
    && 10 * DigitValue(h[0]) + DigitValue(h[1]) < 24 && DigitValue(h[3]) < 6
  }

  /** The minute of the day that a well-formed hour writes. */
  function MinuteOfDay(h: string): (m: nat)
    requires ValidHora(h)
    ensures m < 1440
  {
    60 * (10 * DigitValue(h[0]) + DigitValue(h[1])) + 10 * DigitValue(h[3]) + DigitValue(h[4])
  }

  lemma DecimalOfTwo(s: string)
    requires |s| == 2 && AllDigits(s)
    ensures DecimalValue(s) == 10 * DigitValue(s[0]) + DigitValue(s[1])
  {
    assert s[..1] == [s[0]];
    assert s[..1][..0] == "";
    assert DecimalValue(s[..1]) == DigitValue(s[0]);
  }

  lemma SplitHora(h: string)
    requires ValidHora(h)
    ensures Split(h, ':') == [h[..2], h[3..]]
  {
    assert h[2] == ':' && ':' in h;
    var i := IndexOf(h, ':');
    assert i == 2;
    assert ':' !in h[3..];
    assert Split(h[3..], ':') == [h[3..]];
  }

  /** A well-formed hour is always a number of minutes inside the day. */
  lemma ValidHoraMinutes(h: string)
    requires ValidHora(h)
    ensures TimeToMinutes(h) == Some(MinuteOfDay(h))
  {
    SplitHora(h);
    DecimalOfTwo(h[..2]);
    DecimalOfTwo(h[3..]);
  }

  /** Printing a minute and reading it back returns it. */
  lemma FormatHoraRoundTrip(m: nat)
    requires m < 1440
    ensures ValidHora(FormatHora(m)) && TimeToMinutes(FormatHora(m)) == Some(m)
  {
    var h := FormatHora(m);
    assert h[0] == Digit(m / 60 / 10) && h[1] == Digit(m / 60 % 10);
    assert h[3] == Digit(m % 60 / 10) && h[4] == Digit(m % 60 % 10);
    ValidHoraMinutes(h);
  }

  /** For well-formed hours of one barber and day the test is exactly "at most 40 minutes apart", in both
      directions: 40 minutes is refused although the message asks for "at least 40". */
  lemma ConflictMeaning(a: Cita, b: Cita)
    requires ValidHora(a.hora) && ValidHora(b.hora)
    ensures HasSchedulingConflict(a, b) <==>
            a.barberoId.Some? && a.barberoId == b.barberoId && a.fecha == b.fecha &&
            Abs(MinuteOfDay(a.hora) - MinuteOfDay(b.hora)) <= 40
    ensures HasSchedulingConflict(a, b) == HasSchedulingConflict(b, a)
  {
    ValidHoraMinutes(a.hora);
    ValidHoraMinutes(b.hora);
  }

  lemma SeparatedCons(a: Cita, s: seq<Cita>)
    requires Separated(s) && !ConflictsWithSome(a, s)
    ensures Separated([a] + s)
  {
    forall i, j | 0 <= i < j < |[a] + s|
      ensures !HasSchedulingConflict(([a] + s)[i], ([a] + s)[j])
    {
      if i > 0 {
        assert ([a] + s)[i] == s[i - 1] && ([a] + s)[j] == s[j - 1];
      } else {
        assert ([a] + s)[j] == s[j - 1];
      }
    }
  }

  lemma {:induction false} SeparatedFilter(s: seq<Cita>, p: Cita -> bool)
    requires Separated(s)
    ensures Separated(Filter(s, p))
  {
    hide HasSchedulingConflict;
    if s != [] {
      var n := |s| - 1;
      SeparatedFilter(s[..n], p);
      FilterMembers(s[..n], p);
      var rest := Filter(s[..n], p);
      forall i | 0 <= i < |rest|
        ensures !HasSchedulingConflict(rest[i], s[n])
      {
        assert rest[i] in s[..n];
      }
    }
  }
}
