/** How many appointments the 40-minute test lets one barber have on one day. */
module BookingCapacity {
  import opened Basics
  import opened Scheduling
  import opened Merge
  import opened MergeLaws
  import opened BookingProtocol
  import opened BookingConservation

  const GAP := 41
  const CAPACITY := 36

  /** Packing: points of [0, n) at pairwise distance at least GAP. */
  lemma {:induction false} Packing(points: set<int>, n: nat)
    requires forall x :: x in points ==> 0 <= x < n
    requires forall x, y :: x in points && y in points && x < y ==> y - x >= GAP
    ensures |points| * GAP <= n + GAP - 1
    decreases n
  {
    var m := if n < GAP then 0 else n - GAP;
    var low := set x | x in points && x < m;
    var high := points - low;
    assert points == low + high;
    if high != {} {
      var t :| t in high;
      assert forall x :: x in high ==> x == t;
      assert high == {t};
    }
    if n > 0 {
      Packing(low, m);
    }
  }

  /** The minutes of a list of appointments of one barber and day. */
  ghost function Minutes(s: seq<Cita>): (r: set<int>)
    requires forall c :: c in s ==> ValidHora(c.hora)
  {
    set c | c in s :: MinuteOfDay(c.hora) as int
  }

  predicate AtChair(c: Cita, barbero: int, fecha: string) {
    c.barberoId == Some(barbero) && c.fecha == fecha
  }

  lemma MinuteIsNew(s: seq<Cita>, n: nat)
    requires n < |s| && Separated(s)
    requires forall c :: c in s ==> ValidHora(c.hora)
    requires forall c :: c in s ==> SameChair(c, s[n])
    ensures MinuteOfDay(s[n].hora) !in Minutes(s[..n])
  {
    hide HasSchedulingConflict, ValidHora, MinuteOfDay;
    forall i | 0 <= i < n
      ensures MinuteOfDay(s[i].hora) != MinuteOfDay(s[n].hora)
    {
      assert s[i] in s && s[n] in s;
      assert !HasSchedulingConflict(s[i], s[n]);
      ConflictMeaning(s[i], s[n]);
    }
  }

  lemma MinutesSnoc(s: seq<Cita>, c: Cita)
    requires forall x :: x in s + [c] ==> ValidHora(x.hora)
    ensures forall x :: x in s ==> x in s + [c]
    ensures c in s + [c]
    ensures Minutes(s + [c]) == Minutes(s) + {MinuteOfDay(c.hora)}
  {
    hide ValidHora, MinuteOfDay;
    assert forall x :: x in s ==> x in s + [c];
    assert (s + [c])[|s|] == c;
    assert forall x :: x in s + [c] ==> x in s || x == c;
  }

  lemma {:induction false} MinutesCount(s: seq<Cita>, barbero: int, fecha: string)
    requires forall c :: c in s ==> ValidHora(c.hora) && AtChair(c, barbero, fecha)
    requires Separated(s)
    ensures |Minutes(s)| == |s|
  {
    if s != [] {
      var n := |s| - 1;
      assert s[n] in s;
      MinuteIsNew(s, n);
      hide HasSchedulingConflict, ValidHora, MinuteOfDay, Minutes;
      MinutesCount(s[..n], barbero, fecha);
      assert s == s[..n] + [s[n]];
      MinutesSnoc(s[..n], s[n]);
    }
  }

  /** CAPACITY. A separated list of well-formed hours of one barber and day has at most 36 appointments. */
  lemma OneChairAtMost36(s: seq<Cita>, barbero: int, fecha: string)
    requires Separated(s)
    requires forall c :: c in s ==> ValidHora(c.hora) && AtChair(c, barbero, fecha)
    ensures |s| <= CAPACITY
  {
    MinutesCount(s, barbero, fecha);
    forall x, y | x in Minutes(s) && y in Minutes(s) && x < y
      ensures y - x >= GAP
    {
      var c :| c in s && MinuteOfDay(c.hora) == x;
      var d :| d in s && MinuteOfDay(d.hora) == y;
      SeparatedMembers(s, c, d);
      ConflictMeaning(c, d);
    }
    Packing(Minutes(s), 1440);
  }

  /** A well-formed hour of the barber and day. */
  function ChairTest(barbero: int, fecha: string): Cita -> bool {
    (c: Cita) => ValidHora(c.hora) && AtChair(c, barbero, fecha)
  }

  /** The well-formed appointments of one barber and day. */
  function Chair(s: seq<Cita>, barbero: int, fecha: string): seq<Cita> {
    Filter(s, ChairTest(barbero, fecha))
  }

  lemma ChairAtMost36(s: seq<Cita>, barbero: int, fecha: string)
    requires Separated(s)
    ensures |Chair(s, barbero, fecha)| <= CAPACITY
  {
    FilterMembers(s, ChairTest(barbero, fecha));
    SeparatedFilter(s, ChairTest(barbero, fecha));
    OneChairAtMost36(Chair(s, barbero, fecha), barbero, fecha);
  }

  /** No interleaving of bookings over a safe remote list ever shows or stores more than 36 well-formed appointments of
      one barber and day. */
  lemma RunsRespectCapacity(remote: seq<Cita>, steps: seq<Step>, barbero: int, fecha: string)
    requires RemoteSafe(remote) && Separated(View(remote, [], 1))
    ensures var s := Run(remote, State([], map[]), steps);
            |Chair(View(remote, s.local, 1), barbero, fecha)| <= CAPACITY &&
            |Chair(s.local, barbero, fecha)| <= CAPACITY
  {
    var s := Run(remote, State([], map[]), steps);
    RunsStaySeparated(remote, State([], map[]), steps);
    ChairAtMost36(View(remote, s.local, 1), barbero, fecha);
    ChairAtMost36(s.local, barbero, fecha);
  }

  // ---------- the bound is reached ----------

  /** The request of client 1 for the barber `barbero` at minute 41 * i. */
  function Request(i: nat): (b: Booking)
    requires i < CAPACITY
  {
    Booking(Cita(None, Some(1), Some(1), "2026-11-02", FormatHora(GAP * i), "", "", "", ""),
            Key(FormatHora(GAP * i)), true, true)
  }

  function Requests(n: nat): (bs: seq<Booking>)
    requires n <= CAPACITY
    ensures |bs| == n && forall i :: 0 <= i < n ==> bs[i] == Request(i)
  {
    if n == 0 then [] else Requests(n - 1) + [Request(n - 1)]
  }

  /** What the first `n` requests store, the newest first. */
  function Booked(n: nat): (s: seq<Cita>)
    requires n <= CAPACITY
    ensures |s| == n && forall c :: c in s ==> exists i :: 0 <= i < n && c == Appointment(i)
  {
    if n == 0 then [] else [Appointment(n - 1)] + Booked(n - 1)
  }

  function Appointment(i: nat): Cita
    requires i < CAPACITY
  {
    NewAppointment(Request(i).payload, Request(i).now)
  }

  lemma AppointmentsDiffer(i: nat, j: nat)
    requires i < CAPACITY && j < CAPACITY && i != j
    ensures Appointment(i).id != Appointment(j).id
    ensures !HasSchedulingConflict(Appointment(i), Appointment(j))
  {
    hide TimeToMinutes, FormatHora, ValidHora;
    FormatHoraRoundTrip(GAP * i);
    FormatHoraRoundTrip(GAP * j);
  }

  lemma NextRequestFits(n: nat)
    requires n < CAPACITY && View([], Booked(n), 1) == Booked(n)
    ensures NewFor([], Booked(n), Appointment(n))
    ensures !ConflictsWithSome(Appointment(n), Booked(n))
  {
    hide HasSchedulingConflict, MergeOf, Keys, Last, Local, FormatHora;
    var a, l := Appointment(n), [] + Local(Booked(n), 1);
    assert a.id.Some? && OfClient(a, 1);
    assert l == Local(Booked(n), 1);
    LocalMembers(Booked(n), 1);
    if a.id.value in Keys(l) {
      var c := Last(l, a.id.value);
      var i :| 0 <= i < n && c == Appointment(i);
      AppointmentsDiffer(n, i);
    }
    forall j | 0 <= j < |Booked(n)|
      ensures !HasSchedulingConflict(a, Booked(n)[j])
    {
      var c := Booked(n)[j];
      assert c in Booked(n);
      var i :| 0 <= i < n && c == Appointment(i);
      AppointmentsDiffer(n, i);
    }
  }

  lemma FirstInEmptyShop(local: seq<Cita>, a: Cita)
    requires NewFor([], local, a) && View([], local, 1) == local
    ensures View([], [a] + local, 1) == [a] + local
  {
    hide View, NewFor;
    AcceptedIsInserted([], local, a);
    assert local[..0] + [a] + local[0..] == [a] + local;
  }

  lemma RequestAccepted(n: nat)
    requires n < CAPACITY && View([], Booked(n), 1) == Booked(n)
    ensures AfterBooking([], Booked(n), Request(n)) == Booked(n + 1)
    ensures View([], Booked(n + 1), 1) == Booked(n + 1)
  {
    hide View, NewFor, FormatHora, ConflictsWithSome;
    NextRequestFits(n);
    FirstInEmptyShop(Booked(n), Appointment(n));
    assert Booked(n + 1) == [Appointment(n)] + Booked(n);
  }

  lemma RequestsSplit(n: nat)
    requires 0 < n <= CAPACITY
    ensures SerialSteps(Requests(n)) == SerialSteps(Requests(n - 1)) + SerialSteps([Request(n - 1)])
  {
    SerialStepsAppend(Requests(n - 1), [Request(n - 1)]);
  }

  lemma NothingYet()
    ensures View([], Booked(0), 1) == Booked(0)
    ensures Run([], State([], map[]), SerialSteps(Requests(0))) == State(Booked(0), map[])
  {
    assert [] + Local([], 1) == [];
  }

  lemma {:induction false} RequestsAllAccepted(n: nat)
    requires n <= CAPACITY
    ensures Run([], State([], map[]), SerialSteps(Requests(n))) == State(Booked(n), map[])
    ensures View([], Booked(n), 1) == Booked(n)
  {
    if n == 0 {
      NothingYet();
    } else {
      var m := n - 1;
      RequestsAllAccepted(m);
      hide *;
      RequestAccepted(m);
      RequestsSplit(n);
      RunAppend([], State([], map[]), SerialSteps(Requests(m)), SerialSteps([Request(m)]));
      SerialStep([], Booked(m), Request(m));
    }
  }

  /** The bound of 36 is tight: for every n up to it, the run of the first n requests from an empty shop leaves n
      appointments of one barber on one day. */
  lemma CapacityIsReached(n: nat)
    requires n <= CAPACITY
    ensures var s := Run([], State([], map[]), SerialSteps(Requests(n)));
            |Chair(View([], s.local, 1), 1, "2026-11-02")| == n
  {
    RequestsAllAccepted(n);
    var day := Booked(n);
    forall c | c in day
      ensures ValidHora(c.hora) && AtChair(c, 1, "2026-11-02")
    {
      var i :| 0 <= i < n && c == Appointment(i);
      FormatHoraRoundTrip(GAP * i);
    }
    FilterAll(day, ChairTest(1, "2026-11-02"));
  }
}
