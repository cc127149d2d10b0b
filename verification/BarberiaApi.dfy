/** The client of src/services/barberiaApi.js: one localStorage cell, two network calls. */
module BarberiaApi {
  import opened Basics
  import opened Scheduling
  import opened Merge
  import opened MergeLaws
  import opened BookingProtocol
  import opened BookingConservation
  import opened RemoteChange

  /** What a GET yields: a JSON list, some other JSON value, or a failure (network error or error status). */
  datatype Response = List(citas: seq<Cita>) | OtherJson | Failed

  /** What the POST yields: the server's record, or a failure. */
  datatype PostResponse = Saved(cita: Cita) | PostFailed

  datatype Outcome = Refused | FromServer(saved: Cita) | Own(cita: Cita)

  /** The list used when the server does not answer (src/data/mockData.js). */
  const MOCK_APPOINTMENTS: seq<Cita> := [
    Cita(Some(Key("101")), Some(1), Some(1), "2026-11-02", "10:30", "CONFIRMADA",
         "Corte clásico", "Miguel Ortega", "Sucursal Centro"),
    Cita(Some(Key("102")), Some(1), Some(2), "2026-11-04", "17:00", "PENDIENTE",
         "Perfilado de barba", "Lucas Rojas", "Sucursal Las Condes")
  ]

  function RemoteList(response: Response): seq<Cita> {
    match response
    case List(citas) => citas
    case OtherJson => []
    case Failed => MOCK_APPOINTMENTS
  }

  lemma RemoteListIs(response: Response)
    ensures response.List? ==> RemoteList(response) == response.citas
    ensures response.OtherJson? ==> RemoteList(response) == []
    ensures response.Failed? ==> RemoteList(response) == MOCK_APPOINTMENTS
  {}

  // ---------- the JavaScript Map: its keys in insertion order and its current values ----------

  function InsertKey(order: seq<Key>, k: Key): seq<Key> {
    if k in order then order else order + [k]
  }

  function MapValues(order: seq<Key>, byId: map<Key, Cita>): seq<Cita>
    requires forall k :: k in order ==> k in byId
  {
    seq(|order|, i requires 0 <= i < |order| => assert order[i] in order; byId[order[i]])
  }

  /** The Map after every record of `s` with an id was set. */
  ghost predicate IsMapState(s: seq<Cita>, order: seq<Key>, byId: map<Key, Cita>) {
    && order == Keys(s)
    && (forall k :: k in order ==> k in byId && byId[k] == Last(s, k))
  }

  lemma MapStateStarts()
    ensures IsMapState([], [], map[]) && Filter([], LacksId) == []
  {}

  lemma MapStep(s: seq<Cita>, c: Cita, order: seq<Key>, byId: map<Key, Cita>)
    requires IsMapState(s, order, byId)
    ensures c.id.None? ==> IsMapState(s + [c], order, byId) &&
                           Filter(s + [c], LacksId) == Filter(s, LacksId) + [c]
    ensures c.id.Some? ==> IsMapState(s + [c], InsertKey(order, c.id.value), byId[c.id.value := c]) &&
                           Filter(s + [c], LacksId) == Filter(s, LacksId)
  {
    hide Keys, Last, Filter;
    KeysSnoc(s, c);
    FilterSnoc(s, c, LacksId);
    forall k | k in Keys(s + [c])
      ensures c.id != Some(k) ==> k in Keys(s)
      ensures Last(s + [c], k) == if c.id == Some(k) then c else Last(s, k)
    {
      LastSnoc(s, c, k);
    }
  }

  lemma MapStateValues(s: seq<Cita>, order: seq<Key>, byId: map<Key, Cita>)
    requires IsMapState(s, order, byId)
    ensures forall k :: k in order ==> k in byId
    ensures MapValues(order, byId) == Values(s)
  {
    hide Keys, Last;
    forall i | 0 <= i < |order|
      ensures MapValues(order, byId)[i] == Values(s)[i]
    {
      assert order[i] in order;
    }
  }

  class BarberiaApi {
    /** The storage cell; `None` until something was written. */
    var cell: Option<seq<Cita>>

    constructor ()
      ensures cell == None
    {
      cell := None;
    }

    /** What reading the cell yields; a read that throws yields the empty list. */
    ghost function LocalList(readOk: bool): seq<Cita>
      reads this
    {
      if readOk && cell.Some? then cell.value else []
    }

    method ReadLocalAppointments(readOk: bool) returns (citas: seq<Cita>)
      ensures citas == LocalList(readOk)
    {
      if readOk && cell.Some? {
        citas := cell.value;
      } else {
        citas := [];
      }
    }

    method WriteLocalAppointments(citas: seq<Cita>, writeOk: bool)
      modifies this
      ensures cell == if writeOk then Some(citas) else old(cell)
    {
      if writeOk {
        cell := Some(citas);
      }
    }

    method GetAppointments(clientId: int, response: Response, readOk: bool) returns (citas: seq<Cita>)
      ensures citas == View(RemoteList(response), LocalList(readOk), clientId)
      ensures var l := Filter(LocalList(readOk), (c: Cita) => c.clienteId == Some(clientId));
              match response
              case List(remote) => IsMerge(remote + l, citas)
              case OtherJson => IsMerge(l, citas)
              case Failed => IsMerge(MOCK_APPOINTMENTS + l, citas)
    {
      var localAppointments := ReadLocalAppointments(readOk);
      var combined := RemoteList(response) + Local(localAppointments, clientId);
      var order: seq<Key>, byId: map<Key, Cita>, withoutId: seq<Cita> := [], map[], [];
      MapStateStarts();
      hide Keys, Last, Filter, Values, IsMapState, Local, IsMerge, IsMapOf;
      assert combined[..0] == [];
      for i := 0 to |combined|
        invariant IsMapState(combined[..i], order, byId)
        invariant withoutId == Filter(combined[..i], LacksId)
      {
        var c := combined[i];
        assert combined[..i + 1] == combined[..i] + [c];
        MapStep(combined[..i], c, order, byId);
        if c.id.None? {
          withoutId := withoutId + [c];
        } else {
          order := InsertKey(order, c.id.value);
          byId := byId[c.id.value := c];
        }
      }
      assert combined[..|combined|] == combined;
      MapStateValues(combined, order, byId);
      citas := MapValues(order, byId) + withoutId;
      MergeMeetsSpecification(combined);
      LocalIsFilter(LocalList(readOk), clientId);
      assert [] + Local(LocalList(readOk), clientId) == Local(LocalList(readOk), clientId);
    }

    /** The second step of a booking: nothing can come between its check and its write. */
    method CheckAndWrite(appointment: Cita, existing: seq<Cita>, writeOk: bool) returns (hasConflict: bool)
      modifies this
      ensures hasConflict <==> ConflictsWithSome(appointment, existing)
      ensures LocalList(true) == AfterWrite(old(LocalList(true)), appointment, existing, writeOk)
      ensures hasConflict ==> cell == old(cell)
    {
      hide HasSchedulingConflict;
      hasConflict := false;
      for i := 0 to |existing|
        invariant hasConflict <==> exists j :: 0 <= j < i && HasSchedulingConflict(appointment, existing[j])
      {
        hasConflict := hasConflict || HasSchedulingConflict(appointment, existing[i]);
      }
      if !hasConflict {
        WriteLocalAppointments([appointment] + existing, writeOk);
      }
    }

    /** A booking that no other call overlaps. */
    method CreateAppointment(payload: Cita, now: Key, response: Response, readOk: bool, writeOk: bool,
                             post: PostResponse)
      returns (outcome: Outcome)
      modifies this
      ensures var a, s := NewAppointment(payload, now), View(RemoteList(response), old(LocalList(readOk)), 1);
              LocalList(true) == AfterWrite(old(LocalList(true)), a, s, writeOk) &&
              (outcome == Refused <==> ConflictsWithSome(a, s)) &&
              (outcome == Refused ==> cell == old(cell)) &&
              (outcome != Refused ==> outcome == match post case Saved(c) => FromServer(c) case PostFailed => Own(a))
      ensures outcome.Own? ==> IsBookingOf(outcome.cita, payload, now)
      ensures var l := old(LocalList(readOk));
              var existing := match response
                              case List(remote) => View(remote, l, 1)
                              case OtherJson => View([], l, 1)
                              case Failed => View(MOCK_APPOINTMENTS, l, 1);
              (ValidHora(payload.hora) ==> (outcome == Refused <==> TooClose(payload, existing))) &&
              (outcome != Refused && writeOk ==>
                 LocalList(true) != [] && IsBookingOf(LocalList(true)[0], payload, now) &&
                 LocalList(true)[1..] == existing)
      ensures LocalList(true) == Run(RemoteList(response), State(old(LocalList(true)), map[]),
                                     SerialSteps([Booking(payload, now, readOk, writeOk)])).local
    {
      SerialStep(RemoteList(response), LocalList(true), Booking(payload, now, readOk, writeOk));
      NewAppointmentIsBooking(payload, now);
      RemoteListIs(response);
      if ValidHora(payload.hora) {
        ConflictOfPayload(payload, now, View(RemoteList(response), LocalList(readOk), 1));
      }
      hide Run, View, SerialSteps, ConflictsWithSome, TooClose, ValidHora, IsBookingOf, NewAppointment, RemoteList;
      var appointment := NewAppointment(payload, now);
      var existing := GetAppointments(1, response, readOk);
      var hasConflict := CheckAndWrite(appointment, existing, writeOk);
      if hasConflict {
        return Refused;
      }
      match post {
        case Saved(c) => outcome := FromServer(c);
        case PostFailed => outcome := Own(appointment);
      }
    }
  }

  /** While the server does not answer, every run is safe: the fallback list meets the hypotheses of the run
      theorems. */
  lemma FallbackIsSafe()
    ensures RemoteSafe(MOCK_APPOINTMENTS) && KeepsUnkeyedOut(MOCK_APPOINTMENTS)
    ensures View(MOCK_APPOINTMENTS, [], 1) == MOCK_APPOINTMENTS && Separated(MOCK_APPOINTMENTS)
  {
    MergeOfKeyed(MOCK_APPOINTMENTS, [Key("101"), Key("102")]);
    assert MOCK_APPOINTMENTS + Local([], 1) == MOCK_APPOINTMENTS;
  }

  lemma FallbackHours()
    ensures TimeToMinutes("10:30") == Some(630) && TimeToMinutes("17:00") == Some(1020)
  {
    ValidHoraMinutes("10:30");
    ValidHoraMinutes("17:00");
    assert MinuteOfDay("10:30") == 630 && MinuteOfDay("17:00") == 1020;
  }

  /** While the server does not answer and nothing is stored, exactly these bookings are refused: of barber 1 on
      2026-11-02 from 9:50 to 11:10, and of barber 2 on 2026-11-04 from 16:20 to 17:40. */
  lemma FallbackRefusesExactly(payload: Cita)
    requires ValidHora(payload.hora)
    ensures TooClose(payload, View(MOCK_APPOINTMENTS, [], 1)) <==>
            var m := MinuteOfDay(payload.hora);
            (payload.barberoId == Some(1) && payload.fecha == "2026-11-02" && 590 <= m <= 670) ||
            (payload.barberoId == Some(2) && payload.fecha == "2026-11-04" && 980 <= m <= 1060)
  {
    FallbackIsSafe();
    FallbackHours();
    hide View, TimeToMinutes, ValidHora, MinuteOfDay;
    var m := MOCK_APPOINTMENTS;
    assert m[0] in m && m[1] in m && forall c :: c in m ==> c == m[0] || c == m[1];
  }

  /** While the server answers with the list `remote`, any calls run in any interleaving; then it stops answering.
      The view over the fallback list is free of conflicts if and only if each fallback record is either replaced
      by a stored record under its id or conflicts with no stored record. */
  lemma ServerLossSafeExactlyWhen(remote: seq<Cita>, s: State, steps: seq<Step>)
    requires RemoteSafe(remote) && Separated(View(remote, [], 1)) && Inv(remote, s)
    ensures var l := Local(Run(remote, s, steps).local, 1);
            Separated(View(RemoteList(Failed), Run(remote, s, steps).local, 1)) <==>
            forall m, c :: m in MOCK_APPOINTMENTS && (m.id.None? || m.id.value !in Keys(l)) && c in MergeOf(l) ==>
              !HasSchedulingConflict(m, c)
  {
    hide HasSchedulingConflict, Keys, View, Run, Separated, RemoteSafe, Inv, Local;
    FallbackIsSafe();
    FallbackMerged();
    ChangeAfterRunSafeExactlyWhen(remote, MOCK_APPOINTMENTS, s, steps);
  }

  lemma FallbackMerged()
    ensures MergeOf(MOCK_APPOINTMENTS) == MOCK_APPOINTMENTS
  {
    MergeOfKeyed(MOCK_APPOINTMENTS, [Key("101"), Key("102")]);
  }
}
