/** createAppointment as a protocol (src/services/barberiaApi.js): every call takes a snapshot of the merged view and
    later, in a second atomic step, checks the snapshot and writes snapshot plus appointment. Any number of calls may
    be between their two steps. */
module BookingProtocol {
  import opened Basics
  import opened Scheduling
  import opened Merge
  import opened MergeLaws

  // ---------- the two steps ----------

  /** The appointment built from the form's payload; `now` is the key of `Date.now()`. */
  function NewAppointment(payload: Cita, now: Key): Cita {
    payload.(
      id := Some(now),
      estado := "PENDIENTE",
      servicioNombre := if payload.servicioNombre == "" then "Servicio seleccionado" else payload.servicioNombre,
      barberoNombre := if payload.barberoNombre == "" then "Barbero seleccionado" else payload.barberoNombre,
      sucursalNombre := if payload.sucursalNombre == "" then "Sucursal seleccionada" else payload.sucursalNombre)
  }

  /** What the source promises of the appointment it builds: a new id, the state PENDIENTE, the payload's client,
      barber, day and hour, and its names where it has them. */
  ghost predicate IsBookingOf(a: Cita, payload: Cita, now: Key) {
    && a.id == Some(now)
    && a.estado == "PENDIENTE"
    && a.clienteId == payload.clienteId
    && a.barberoId == payload.barberoId
    && a.fecha == payload.fecha
    && a.hora == payload.hora
    && (payload.servicioNombre != "" ==> a.servicioNombre == payload.servicioNombre)
    && (payload.servicioNombre == "" ==> a.servicioNombre == "Servicio seleccionado")
    && (payload.barberoNombre != "" ==> a.barberoNombre == payload.barberoNombre)
    && (payload.barberoNombre == "" ==> a.barberoNombre == "Barbero seleccionado")
    && (payload.sucursalNombre != "" ==> a.sucursalNombre == payload.sucursalNombre)
    && (payload.sucursalNombre == "" ==> a.sucursalNombre == "Sucursal seleccionada")
  }

  lemma NewAppointmentIsBooking(payload: Cita, now: Key)
    ensures forall a :: a == NewAppointment(payload, now) <==> IsBookingOf(a, payload, now)
  {}

  /** Some record of the list is of the payload's barber and day and at most 40 minutes from the payload's hour. */
  ghost predicate TooClose(payload: Cita, existing: seq<Cita>)
    requires ValidHora(payload.hora)
  {
    exists c :: c in existing && c.barberoId.Some? && c.barberoId == payload.barberoId && c.fecha == payload.fecha &&
                TimeToMinutes(c.hora).Some? && -40 <= TimeToMinutes(c.hora).value - MinuteOfDay(payload.hora) <= 40
  }

  /** A booking of a well-formed hour is in conflict exactly with the records too close to its payload. */
  lemma ConflictOfPayload(payload: Cita, now: Key, existing: seq<Cita>)
    requires ValidHora(payload.hora)
    ensures ConflictsWithSome(NewAppointment(payload, now), existing) <==> TooClose(payload, existing)
  {
    var a := NewAppointment(payload, now);
    hide MinuteOfDay, TimeToMinutes, ValidHora;
    ValidHoraMinutes(payload.hora);
    assert TimeToMinutes(a.hora) == Some(MinuteOfDay(payload.hora));
    if TooClose(payload, existing) {
      var c :| c in existing && c.barberoId.Some? && c.barberoId == payload.barberoId && c.fecha == payload.fecha &&
               TimeToMinutes(c.hora).Some? && -40 <= TimeToMinutes(c.hora).value - MinuteOfDay(payload.hora) <= 40;
      var i :| 0 <= i < |existing| && existing[i] == c;
      assert HasSchedulingConflict(a, existing[i]);
    }
    if ConflictsWithSome(a, existing) {
      var i :| 0 <= i < |existing| && HasSchedulingConflict(a, existing[i]);
      assert existing[i] in existing;
    }
  }

  /** The stored list after the check-and-write step of a call. */
  function AfterWrite(local: seq<Cita>, a: Cita, snapshot: seq<Cita>, writeOk: bool): seq<Cita> {
    if ConflictsWithSome(a, snapshot) || !writeOk then local else [a] + snapshot
  }

  // ---------- one write ----------

  /** No remote record without id that the local filter keeps conflicts with itself. */
  ghost predicate RemoteSafe(remote: seq<Cita>) {
    forall r :: r in remote && r.id.None? && OfClient(r, 1) ==> !HasSchedulingConflict(r, r)
  }

  lemma ConflictSymmetric(a: Cita, b: Cita)
    ensures HasSchedulingConflict(a, b) == HasSchedulingConflict(b, a)
  {}

  lemma SeparatedMembers(base: seq<Cita>, x: Cita, y: Cita)
    requires Separated(base) && x in base && y in base && x != y
    ensures !HasSchedulingConflict(x, y)
  {
    ConflictSymmetric(x, y);
  }

  lemma SeparatedJoin(a: seq<Cita>, b: seq<Cita>)
    ensures Separated(a + b) <==>
            Separated(a) && Separated(b) && forall x, y :: x in a && y in b ==> !HasSchedulingConflict(x, y)
  {
    var c := a + b;
    if Separated(c) {
      assert forall i :: 0 <= i < |a| ==> c[i] == a[i];
      assert forall i :: 0 <= i < |b| ==> c[|a| + i] == b[i];
    }
  }

  lemma NextKeyedSeparated(remote: seq<Cita>, local: seq<Cita>, a: Cita)
    requires Separated([a] + View(remote, local, 1))
    ensures Separated(Values(remote + Local([a] + View(remote, local, 1), 1)))
  {
    var base := [a] + View(remote, local, 1);
    var t := remote + Local(base, 1);
    var vs := Values(t);
    ValuesKeyed(t);
    forall i, j | 0 <= i < j < |vs|
      ensures !HasSchedulingConflict(vs[i], vs[j])
    {
      assert Keys(t)[i] in Keys(t) && Keys(t)[j] in Keys(t);
      NextKeyedMember(remote, local, a, Keys(t)[i]);
      NextKeyedMember(remote, local, a, Keys(t)[j]);
      SeparatedMembers(base, vs[i], vs[j]);
    }
  }

  lemma NextKeyedIn(remote: seq<Cita>, local: seq<Cita>, a: Cita, v: Cita)
    requires v in Values(remote + Local([a] + View(remote, local, 1), 1))
    ensures v in [a] + View(remote, local, 1) && v.id.Some?
  {
    var t := remote + Local([a] + View(remote, local, 1), 1);
    var i :| 0 <= i < |Values(t)| && v == Values(t)[i];
    assert Keys(t)[i] in Keys(t);
    NextKeyedMember(remote, local, a, Keys(t)[i]);
  }

  /** The remote records without id are all in the snapshot. */
  lemma UnkeyedRemoteShown(remote: seq<Cita>, local: seq<Cita>)
    ensures forall r :: r in Filter(remote, LacksId) ==> r in View(remote, local, 1)
    ensures Separated(View(remote, local, 1)) ==> Separated(Filter(remote, LacksId))
  {
    var t, p, q := remote + Local(local, 1), Filter(remote, LacksId), Filter(Local(local, 1), LacksId);
    FilterAppend(remote, Local(local, 1), LacksId);
    SeparatedJoin(Values(t), p + q);
    SeparatedJoin(p, q);
  }

  lemma NextUnkeyedIn(remote: seq<Cita>, local: seq<Cita>, a: Cita, y: Cita)
    requires y in Filter(remote + Local([a] + View(remote, local, 1), 1), LacksId)
    ensures y in [a] + View(remote, local, 1) && y.id.None?
  {
    FilterMembers(remote + Local([a] + View(remote, local, 1), 1), LacksId);
    LocalMembers([a] + View(remote, local, 1), 1);
    FilterMembers(remote, LacksId);
    UnkeyedRemoteShown(remote, local);
    assert y in remote ==> y in Filter(remote, LacksId);
  }

  lemma NextUnkeyedSeparated(remote: seq<Cita>, local: seq<Cita>, a: Cita)
    requires Separated([a] + View(remote, local, 1)) && a.id.Some?
    ensures Separated(Filter(remote + Local([a] + View(remote, local, 1), 1), LacksId)) <==> RemoteSafe(remote)
  {
    var s := View(remote, local, 1);
    var base := [a] + s;
    var l := Local(base, 1);
    var p, q := Filter(remote, LacksId), Filter(l, LacksId);
    FilterAppend(remote, l, LacksId);
    UnkeyedRemoteShown(remote, local);
    SeparatedJoin([a], s);
    SeparatedLocal(base, 1);
    SeparatedFilter(l, LacksId);
    SeparatedJoin(p, q);
    FilterMembers(remote, LacksId);
    FilterMembers(l, LacksId);
    LocalMembers(base, 1);
    assert forall x :: x in p ==> x in base;
    if RemoteSafe(remote) {
      forall x, y | x in p && y in q
        ensures !HasSchedulingConflict(x, y)
      {
        if x != y {
          SeparatedMembers(base, x, y);
        }
      }
    }
    if Separated(p + q) {
      forall r | r in remote && r.id.None? && OfClient(r, 1)
        ensures !HasSchedulingConflict(r, r)
      {
        assert r in p && r in q;
      }
    }
  }

  lemma {:induction false} SeparatedLocal(s: seq<Cita>, clientId: int)
    requires Separated(s)
    ensures Separated(Local(s, clientId))
  {
    hide HasSchedulingConflict, OfClient;
    if s != [] {
      var n := |s| - 1;
      SeparatedLocal(s[..n], clientId);
      LocalMembers(s[..n], clientId);
      var rest := Local(s[..n], clientId);
      forall i | 0 <= i < |rest|
        ensures !HasSchedulingConflict(rest[i], s[n])
      {
        assert rest[i] in s[..n];
      }
    }
  }

  /** Writing an accepted appointment keeps the merged view separated exactly when the remote list is safe, whatever
      the appointment's id and client are. */
  lemma WriteKeepsSeparation(remote: seq<Cita>, local: seq<Cita>, a: Cita)
    requires Separated(View(remote, local, 1)) && a.id.Some?
    requires !ConflictsWithSome(a, View(remote, local, 1))
    ensures Separated([a] + View(remote, local, 1))
    ensures Separated(View(remote, [a] + View(remote, local, 1), 1)) <==> RemoteSafe(remote)
  {
    var base := [a] + View(remote, local, 1);
    SeparatedCons(a, View(remote, local, 1));
    NextKeyedSeparated(remote, local, a);
    NextUnkeyedSeparated(remote, local, a);
    var t := remote + Local(base, 1);
    var vs, rest := Values(t), Filter(t, LacksId);
    forall x, y | x in vs && y in rest
      ensures !HasSchedulingConflict(x, y)
    {
      NextKeyedIn(remote, local, a, x);
      NextUnkeyedIn(remote, local, a, y);
      SeparatedMembers(base, x, y);
    }
    SeparatedJoin(vs, rest);
  }

  // ---------- runs with any number of calls in flight ----------

  /** A call between its two steps: its appointment and the view it read. */
  datatype Call = Call(cita: Cita, snapshot: seq<Cita>)

  datatype State = State(local: seq<Cita>, inFlight: map<nat, Call>)

  /** The steps of call `k`. A read of the storage may fail, which reads as an empty list; a write may fail too. */
  datatype Step =
    | Snapshot(k: nat, payload: Cita, now: Key, readOk: bool)
    | CheckAndWrite(k: nat, writeOk: bool)

  /** What reading the storage yields. */
  function ReadList(local: seq<Cita>, readOk: bool): seq<Cita> { if readOk then local else [] }

  function Next(remote: seq<Cita>, s: State, step: Step): State {
    match step
    case Snapshot(k, payload, now, readOk) =>
      if k in s.inFlight then s
      else
        var snapshot := View(remote, ReadList(s.local, readOk), 1);
        s.(inFlight := s.inFlight[k := Call(NewAppointment(payload, now), snapshot)])
    case CheckAndWrite(k, writeOk) =>
      if k !in s.inFlight then s
      else
        var c := s.inFlight[k];
        State(AfterWrite(s.local, c.cita, c.snapshot, writeOk), s.inFlight - {k})
  }

  function Run(remote: seq<Cita>, s: State, steps: seq<Step>): State
    decreases |steps|
  {
    if steps == [] then s else Run(remote, Next(remote, s, steps[0]), steps[1..])
  }

  /** The snapshot of a call is a separated view over some stored list. */
  ghost predicate GoodCall(remote: seq<Cita>, c: Call) {
    c.cita.id.Some? && exists local :: c.snapshot == View(remote, local, 1) && Separated(c.snapshot)
  }

  ghost predicate Inv(remote: seq<Cita>, s: State) {
    && Separated(s.local)
    && Separated(View(remote, s.local, 1))
    && forall k :: k in s.inFlight ==> GoodCall(remote, s.inFlight[k])
  }

  lemma NextKeepsInv(remote: seq<Cita>, s: State, step: Step)
    requires RemoteSafe(remote) && Separated(View(remote, [], 1)) && Inv(remote, s)
    ensures Inv(remote, Next(remote, s, step))
  {
    match step
    case Snapshot(k, payload, now, readOk) =>
      if k !in s.inFlight {
        var local := ReadList(s.local, readOk);
        assert GoodCall(remote, Call(NewAppointment(payload, now), View(remote, local, 1)));
      }
    case CheckAndWrite(k, writeOk) =>
      if k in s.inFlight {
        var c := s.inFlight[k];
        assert GoodCall(remote, c);
        var local: seq<Cita> :| c.snapshot == View(remote, local, 1) && Separated(c.snapshot);
        if writeOk && !ConflictsWithSome(c.cita, c.snapshot) {
          WriteKeepsSeparation(remote, local, c.cita);
        }
      }
  }

  /** SAFETY. In every interleaving of any number of calls over a fixed remote list, with any payloads and ids, any
      failed reads and any failed writes, the stored list and the merged view stay free of conflicts. */
  lemma {:induction false} RunsStaySeparated(remote: seq<Cita>, s: State, steps: seq<Step>)
    requires RemoteSafe(remote) && Separated(View(remote, [], 1)) && Inv(remote, s)
    ensures Inv(remote, Run(remote, s, steps))
    decreases |steps|
  {
    if steps != [] {
      NextKeepsInv(remote, s, steps[0]);
      RunsStaySeparated(remote, Next(remote, s, steps[0]), steps[1..]);
    }
  }

  predicate SameChair(a: Cita, b: Cita) {
    a.barberoId.Some? && a.barberoId == b.barberoId && a.fecha == b.fecha
  }

  /** Two well-formed hours of one barber and day always differ by more than 40 minutes. */
  ghost predicate FortyApart(s: seq<Cita>) {
    forall i, j :: 0 <= i < j < |s| && ValidHora(s[i].hora) && ValidHora(s[j].hora) && SameChair(s[i], s[j]) ==>
      Abs(MinuteOfDay(s[i].hora) - MinuteOfDay(s[j].hora)) > 40
  }

  lemma SeparatedFortyApart(s: seq<Cita>)
    requires Separated(s)
    ensures FortyApart(s)
  {
    forall i, j | 0 <= i < j < |s| && ValidHora(s[i].hora) && ValidHora(s[j].hora) && SameChair(s[i], s[j])
      ensures Abs(MinuteOfDay(s[i].hora) - MinuteOfDay(s[j].hora)) > 40
    {
      ConflictMeaning(s[i], s[j]);
    }
  }

  /** The same in minutes, from an empty storage and a remote list in which every record has an id. */
  lemma RunsKeepFortyMinutes(remote: seq<Cita>, steps: seq<Step>)
    requires Separated(View(remote, [], 1)) && forall r :: r in remote ==> r.id.Some?
    ensures FortyApart(Run(remote, State([], map[]), steps).local)
    ensures FortyApart(View(remote, Run(remote, State([], map[]), steps).local, 1))
  {
    var s := Run(remote, State([], map[]), steps);
    RunsStaySeparated(remote, State([], map[]), steps);
    SeparatedFortyApart(s.local);
    SeparatedFortyApart(View(remote, s.local, 1));
  }
}
