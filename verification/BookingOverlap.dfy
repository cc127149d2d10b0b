/** Which bookings survive when calls of createAppointment overlap (src/services/barberiaApi.js): whole runs of the
    protocol, in every interleaving. */
module BookingOverlap {
  import opened Basics
  import opened Scheduling
  import opened Merge
  import opened MergeLaws
  import opened BookingProtocol
  import opened BookingConservation

  // ---------- runs from a storage with nothing in flight ----------

  function Reached(remote: seq<Cita>, local: seq<Cita>, steps: seq<Step>): State {
    Run(remote, State(local, map[]), steps)
  }

  lemma ReachedSnoc(remote: seq<Cita>, local: seq<Cita>, steps: seq<Step>)
    requires steps != []
    ensures var n := |steps| - 1;
            Reached(remote, local, steps) == Next(remote, Reached(remote, local, steps[..n]), steps[n])
  {
    hide Next;
    var n := |steps| - 1;
    assert steps == steps[..n] + [steps[n]];
    RunAppend(remote, State(local, map[]), steps[..n], [steps[n]]);
    assert [steps[n]][1..] == [];
  }

  lemma ReachedNothing(remote: seq<Cita>, local: seq<Cita>)
    ensures Reached(remote, local, []) == State(local, map[])
  {}

  /** The step is the second one of a call that is accepted, and its write succeeds. */
  predicate Writes(s: State, step: Step) {
    step.CheckAndWrite? && step.writeOk && step.k in s.inFlight &&
    !ConflictsWithSome(s.inFlight[step.k].cita, s.inFlight[step.k].snapshot)
  }

  predicate WritesAt(remote: seq<Cita>, local: seq<Cita>, steps: seq<Step>, m: nat) {
    m < |steps| && Writes(Reached(remote, local, steps[..m]), steps[m])
  }

  predicate Starts(s: State, step: Step, k: nat) { step.Snapshot? && step.k == k && k !in s.inFlight }

  /** The position of the snapshot of the call `k` that is in flight after the steps. */
  function Taken(remote: seq<Cita>, local: seq<Cita>, steps: seq<Step>, k: nat): (i: nat)
    requires k in Reached(remote, local, steps).inFlight
    ensures i < |steps|
  {
    ReachedNothing(remote, local);
    var n := |steps| - 1;
    ReachedSnoc(remote, local, steps);
    if Starts(Reached(remote, local, steps[..n]), steps[n], k) then n else Taken(remote, local, steps[..n], k)
  }

  /** The appointments of accepted calls whose write succeeded, in order of their writes. */
  function Booked(remote: seq<Cita>, local: seq<Cita>, steps: seq<Step>): seq<Cita> {
    if steps == [] then []
    else
      var n := |steps| - 1;
      var s := Reached(remote, local, steps[..n]);
      Booked(remote, local, steps[..n]) + if Writes(s, steps[n]) then [s.inFlight[steps[n].k].cita] else []
  }

  /** The stored list as the snapshot at step `i` read it. */
  function Was(remote: seq<Cita>, local: seq<Cita>, steps: seq<Step>, i: nat): seq<Cita>
    requires i < |steps|
  {
    ReadList(Reached(remote, local, steps[..i]).local, !IsUnread(steps[i]))
  }

  /** A snapshot whose read of the storage failed. */
  predicate IsUnread(step: Step) { step.Snapshot? && !step.readOk }

  /** Following the last write back to its snapshot, from there to the last write before that, and so on, until a
      snapshot whose read failed. */
  function Survivors(remote: seq<Cita>, local: seq<Cita>, steps: seq<Step>): seq<Cita>
    decreases |steps|
  {
    if steps == [] then []
    else
      var n := |steps| - 1;
      var s := Reached(remote, local, steps[..n]);
      if Writes(s, steps[n]) then
        var i := Taken(remote, local, steps[..n], steps[n].k);
        (if IsUnread(steps[i]) then [] else Survivors(remote, local, steps[..i])) + [s.inFlight[steps[n].k].cita]
      else Survivors(remote, local, steps[..n])
  }

  /** Where that chain starts: at the stored list of the start, or at nothing when it ends in a failed read. */
  function Start(remote: seq<Cita>, local: seq<Cita>, steps: seq<Step>): seq<Cita>
    decreases |steps|
  {
    if steps == [] then local
    else
      var n := |steps| - 1;
      if Writes(Reached(remote, local, steps[..n]), steps[n]) then
        var i := Taken(remote, local, steps[..n], steps[n].k);
        if IsUnread(steps[i]) then [] else Start(remote, local, steps[..i])
      else Start(remote, local, steps[..n])
  }

  /** The steps whose writes the write at `m` does not undo are those before this position: its snapshot, or none when
      the read of the snapshot failed. */
  function SeenUpTo(remote: seq<Cita>, local: seq<Cita>, steps: seq<Step>, m: nat): int
    requires WritesAt(remote, local, steps, m)
  {
    var i := Taken(remote, local, steps[..m], steps[m].k);
    if IsUnread(steps[i]) then -1 else i
  }

  /** Some accepted write is not seen by the snapshot of a later one: it falls between the two steps of that call,
      or the call's read failed. */
  ghost predicate Overlapped(remote: seq<Cita>, local: seq<Cita>, steps: seq<Step>) {
    exists j: nat, m: nat :: OverlappedAt(remote, local, steps, j, m)
  }

  predicate OverlappedAt(remote: seq<Cita>, local: seq<Cita>, steps: seq<Step>, j: nat, m: nat) {
    j < m && WritesAt(remote, local, steps, j) && WritesAt(remote, local, steps, m) &&
    SeenUpTo(remote, local, steps, m) < j
  }

  /** Every payload is of client 1, and the ids are new and differ from each other. */
  ghost predicate FreshSteps(remote: seq<Cita>, local: seq<Cita>, steps: seq<Step>) {
    && (forall i :: 0 <= i < |steps| && steps[i].Snapshot? ==>
          OfClient(steps[i].payload, 1) && steps[i].now !in Keys(remote + Local(local, 1)))
    && (forall i, j :: 0 <= i < j < |steps| && steps[i].Snapshot? && steps[j].Snapshot? ==>
          steps[i].now != steps[j].now)
  }

  lemma FreshPrefix(remote: seq<Cita>, local: seq<Cita>, steps: seq<Step>, n: nat)
    requires FreshSteps(remote, local, steps) && n <= |steps|
    ensures FreshSteps(remote, local, steps[..n])
  {
    hide Keys;
  }

  // ---------- a call in flight and its snapshot ----------

  lemma InFlightBefore(remote: seq<Cita>, local: seq<Cita>, steps: seq<Step>, k: nat)
    requires steps != [] && k in Reached(remote, local, steps).inFlight
    ensures var n := |steps| - 1;
            var s := Reached(remote, local, steps[..n]);
            if Starts(s, steps[n], k)
            then Reached(remote, local, steps).inFlight[k]
                 == Call(NewAppointment(steps[n].payload, steps[n].now),
                         View(remote, ReadList(s.local, steps[n].readOk), 1))
            else k in s.inFlight && Reached(remote, local, steps).inFlight[k] == s.inFlight[k]
  {
    hide Reached, View, NewAppointment, AfterWrite;
    ReachedSnoc(remote, local, steps);
  }

  lemma WasInPrefix(remote: seq<Cita>, local: seq<Cita>, steps: seq<Step>, n: nat, i: nat)
    requires i < n <= |steps|
    ensures Was(remote, local, steps[..n], i) == Was(remote, local, steps, i)
  {
    assert steps[..n][..i] == steps[..i] && steps[..n][i] == steps[i];
  }

  lemma {:induction false} TakenIsTheSnapshot(remote: seq<Cita>, local: seq<Cita>, steps: seq<Step>, k: nat)
    requires k in Reached(remote, local, steps).inFlight
    ensures var i := Taken(remote, local, steps, k);
            steps[i].Snapshot? &&
            Reached(remote, local, steps).inFlight[k]
            == Call(NewAppointment(steps[i].payload, steps[i].now), View(remote, Was(remote, local, steps, i), 1))
  {
    hide Reached, View, NewAppointment;
    if steps == [] {
      ReachedNothing(remote, local);
    } else {
      var n := |steps| - 1;
      InFlightBefore(remote, local, steps, k);
      if !Starts(Reached(remote, local, steps[..n]), steps[n], k) {
        TakenIsTheSnapshot(remote, local, steps[..n], k);
        WasInPrefix(remote, local, steps, n, Taken(remote, local, steps[..n], k));
      }
    }
  }

  /** A step that is no successful write leaves the storage alone; one that is stores the appointment in front of the
      view that its snapshot read. */
  lemma LocalAfterStep(remote: seq<Cita>, local: seq<Cita>, steps: seq<Step>)
    requires steps != []
    ensures var n := |steps| - 1;
            if WritesAt(remote, local, steps, n)
            then
              var i := Taken(remote, local, steps[..n], steps[n].k);
              steps[i].Snapshot? &&
              var a := NewAppointment(steps[i].payload, steps[i].now);
              Reached(remote, local, steps[..n]).inFlight[steps[n].k].cita == a &&
              Reached(remote, local, steps).local == [a] + View(remote, Was(remote, local, steps, i), 1)
            else Reached(remote, local, steps).local == Reached(remote, local, steps[..n]).local
  {
    hide Reached, View, NewAppointment, ConflictsWithSome, Taken, Was;
    var n := |steps| - 1;
    ReachedSnoc(remote, local, steps);
    if WritesAt(remote, local, steps, n) {
      TakenIsTheSnapshot(remote, local, steps[..n], steps[n].k);
      WasInPrefix(remote, local, steps, n, Taken(remote, local, steps[..n], steps[n].k));
    }
  }

  // ---------- the ids in the storage ----------

  predicate IdOfStep(steps: seq<Step>, k: Key) {
    exists q :: 0 <= q < |steps| && steps[q].Snapshot? && steps[q].now == k
  }

  lemma IdOfPrefix(steps: seq<Step>, n: nat, k: Key)
    requires n <= |steps| && IdOfStep(steps[..n], k)
    ensures IdOfStep(steps, k)
  {
    var q :| 0 <= q < |steps[..n]| && steps[..n][q].Snapshot? && steps[..n][q].now == k;
    assert steps[q] == steps[..n][q];
  }

  lemma NotIdOfPrefix(remote: seq<Cita>, local: seq<Cita>, steps: seq<Step>, i: nat)
    requires FreshSteps(remote, local, steps) && i < |steps| && steps[i].Snapshot?
    ensures !IdOfStep(steps[..i], steps[i].now)
  {
    hide Keys;
  }

  /** A shown id was shown at the start or belongs to a call of the run; so a call's id is new at its own snapshot. */
  lemma {:induction false} KeysComeFrom(remote: seq<Cita>, local: seq<Cita>, steps: seq<Step>, k: Key)
    requires FreshSteps(remote, local, steps) && KeepsUnkeyedOut(remote)
    requires k in Keys(remote + Local(Reached(remote, local, steps).local, 1))
    ensures k in Keys(remote + Local(local, 1)) || IdOfStep(steps, k)
    decreases |steps|, 0
  {
    hide Reached, View, Keys, Local, KeepsUnkeyedOut, FreshSteps, Taken, WritesAt, IdOfStep, Was;
    if steps == [] {
      ReachedNothing(remote, local);
    } else {
      var n := |steps| - 1;
      LocalAfterStep(remote, local, steps);
      FreshPrefix(remote, local, steps, n);
      if WritesAt(remote, local, steps, n) {
        assert steps[n].k in Reached(remote, local, steps[..n]).inFlight by { WritesMeans(remote, local, steps, n); }
        var i := Taken(remote, local, steps[..n], steps[n].k);
        FreshPrefix(remote, local, steps, i);
        SnapshotIsNew(remote, local, steps, i);
        var was, a := Was(remote, local, steps, i), NewAppointment(steps[i].payload, steps[i].now);
        NextKeyMember(remote, was, a, k);
        if k in Keys(remote + Local(was, 1)) {
          KeyWasStored(remote, local, steps, i, k);
          KeysComeFrom(remote, local, steps[..i], k);
          if IdOfStep(steps[..i], k) { IdOfPrefix(steps, i, k); }
        } else {
          IdOfItsStep(steps, i);
        }
      } else {
        KeysComeFrom(remote, local, steps[..n], k);
        if IdOfStep(steps[..n], k) { IdOfPrefix(steps, n, k); }
      }
    }
  }

  lemma IdOfItsStep(steps: seq<Step>, i: nat)
    requires i < |steps| && steps[i].Snapshot?
    ensures IdOfStep(steps, steps[i].now)
  {}

  lemma WritesMeans(remote: seq<Cita>, local: seq<Cita>, steps: seq<Step>, m: nat)
    requires WritesAt(remote, local, steps, m)
    ensures m < |steps| && steps[m].CheckAndWrite? && steps[m].k in Reached(remote, local, steps[..m]).inFlight
  {}

  lemma KeyWasStored(remote: seq<Cita>, local: seq<Cita>, steps: seq<Step>, i: nat, k: Key)
    requires i < |steps| && k in Keys(remote + Local(Was(remote, local, steps, i), 1))
    ensures k in Keys(remote + Local(Reached(remote, local, steps[..i]).local, 1))
  {
    hide Reached, Keys, Local, ReadList;
    var now := Reached(remote, local, steps[..i]).local;
    if k !in Keys(remote + Local(now, 1)) {
      NewWhenUnread(remote, now, !IsUnread(steps[i]), k);
    }
  }

  lemma {:induction false} SnapshotIsNew(remote: seq<Cita>, local: seq<Cita>, steps: seq<Step>, i: nat)
    requires FreshSteps(remote, local, steps) && KeepsUnkeyedOut(remote) && i < |steps| && steps[i].Snapshot?
    ensures NewFor(remote, Was(remote, local, steps, i), NewAppointment(steps[i].payload, steps[i].now))
    decreases i, 1
  {
    hide Reached, Keys, Local, KeepsUnkeyedOut, IdOfStep, Was;
    var k := steps[i].now;
    NotIdOfPrefix(remote, local, steps, i);
    FreshPrefix(remote, local, steps, i);
    if k in Keys(remote + Local(Was(remote, local, steps, i), 1)) {
      KeyWasStored(remote, local, steps, i, k);
      KeysComeFrom(remote, local, steps[..i], k);
    }
  }

  // ---------- what a run adds to the view ----------

  lemma SurvivorsStep(remote: seq<Cita>, local: seq<Cita>, steps: seq<Step>)
    requires steps != []
    ensures var n := |steps| - 1;
            if WritesAt(remote, local, steps, n)
            then
              var i := Taken(remote, local, steps[..n], steps[n].k);
              var a := Reached(remote, local, steps[..n]).inFlight[steps[n].k].cita;
              Survivors(remote, local, steps)
              == (if IsUnread(steps[i]) then [] else Survivors(remote, local, steps[..i])) + [a] &&
              Start(remote, local, steps) == (if IsUnread(steps[i]) then [] else Start(remote, local, steps[..i])) &&
              Booked(remote, local, steps) == Booked(remote, local, steps[..n]) + [a]
            else
              Survivors(remote, local, steps) == Survivors(remote, local, steps[..n]) &&
              Start(remote, local, steps) == Start(remote, local, steps[..n]) &&
              Booked(remote, local, steps) == Booked(remote, local, steps[..n])
  {
    hide Reached, Taken, ConflictsWithSome;
    var n := |steps| - 1;
    assert steps[..n] == steps[..|steps| - 1];
    assert Booked(remote, local, steps[..n]) + [] == Booked(remote, local, steps[..n]);
    if WritesAt(remote, local, steps, n) {
      var i := Taken(remote, local, steps[..n], steps[n].k);
      assert steps[..n][..i] == steps[..i];
    }
  }

  /** SURVIVAL. After every run, whatever overlaps and whichever reads and writes fail, the view holds what its chain
      started from plus exactly the bookings on the chain of snapshots that ends in the last write. */
  lemma {:induction false} SurvivesExactlyWhenSeen(remote: seq<Cita>, local: seq<Cita>, steps: seq<Step>)
    requires FreshSteps(remote, local, steps) && KeepsUnkeyedOut(remote)
    ensures multiset(View(remote, Reached(remote, local, steps).local, 1))
            == multiset(View(remote, Start(remote, local, steps), 1)) + multiset(Survivors(remote, local, steps))
    decreases |steps|
  {
    hide Reached, View, Keys, Local, KeepsUnkeyedOut, FreshSteps, Taken, WritesAt, NewAppointment, Survivors, Booked;
    hide Start, ReadList;
    if steps == [] {
      ReachedNothing(remote, local);
      NoSurvivors(remote, local);
    } else {
      var n := |steps| - 1;
      LocalAfterStep(remote, local, steps);
      SurvivorsStep(remote, local, steps);
      if WritesAt(remote, local, steps, n) {
        WritesMeans(remote, local, steps, n);
        var i := Taken(remote, local, steps[..n], steps[n].k);
        SnapshotIsNew(remote, local, steps, i);
        ConservedByAccepted(remote, Was(remote, local, steps, i), NewAppointment(steps[i].payload, steps[i].now));
        WasMeans(remote, local, steps, i);
        if !IsUnread(steps[i]) {
          FreshPrefix(remote, local, steps, i);
          SurvivesExactlyWhenSeen(remote, local, steps[..i]);
        }
      } else {
        FreshPrefix(remote, local, steps, n);
        SurvivesExactlyWhenSeen(remote, local, steps[..n]);
      }
    }
  }

  lemma WasMeans(remote: seq<Cita>, local: seq<Cita>, steps: seq<Step>, i: nat)
    requires i < |steps|
    ensures Was(remote, local, steps, i)
            == if IsUnread(steps[i]) then [] else Reached(remote, local, steps[..i]).local
  {}

  lemma NoSurvivors(remote: seq<Cita>, local: seq<Cita>)
    ensures Survivors(remote, local, []) == [] == Booked(remote, local, []) && Start(remote, local, []) == local
  {}

  // ---------- survivors and overlaps ----------

  lemma WritesInPrefix(remote: seq<Cita>, local: seq<Cita>, steps: seq<Step>, n: nat, m: nat)
    requires m < n <= |steps|
    ensures WritesAt(remote, local, steps[..n], m) == WritesAt(remote, local, steps, m)
  {
    assert steps[..n][..m] == steps[..m] && steps[..n][m] == steps[m];
  }

  lemma SeenInPrefix(remote: seq<Cita>, local: seq<Cita>, steps: seq<Step>, n: nat, m: nat)
    requires m < n <= |steps| && WritesAt(remote, local, steps, m) && WritesAt(remote, local, steps[..n], m)
    ensures SeenUpTo(remote, local, steps[..n], m) == SeenUpTo(remote, local, steps, m)
  {
    assert steps[..n][..m] == steps[..m] && steps[..n][m] == steps[m];
  }

  lemma OverlapInPrefix(remote: seq<Cita>, local: seq<Cita>, steps: seq<Step>, n: nat, j: nat, m: nat)
    requires m < n <= |steps|
    ensures OverlappedAt(remote, local, steps[..n], j, m) == OverlappedAt(remote, local, steps, j, m)
  {
    hide WritesAt, SeenUpTo;
    WritesInPrefix(remote, local, steps, n, m);
    if j < m && WritesAt(remote, local, steps, m) {
      WritesInPrefix(remote, local, steps, n, j);
      SeenInPrefix(remote, local, steps, n, m);
    }
  }

  ghost predicate WritesBetween(remote: seq<Cita>, local: seq<Cita>, steps: seq<Step>, i: int, n: int) {
    exists j: nat :: i < j < n && WritesAt(remote, local, steps, j)
  }

  lemma OverlapGrows(remote: seq<Cita>, local: seq<Cita>, steps: seq<Step>)
    requires steps != []
    ensures var n := |steps| - 1;
            Overlapped(remote, local, steps[..n]) ||
            (WritesAt(remote, local, steps, n) &&
             WritesBetween(remote, local, steps, SeenUpTo(remote, local, steps, n), n)) ==>
            Overlapped(remote, local, steps)
  {
    hide SeenUpTo, WritesAt, Reached;
    var n := |steps| - 1;
    if Overlapped(remote, local, steps[..n]) {
      var j: nat, m: nat :| OverlappedAt(remote, local, steps[..n], j, m);
      if m >= n { NoWriteBehind(remote, local, steps[..n], m); }
      OverlapInPrefix(remote, local, steps, n, j, m);
    } else if WritesAt(remote, local, steps, n) {
      var i := SeenUpTo(remote, local, steps, n);
      if WritesBetween(remote, local, steps, i, n) {
        var j: nat :| i < j < n && WritesAt(remote, local, steps, j);
        assert OverlappedAt(remote, local, steps, j, n);
      }
    }
  }

  lemma OverlapStep(remote: seq<Cita>, local: seq<Cita>, steps: seq<Step>)
    requires steps != []
    ensures var n := |steps| - 1;
            Overlapped(remote, local, steps) <==>
            Overlapped(remote, local, steps[..n]) ||
            (WritesAt(remote, local, steps, n) &&
             WritesBetween(remote, local, steps, SeenUpTo(remote, local, steps, n), n))
  {
    hide SeenUpTo, WritesAt, Reached;
    var n := |steps| - 1;
    OverlapGrows(remote, local, steps);
    if Overlapped(remote, local, steps) {
      var j: nat, m: nat :| OverlappedAt(remote, local, steps, j, m);
      if m < n {
        OverlapInPrefix(remote, local, steps, n, j, m);
      } else if m > n {
        NoWriteBehind(remote, local, steps, m);
      }
    }
  }

  lemma NoWriteBehind(remote: seq<Cita>, local: seq<Cita>, steps: seq<Step>, m: nat)
    requires m >= |steps|
    ensures !WritesAt(remote, local, steps, m)
  {}

  /** Between two points of a run, either no accepted write happened and nothing counted here has changed, or the number
      of bookings has grown. */
  lemma {:induction false} Between(remote: seq<Cita>, local: seq<Cita>, steps: seq<Step>, i: nat, n: nat)
    requires i <= n <= |steps|
    ensures WritesBetween(remote, local, steps, i - 1, n) ==>
              |Booked(remote, local, steps[..i])| < |Booked(remote, local, steps[..n])|
    ensures !WritesBetween(remote, local, steps, i - 1, n) ==>
              Booked(remote, local, steps[..i]) == Booked(remote, local, steps[..n]) &&
              Survivors(remote, local, steps[..i]) == Survivors(remote, local, steps[..n])
    decreases n - i
  {
    hide Taken, WritesAt, Booked, Survivors, Reached, Start;
    if i < n {
      var m := n - 1;
      Between(remote, local, steps, i, m);
      assert steps[..n][..m] == steps[..m];
      SurvivorsStep(remote, local, steps[..n]);
      WritesInPrefix(remote, local, steps, n, m);
      if WritesBetween(remote, local, steps, i - 1, n) && !WritesAt(remote, local, steps, m) {
        var j: nat :| i - 1 < j < n && WritesAt(remote, local, steps, j);
        assert j < m;
      }
      if WritesBetween(remote, local, steps, i - 1, m) {
        var j: nat :| i - 1 < j < m && WritesAt(remote, local, steps, j);
        assert WritesBetween(remote, local, steps, i - 1, n);
      }
    }
  }

  /** A run loses a booking exactly when it overlaps. */
  lemma {:induction false} LostExactlyWhenOverlapped(remote: seq<Cita>, local: seq<Cita>, steps: seq<Step>)
    ensures |Survivors(remote, local, steps)| <= |Booked(remote, local, steps)|
    ensures |Survivors(remote, local, steps)| < |Booked(remote, local, steps)| <==> Overlapped(remote, local, steps)
    ensures !Overlapped(remote, local, steps) ==> Survivors(remote, local, steps) == Booked(remote, local, steps)
    decreases |steps|
  {
    hide Reached, Taken, WritesAt, Booked, Survivors, Overlapped, Start;
    if steps == [] {
      NoSurvivors(remote, local);
      NoOverlap(remote, local);
    } else {
      var n := |steps| - 1;
      LostExactlyWhenOverlapped(remote, local, steps[..n]);
      SurvivorsStep(remote, local, steps);
      OverlapStep(remote, local, steps);
      if WritesAt(remote, local, steps, n) {
        WritesMeans(remote, local, steps, n);
        var i := Taken(remote, local, steps[..n], steps[n].k);
        if IsUnread(steps[i]) {
          NoSurvivors(remote, local);
          assert steps[..0] == [];
          Between(remote, local, steps, 0, n);
        } else {
          LostExactlyWhenOverlapped(remote, local, steps[..i]);
          Between(remote, local, steps, i + 1, n);
          SnapshotBooksNothing(remote, local, steps, i, n);
        }
      }
    }
  }

  lemma NoOverlap(remote: seq<Cita>, local: seq<Cita>)
    ensures !Overlapped(remote, local, [])
  {}

  lemma SnapshotBooksNothing(remote: seq<Cita>, local: seq<Cita>, steps: seq<Step>, i: nat, n: nat)
    requires i < n < |steps|
    requires steps[n].k in Reached(remote, local, steps[..n]).inFlight
    requires i == Taken(remote, local, steps[..n], steps[n].k)
    ensures Booked(remote, local, steps[..i + 1]) == Booked(remote, local, steps[..i])
    ensures Survivors(remote, local, steps[..i + 1]) == Survivors(remote, local, steps[..i])
  {
    hide Reached, Taken, Booked, Survivors, View, NewAppointment, Start, Was;
    TakenIsTheSnapshot(remote, local, steps[..n], steps[n].k);
    assert steps[..n][i] == steps[i];
    assert steps[..i + 1][..i] == steps[..i];
    SurvivorsStep(remote, local, steps[..i + 1]);
  }

  /** The chain starts from the stored list of the start or from nothing. */
  lemma {:induction false} StartIs(remote: seq<Cita>, local: seq<Cita>, steps: seq<Step>)
    ensures Start(remote, local, steps) == local || Start(remote, local, steps) == []
    decreases |steps|
  {
    hide Reached, Taken, WritesAt, Booked, Survivors, Start;
    if steps == [] {
      NoSurvivors(remote, local);
    } else {
      var n := |steps| - 1;
      SurvivorsStep(remote, local, steps);
      if WritesAt(remote, local, steps, n) {
        WritesMeans(remote, local, steps, n);
        StartIs(remote, local, steps[..Taken(remote, local, steps[..n], steps[n].k)]);
      } else {
        StartIs(remote, local, steps[..n]);
      }
    }
  }

  /** CONSERVATION, every interleaving, exactly when. After a run with calls of client 1 under new distinct ids,
      and with any failing reads and writes, the view holds what it held before plus all accepted and stored
      bookings if and only if every accepted write is seen by the snapshots of all later ones, and the chain of
      snapshots starts from a list that shows what the storage showed. */
  lemma RunConservesExactlyWhen(remote: seq<Cita>, local: seq<Cita>, steps: seq<Step>)
    requires FreshSteps(remote, local, steps) && KeepsUnkeyedOut(remote)
    ensures multiset(View(remote, Run(remote, State(local, map[]), steps).local, 1))
            == multiset(View(remote, local, 1)) + multiset(Booked(remote, local, steps))
            <==> !Overlapped(remote, local, steps) &&
                 multiset(View(remote, Start(remote, local, steps), 1)) == multiset(View(remote, local, 1))
  {
    hide Run, View, FreshSteps, KeepsUnkeyedOut, Overlapped, Survivors, Booked, Start;
    SurvivesExactlyWhenSeen(remote, local, steps);
    LostExactlyWhenOverlapped(remote, local, steps);
    StartIs(remote, local, steps);
    UnreadShowsLess(remote, local);
    var v, w := multiset(View(remote, local, 1)), multiset(View(remote, Start(remote, local, steps), 1));
    var s, b := multiset(Survivors(remote, local, steps)), multiset(Booked(remote, local, steps));
    assert |w + s| == |w| + |s| && |v + b| == |v| + |b|;
    if s == b && w + s == v + b {
      assert w == (w + s) - s && v == (v + b) - b;
    }
  }

  /** With reads that succeed the chain starts from the stored list, so only an overlap loses bookings. */
  lemma {:induction false} ReadRunsStartStored(remote: seq<Cita>, local: seq<Cita>, steps: seq<Step>)
    requires forall i :: 0 <= i < |steps| ==> !IsUnread(steps[i])
    ensures Start(remote, local, steps) == local
    decreases |steps|
  {
    hide Reached, Taken, WritesAt, Booked, Survivors, Start;
    if steps == [] {
      NoSurvivors(remote, local);
    } else {
      var n := |steps| - 1;
      SurvivorsStep(remote, local, steps);
      if WritesAt(remote, local, steps, n) {
        WritesMeans(remote, local, steps, n);
        ReadRunsStartStored(remote, local, steps[..Taken(remote, local, steps[..n], steps[n].k)]);
      } else {
        ReadRunsStartStored(remote, local, steps[..n]);
      }
    }
  }

  // ---------- two ways to lose a booking ----------

  /** Two calls that overlap are both accepted and the first booking is lost, although no conflict ever shows. */
  lemma OverlapLosesABooking(a: Cita, b: Cita)
    requires OfClient(a, 1) && OfClient(b, 1)
    ensures var steps := [Snapshot(0, a, Key("1"), true), Snapshot(1, b, Key("2"), true),
                          CheckAndWrite(0, true), CheckAndWrite(1, true)];
            var s := Run([], State([], map[]), steps);
            View([], Run([], State([], map[]), steps[..3]).local, 1) == [NewAppointment(a, Key("1"))] &&
            View([], s.local, 1) == [NewAppointment(b, Key("2"))]
  {
    var steps := [Snapshot(0, a, Key("1"), true), Snapshot(1, b, Key("2"), true),
                  CheckAndWrite(0, true), CheckAndWrite(1, true)];
    var a', b' := NewAppointment(a, Key("1")), NewAppointment(b, Key("2"));
    ViewOfOne(a');
    ViewOfOne(b');
    var s0 := State([], map[]);
    var s1 := Next([], s0, steps[0]);
    var s2 := Next([], s1, steps[1]);
    var s3 := Next([], s2, steps[2]);
    var s4 := Next([], s3, steps[3]);
    NothingShown();
    assert s2.inFlight == map[0 := Call(a', []), 1 := Call(b', [])];
    assert s3.local == [a'] && s4.local == [b'];
    var t := steps[..3];
    RunFour(s0, steps[0], steps[1], steps[2], steps[3]);
    assert t == [steps[0], steps[1], steps[2]];
  }

  lemma RunFour(s: State, p: Step, q: Step, r: Step, t: Step)
    ensures Run([], s, [p, q]) == Next([], Next([], s, p), q)
    ensures Run([], s, [p, q, r]) == Next([], Next([], Next([], s, p), q), r)
    ensures Run([], s, [p, q, r, t]) == Next([], Next([], Next([], Next([], s, p), q), r), t)
  {
    hide Next, Run;
    RunAppend([], s, [p], [q]);
    assert [p] + [q] == [p, q];
    RunAppend([], s, [p], [q, r]);
    assert [p] + [q, r] == [p, q, r];
    RunAppend([], Next([], s, p), [q], [r]);
    assert [q] + [r] == [q, r];
    RunAppend([], s, [p, q, r], [t]);
    assert [p, q, r] + [t] == [p, q, r, t];
    RunOne(s, p);
    RunOne(Next([], s, p), q);
    RunOne(Next([], Next([], s, p), q), r);
    RunOne(Next([], Next([], Next([], s, p), q), r), t);
  }

  lemma RunOne(s: State, p: Step)
    ensures Run([], s, [p]) == Next([], s, p)
  {
    assert [p][1..] == [];
  }

  lemma ViewOfOne(a: Cita)
    requires OfClient(a, 1) && a.id.Some?
    ensures View([], [a], 1) == [a]
  {
    FilterOne(a);
    assert [] + [a] == [a];
    MergeOfKeyed([a], [a.id.value]);
  }

  lemma NothingShown()
    ensures View([], [], 1) == []
  {
    assert [] + Local([], 1) == [];
    MergeOfKeyed([], []);
  }

  /** A call that cannot read the storage is accepted without overlapping anything, and the booking before it is lost,
      whatever the two appointments are. */
  lemma FailedReadLosesABooking(a: Cita, b: Cita)
    requires OfClient(a, 1) && OfClient(b, 1)
    ensures var steps := [Snapshot(0, a, Key("1"), true), CheckAndWrite(0, true),
                          Snapshot(1, b, Key("2"), false), CheckAndWrite(1, true)];
            var s := Run([], State([], map[]), steps);
            View([], Run([], State([], map[]), steps[..2]).local, 1) == [NewAppointment(a, Key("1"))] &&
            View([], s.local, 1) == [NewAppointment(b, Key("2"))]
  {
    var steps := [Snapshot(0, a, Key("1"), true), CheckAndWrite(0, true),
                  Snapshot(1, b, Key("2"), false), CheckAndWrite(1, true)];
    var a', b' := NewAppointment(a, Key("1")), NewAppointment(b, Key("2"));
    ViewOfOne(a');
    ViewOfOne(b');
    NothingShown();
    hide View;
    var s0 := State([], map[]);
    var s1 := Next([], s0, steps[0]);
    var s2 := Next([], s1, steps[1]);
    var s3 := Next([], s2, steps[2]);
    var s4 := Next([], s3, steps[3]);
    assert s1.inFlight == map[0 := Call(a', [])];
    assert s2 == State([a'], map[]);
    assert s3 == State([a'], map[1 := Call(b', [])]);
    assert s4 == State([b'], map[]);
    RunFour(s0, steps[0], steps[1], steps[2], steps[3]);
    assert steps[..2] == [steps[0], steps[1]];
  }
}
