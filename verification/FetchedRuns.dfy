/** createAppointment as a protocol in which every snapshot fetches a remote list of its own
    (src/services/barberiaApi.js:70-112): the server's list may be another one for every call. */
module FetchedRuns {
  import opened Basics
  import opened Scheduling
  import opened Merge
  import opened MergeLaws
  import opened BookingProtocol
  import opened BookingConservation
  import opened BookingOverlap
  import opened RemoteChange

  /** A call between its two steps: its appointment, the remote list it fetched and the stored list it read. */
  datatype FetchedCall = FetchedCall(cita: Cita, remote: seq<Cita>, was: seq<Cita>)

  function SnapshotOf(c: FetchedCall): seq<Cita> { View(c.remote, c.was, 1) }

  datatype FetchedState = FetchedState(local: seq<Cita>, inFlight: map<nat, FetchedCall>)

  /** A step of the protocol; a snapshot uses the remote list that comes with it. */
  datatype FetchedStep = FetchedStep(remote: seq<Cita>, step: Step)

  function NextFetched(s: FetchedState, f: FetchedStep): FetchedState {
    match f.step
    case Snapshot(k, payload, now, readOk) =>
      if k in s.inFlight then s
      else
        var c := FetchedCall(NewAppointment(payload, now), f.remote, ReadList(s.local, readOk));
        s.(inFlight := s.inFlight[k := c])
    case CheckAndWrite(k, writeOk) =>
      if k !in s.inFlight then s
      else
        var c := s.inFlight[k];
        FetchedState(AfterWrite(s.local, c.cita, SnapshotOf(c), writeOk), s.inFlight - {k})
  }

  function RunFetched(s: FetchedState, steps: seq<FetchedStep>): FetchedState
    decreases |steps|
  {
    if steps == [] then s else RunFetched(NextFetched(s, steps[0]), steps[1..])
  }

  // ---------- one remote list: the same runs ----------

  /** The state of the protocol with a fixed remote list. */
  function Forget(s: FetchedState): State {
    State(s.local, map k | k in s.inFlight :: Call(s.inFlight[k].cita, SnapshotOf(s.inFlight[k])))
  }

  lemma NextSame(remote: seq<Cita>, s: FetchedState, step: Step)
    ensures Forget(NextFetched(s, FetchedStep(remote, step))) == Next(remote, Forget(s), step)
  {
    hide View, NewAppointment, AfterWrite, ReadList;
    var t := NextFetched(s, FetchedStep(remote, step));
    assert Forget(t).inFlight == Next(remote, Forget(s), step).inFlight;
  }

  function WithRemote(remote: seq<Cita>, steps: seq<Step>): (r: seq<FetchedStep>)
    ensures |r| == |steps|
  {
    seq(|steps|, i requires 0 <= i < |steps| => FetchedStep(remote, steps[i]))
  }

  /** When every call fetches the same list, the runs are those of the protocol over that list. */
  lemma {:induction false} SameListSameRun(remote: seq<Cita>, s: FetchedState, steps: seq<Step>)
    ensures Forget(RunFetched(s, WithRemote(remote, steps))) == Run(remote, Forget(s), steps)
    decreases |steps|
  {
    hide NextFetched, Next, Forget;
    if steps != [] {
      NextSame(remote, s, steps[0]);
      assert WithRemote(remote, steps)[1..] == WithRemote(remote, steps[1..]);
      SameListSameRun(remote, NextFetched(s, FetchedStep(remote, steps[0])), steps[1..]);
    }
  }

  // ---------- when the storage stays free of conflicts ----------

  /** No record of the fetched list conflicts with a record of the storage it was merged with, save those that a stored
      record replaces under the same id. */
  ghost predicate AvoidsStored(c: FetchedCall) {
    var l := Local(c.was, 1);
    forall r, x :: r in MergeOf(c.remote) && (r.id.None? || r.id.value !in Keys(l)) && x in MergeOf(l) ==>
      !HasSchedulingConflict(r, x)
  }

  /** An accepted call whose write succeeds had fetched a list that avoids the storage it read. */
  ghost predicate SafeStep(s: FetchedState, f: FetchedStep) {
    f.step.CheckAndWrite? && Writes(Forget(s), f.step) ==> AvoidsStored(s.inFlight[f.step.k])
  }

  ghost predicate SafeSteps(s: FetchedState, steps: seq<FetchedStep>)
    decreases |steps|
  {
    steps == [] || (SafeStep(s, steps[0]) && SafeSteps(NextFetched(s, steps[0]), steps[1..]))
  }

  /** Every call in flight fetched a conflict-free list and read a conflict-free storage. */
  ghost predicate CleanCalls(s: FetchedState) {
    forall k :: k in s.inFlight ==> Separated(MergeOf(s.inFlight[k].remote)) && Separated(s.inFlight[k].was)
  }

  /** The server's lists have no conflicts of their own. */
  ghost predicate CleanFetch(f: FetchedStep) { f.step.Snapshot? ==> Separated(MergeOf(f.remote)) }

  lemma SnapshotCleanExactlyWhen(c: FetchedCall)
    requires Separated(MergeOf(c.remote)) && Separated(c.was)
    ensures Separated(SnapshotOf(c)) <==> AvoidsStored(c)
  {
    hide Local, MergeOf, Keys, HasSchedulingConflict, Separated, Kept;
    var l := Local(c.was, 1);
    SeparatedLocal(c.was, 1);
    SeparatedMerge(l);
    ViewSeparatedExactlyWhen(c.remote, c.was, 1);
    KeptSeparated(c.remote, l);
    forall r
      ensures r in Kept(c.remote, l) <==> r in MergeOf(c.remote) && (r.id.None? || r.id.value !in Keys(l))
    {
      KeptMember(c.remote, l, r);
    }
  }

  lemma WrittenSeparatedExactlyWhen(a: Cita, s: seq<Cita>)
    requires !ConflictsWithSome(a, s)
    ensures Separated([a] + s) <==> Separated(s)
  {
    hide HasSchedulingConflict;
    if Separated(s) {
      SeparatedCons(a, s);
    }
    if Separated([a] + s) {
      SeparatedJoin([a], s);
    }
  }

  lemma NextKeepsClean(s: FetchedState, f: FetchedStep)
    requires Separated(s.local) && CleanCalls(s) && CleanFetch(f)
    ensures CleanCalls(NextFetched(s, f))
  {
    hide MergeOf, HasSchedulingConflict, View, NewAppointment, AfterWrite;
  }

  lemma StepSafeExactlyWhen(s: FetchedState, f: FetchedStep)
    requires Separated(s.local) && CleanCalls(s) && CleanFetch(f)
    ensures Separated(NextFetched(s, f).local) <==> SafeStep(s, f)
  {
    hide MergeOf, View, NewAppointment, Separated, ConflictsWithSome, AvoidsStored;
    if f.step.CheckAndWrite? && f.step.k in s.inFlight {
      var c := s.inFlight[f.step.k];
      SnapshotCleanExactlyWhen(c);
      if !ConflictsWithSome(c.cita, SnapshotOf(c)) {
        WrittenSeparatedExactlyWhen(c.cita, SnapshotOf(c));
      }
    }
  }

  /** SAFETY with changing remote lists, exactly when. In every interleaving of calls that each fetch a
      conflict-free list of their own, with any failing reads and writes, the storage is free of conflicts at every
      point if and only if every accepted call whose write succeeds had fetched a list that avoids the storage it
      read. */
  lemma {:induction false} StorageSafeExactlyWhen(s: FetchedState, steps: seq<FetchedStep>)
    requires Separated(s.local) && CleanCalls(s) && forall i :: 0 <= i < |steps| ==> CleanFetch(steps[i])
    ensures (forall n :: 0 <= n <= |steps| ==> Separated(RunFetched(s, steps[..n]).local)) <==> SafeSteps(s, steps)
    decreases |steps|
  {
    hide Separated, CleanCalls, CleanFetch, NextFetched, SafeStep;
    assert steps[..0] == [];
    if steps != [] {
      var t, rest := NextFetched(s, steps[0]), steps[1..];
      NextKeepsClean(s, steps[0]);
      StepSafeExactlyWhen(s, steps[0]);
      forall n | 1 <= n <= |steps|
        ensures RunFetched(s, steps[..n]) == RunFetched(t, rest[..n - 1])
      {
        assert steps[..n][0] == steps[0] && steps[..n][1..] == rest[..n - 1];
      }
      assert rest[..0] == [];
      assert RunFetched(s, steps[..1]) == RunFetched(t, rest[..0]) == t;
      if SafeStep(s, steps[0]) {
        assert forall i :: 0 <= i < |rest| ==> rest[i] == steps[i + 1];
        StorageSafeExactlyWhen(t, rest);
        if forall n :: 0 <= n <= |steps| ==> Separated(RunFetched(s, steps[..n]).local) {
          forall m | 0 <= m <= |rest|
            ensures Separated(RunFetched(t, rest[..m]).local)
          {
            assert RunFetched(s, steps[..m + 1]) == RunFetched(t, rest[..m]);
          }
        }
      }
    }
  }
}
