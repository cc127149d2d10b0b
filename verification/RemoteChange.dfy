/** The merged view over a remote list that is not the one the bookings were checked against: the server stops
    answering, or it answers with its own copy of a booking (src/services/barberiaApi.js). */
module RemoteChange {
  import opened Basics
  import opened Scheduling
  import opened Merge
  import opened MergeLaws
  import opened BookingProtocol
  import opened BookingConservation

  // ---------- which records of the two lists are shown ----------

  function NotIn(ks: seq<Key>): Cita -> bool { (c: Cita) => c.id.None? || c.id.value !in ks }

  /** The remote records that no record of the stored list `l` replaces. */
  function Kept(remote: seq<Cita>, l: seq<Cita>): seq<Cita> { Filter(MergeOf(remote), NotIn(Keys(l))) }

  function KeptKeyed(remote: seq<Cita>, l: seq<Cita>): seq<Cita> { Filter(Values(remote), NotIn(Keys(l))) }

  lemma KeptParts(remote: seq<Cita>, l: seq<Cita>)
    ensures Kept(remote, l) == KeptKeyed(remote, l) + Filter(remote, LacksId)
  {
    FilterAppend(Values(remote), Filter(remote, LacksId), NotIn(Keys(l)));
    FilterMembers(remote, LacksId);
    FilterAll(Filter(remote, LacksId), NotIn(Keys(l)));
  }

  lemma ValuesMember(s: seq<Cita>, x: Cita)
    ensures x in Values(s) <==> x.id.Some? && x.id.value in Keys(s) && Last(s, x.id.value) == x
  {
    hide Last, Keys;
    if x in Values(s) {
      var i :| 0 <= i < |Values(s)| && Values(s)[i] == x;
      assert Keys(s)[i] in Keys(s);
    }
    if x.id.Some? && x.id.value in Keys(s) {
      ValuesAt(s, x.id.value);
    }
  }

  lemma JoinedMember(remote: seq<Cita>, l: seq<Cita>, x: Cita)
    ensures x in Values(remote + l) <==> x in KeptKeyed(remote, l) || x in Values(l)
  {
    hide Values, Filter, Keys, Last;
    ValuesMember(remote + l, x);
    ValuesMember(remote, x);
    ValuesMember(l, x);
    FilterMembers(Values(remote), NotIn(Keys(l)));
    if x.id.Some? {
      var k := x.id.value;
      KeysAppend(remote, l);
      NewKeysMember(Keys(l), Keys(remote), k);
      if k in Keys(remote + l) {
        LastAppend(remote, l, k);
      }
    }
  }

  // ---------- separation of a list without repetitions is a matter of its members ----------

  lemma DistinctSeparated(vs: seq<Cita>)
    requires Distinct(vs)
    ensures Separated(vs) <==> forall x, y :: x in vs && y in vs && x != y ==> !HasSchedulingConflict(x, y)
  {
    hide HasSchedulingConflict;
    if Separated(vs) {
      forall x, y | x in vs && y in vs && x != y
        ensures !HasSchedulingConflict(x, y)
      {
        SeparatedMembers(vs, x, y);
      }
    }
  }

  lemma {:induction false} FilterDistinct(s: seq<Cita>, p: Cita -> bool)
    requires Distinct(s)
    ensures Distinct(Filter(s, p))
  {
    if s != [] {
      var n := |s| - 1;
      FilterDistinct(s[..n], p);
      FilterMembers(s[..n], p);
      var rest := Filter(s[..n], p);
      forall i | 0 <= i < |rest|
        ensures rest[i] != s[n]
      {
        assert rest[i] in s[..n];
      }
    }
  }

  lemma ValuesDistinct(s: seq<Cita>)
    ensures Distinct(Values(s))
  {
    ValuesKeyed(s);
    KeysDistinct(s);
  }

  /** No member of the first list conflicts with a member of the second. */
  ghost predicate Apart(s: seq<Cita>, t: seq<Cita>) {
    forall x, y :: x in s && y in t ==> !HasSchedulingConflict(x, y)
  }

  lemma KeyedPartsSeparated(remote: seq<Cita>, l: seq<Cita>)
    ensures Separated(Values(remote + l)) <==>
            Separated(KeptKeyed(remote, l)) && Separated(Values(l)) && Apart(KeptKeyed(remote, l), Values(l))
  {
    hide Values, KeptKeyed, HasSchedulingConflict, Separated;
    var all, kept, own := Values(remote + l), KeptKeyed(remote, l), Values(l);
    ValuesDistinct(remote + l);
    ValuesDistinct(l);
    KeptDistinct(remote, l);
    DistinctSeparated(all);
    DistinctSeparated(kept);
    DistinctSeparated(own);
    forall x
      ensures x in all <==> x in kept || x in own
    {
      JoinedMember(remote, l, x);
    }
    forall x, y | x in kept && y in own
      ensures x != y && HasSchedulingConflict(x, y) == HasSchedulingConflict(y, x)
    {
      KeptNotOwn(remote, l, x);
      ConflictSymmetric(x, y);
    }
  }

  lemma KeptDistinct(remote: seq<Cita>, l: seq<Cita>)
    ensures Distinct(KeptKeyed(remote, l))
  {
    ValuesDistinct(remote);
    FilterDistinct(Values(remote), NotIn(Keys(l)));
  }

  lemma KeptNotOwn(remote: seq<Cita>, l: seq<Cita>, x: Cita)
    requires x in KeptKeyed(remote, l)
    ensures x !in Values(l)
  {
    hide Values, Keys, Last, Filter;
    FilterMembers(Values(remote), NotIn(Keys(l)));
    ValuesMember(remote, x);
    ValuesMember(l, x);
  }

  /** For every remote and every stored list: the view is free of conflicts if and only if the remote records that stay
      visible are, the stored ones of the client are, and no visible remote record conflicts with a stored one. */
  lemma ViewSeparatedExactlyWhen(remote: seq<Cita>, local: seq<Cita>, clientId: int)
    ensures var l := Local(local, clientId);
            Separated(View(remote, local, clientId)) <==>
            Separated(Kept(remote, l)) && Separated(MergeOf(l)) && Apart(Kept(remote, l), MergeOf(l))
  {
    hide Local, Values, KeptKeyed, Filter, HasSchedulingConflict, Separated;
    var l := Local(local, clientId);
    var p, q := Filter(remote, LacksId), Filter(l, LacksId);
    KeptParts(remote, l);
    FilterAppend(remote, l, LacksId);
    KeyedPartsSeparated(remote, l);
    SeparatedJoin(Values(remote + l), p + q);
    SeparatedJoin(p, q);
    SeparatedJoin(KeptKeyed(remote, l), p);
    SeparatedJoin(Values(l), q);
    forall x
      ensures x in Values(remote + l) <==> x in KeptKeyed(remote, l) || x in Values(l)
    {
      JoinedMember(remote, l, x);
    }
    forall x, y
      ensures HasSchedulingConflict(x, y) == HasSchedulingConflict(y, x)
    {
      ConflictSymmetric(x, y);
    }
  }

  /** The kept records are among those of the remote list. */
  lemma KeptMember(remote: seq<Cita>, l: seq<Cita>, r: Cita)
    ensures r in Kept(remote, l) <==> r in MergeOf(remote) && (r.id.None? || r.id.value !in Keys(l))
  {
    hide MergeOf, Keys;
    FilterMembers(MergeOf(remote), NotIn(Keys(l)));
  }

  // ---------- another remote list behind the same storage ----------

  lemma SeparatedMerge(s: seq<Cita>)
    requires Separated(s)
    ensures Separated(MergeOf(s))
  {
    hide Values, Filter, HasSchedulingConflict, Separated, Keys, Last;
    var vs, rest := Values(s), Filter(s, LacksId);
    ValuesDistinct(s);
    DistinctSeparated(vs);
    SeparatedFilter(s, LacksId);
    SeparatedJoin(vs, rest);
    FilterMembers(s, LacksId);
    forall x
      ensures x in vs ==> x in s && x.id.Some?
    {
      ValuesMember(s, x);
    }
    forall x, y | x in s && y in s && x != y
      ensures !HasSchedulingConflict(x, y)
    {
      SeparatedMembers(s, x, y);
    }
  }

  /** REMOTE CHANGE. After any run over one remote list, with any number of calls in flight and any failures, another
      conflict-free remote list is shown without conflicts if and only if none of its records conflicts with a stored
      one, save those that a stored record replaces under the same id. */
  lemma ChangeAfterRunSafeExactlyWhen(before: seq<Cita>, after: seq<Cita>, s: State, steps: seq<Step>)
    requires RemoteSafe(before) && Separated(View(before, [], 1)) && Inv(before, s) && Separated(MergeOf(after))
    ensures var l := Local(Run(before, s, steps).local, 1);
            Separated(View(after, Run(before, s, steps).local, 1)) <==>
            forall r, c :: r in MergeOf(after) && (r.id.None? || r.id.value !in Keys(l)) && c in MergeOf(l) ==>
              !HasSchedulingConflict(r, c)
  {
    hide Run, View, Local, MergeOf, Keys, HasSchedulingConflict, Separated, Kept;
    RunsStaySeparated(before, s, steps);
    var stored := Run(before, s, steps).local;
    var l := Local(stored, 1);
    SeparatedLocal(stored, 1);
    SeparatedMerge(l);
    ViewSeparatedExactlyWhen(after, stored, 1);
    KeptSeparated(after, l);
    forall r
      ensures r in Kept(after, l) <==> r in MergeOf(after) && (r.id.None? || r.id.value !in Keys(l))
    {
      KeptMember(after, l, r);
    }
  }

  lemma KeptSeparated(remote: seq<Cita>, l: seq<Cita>)
    requires Separated(MergeOf(remote))
    ensures Separated(Kept(remote, l))
  {
    SeparatedFilter(MergeOf(remote), NotIn(Keys(l)));
  }

  // ---------- the server's own copy of a booking ----------

  /** The record occupies the same time of the same barber. */
  predicate SameSlot(c: Cita, a: Cita) {
    c.barberoId == a.barberoId && c.fecha == a.fecha && c.hora == a.hora
  }

  lemma SameSlotSameConflicts(c: Cita, a: Cita, x: Cita)
    requires SameSlot(c, a)
    ensures HasSchedulingConflict(c, x) == HasSchedulingConflict(a, x)
    ensures HasSchedulingConflict(x, c) == HasSchedulingConflict(a, x)
  {
    ConflictSymmetric(a, x);
  }

  lemma ValuesSnocMember(remote: seq<Cita>, c: Cita, x: Cita)
    requires c.id.Some?
    ensures x in Values(remote + [c]) <==> x == c || (x in Values(remote) && x.id != c.id)
  {
    hide Values, Keys, Last;
    ValuesMember(remote + [c], x);
    ValuesMember(remote, x);
    KeysSnoc(remote, c);
    if x.id.Some? && x.id.value in Keys(remote + [c]) {
      LastSnoc(remote, c, x.id.value);
    }
  }

  /** With the copy, the kept keyed records are the copy, unless a stored record has its id, and the former ones under
      other ids. */
  lemma KeptWithCopy(remote: seq<Cita>, c: Cita, l: seq<Cita>, x: Cita)
    requires c.id.Some?
    ensures x in KeptKeyed(remote + [c], l) <==>
            (x == c && c.id.value !in Keys(l)) || (x in KeptKeyed(remote, l) && x.id != c.id)
  {
    hide Values, Keys, Filter;
    FilterMembers(Values(remote + [c]), NotIn(Keys(l)));
    FilterMembers(Values(remote), NotIn(Keys(l)));
    ValuesSnocMember(remote, c, x);
  }

  lemma NewIsShown(remote: seq<Cita>, local: seq<Cita>, a: Cita)
    requires NewFor(remote, local, a)
    ensures var l := Local([a] + View(remote, local, 1), 1);
            a.id.value in Keys(l) && a in Values(l)
  {
    hide Values, Keys, Last, View, NewFor;
    var l := Local([a] + View(remote, local, 1), 1);
    assert a.id.Some? && OfClient(a, 1) by { NewForMeans(remote, local, a); }
    LocalMembers([a] + View(remote, local, 1), 1);
    KeyPresent(l, a);
    KeysAppend(remote, l);
    NewKeysMember(Keys(l), Keys(remote), a.id.value);
    NextNewValue(remote, local, a);
    LastAppend(remote, l, a.id.value);
    ValuesMember(l, a);
  }

  lemma NewForMeans(remote: seq<Cita>, local: seq<Cita>, a: Cita)
    requires NewFor(remote, local, a)
    ensures a.id.Some? && OfClient(a, 1)
  {}

  /** After the write, the records that are kept or stored were in the snapshot, except for the booking itself. */
  lemma ShownBefore(remote: seq<Cita>, local: seq<Cita>, a: Cita, y: Cita)
    requires a.id.Some?
    requires var l := Local([a] + View(remote, local, 1), 1);
             y in KeptKeyed(remote, l) || y in Filter(remote, LacksId) || y in Values(l) || y in Filter(l, LacksId)
    ensures y in [a] + View(remote, local, 1)
  {
    hide Values, Filter, Keys, Last, View, KeptKeyed;
    var l := Local([a] + View(remote, local, 1), 1);
    JoinedMember(remote, l, y);
    FilterAppend(remote, l, LacksId);
    if y in Values(remote + l) {
      NextKeyedIn(remote, local, a, y);
    } else {
      NextUnkeyedIn(remote, local, a, y);
    }
  }

  /** Nothing that is kept or stored conflicts with an accepted booking, except perhaps the booking itself. */
  lemma AcceptedFits(remote: seq<Cita>, local: seq<Cita>, a: Cita, y: Cita)
    requires a.id.Some? && !ConflictsWithSome(a, View(remote, local, 1))
    requires var l := Local([a] + View(remote, local, 1), 1);
             y in Kept(remote, l) || y in MergeOf(l)
    ensures y == a || !HasSchedulingConflict(a, y)
  {
    hide Values, Filter, Keys, View, Kept, KeptKeyed, HasSchedulingConflict;
    var l := Local([a] + View(remote, local, 1), 1);
    KeptParts(remote, l);
    ShownBefore(remote, local, a, y);
    if y != a {
      assert y in View(remote, local, 1);
    }
  }

  lemma KeptSeparatedWithCopy(remote: seq<Cita>, c: Cita, l: seq<Cita>)
    requires c.id.Some? && Separated(Kept(remote, l))
    requires c.id.value in Keys(l) || forall y :: y in Kept(remote, l) ==> !HasSchedulingConflict(c, y)
    ensures Separated(Kept(remote + [c], l))
    ensures forall x :: x in Kept(remote + [c], l) ==> x in Kept(remote, l) || (x == c && c.id.value !in Keys(l))
  {
    hide Values, Filter, Keys, Kept, KeptKeyed, HasSchedulingConflict, Separated;
    var p, kept, next := Filter(remote, LacksId), KeptKeyed(remote, l), KeptKeyed(remote + [c], l);
    KeptParts(remote, l);
    KeptParts(remote + [c], l);
    FilterSnoc(remote, c, LacksId);
    KeptDistinct(remote, l);
    KeptDistinct(remote + [c], l);
    DistinctSeparated(kept);
    DistinctSeparated(next);
    SeparatedJoin(kept, p);
    SeparatedJoin(next, p);
    forall x
      ensures x in next <==> (x == c && c.id.value !in Keys(l)) || (x in kept && x.id != c.id)
    {
      KeptWithCopy(remote, c, l, x);
    }
    forall x, y
      ensures HasSchedulingConflict(x, y) == HasSchedulingConflict(y, x)
    {
      ConflictSymmetric(x, y);
    }
  }

  lemma CopyIsKept(remote: seq<Cita>, c: Cita, l: seq<Cita>)
    requires c.id.Some? && c.id.value !in Keys(l)
    ensures c in Kept(remote + [c], l)
  {
    hide Values, Filter, Keys;
    KeptParts(remote + [c], l);
    KeptWithCopy(remote, c, l, c);
  }

  /** SERVER COPY. Once the server lists its copy `c` of an accepted booking, under any id and with any other
      fields, the view stays free of conflicts if and only if the copy has the id of the booking or of another
      stored record, or the booking has no valid time to conflict with. */
  lemma ServerCopySafeExactlyWhen(remote: seq<Cita>, local: seq<Cita>, a: Cita, c: Cita)
    requires RemoteSafe(remote) && Separated(View(remote, local, 1)) && NewFor(remote, local, a)
    requires !ConflictsWithSome(a, View(remote, local, 1)) && c.id.Some? && SameSlot(c, a)
    ensures Separated(View(remote, [a] + View(remote, local, 1), 1))
    ensures Separated(View(remote + [c], [a] + View(remote, local, 1), 1)) <==>
            c.id.value in Keys(Local([a] + View(remote, local, 1), 1)) || !HasSchedulingConflict(a, a)
  {
    hide MergeOf, Keys, View, Kept, HasSchedulingConflict, Separated, ConflictsWithSome, NewFor, RemoteSafe;
    var stored := [a] + View(remote, local, 1);
    var l := Local(stored, 1);
    NewForMeans(remote, local, a);
    WriteKeepsSeparation(remote, local, a);
    ViewSeparatedExactlyWhen(remote, stored, 1);
    ViewSeparatedExactlyWhen(remote + [c], stored, 1);
    NewIsShown(remote, local, a);
    assert a in MergeOf(l) by { LastInMerge(l, a.id.value); ValuesMember(l, a); }
    forall y | y in Kept(remote, l) || y in MergeOf(l)
      ensures y == a || !HasSchedulingConflict(c, y)
      ensures y in Kept(remote, l) ==> y != a
    {
      AcceptedFits(remote, local, a, y);
      SameSlotSameConflicts(c, a, y);
      KeptMember(remote, l, y);
    }
    SameSlotSameConflicts(c, a, a);
    KeptSeparatedWithCopy(remote, c, l);
    if c.id.value !in Keys(l) {
      CopyIsKept(remote, c, l);
    }
  }

  /** For a well-formed hour and a server id that is not in the list yet: the two copies of a booking conflict exactly
      when the server's id is not the local one. */
  lemma ServerIdMustAgree(remote: seq<Cita>, local: seq<Cita>, a: Cita, c: Cita)
    requires RemoteSafe(remote) && Separated(View(remote, local, 1)) && NewFor(remote, local, a)
    requires !ConflictsWithSome(a, View(remote, local, 1)) && c.id.Some? && SameSlot(c, a)
    requires ValidHora(a.hora) && a.barberoId.Some? && c.id.value !in Keys(View(remote, local, 1))
    ensures Separated(View(remote + [c], [a] + View(remote, local, 1), 1)) <==> c.id == a.id
  {
    hide View, Separated, ConflictsWithSome, NewFor, RemoteSafe, Keys, ValidHora, HasSchedulingConflict;
    var s := View(remote, local, 1);
    ServerCopySafeExactlyWhen(remote, local, a, c);
    ConflictMeaning(a, a);
    NewForMeans(remote, local, a);
    NewIsShown(remote, local, a);
    if c.id.value in Keys(Local([a] + s, 1)) {
      StoredKeyWasShown(s, a, c.id.value);
    }
  }

  lemma StoredKeyWasShown(s: seq<Cita>, a: Cita, k: Key)
    requires k in Keys(Local([a] + s, 1))
    ensures a.id == Some(k) || k in Keys(s)
  {
    var r := Last(Local([a] + s, 1), k);
    LocalMembers([a] + s, 1);
    if r != a {
      assert r in s;
      KeyPresent(s, r);
    }
  }
}
