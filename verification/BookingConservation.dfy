/** What a booking adds to the merged view, one call and whole runs of calls that do not overlap. */
module BookingConservation {
  import opened Basics
  import opened Scheduling
  import opened Merge
  import opened MergeLaws
  import opened BookingProtocol

  ghost predicate KeepsUnkeyedOut(remote: seq<Cita>) {
    forall r :: r in remote && r.id.None? ==> !OfClient(r, 1)
  }

  // ---------- the keys of the next view ----------

  lemma TailKeys(w1: seq<Cita>, v2: seq<Cita>, w3: seq<Cita>, tail: seq<Key>)
    requires KeyedBy(v2, tail)
    requires forall k :: k in tail ==> k !in Keys(w1)
    requires forall c :: c in w3 ==> c.id.None?
    ensures Keys(w1 + (v2 + w3)) == Keys(w1) + tail
  {
    KeysWithoutIds(w3);
    KeysOfKeyed(v2, tail);
    KeysAppend(v2, w3);
    assert Keys(v2 + w3) == tail + [] == tail;
    KeysAppend(w1, v2 + w3);
    NewKeysSame(tail, Keys(w1));
  }

  lemma NewKeysOfThree(first: seq<Key>, head: seq<Key>, tail: seq<Key>, seen: seq<Key>)
    requires forall k :: k in first ==> k !in seen
    requires forall k :: k in head ==> k in seen
    requires forall k :: k in tail ==> k !in seen
    ensures NewKeys(first + (head + tail), seen) == first + tail
  {
    NewKeysAppend(first, head + tail, seen);
    NewKeysAppend(head, tail, seen);
    NewKeysSame(first, seen);
    NewKeysNone(head, seen);
    NewKeysSame(tail, seen);
    assert [] + tail == tail;
  }

  lemma JoinedKeys(remote: seq<Cita>, a: Cita, l: seq<Cita>, head: seq<Key>, tail: seq<Key>)
    requires a.id.Some? && a.id.value !in Keys(remote) && a.id.value !in tail
    requires Keys(l) == head + tail
    requires forall k :: k in head ==> k in Keys(remote)
    requires forall k :: k in tail ==> k !in Keys(remote)
    ensures Keys(remote + ([a] + l)) == Keys(remote) + [a.id.value] + tail
  {
    hide Keys, NewKeys;
    var single := [a.id.value];
    KeysOfKeyed([a], single);
    KeysAppend([a], l);
    NewKeysSame(head + tail, single);
    assert Keys([a] + l) == single + (head + tail);
    KeysAppend(remote, [a] + l);
    NewKeysOfThree(single, head, tail, Keys(remote));
  }

  /** The appointment is of client 1 and its id occurs in neither list. */
  ghost predicate NewFor(remote: seq<Cita>, local: seq<Cita>, a: Cita) {
    a.id.Some? && OfClient(a, 1) && a.id.value !in Keys(remote + Local(local, 1))
  }

  lemma KeptPart(remote: seq<Cita>, local: seq<Cita>)
    ensures var t := remote + Local(local, 1);
            var n := |Keys(remote)|;
            n <= |Keys(t)| && Keys(t)[..n] == Keys(remote) &&
            (forall k :: k in Keys(t)[n..] ==> k !in Keys(remote)) &&
            (forall c :: c in Values(t)[n..] ==> OfClient(c, 1))
  {
    var t, n := remote + Local(local, 1), |Keys(remote)|;
    KeysAppend(remote, Local(local, 1));
    forall k | k in Keys(t)[n..]
      ensures k !in Keys(remote)
    {
      var i :| 0 <= i < |Keys(t)[n..]| && Keys(t)[n..][i] == k;
      KeptKey(remote, local, n + i);
    }
    forall c | c in Values(t)[n..]
      ensures OfClient(c, 1)
    {
      var i :| 0 <= i < |Values(t)[n..]| && Values(t)[n..][i] == c;
      KeptKey(remote, local, n + i);
    }
  }

  lemma LocalOfThree(v1: seq<Cita>, v2: seq<Cita>, rest: seq<Cita>)
    requires forall c :: c in v2 ==> OfClient(c, 1)
    ensures Local(v1 + v2 + rest, 1) == Local(v1, 1) + (v2 + Local(rest, 1))
  {
    assert v1 + v2 + rest == v1 + (v2 + rest);
    LocalAppend(v1, v2 + rest, 1);
    LocalAppend(v2, rest, 1);
    LocalAll(v2, 1);
  }

  /** The records of client 1 in a snapshot: some that carry remote ids, then all with other ids, then some without. */
  lemma LocalOfSnapshot(remote: seq<Cita>, local: seq<Cita>)
    ensures var t := remote + Local(local, 1);
            var n := |Keys(remote)|;
            n <= |Keys(t)| &&
            Local(View(remote, local, 1), 1)
              == Local(Values(t)[..n], 1) + (Values(t)[n..] + Local(Filter(t, LacksId), 1))
  {
    var t, n := remote + Local(local, 1), |Keys(remote)|;
    var vs := Values(t);
    KeptPart(remote, local);
    assert vs == vs[..n] + vs[n..];
    LocalOfThree(vs[..n], vs[n..], Filter(t, LacksId));
  }

  lemma RemoteKeysKept(remote: seq<Cita>, local: seq<Cita>, k: Key)
    requires |Keys(remote)| <= |Keys(remote + Local(local, 1))|
    requires k in Keys(Local(Values(remote + Local(local, 1))[..|Keys(remote)|], 1))
    ensures k in Keys(remote)
  {
    var t, n := remote + Local(local, 1), |Keys(remote)|;
    var v1 := Values(t)[..n];
    var c := Last(Local(v1, 1), k);
    LocalMembers(v1, 1);
    var i :| 0 <= i < n && v1[i] == c;
    ValuesKeyed(t);
    KeptKey(remote, local, i);
  }

  lemma LocalWithNew(a: Cita, s: seq<Cita>)
    requires OfClient(a, 1)
    ensures Local([a] + s, 1) == [a] + Local(s, 1)
  {
    LocalAppend([a], s, 1);
    LocalAll([a], 1);
  }

  lemma TailKeyed(t: seq<Cita>, n: nat)
    requires n <= |Keys(t)|
    ensures KeyedBy(Values(t)[n..], Keys(t)[n..])
  {
    ValuesKeyed(t);
  }

  lemma NextKeyParts(remote: seq<Cita>, local: seq<Cita>)
    ensures var t := remote + Local(local, 1);
            var n := |Keys(remote)|;
            n <= |Keys(t)| &&
            Keys(Local(View(remote, local, 1), 1)) == Keys(Local(Values(t)[..n], 1)) + Keys(t)[n..]
  {
    var t, n := remote + Local(local, 1), |Keys(remote)|;
    KeptPart(remote, local);
    LocalOfSnapshot(remote, local);
    var w1, v2, w3 := Local(Values(t)[..n], 1), Values(t)[n..], Local(Filter(t, LacksId), 1);
    forall k | k in Keys(t)[n..]
      ensures k !in Keys(w1)
    {
      if k in Keys(w1) {
        RemoteKeysKept(remote, local, k);
      }
    }
    TailKeyed(t, n);
    FilterMembers(t, LacksId);
    LocalMembers(Filter(t, LacksId), 1);
    TailKeys(w1, v2, w3, Keys(t)[n..]);
  }

  /** Its key stands right after the remote keys. */
  lemma NextKeys(remote: seq<Cita>, local: seq<Cita>, a: Cita)
    requires NewFor(remote, local, a)
    ensures var ks := Keys(remote + Local(local, 1));
            var n := |Keys(remote)|;
            n <= |ks| &&
            Keys(remote + Local([a] + View(remote, local, 1), 1)) == ks[..n] + [a.id.value] + ks[n..]
  {
    hide Keys, Local, Values, Filter, MergeOf, Last;
    var t, n := remote + Local(local, 1), |Keys(remote)|;
    var ks := Keys(t);
    KeptPart(remote, local);
    NextKeyParts(remote, local);
    var w1 := Local(Values(t)[..n], 1);
    forall k | k in Keys(w1)
      ensures k in Keys(remote)
    {
      RemoteKeysKept(remote, local, k);
    }
    LocalWithNew(a, View(remote, local, 1));
    assert ks == ks[..n] + ks[n..];
    JoinedKeys(remote, a, Local(View(remote, local, 1), 1), Keys(w1), ks[n..]);
  }

  // ---------- the values of the next view ----------

  lemma SameKeySameRecord(s: seq<Cita>, x: Cita, y: Cita)
    requires x in MergeOf(s) && y in MergeOf(s) && x.id.Some? && x.id == y.id
    ensures x == y
  {
    FilterMembers(s, LacksId);
    ValuesKeyed(s);
    var i :| 0 <= i < |Keys(s)| && Values(s)[i] == x;
    var j :| 0 <= j < |Keys(s)| && Values(s)[j] == y;
    assert Keys(s)[i] == Keys(s)[j];
  }

  lemma FilterOne(c: Cita)
    ensures Filter([c], LacksId) == if LacksId(c) then [c] else []
    ensures Local([c], 1) == if OfClient(c, 1) then [c] else []
  {
    assert [c][..0] == [];
    assert [] + [c] == [c];
  }

  lemma {:induction false} FilterLocal(s: seq<Cita>)
    ensures Filter(Local(s, 1), LacksId) == Local(Filter(s, LacksId), 1)
  {
    if s != [] {
      var u, c := s[..|s| - 1], s[|s| - 1];
      assert s == u + [c];
      FilterLocal(u);
      FilterAppend(u, [c], LacksId);
      LocalAppend(u, [c], 1);
      FilterAppend(Local(u, 1), Local([c], 1), LacksId);
      LocalAppend(Filter(u, LacksId), Filter([c], LacksId), 1);
      FilterOne(c);
    }
  }

  lemma UnkeyedOfWritten(remote: seq<Cita>, local: seq<Cita>, a: Cita)
    requires a.id.Some?
    ensures Filter([a] + View(remote, local, 1), LacksId) == Filter(remote + Local(local, 1), LacksId)
  {
    var s := View(remote, local, 1);
    FilterAppend([a], s, LacksId);
    FilterOne(a);
    KeysOfMerge(remote + Local(local, 1));
    assert [] + Filter(s, LacksId) == Filter(s, LacksId);
  }

  lemma LocalOfUnkeyed(p: seq<Cita>, local: seq<Cita>)
    ensures Local(p + Filter(Local(local, 1), LacksId), 1) == Local(p, 1) + Filter(Local(local, 1), LacksId)
  {
    var q := Filter(Local(local, 1), LacksId);
    LocalAppend(p, q, 1);
    LocalMembers(local, 1);
    FilterMembers(Local(local, 1), LacksId);
    LocalAll(q, 1);
  }

  /** Writing a snapshot back doubles the remote records of client 1 without id and leaves the other such records. */
  lemma NextUnkeyed(remote: seq<Cita>, local: seq<Cita>, a: Cita)
    requires a.id.Some?
    ensures var p, q := Filter(remote, LacksId), Filter(Local(local, 1), LacksId);
            Filter(remote + Local(local, 1), LacksId) == p + q &&
            Filter(remote + Local([a] + View(remote, local, 1), 1), LacksId) == p + (Local(p, 1) + q)
  {
    hide *;
    var s := View(remote, local, 1);
    FilterAppend(remote, Local(local, 1), LacksId);
    FilterAppend(remote, Local([a] + s, 1), LacksId);
    FilterLocal([a] + s);
    UnkeyedOfWritten(remote, local, a);
    LocalOfUnkeyed(Filter(remote, LacksId), local);
  }

  lemma NextNewValue(remote: seq<Cita>, local: seq<Cita>, a: Cita)
    requires NewFor(remote, local, a)
    requires a.id.value in Keys(remote + Local([a] + View(remote, local, 1), 1))
    ensures Last(remote + Local([a] + View(remote, local, 1), 1), a.id.value) == a
  {
    hide Local, Values, Filter, MergeOf, Last, Keys;
    NextKeyedMember(remote, local, a, a.id.value);
    KeysOfMerge(remote + Local(local, 1));
    var c := Last(remote + Local([a] + View(remote, local, 1), 1), a.id.value);
    if c != a {
      KeyPresent(View(remote, local, 1), c);
    }
  }

  lemma NextOldValue(remote: seq<Cita>, local: seq<Cita>, a: Cita, k: Key)
    requires NewFor(remote, local, a)
    requires k in Keys(remote + Local([a] + View(remote, local, 1), 1)) && k in Keys(remote + Local(local, 1))
    ensures Last(remote + Local([a] + View(remote, local, 1), 1), k) == Last(remote + Local(local, 1), k)
  {
    hide Local, Values, Filter, MergeOf, Last, Keys;
    NextKeyedMember(remote, local, a, k);
    LastInMerge(remote + Local(local, 1), k);
    var c := Last(remote + Local([a] + View(remote, local, 1), 1), k);
    assert c.id == Some(k) && c != a;
    SameKeySameRecord(remote + Local(local, 1), c, Last(remote + Local(local, 1), k));
  }

  lemma NextValueAt(remote: seq<Cita>, local: seq<Cita>, a: Cita, i: nat)
    requires NewFor(remote, local, a)
    requires |Keys(remote)| <= |Keys(remote + Local(local, 1))|
    requires i < |Keys(remote + Local([a] + View(remote, local, 1), 1))|
    ensures i <= |Keys(remote + Local(local, 1))|
    ensures Values(remote + Local([a] + View(remote, local, 1), 1))[i]
            == if i == |Keys(remote)| then a
               else Values(remote + Local(local, 1))[if i < |Keys(remote)| then i else i - 1]
  {
    hide Local, Filter, MergeOf, Last, Keys;
    var t, n := remote + Local(local, 1), |Keys(remote)|;
    var u := remote + Local([a] + View(remote, local, 1), 1);
    NextKeys(remote, local, a);
    assert Keys(u)[i] in Keys(u);
    if i == n {
      NextNewValue(remote, local, a);
    } else {
      var j := if i < n then i else i - 1;
      assert Keys(u)[i] == Keys(t)[j] && Keys(t)[j] in Keys(t);
      NextOldValue(remote, local, a, Keys(t)[j]);
    }
  }

  lemma NextValues(remote: seq<Cita>, local: seq<Cita>, a: Cita)
    requires NewFor(remote, local, a)
    ensures var vs, n := Values(remote + Local(local, 1)), |Keys(remote)|;
            n <= |vs| &&
            Values(remote + Local([a] + View(remote, local, 1), 1)) == vs[..n] + [a] + vs[n..]
  {
    var vs, n := Values(remote + Local(local, 1)), |Keys(remote)|;
    NextKeys(remote, local, a);
    var ws := Values(remote + Local([a] + View(remote, local, 1), 1));
    var want := vs[..n] + [a] + vs[n..];
    assert |ws| == |want|;
    forall i | 0 <= i < |ws|
      ensures ws[i] == want[i]
    {
      NextValueAt(remote, local, a, i);
    }
  }

  lemma InsertBeforeRest(vs: seq<Cita>, rest: seq<Cita>, n: nat, a: Cita)
    requires n <= |vs|
    ensures (vs[..n] + [a] + vs[n..]) + rest == (vs + rest)[..n] + [a] + (vs + rest)[n..]
  {}

  lemma {:induction false} NoneOfClient(s: seq<Cita>)
    requires forall c :: c in s ==> !OfClient(c, 1)
    ensures Local(s, 1) == []
  {
    if s != [] {
      NoneOfClient(s[..|s| - 1]);
    }
  }

  lemma NoLocalUnkeyed(remote: seq<Cita>)
    requires KeepsUnkeyedOut(remote)
    ensures Local(Filter(remote, LacksId), 1) == []
  {
    FilterMembers(remote, LacksId);
    NoneOfClient(Filter(remote, LacksId));
  }

  lemma UnkeyedSame(remote: seq<Cita>, local: seq<Cita>, a: Cita)
    requires a.id.Some? && KeepsUnkeyedOut(remote)
    ensures Filter(remote + Local([a] + View(remote, local, 1), 1), LacksId)
            == Filter(remote + Local(local, 1), LacksId)
  {
    hide *;
    NextUnkeyed(remote, local, a);
    NoLocalUnkeyed(remote);
    var p, q := Filter(remote, LacksId), Filter(Local(local, 1), LacksId);
    assert [] + q == q;
  }

  /** CONSERVATION, one call. An accepted booking of client 1 under a new id, over a remote list whose records of
      client 1 have ids, inserts exactly its appointment right after the remote part. */
  lemma AcceptedIsInserted(remote: seq<Cita>, local: seq<Cita>, a: Cita)
    requires NewFor(remote, local, a) && KeepsUnkeyedOut(remote)
    ensures var s := View(remote, local, 1);
            var n := |Keys(remote)|;
            n <= |s| && View(remote, [a] + s, 1) == s[..n] + [a] + s[n..]
  {
    NextValues(remote, local, a);
    UnkeyedSame(remote, local, a);
    var t := remote + Local(local, 1);
    InsertBeforeRest(Values(t), Filter(t, LacksId), |Keys(remote)|, a);
  }

  lemma {:induction false} DistinctCount(vs: seq<Cita>, x: Cita)
    requires Distinct(vs)
    ensures multiset(vs)[x] <= 1
  {
    if vs != [] {
      var n := |vs| - 1;
      DistinctCount(vs[..n], x);
      assert vs == vs[..n] + [vs[n]];
      assert x in multiset(vs[..n]) <==> x in vs[..n];
    }
  }

  lemma KeyedCount(s: seq<Cita>, x: Cita)
    requires x.id.Some?
    ensures multiset(MergeOf(s))[x] <= 1
  {
    ValuesKeyed(s);
    KeysDistinct(s);
    DistinctCount(Values(s), x);
    FilterMembers(s, LacksId);
    assert x !in Filter(s, LacksId);
    assert multiset(MergeOf(s)) == multiset(Values(s)) + multiset(Filter(s, LacksId));
  }

  /** CONSERVATION, exactly when. Writing `[a] + snapshot` makes the next view the old one plus `a`, as multisets,
      if and only if `a` is of client 1 under a new id and no remote record of client 1 lacks an id. */
  lemma ConservedExactlyWhen(remote: seq<Cita>, local: seq<Cita>, a: Cita)
    requires a.id.Some?
    ensures multiset(View(remote, [a] + View(remote, local, 1), 1)) == multiset(View(remote, local, 1)) + multiset{a}
            <==> NewFor(remote, local, a) && KeepsUnkeyedOut(remote)
  {
    hide View, Keys, Local, NewFor, KeepsUnkeyedOut;
    var s := View(remote, local, 1);
    if NewFor(remote, local, a) && KeepsUnkeyedOut(remote) {
      var n := |Keys(remote)|;
      AcceptedIsInserted(remote, local, a);
      assert s == s[..n] + s[n..];
    }
    if multiset(View(remote, [a] + s, 1)) == multiset(s) + multiset{a} {
      ConservedNeedsNewId(remote, local, a);
      ConservedNeedsIds(remote, local, a);
    }
  }

  lemma ConservedNeedsNewId(remote: seq<Cita>, local: seq<Cita>, a: Cita)
    requires a.id.Some?
    requires multiset(View(remote, [a] + View(remote, local, 1), 1)) == multiset(View(remote, local, 1)) + multiset{a}
    ensures NewFor(remote, local, a)
  {
    var t, s := remote + Local(local, 1), View(remote, local, 1);
    var u, k := remote + Local([a] + s, 1), a.id.value;
    var m := multiset(s) + multiset{a};
    assert a in m && a in MergeOf(u);
    if k in Keys(t) {
      ValuesAt(t, k);
      var d := Last(t, k);
      assert d in s && d in multiset(s) && d in m;
      assert d in MergeOf(u);
      SameKeySameRecord(u, a, d);
      KeyedCount(u, a);
    } else if !OfClient(a, 1) {
      ViewMembers(remote, [a] + s, 1, a);
      KeyPresent(remote, a);
      KeysAppend(remote, Local(local, 1));
    }
  }

  lemma ConservedNeedsIds(remote: seq<Cita>, local: seq<Cita>, a: Cita)
    requires a.id.Some?
    requires multiset(View(remote, [a] + View(remote, local, 1), 1)) == multiset(View(remote, local, 1)) + multiset{a}
    ensures KeepsUnkeyedOut(remote)
  {
    forall r | r in remote && r.id.None?
      ensures !OfClient(r, 1)
    {
      NextUnkeyedCount(remote, local, a, r);
      FilterMembers(remote, LacksId);
      LocalMembers(Filter(remote, LacksId), 1);
      assert r in Filter(remote, LacksId);
      assert r !in Local(Filter(remote, LacksId), 1);
    }
  }

  /** Writing the snapshot back shows a record without id once more for every remote copy of client 1. */
  lemma NextUnkeyedCount(remote: seq<Cita>, local: seq<Cita>, a: Cita, r: Cita)
    requires a.id.Some? && r.id.None?
    ensures multiset(View(remote, [a] + View(remote, local, 1), 1))[r]
            == multiset(View(remote, local, 1))[r] + multiset(Local(Filter(remote, LacksId), 1))[r]
  {
    hide *;
    var p, q := Filter(remote, LacksId), Filter(Local(local, 1), LacksId);
    NextUnkeyed(remote, local, a);
    UnkeyedCount(remote, local, r);
    UnkeyedCount(remote, [a] + View(remote, local, 1), r);
    CountOfThree(p, Local(p, 1), q, r);
    CountOfThree(p, [], q, r);
    assert [] + q == q;
  }

  lemma UnkeyedCount(remote: seq<Cita>, local: seq<Cita>, r: Cita)
    requires r.id.None?
    ensures multiset(View(remote, local, 1))[r] == multiset(Filter(remote + Local(local, 1), LacksId))[r]
  {
    var s := remote + Local(local, 1);
    ValuesKeyed(s);
    assert r !in Values(s);
    assert multiset(MergeOf(s)) == multiset(Values(s)) + multiset(Filter(s, LacksId));
  }

  lemma CountOfThree(p: seq<Cita>, l: seq<Cita>, q: seq<Cita>, r: Cita)
    ensures multiset(p + (l + q))[r] == multiset(p)[r] + multiset(l)[r] + multiset(q)[r]
  {
    assert multiset(p + (l + q)) == multiset(p) + (multiset(l) + multiset(q));
  }

  // ---------- runs of calls that do not overlap ----------

  datatype Booking = Booking(payload: Cita, now: Key, readOk: bool, writeOk: bool)

  /** Each call runs both of its steps before the next one starts. */
  function SerialSteps(bookings: seq<Booking>): seq<Step> {
    if bookings == [] then []
    else
      [Snapshot(0, bookings[0].payload, bookings[0].now, bookings[0].readOk), CheckAndWrite(0, bookings[0].writeOk)]
      + SerialSteps(bookings[1..])
  }

  predicate IsAccepted(remote: seq<Cita>, local: seq<Cita>, b: Booking) {
    b.writeOk && !ConflictsWithSome(NewAppointment(b.payload, b.now), View(remote, ReadList(local, b.readOk), 1))
  }

  function AfterBooking(remote: seq<Cita>, local: seq<Cita>, b: Booking): seq<Cita> {
    AfterWrite(local, NewAppointment(b.payload, b.now), View(remote, ReadList(local, b.readOk), 1), b.writeOk)
  }

  /** The appointments that calls without overlap report as booked and store. */
  function Accepted(remote: seq<Cita>, local: seq<Cita>, bookings: seq<Booking>): seq<Cita>
    decreases |bookings|
  {
    if bookings == [] then []
    else
      var b := bookings[0];
      (if IsAccepted(remote, local, b) then [NewAppointment(b.payload, b.now)] else [])
      + Accepted(remote, AfterBooking(remote, local, b), bookings[1..])
  }

  /** All calls are of client 1, under ids that differ from each other and from those shown at the start. */
  ghost predicate FreshBookings(remote: seq<Cita>, local: seq<Cita>, bookings: seq<Booking>) {
    && (forall i :: 0 <= i < |bookings| ==> OfClient(bookings[i].payload, 1))
    && (forall i :: 0 <= i < |bookings| ==> bookings[i].now !in Keys(remote + Local(local, 1)))
    && (forall i, j :: 0 <= i < j < |bookings| ==> bookings[i].now != bookings[j].now)
  }

  lemma SerialStep(remote: seq<Cita>, local: seq<Cita>, b: Booking)
    ensures Run(remote, State(local, map[]), SerialSteps([b])) == State(AfterBooking(remote, local, b), map[])
  {
    var s := State(local, map[]);
    var steps := SerialSteps([b]);
    assert steps == [Snapshot(0, b.payload, b.now, b.readOk), CheckAndWrite(0, b.writeOk)] by {
      assert [b][1..] == [] && SerialSteps([b][1..]) == [];
    }
    var s1 := Next(remote, s, steps[0]);
    var s2 := Next(remote, s1, steps[1]);
    assert s2.inFlight == map[];
    assert steps[1..][1..] == [];
    assert Run(remote, s1, steps[1..]) == Run(remote, s2, steps[1..][1..]);
  }

  lemma {:induction false} RunAppend(remote: seq<Cita>, s: State, p: seq<Step>, q: seq<Step>)
    ensures Run(remote, s, p + q) == Run(remote, Run(remote, s, p), q)
    decreases |p|
  {
    if p == [] {
      assert p + q == q;
    } else {
      assert (p + q)[0] == p[0] && (p + q)[1..] == p[1..] + q;
      RunAppend(remote, Next(remote, s, p[0]), p[1..], q);
    }
  }

  /** An id that is new for the storage is also new when the storage cannot be read. */
  lemma NewWhenUnread(remote: seq<Cita>, local: seq<Cita>, readOk: bool, k: Key)
    requires k !in Keys(remote + Local(local, 1))
    ensures k !in Keys(remote + Local(ReadList(local, readOk), 1))
  {
    hide Keys;
    KeysAppend(remote, Local(local, 1));
    assert remote + Local([], 1) == remote;
  }

  lemma NextKeyMember(remote: seq<Cita>, was: seq<Cita>, a: Cita, k: Key)
    requires NewFor(remote, was, a) && k in Keys(remote + Local([a] + View(remote, was, 1), 1))
    ensures k in Keys(remote + Local(was, 1)) || a.id == Some(k)
  {
    hide Keys, View, Local;
    NextKeys(remote, was, a);
    var ks, n := Keys(remote + Local(was, 1)), |Keys(remote)|;
    assert ks == ks[..n] + ks[n..];
  }

  lemma BookingIsNew(remote: seq<Cita>, local: seq<Cita>, bookings: seq<Booking>, i: nat)
    requires FreshBookings(remote, local, bookings) && i < |bookings|
    ensures var b := bookings[i];
            NewFor(remote, ReadList(local, b.readOk), NewAppointment(b.payload, b.now))
  {
    hide Keys;
    NewWhenUnread(remote, local, bookings[i].readOk, bookings[i].now);
  }

  lemma FreshAfter(remote: seq<Cita>, local: seq<Cita>, bookings: seq<Booking>)
    requires bookings != [] && FreshBookings(remote, local, bookings)
    ensures FreshBookings(remote, AfterBooking(remote, local, bookings[0]), bookings[1..])
  {
    hide Keys, View, Local, ConflictsWithSome, ReadList;
    var b, rest := bookings[0], bookings[1..];
    var a, was := NewAppointment(b.payload, b.now), ReadList(local, b.readOk);
    assert forall i :: 0 <= i < |rest| ==> rest[i] == bookings[i + 1];
    if IsAccepted(remote, local, b) {
      BookingIsNew(remote, local, bookings, 0);
      forall i | 0 <= i < |rest|
        ensures rest[i].now !in Keys(remote + Local([a] + View(remote, was, 1), 1))
      {
        var k := rest[i].now;
        NewWhenUnread(remote, local, b.readOk, k);
        if k in Keys(remote + Local([a] + View(remote, was, 1), 1)) {
          NextKeyMember(remote, was, a, k);
        }
      }
    }
  }

  lemma {:induction false} SerialStepsAppend(p: seq<Booking>, q: seq<Booking>)
    ensures SerialSteps(p + q) == SerialSteps(p) + SerialSteps(q)
  {
    if p == [] {
      assert p + q == q;
    } else {
      assert (p + q)[0] == p[0] && (p + q)[1..] == p[1..] + q;
      SerialStepsAppend(p[1..], q);
    }
  }

  lemma NothingRun(remote: seq<Cita>, local: seq<Cita>)
    ensures Run(remote, State(local, map[]), SerialSteps([])) == State(local, map[])
  {}

  /** Whenever a booking whose read failed was accepted, the view showed just what it shows without the storage. */
  ghost predicate NothingUnread(remote: seq<Cita>, local: seq<Cita>, bookings: seq<Booking>)
    decreases |bookings|
  {
    bookings == [] ||
    ((IsAccepted(remote, local, bookings[0]) && !bookings[0].readOk ==>
        multiset(View(remote, local, 1)) == multiset(View(remote, [], 1))) &&
     NothingUnread(remote, AfterBooking(remote, local, bookings[0]), bookings[1..]))
  }

  lemma ConservedByAccepted(remote: seq<Cita>, was: seq<Cita>, a: Cita)
    requires NewFor(remote, was, a) && KeepsUnkeyedOut(remote)
    ensures multiset(View(remote, [a] + View(remote, was, 1), 1)) == multiset(View(remote, was, 1)) + multiset{a}
  {
    assert a.id.Some?;
    hide View, NewFor, KeepsUnkeyedOut;
    ConservedExactlyWhen(remote, was, a);
  }

  /** One call: the view it leaves is what its read showed plus the appointment, or the old view. */
  lemma AfterOne(remote: seq<Cita>, local: seq<Cita>, bookings: seq<Booking>)
    requires KeepsUnkeyedOut(remote) && bookings != [] && FreshBookings(remote, local, bookings)
    ensures var b, next := bookings[0], AfterBooking(remote, local, bookings[0]);
            if IsAccepted(remote, local, b)
            then multiset(View(remote, next, 1))
                 == multiset(View(remote, ReadList(local, b.readOk), 1)) + multiset{NewAppointment(b.payload, b.now)}
            else next == local
  {
    hide Keys, View, Local, ConflictsWithSome, ReadList, NewFor, KeepsUnkeyedOut, FreshBookings, NewAppointment;
    if IsAccepted(remote, local, bookings[0]) {
      BookingIsNew(remote, local, bookings, 0);
      ConservedByAccepted(remote, ReadList(local, bookings[0].readOk),
                          NewAppointment(bookings[0].payload, bookings[0].now));
    }
  }

  lemma SerialRunSplit(remote: seq<Cita>, local: seq<Cita>, bookings: seq<Booking>)
    requires bookings != []
    ensures Run(remote, State(local, map[]), SerialSteps(bookings))
            == Run(remote, State(AfterBooking(remote, local, bookings[0]), map[]), SerialSteps(bookings[1..]))
  {
    hide Run, SerialSteps;
    var b, rest := bookings[0], bookings[1..];
    assert bookings == [b] + rest;
    SerialStepsAppend([b], rest);
    SerialStep(remote, local, b);
    RunAppend(remote, State(local, map[]), SerialSteps([b]), SerialSteps(rest));
  }

  /** What a serial run shows at most: the view of its start, or what is shown without the storage, plus accepted
      bookings. */
  lemma {:induction false} SerialShape(remote: seq<Cita>, local: seq<Cita>, bookings: seq<Booking>)
    returns (readOk: bool, kept: multiset<Cita>)
    requires KeepsUnkeyedOut(remote) && FreshBookings(remote, local, bookings)
    ensures multiset(View(remote, Run(remote, State(local, map[]), SerialSteps(bookings)).local, 1))
            == multiset(View(remote, ReadList(local, readOk), 1)) + kept
    ensures kept <= multiset(Accepted(remote, local, bookings))
    decreases |bookings|
  {
    hide View, Run, SerialSteps, IsAccepted, AfterBooking, KeepsUnkeyedOut, FreshBookings, NewAppointment;
    if bookings == [] {
      NothingRun(remote, local);
      return true, multiset{};
    }
    var b, rest := bookings[0], bookings[1..];
    SerialRunSplit(remote, local, bookings);
    FreshAfter(remote, local, bookings);
    AfterOne(remote, local, bookings);
    readOk, kept := SerialShape(remote, AfterBooking(remote, local, b), rest);
    if IsAccepted(remote, local, b) && readOk {
      readOk, kept := b.readOk, kept + multiset{NewAppointment(b.payload, b.now)};
    }
  }

  lemma UnreadShowsLess(remote: seq<Cita>, local: seq<Cita>)
    ensures |View(remote, [], 1)| <= |View(remote, local, 1)|
  {
    var l := Local(local, 1);
    KeysAppend(remote, l);
    FilterAppend(remote, l, LacksId);
    assert remote + Local([], 1) == remote;
  }

  /** CONSERVATION, calls one after the other. After calls of client 1 under distinct new ids, with any failing
      reads and writes, the view holds what it held before plus exactly the accepted and stored appointments if and
      only if no booking whose read failed was accepted while the storage added something to the view. */
  lemma {:induction false} SerialRunsConserve(remote: seq<Cita>, local: seq<Cita>, bookings: seq<Booking>)
    requires KeepsUnkeyedOut(remote) && FreshBookings(remote, local, bookings)
    ensures multiset(View(remote, Run(remote, State(local, map[]), SerialSteps(bookings)).local, 1))
              == multiset(View(remote, local, 1)) + multiset(Accepted(remote, local, bookings))
            <==> NothingUnread(remote, local, bookings)
    decreases |bookings|
  {
    hide View, Run, SerialSteps, IsAccepted, AfterBooking, KeepsUnkeyedOut, FreshBookings, NewAppointment;
    if bookings == [] {
      NothingRun(remote, local);
    } else {
      var b, rest := bookings[0], bookings[1..];
      var next, a := AfterBooking(remote, local, b), NewAppointment(b.payload, b.now);
      SerialRunSplit(remote, local, bookings);
      FreshAfter(remote, local, bookings);
      AfterOne(remote, local, bookings);
      SerialRunsConserve(remote, next, rest);
      AcceptedFirst(remote, local, bookings);
      if IsAccepted(remote, local, b) && !b.readOk {
        UnreadShowsLess(remote, local);
        var readOk, kept := SerialShape(remote, next, rest);
        UnreadDecides(multiset(View(remote, [], 1)), multiset(View(remote, local, 1)), a,
                      multiset(Accepted(remote, next, rest)), kept, readOk,
                      multiset(View(remote, Run(remote, State(local, map[]), SerialSteps(bookings)).local, 1)));
      }
    }
  }

  lemma AcceptedFirst(remote: seq<Cita>, local: seq<Cita>, bookings: seq<Booking>)
    requires bookings != []
    ensures var b, rest := bookings[0], bookings[1..];
            var later := multiset(Accepted(remote, AfterBooking(remote, local, b), rest));
            multiset(Accepted(remote, local, bookings))
            == if IsAccepted(remote, local, b) then multiset{NewAppointment(b.payload, b.now)} + later else later
  {
    hide IsAccepted, AfterBooking, NewAppointment;
    var rest := Accepted(remote, AfterBooking(remote, local, bookings[0]), bookings[1..]);
    assert [] + rest == rest;
  }

  /** After an accepted booking without a read, the whole view comes back exactly when nothing was unread and nothing is
      lost later. */
  lemma UnreadDecides(less: multiset<Cita>, all: multiset<Cita>, a: Cita, later: multiset<Cita>, kept: multiset<Cita>,
                      readOk: bool, shown: multiset<Cita>)
    requires |less| <= |all| && kept <= later
    requires shown == (if readOk then less + multiset{a} else less) + kept
    ensures shown == all + (multiset{a} + later) <==> less == all && shown == (less + multiset{a}) + later
  {
    var part := if readOk then kept + multiset{a} else kept;
    assert shown == less + part;
    if shown == all + (multiset{a} + later) {
      LostForGood(less, all, a, part, later);
    }
  }

  /** If a smaller view plus part of the later bookings makes up for the whole, the smaller view is the whole one. */
  lemma LostForGood(less: multiset<Cita>, all: multiset<Cita>, a: Cita, kept: multiset<Cita>, later: multiset<Cita>)
    requires |less| <= |all| && kept <= later + multiset{a} && less + kept == all + (multiset{a} + later)
    ensures less == all
  {
    assert |less + kept| == |less| + |kept|;
    assert |all + (multiset{a} + later)| == |all| + |multiset{a} + later|;
    SameSizeSame(kept, multiset{a} + later);
    assert less == (less + kept) - kept;
    assert all == (all + kept) - kept;
  }

  lemma SameSizeSame(part: multiset<Cita>, whole: multiset<Cita>)
    requires part <= whole && |part| >= |whole|
    ensures part == whole
  {
    var rest := whole - part;
    assert part + rest == whole;
    assert |whole| == |part| + |rest|;
  }
}
