/** The merge of the remote and the local list (src/services/barberiaApi.js, getAppointments): an id-keyed Map,
    whose keys keep their first insertion position (ECMA-262, section 24.1.3.9), followed by the records without id. */
module Merge {
  import opened Basics
  import opened Scheduling

  predicate LacksId(c: Cita) { c.id.None? }

  /** The ids of `s` in the order of their first occurrences. */
  function Keys(s: seq<Cita>): seq<Key> {
    if s == [] then []
    else
      var n := |s| - 1;
      var ks := Keys(s[..n]);
      if s[n].id.None? || s[n].id.value in ks then ks else ks + [s[n].id.value]
  }

  ghost predicate Distinct<T>(s: seq<T>) {
    forall i, j :: 0 <= i < j < |s| ==> s[i] != s[j]
  }

  lemma {:induction false} KeysDistinct(s: seq<Cita>)
    ensures Distinct(Keys(s))
  {
    if s != [] {
      KeysDistinct(s[..|s| - 1]);
    }
  }

  lemma {:induction false} KeyPresent(s: seq<Cita>, c: Cita)
    requires c in s && c.id.Some?
    ensures c.id.value in Keys(s)
  {
    var n := |s| - 1;
    if c != s[n] {
      assert s == s[..n] + [s[n]];
      KeyPresent(s[..n], c);
    }
  }

  /** The last record of `s` that carries the id `k`. */
  function Last(s: seq<Cita>, k: Key): (c: Cita)
    requires k in Keys(s)
    ensures c in s && c.id == Some(k)
  {
    var n := |s| - 1;
    if s[n].id == Some(k) then s[n] else Last(s[..n], k)
  }

  /** What the Map's values() yields after every record of `s` was set. */
  function Values(s: seq<Cita>): (vs: seq<Cita>)
    ensures |vs| == |Keys(s)|
  {
    seq(|Keys(s)|, i requires 0 <= i < |Keys(s)| => Last(s, Keys(s)[i]))
  }

  function MergeOf(s: seq<Cita>): seq<Cita> { Values(s) + Filter(s, LacksId) }

  predicate OfClient(c: Cita, clientId: int) { c.clienteId == Some(clientId) }

  /** The stored records of one client, in order. */
  function Local(local: seq<Cita>, clientId: int): seq<Cita> {
    if local == [] then []
    else
      var n := |local| - 1;
      if OfClient(local[n], clientId) then Local(local[..n], clientId) + [local[n]] else Local(local[..n], clientId)
  }

  lemma {:induction false} LocalMembers(local: seq<Cita>, clientId: int)
    ensures forall c :: c in Local(local, clientId) <==> c in local && OfClient(c, clientId)
  {
    if local != [] {
      var n := |local| - 1;
      LocalMembers(local[..n], clientId);
      assert local == local[..n] + [local[n]];
    }
  }

  /** What getAppointments returns for a remote list and the stored list. */
  function View(remote: seq<Cita>, local: seq<Cita>, clientId: int): seq<Cita> {
    MergeOf(remote + Local(local, clientId))
  }

  // ---------- the specification by positions ----------

  ghost predicate Carries(s: seq<Cita>, k: Key) {
    exists i :: 0 <= i < |s| && s[i].id == Some(k)
  }

  ghost function FirstPos(s: seq<Cita>, k: Key): (p: nat)
    requires Carries(s, k)
    ensures p < |s| && s[p].id == Some(k) && forall q :: 0 <= q < p ==> s[q].id != Some(k)
  {
    if s[0].id == Some(k) then 0 else 1 + FirstPos(s[1..], k)
  }

  ghost function LastPos(s: seq<Cita>, k: Key): (p: nat)
    requires Carries(s, k)
    ensures p < |s| && s[p].id == Some(k) && forall q :: p < q < |s| ==> s[q].id != Some(k)
  {
    var n := |s| - 1;
    if s[n].id == Some(k) then n else LastPos(s[..n], k)
  }

  /** `vs` lists each id of `s` once, ordered by first positions, with the record at its last position. */
  ghost predicate IsMapOf(s: seq<Cita>, vs: seq<Cita>) {
    && (forall i :: 0 <= i < |vs| ==> vs[i].id.Some? && Carries(s, vs[i].id.value))
    && (forall k :: Carries(s, k) ==> Carries(vs, k))
    && (forall i :: 0 <= i < |vs| ==> vs[i] == s[LastPos(s, vs[i].id.value)])
    && (forall i, j :: 0 <= i < j < |vs| ==> FirstPos(s, vs[i].id.value) < FirstPos(s, vs[j].id.value))
  }

  /** The whole result: the map's values, then the records without id in order. */
  ghost predicate IsMerge(s: seq<Cita>, r: seq<Cita>) {
    exists vs :: IsMapOf(s, vs) && r == vs + Filter(s, LacksId)
  }

  lemma KeysCarried(s: seq<Cita>, k: Key)
    ensures k in Keys(s) <==> Carries(s, k)
  {
    if k in Keys(s) {
      var c := Last(s, k);
    }
    if Carries(s, k) {
      var i :| 0 <= i < |s| && s[i].id == Some(k);
      KeyPresent(s, s[i]);
    }
  }

  lemma {:induction false} LastIsLast(s: seq<Cita>, k: Key)
    requires k in Keys(s) && Carries(s, k)
    ensures Last(s, k) == s[LastPos(s, k)]
  {
    var n := |s| - 1;
    if s[n].id != Some(k) {
      KeysCarried(s[..n], k);
      LastIsLast(s[..n], k);
    }
  }

  lemma FirstPosPrefix(s: seq<Cita>, n: nat, k: Key)
    requires n <= |s| && Carries(s, k)
    ensures Carries(s[..n], k) ==> FirstPos(s, k) == FirstPos(s[..n], k)
    ensures Carries(s[..n], k) <==> FirstPos(s, k) < n
  {
    var p := FirstPos(s, k);
    if p < n {
      assert s[..n][p].id == Some(k);
    }
    if Carries(s[..n], k) {
      var q := FirstPos(s[..n], k);
      assert s[..n][q] == s[q];
    }
  }

  lemma {:induction false} KeysInFirstOrder(s: seq<Cita>, i: nat, j: nat)
    requires i < j < |Keys(s)|
    requires Carries(s, Keys(s)[i]) && Carries(s, Keys(s)[j])
    ensures FirstPos(s, Keys(s)[i]) < FirstPos(s, Keys(s)[j])
  {
    var n := |s| - 1;
    var ks, a, b := Keys(s[..n]), Keys(s)[i], Keys(s)[j];
    assert a == ks[i];
    KeysCarried(s[..n], a);
    KeysCarried(s[..n], b);
    FirstPosPrefix(s, n, a);
    FirstPosPrefix(s, n, b);
    if j < |ks| {
      KeysInFirstOrder(s[..n], i, j);
    }
  }

  lemma ValueAt(s: seq<Cita>, i: nat)
    requires i < |Keys(s)|
    ensures var v, k := Values(s)[i], Keys(s)[i];
            v.id == Some(k) && Carries(s, k) && v == s[LastPos(s, k)]
  {
    hide Last, LastPos, Carries, Keys;
    var k := Keys(s)[i];
    assert k in Keys(s);
    KeysCarried(s, k);
    LastIsLast(s, k);
  }

  lemma EveryIdHasValue(s: seq<Cita>, k: Key)
    requires Carries(s, k)
    ensures Carries(Values(s), k)
  {
    hide Values, Keys, LastPos;
    KeysCarried(s, k);
    var i :| 0 <= i < |Keys(s)| && Keys(s)[i] == k;
    ValueAt(s, i);
  }

  /** The Map-based merge meets the specification by positions, for every input. */
  lemma MergeMeetsSpecification(s: seq<Cita>)
    ensures IsMapOf(s, Values(s))
    ensures IsMerge(s, MergeOf(s))
  {
    var vs, ks := Values(s), Keys(s);
    hide Values, Keys, LastPos, FirstPos, Carries;
    forall i | 0 <= i < |vs|
      ensures vs[i].id == Some(ks[i]) && Carries(s, ks[i]) && vs[i] == s[LastPos(s, ks[i])]
    {
      ValueAt(s, i);
    }
    forall k | Carries(s, k)
      ensures Carries(vs, k)
    {
      EveryIdHasValue(s, k);
    }
    forall i, j | 0 <= i < j < |vs|
      ensures FirstPos(s, ks[i]) < FirstPos(s, ks[j])
    {
      KeysInFirstOrder(s, i, j);
    }
  }

  ghost predicate Increasing(a: seq<int>) {
    forall i, j :: 0 <= i < j < |a| ==> a[i] < a[j]
  }

  lemma AnyOf(a: seq<int>) returns (x: int)
    requires a != []
    ensures x in a
  {
    x := a[0];
  }

  lemma {:induction false} IncreasingUnique(a: seq<int>, b: seq<int>)
    requires Increasing(a) && Increasing(b)
    requires forall x :: x in a <==> x in b
    ensures a == b
  {
    if a == [] {
      if b != [] {
        var _ := AnyOf(b);
      }
    } else {
      assert a[0] in a;
      var n, m := |a| - 1, |b| - 1;
      assert a[n] in a && b[m] in b;
      forall x
        ensures x in a[..n] <==> x in b[..m]
      {
        assert x in a[..n] <==> x in a && x != a[n];
        assert x in b[..m] <==> x in b && x != b[m];
      }
      IncreasingUnique(a[..n], b[..m]);
    }
  }

  ghost function Ranks(s: seq<Cita>, vs: seq<Cita>): seq<int>
    requires forall i :: 0 <= i < |vs| ==> vs[i].id.Some? && Carries(s, vs[i].id.value)
  {
    seq(|vs|, i requires 0 <= i < |vs| => FirstPos(s, vs[i].id.value))
  }

  lemma SameIdElsewhere(s: seq<Cita>, vs: seq<Cita>, ws: seq<Cita>, i: nat) returns (j: nat)
    requires IsMapOf(s, vs) && IsMapOf(s, ws) && i < |vs|
    ensures j < |ws| && vs[i].id == ws[j].id
  {
    assert Carries(ws, vs[i].id.value);
    j :| 0 <= j < |ws| && ws[j].id == Some(vs[i].id.value);
  }

  lemma RanksSubset(s: seq<Cita>, vs: seq<Cita>, ws: seq<Cita>, x: int)
    requires IsMapOf(s, vs) && IsMapOf(s, ws)
    requires x in Ranks(s, vs)
    ensures x in Ranks(s, ws)
  {
    var i :| 0 <= i < |vs| && x == Ranks(s, vs)[i];
    var j := SameIdElsewhere(s, vs, ws, i);
    assert x == Ranks(s, ws)[j];
  }

  lemma SameRankSameRecord(s: seq<Cita>, vs: seq<Cita>, ws: seq<Cita>, i: nat)
    requires IsMapOf(s, vs) && IsMapOf(s, ws) && i < |vs| && i < |ws|
    requires FirstPos(s, vs[i].id.value) == FirstPos(s, ws[i].id.value)
    ensures vs[i] == ws[i]
  {
    assert vs[i].id == s[FirstPos(s, vs[i].id.value)].id == ws[i].id;
  }

  lemma RanksIncrease(s: seq<Cita>, vs: seq<Cita>)
    requires IsMapOf(s, vs)
    ensures Increasing(Ranks(s, vs)) && |Ranks(s, vs)| == |vs|
  {}

  lemma RanksAgree(s: seq<Cita>, vs: seq<Cita>, ws: seq<Cita>)
    requires IsMapOf(s, vs) && IsMapOf(s, ws)
    ensures Ranks(s, vs) == Ranks(s, ws)
  {
    var a, b := Ranks(s, vs), Ranks(s, ws);
    RanksIncrease(s, vs);
    RanksIncrease(s, ws);
    hide IsMapOf, Increasing, Ranks, FirstPos;
    forall x
      ensures x in a <==> x in b
    {
      if x in a { RanksSubset(s, vs, ws, x); }
      if x in b { RanksSubset(s, ws, vs, x); }
    }
    IncreasingUnique(a, b);
  }

  lemma RankAt(s: seq<Cita>, vs: seq<Cita>, i: nat)
    requires IsMapOf(s, vs) && i < |vs|
    ensures |Ranks(s, vs)| == |vs| && Ranks(s, vs)[i] == FirstPos(s, vs[i].id.value)
  {}

  lemma SameAt(s: seq<Cita>, vs: seq<Cita>, ws: seq<Cita>, i: nat)
    requires IsMapOf(s, vs) && IsMapOf(s, ws) && i < |vs| && i < |ws|
    ensures vs[i] == ws[i]
  {
    RanksAgree(s, vs, ws);
    RankAt(s, vs, i);
    RankAt(s, ws, i);
    SameRankSameRecord(s, vs, ws, i);
  }

  lemma MapUnique(s: seq<Cita>, vs: seq<Cita>, ws: seq<Cita>)
    requires IsMapOf(s, vs) && IsMapOf(s, ws)
    ensures vs == ws
  {
    RanksIncrease(s, vs);
    RanksIncrease(s, ws);
    RanksAgree(s, vs, ws);
    hide IsMapOf, Increasing, Ranks;
    forall i | 0 <= i < |vs|
      ensures vs[i] == ws[i]
    {
      SameAt(s, vs, ws, i);
    }
  }

  /** The specification has only one solution, so it pins the merge down completely. */
  lemma MergeSpecificationUnique(s: seq<Cita>, r: seq<Cita>)
    requires IsMerge(s, r)
    ensures r == MergeOf(s)
  {
    var vs: seq<Cita> :| IsMapOf(s, vs) && r == vs + Filter(s, LacksId);
    MergeMeetsSpecification(s);
    MapUnique(s, vs, Values(s));
  }
}
