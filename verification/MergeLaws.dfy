/** Algebra of the merge: keys and values of concatenations, idempotence, and what writing a snapshot back does. */
module MergeLaws {
  import opened Basics
  import opened Scheduling
  import opened Merge

  /** The keys of `ks` that are not in `seen`, in order. */
  function NewKeys(ks: seq<Key>, seen: seq<Key>): seq<Key> {
    if ks == [] then []
    else
      var n := |ks| - 1;
      if ks[n] in seen then NewKeys(ks[..n], seen) else NewKeys(ks[..n], seen) + [ks[n]]
  }

  lemma {:induction false} NewKeysMember(ks: seq<Key>, seen: seq<Key>, k: Key)
    ensures k in NewKeys(ks, seen) <==> k in ks && k !in seen
  {
    if ks != [] {
      var n := |ks| - 1;
      assert ks == ks[..n] + [ks[n]];
      NewKeysMember(ks[..n], seen, k);
    }
  }

  lemma {:induction false} NewKeysAppend(ks: seq<Key>, ls: seq<Key>, seen: seq<Key>)
    ensures NewKeys(ks + ls, seen) == NewKeys(ks, seen) + NewKeys(ls, seen)
  {
    if ls == [] {
      assert ks + ls == ks;
    } else {
      var n := |ls| - 1;
      assert (ks + ls)[..|ks + ls| - 1] == ks + ls[..n];
      NewKeysAppend(ks, ls[..n], seen);
    }
  }

  lemma {:induction false} NewKeysSame(ks: seq<Key>, seen: seq<Key>)
    requires forall k :: k in ks ==> k !in seen
    ensures NewKeys(ks, seen) == ks
  {
    if ks != [] {
      NewKeysSame(ks[..|ks| - 1], seen);
    }
  }

  lemma {:induction false} NewKeysNone(ks: seq<Key>, seen: seq<Key>)
    requires forall k :: k in ks ==> k in seen
    ensures NewKeys(ks, seen) == []
  {
    if ks != [] {
      NewKeysNone(ks[..|ks| - 1], seen);
    }
  }

  lemma {:induction false} LocalAppend(s: seq<Cita>, t: seq<Cita>, clientId: int)
    ensures Local(s + t, clientId) == Local(s, clientId) + Local(t, clientId)
  {
    if t == [] {
      assert s + t == s;
    } else {
      var n := |t| - 1;
      assert (s + t)[..|s + t| - 1] == s + t[..n];
      LocalAppend(s, t[..n], clientId);
    }
  }

  lemma {:induction false} LocalAll(s: seq<Cita>, clientId: int)
    requires forall c :: c in s ==> OfClient(c, clientId)
    ensures Local(s, clientId) == s
  {
    if s != [] {
      LocalAll(s[..|s| - 1], clientId);
    }
  }

  /** `filter` on `Number(appointment.clienteId) === Number(clientId)`. */
  lemma {:induction false} LocalIsFilter(local: seq<Cita>, clientId: int)
    ensures Local(local, clientId) == Filter(local, (c: Cita) => c.clienteId == Some(clientId))
  {
    if local != [] {
      LocalIsFilter(local[..|local| - 1], clientId);
    }
  }

  function AddKey(ks: seq<Key>, id: Option<Key>): seq<Key> {
    if id.None? || id.value in ks then ks else ks + [id.value]
  }

  lemma KeysSnoc(s: seq<Cita>, c: Cita)
    ensures Keys(s + [c]) == AddKey(Keys(s), c.id)
  {
    assert (s + [c])[..|s + [c]| - 1] == s;
  }

  lemma LastSnoc(s: seq<Cita>, c: Cita, k: Key)
    requires k in Keys(s + [c])
    ensures c.id != Some(k) ==> k in Keys(s)
    ensures Last(s + [c], k) == if c.id == Some(k) then c else Last(s, k)
  {
    assert (s + [c])[..|s + [c]| - 1] == s;
  }

  lemma NewKeysSnoc(ks: seq<Key>, seen: seq<Key>, id: Option<Key>)
    ensures seen + NewKeys(AddKey(ks, id), seen) == AddKey(seen + NewKeys(ks, seen), id)
  {
    if id.Some? {
      NewKeysMember(ks, seen, id.value);
      if id.value !in ks {
        assert (ks + [id.value])[..|ks + [id.value]| - 1] == ks;
        assert seen + (NewKeys(ks, seen) + [id.value]) == (seen + NewKeys(ks, seen)) + [id.value];
      }
    }
  }

  lemma {:induction false} KeysAppend(s: seq<Cita>, t: seq<Cita>)
    ensures Keys(s + t) == Keys(s) + NewKeys(Keys(t), Keys(s))
  {
    if t == [] {
      assert s + t == s;
    } else {
      var u, c := t[..|t| - 1], t[|t| - 1];
      assert s + t == (s + u) + [c] && t == u + [c];
      KeysAppend(s, u);
      KeysSnoc(s + u, c);
      KeysSnoc(u, c);
      NewKeysSnoc(Keys(u), Keys(s), c.id);
    }
  }

  lemma {:induction false} LastAppend(s: seq<Cita>, t: seq<Cita>, k: Key)
    requires k in Keys(s + t)
    ensures k in Keys(t) || k in Keys(s)
    ensures Last(s + t, k) == if k in Keys(t) then Last(t, k) else Last(s, k)
  {
    if t == [] {
      assert s + t == s;
    } else {
      var n := |t| - 1;
      assert (s + t)[..|s + t| - 1] == s + t[..n];
      if t[n].id != Some(k) {
        LastAppend(s, t[..n], k);
      }
    }
  }

  /** Every record carries the id at its position of `ks`. */
  ghost predicate KeyedBy(vs: seq<Cita>, ks: seq<Key>) {
    |vs| == |ks| && Distinct(ks) && forall i :: 0 <= i < |vs| ==> vs[i].id == Some(ks[i])
  }

  lemma {:induction false} KeysOfKeyed(vs: seq<Cita>, ks: seq<Key>)
    requires KeyedBy(vs, ks)
    ensures Keys(vs) == ks
  {
    if vs != [] {
      var n := |vs| - 1;
      KeysOfKeyed(vs[..n], ks[..n]);
      assert ks == ks[..n] + [ks[n]];
    }
  }

  lemma {:induction false} LastOfKeyed(vs: seq<Cita>, ks: seq<Key>, i: nat)
    requires KeyedBy(vs, ks) && i < |vs|
    ensures ks[i] in Keys(vs) && Last(vs, ks[i]) == vs[i]
  {
    KeysOfKeyed(vs, ks);
    var n := |vs| - 1;
    if i < n {
      LastOfKeyed(vs[..n], ks[..n], i);
    }
  }

  lemma MergeOfKeyed(s: seq<Cita>, ks: seq<Key>)
    requires KeyedBy(s, ks)
    ensures MergeOf(s) == s
  {
    KeysOfKeyed(s, ks);
    FilterNone(s, LacksId);
    forall i | 0 <= i < |s|
      ensures Values(s)[i] == s[i]
    {
      LastOfKeyed(s, ks, i);
    }
    assert Values(s) == s && s + [] == s;
  }

  lemma ValuesKeyed(s: seq<Cita>)
    ensures KeyedBy(Values(s), Keys(s))
  {
    KeysDistinct(s);
    forall i | 0 <= i < |Keys(s)|
      ensures Values(s)[i].id == Some(Keys(s)[i])
    {
      assert Keys(s)[i] in Keys(s);
    }
  }

  lemma {:induction false} KeysWithoutIds(s: seq<Cita>)
    requires forall c :: c in s ==> c.id.None?
    ensures Keys(s) == []
  {
    if s != [] {
      KeysWithoutIds(s[..|s| - 1]);
    }
  }

  lemma UnkeyedKeys(s: seq<Cita>)
    ensures Keys(Filter(s, LacksId)) == []
  {
    FilterMembers(s, LacksId);
    KeysWithoutIds(Filter(s, LacksId));
  }

  lemma LastOfValues(s: seq<Cita>, k: Key)
    requires k in Keys(s)
    ensures k in Keys(Values(s)) && Last(Values(s), k) == Last(s, k)
  {
    ValuesKeyed(s);
    var i :| 0 <= i < |Keys(s)| && Keys(s)[i] == k;
    LastOfKeyed(Values(s), Keys(s), i);
  }

  /** The keyed part and the rest of a merged list can be read off again. */
  lemma KeysOfMerge(s: seq<Cita>)
    ensures Keys(MergeOf(s)) == Keys(s)
    ensures Filter(MergeOf(s), LacksId) == Filter(s, LacksId)
  {
    var vs, rest := Values(s), Filter(s, LacksId);
    ValuesKeyed(s);
    KeysOfKeyed(vs, Keys(s));
    UnkeyedKeys(s);
    KeysAppend(vs, rest);
    assert Keys(s) + [] == Keys(s);
    FilterAppend(vs, rest, LacksId);
    FilterNone(vs, LacksId);
    FilterMembers(s, LacksId);
    FilterAll(rest, LacksId);
    assert [] + rest == rest;
  }

  lemma LastOfMerge(s: seq<Cita>, k: Key)
    requires k in Keys(s)
    ensures k in Keys(MergeOf(s)) && Last(MergeOf(s), k) == Last(s, k)
  {
    KeysOfMerge(s);
    LastOfValues(s, k);
    UnkeyedKeys(s);
    LastAppend(Values(s), Filter(s, LacksId), k);
  }

  /** Merging a merged list changes nothing, with or without ids. */
  lemma MergeIdempotent(s: seq<Cita>)
    ensures MergeOf(MergeOf(s)) == MergeOf(s)
  {
    KeysOfMerge(s);
    var m := MergeOf(s);
    forall i | 0 <= i < |Keys(s)|
      ensures Values(m)[i] == Values(s)[i]
    {
      assert Keys(s)[i] in Keys(s);
      LastOfMerge(s, Keys(s)[i]);
    }
    assert Values(m) == Values(s);
  }

  lemma DoubledValues(s: seq<Cita>)
    ensures Values(s + s) == Values(s)
  {
    KeysAppend(s, s);
    NewKeysNone(Keys(s), Keys(s));
    assert Keys(s) + [] == Keys(s);
    forall i | 0 <= i < |Keys(s)|
      ensures Values(s + s)[i] == Values(s)[i]
    {
      assert Keys(s)[i] in Keys(s);
      LastAppend(s, s, Keys(s)[i]);
    }
  }

  /** Merging a list with itself changes nothing exactly when every record has an id. */
  lemma MergeWithItself(s: seq<Cita>)
    ensures MergeOf(s + s) == MergeOf(s) <==> forall c :: c in s ==> c.id.Some?
  {
    var rest := Filter(s, LacksId);
    DoubledValues(s);
    FilterAppend(s, s, LacksId);
    FilterMembers(s, LacksId);
    if rest == [] {
      assert rest + rest == rest;
      forall c | c in s
        ensures c.id.Some?
      {
        assert c !in rest;
      }
    } else {
      assert rest[0] in rest;
      assert |MergeOf(s + s)| == |MergeOf(s)| + |rest|;
    }
  }

  // ---------- what getAppointments returns after a snapshot was written back ----------

  lemma MergeMembers(s: seq<Cita>, c: Cita)
    requires c in MergeOf(s)
    ensures c in s
  {
    FilterMembers(s, LacksId);
    if c !in Filter(s, LacksId) {
      var i :| 0 <= i < |Values(s)| && c == Values(s)[i];
      assert Keys(s)[i] in Keys(s);
    }
  }

  lemma ViewMembers(remote: seq<Cita>, local: seq<Cita>, clientId: int, c: Cita)
    requires c in View(remote, local, clientId)
    ensures c in remote || (c in local && OfClient(c, clientId))
  {
    MergeMembers(remote + Local(local, clientId), c);
    LocalMembers(local, clientId);
  }

  lemma ValuesAt(s: seq<Cita>, k: Key)
    requires k in Keys(s)
    ensures Last(s, k) in Values(s)
  {
    var i :| 0 <= i < |Keys(s)| && Keys(s)[i] == k;
    assert Values(s)[i] == Last(s, k);
  }

  lemma LastInMerge(s: seq<Cita>, k: Key)
    requires k in Keys(s)
    ensures Last(s, k) in MergeOf(s)
  {
    ValuesAt(s, k);
  }

  /** A record with an id shown after `local` became `[a] + snapshot` is the new one or was in the snapshot. */
  lemma NextKeyedMember(remote: seq<Cita>, local: seq<Cita>, a: Cita, k: Key)
    requires k in Keys(remote + Local([a] + View(remote, local, 1), 1))
    ensures Last(remote + Local([a] + View(remote, local, 1), 1), k) in [a] + View(remote, local, 1)
  {
    var s := View(remote, local, 1);
    var f, g := Local(local, 1), Local([a] + s, 1);
    LastAppend(remote, g, k);
    LocalMembers([a] + s, 1);
    if k !in Keys(g) {
      KeysAppend(remote, f);
      assert k in Keys(remote + f);
      LastAppend(remote, f, k);
      var c := Last(remote + f, k);
      LastInMerge(remote + f, k);
      assert c in [a] + s;
      if k in Keys(f) {
        LocalMembers(local, 1);
        KeyPresent(g, c);
      }
    }
  }

  /** The keys of a view: first the remote ones, then the other stored ones of client 1. */
  lemma KeptKey(remote: seq<Cita>, local: seq<Cita>, i: nat)
    requires i < |Keys(remote + Local(local, 1))|
    ensures var t := remote + Local(local, 1);
            var k := Keys(t)[i];
            |Keys(remote)| <= |Keys(t)| &&
            (i < |Keys(remote)| <==> k in Keys(remote)) &&
            (i < |Keys(remote)| ==> k == Keys(remote)[i]) &&
            (OfClient(Values(t)[i], 1) || (k in Keys(remote) && Values(t)[i] == Last(remote, k)))
  {
    var f := Local(local, 1);
    var t, n := remote + f, |Keys(remote)|;
    KeysAppend(remote, f);
    var k := Keys(t)[i];
    LastAppend(remote, f, k);
    LocalMembers(local, 1);
    if i >= n {
      assert k == NewKeys(Keys(f), Keys(remote))[i - n];
      NewKeysMember(Keys(f), Keys(remote), k);
    }
  }
}
