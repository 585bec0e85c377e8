/** The loops of event reconciliation in their own form, each tied to the
    value-level model. */
module EventReconciler {
  import opened Foundations
  import opened Ordering
  import opened EventReconciliation

  method UniqueInOrder(values: seq<string>) returns (output: seq<string>)
    ensures output == OrderedUnique(values)
    ensures forall x :: x in output <==> x in values
  {
    output := [];
    var seen: set<string> := {};
    for i := 0 to |values|
      invariant output == OrderedUnique(values[..i])
      invariant forall x :: x in seen <==> x in output
    {
      assert values[..i + 1][..i] == values[..i];
      if values[i] !in seen {
        seen := seen + {values[i]};
        output := output + [values[i]];
      }
    }
    assert values[..|values|] == values;
    OrderedUniqueMembers(values);
  }

  // ----- near duplicates ----------------------------------------------------------

  function Pick(events: seq<Event>, indices: seq<nat>): seq<Event>
    requires forall i :: i in indices ==> i < |events|
  {
    seq(|indices|, j requires 0 <= j < |indices| => (assert indices[j] in indices; events[indices[j]]))
  }

  predicate Belongs(env: Text, e: Event, k: NearKey) { e.kind == Standalone && NearKeyOf(env, e) == k }

  /** The value of a list position while the near keys `keys` are still to come. */
  function MarkedBut(env: Text, events: seq<Event>, keys: set<NearKey>, e: Event): Event
  {
    if e.kind == Standalone && NearKeyOf(env, e) !in keys then MarkOne(env, events, e) else e
  }

  /** `groups` holds, for every near key, the positions of its standalone events. */
  ghost predicate Indexed(env: Text, events: seq<Event>, n: nat, groups: map<NearKey, seq<nat>>)
    requires n <= |events|
  {
    && (forall k, i :: k in groups && i in groups[k] ==> i < n)
    && (forall k :: k in groups ==> Pick(events, groups[k]) == NearGroup(env, events[..n], k))
    && (forall k :: k !in groups ==> NearGroup(env, events[..n], k) == [])
    && (forall k, i: nat :: k in groups && i < n ==> (i in groups[k] <==> Belongs(env, events[i], k)))
  }

  lemma {:induction false} IndexOneMore(env: Text, events: seq<Event>, n: nat, groups: map<NearKey, seq<nat>>)
    requires n < |events| && Indexed(env, events, n, groups)
    ensures var k := NearKeyOf(env, events[n]);
            Indexed(env, events, n + 1,
                    if events[n].kind != Standalone then groups
                    else groups[k := (if k in groups then groups[k] else []) + [n]])
  {
    var e := events[n];
    var k := NearKeyOf(env, e);
    var more := if e.kind != Standalone then groups else groups[k := (if k in groups then groups[k] else []) + [n]];
    assert events[..n + 1][..n] == events[..n];
    forall q
      ensures NearGroup(env, events[..n + 1], q)
              == NearGroup(env, events[..n], q) + (if e.kind == Standalone && q == k then [e] else [])
    {
      assert NearGroup(env, events[..n], q) + [] == NearGroup(env, events[..n], q);
    }
    hide NearKeyOf, NearGroup;
    forall q, i: nat | q in more && i < n + 1
      ensures i in more[q] <==> Belongs(env, events[i], q)
    {
      if q !in groups && i < n {
        NotGrouped(env, events, n, q, i);
      }
    }
  }

  lemma {:induction false} NotGrouped(env: Text, events: seq<Event>, n: nat, k: NearKey, i: nat)
    requires i < n <= |events| && NearGroup(env, events[..n], k) == []
    ensures !Belongs(env, events[i], k)
  {
    FilterMembers(events[..n], (e: Event) => e.kind == Standalone && NearKeyOf(env, e) == k);
    assert events[..n][i] == events[i] && events[i] in events[..n];
    assert events[i] !in NearGroup(env, events[..n], k);
  }

  method MarkNearDuplicates(env: Text, events: seq<Event>) returns (output: seq<Event>)
    ensures output == MarkNear(env, events)
  {
    var groups: map<NearKey, seq<nat>> := map[];
    for i := 0 to |events|
      invariant Indexed(env, events, i, groups)
    {
      IndexOneMore(env, events, i, groups);
      if events[i].kind == Standalone {
        var k := NearKeyOf(env, events[i]);
        groups := groups[k := (if k in groups then groups[k] else []) + [i]];
      }
    }
    assert events[..|events|] == events;
    output := events;
    var keys := groups.Keys;
    while keys != {}
      invariant keys <= groups.Keys && |output| == |events|
      invariant forall i :: 0 <= i < |events| ==> output[i] == MarkedBut(env, events, keys, events[i])
      decreases keys
    {
      var k :| k in keys;
      output := MarkGroup(env, events, output, groups[k], k, keys);
      keys := keys - {k};
    }
    forall i | 0 <= i < |events|
      ensures output[i] == MarkOne(env, events, events[i])
    {
    }
  }

  /** Marks the events of one near group in place. */
  method MarkGroup(env: Text, events: seq<Event>, before: seq<Event>, indices: seq<nat>, k: NearKey,
                   ghost keys: set<NearKey>)
    returns (output: seq<Event>)
    requires |before| == |events| && k in keys
    requires forall i :: i in indices ==> i < |events|
    requires Pick(events, indices) == NearGroup(env, events, k)
    requires forall i :: 0 <= i < |events| ==>
               (i in indices <==> Belongs(env, events[i], k))
    requires forall i :: 0 <= i < |events| ==> before[i] == MarkedBut(env, events, keys, events[i])
    ensures |output| == |events|
    ensures forall i :: 0 <= i < |events| ==> output[i] == MarkedBut(env, events, keys - {k}, events[i])
  {
    output := before;
    if |indices| < 2 {
      return;
    }
    var ids := MapSeq(Pick(before, indices), (e: Event) => e.id);
    assert ids == MapSeq(NearGroup(env, events, k), (e: Event) => e.id) by {
      forall j | 0 <= j < |indices|
        ensures Pick(before, indices)[j] == Pick(events, indices)[j]
      {
        assert indices[j] in indices;
      }
    }
    for j := 0 to |indices|
      invariant |output| == |events|
      invariant forall i :: 0 <= i < |events| ==>
                  output[i] == if i in indices[..j] then MarkOne(env, events, events[i]) else before[i]
    {
      var i := indices[j];
      assert i in indices;
      output := output[i := before[i].(kind := NearDuplicate, nearId := Some(NearId(k, ids)))];
      assert indices[..j + 1] == indices[..j] + [i];
    }
    assert indices[..|indices|] == indices;
  }

  // ----- the whole reconciliation --------------------------------------------------

  /** `fingerprint_groups.setdefault(fingerprint, []).append(origin)`. */
  method GroupByFingerprint(origins: seq<Origin>) returns (groups: map<string, seq<Origin>>)
    ensures forall f :: f in groups <==> exists o :: o in origins && o.fingerprint == f
    ensures forall f :: f in groups ==> groups[f] == Group(origins, f)
  {
    groups := map[];
    for i := 0 to |origins|
      invariant forall f :: f in groups <==> Group(origins[..i], f) != []
      invariant forall f :: f in groups ==> groups[f] == Group(origins[..i], f)
    {
      var o := origins[i];
      assert origins[..i + 1][..i] == origins[..i];
      forall f
        ensures Group(origins[..i + 1], f) == Group(origins[..i], f) + (if f == o.fingerprint then [o] else [])
      {
      }
      groups := groups[o.fingerprint := (if o.fingerprint in groups then groups[o.fingerprint] else []) + [o]];
    }
    assert origins[..|origins|] == origins;
    forall f
      ensures Group(origins, f) != [] <==> exists o :: o in origins && o.fingerprint == f
    {
      FilterMembers(origins, (o: Origin) => o.fingerprint == f);
      if Group(origins, f) != [] {
        assert Group(origins, f)[0] in Group(origins, f);
      }
    }
  }

  /** One fingerprint group: its origins in order, its two lanes, and the sources of
      both without repetition. */
  method ReconcileFingerprintGroup(env: Text, fingerprint: string, origins: seq<Origin>) returns (e: Event)
    requires origins != []
    ensures e == ReconcileGroup(env, fingerprint, origins)
    ensures forall id :: id in e.sourceIds <==> exists v :: v in e.official + e.live && id in v.sourceIds
  {
    SortPermutes(origins, OriginOrder(env));
    hide Sort, LaneViews, ConflictsOn, DistinctValues, SortedDistinct, OrderedUnique, Flatten, CanonicalDate;
    hide CanonicalSemantic, Filter, MapSeq, OriginOrder;
    var ordered := Sort(origins, OriginOrder(env));
    var official, live := LaneViews(ordered, Internal), LaneViews(ordered, Live);
    var conflicts := ConflictsOn(env, ordered, FIELDS);
    var established := DistinctValues(env,
      MapSeq(Filter(ordered, (o: Origin) => o.established), (o: Origin) => o.legalStatus));
    var liveStatuses := DistinctValues(env,
      MapSeq(Filter(ordered, (o: Origin) => o.lane == Live), (o: Origin) => o.legalStatus));
    var sourceLists := MapSeq(official + live, (v: View) => v.sourceIds);
    var sources := UniqueInOrder(Flatten(sourceLists));
    SourcesOfViews(official + live, sourceLists);
    var primary := ordered[0];
    e := Event(
      VisualId(fingerprint, EventIds(ordered)), fingerprint,
      SortedDistinct(Flatten(MapSeq(ordered, (o: Origin) => o.entityIds)), env),
      primary.key, primary.labelText, primary.eventType, CanonicalDate(ordered), CanonicalSemantic(ordered),
      if conflicts != [] then Conflicting else if |ordered| > 1 then ExactDuplicate else Standalone,
      official, live, sources,
      if |established| == 1 then Some(established[0]) else None, liveStatuses, conflicts,
      if conflicts != []
      then Some(ConflictId(fingerprint, MapSeq(conflicts, (c: Conflict) => c.field), EventIds(ordered))) else None,
      None, conflicts != [], conflicts == []);
  }

  lemma {:induction false} FlattenMembers(lists: seq<seq<string>>)
    ensures forall id :: id in Flatten(lists) <==> exists i :: 0 <= i < |lists| && id in lists[i]
  {
    if lists != [] {
      var init := lists[..|lists| - 1];
      FlattenMembers(init);
      assert forall i :: 0 <= i < |init| ==> init[i] == lists[i];
    }
  }

  lemma {:induction false} SourcesOfViews(views: seq<View>, lists: seq<seq<string>>)
    requires lists == MapSeq(views, (v: View) => v.sourceIds)
    ensures forall id :: id in Flatten(lists) <==> exists v :: v in views && id in v.sourceIds
  {
    FlattenMembers(lists);
    hide Flatten;
    assert forall i :: 0 <= i < |views| ==> lists[i] == views[i].sourceIds;
  }

  /** One event for every fingerprint, in order. */
  method ReconcileGroups(env: Text, origins: seq<Origin>, groups: map<string, seq<Origin>>, fingerprints: seq<string>)
    returns (events: seq<Event>)
    requires forall f :: f in fingerprints ==> f in groups && groups[f] == Group(origins, f) != []
    ensures events == GroupEvents(env, origins, fingerprints)
  {
    hide Group, ReconcileGroup;
    events := [];
    for i := 0 to |fingerprints|
      invariant events == GroupEvents(env, origins, fingerprints[..i])
    {
      var f := fingerprints[i];
      assert f in fingerprints;
      assert fingerprints[..i + 1][..i] == fingerprints[..i];
      var e := ReconcileFingerprintGroup(env, f, groups[f]);
      events := events + [e];
    }
    assert fingerprints[..|fingerprints|] == fingerprints;
  }

  method ReconcileInternalLiveEvents(env: Text, origins: seq<Origin>, cutoffReached: bool) returns (r: Outcome)
    ensures r == Reconcile(env, origins, cutoffReached)
  {
    if !UniqueIds(origins) {
      return DuplicateOriginIds;
    }
    if !cutoffReached {
      return BeforeCutoff;
    }
    if origins == [] {
      return Reconciled(NoEvents, [], [NothingToReconcile]);
    }
    var groups := GroupByFingerprint(origins);
    var fingerprints := Fingerprints(env, origins);
    FingerprintGroups(env, origins);
    hide Fingerprints, Group, GroupEvents, MarkNear, NotesOf, Sort;
    var events := ReconcileGroups(env, origins, groups, fingerprints);
    events := MarkNearDuplicates(env, events);
    events := Sort(events, EventOrder(env));
    r := Reconciled(if HasConflict(events) then Partial else Complete, events, NotesOf(events));
  }
}
