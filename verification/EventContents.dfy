/** What every column of a reconciled event holds, in terms of its origins
    (apps/api/backend/ask/event_reconciliation.py). */
module EventContents {
  import opened Foundations
  import opened Ordering
  import opened EventReconciliation
  import opened EventReconciliationTheorems

  // ----- the origins behind an event ---------------------------------------------

  predicate Mine(origins: seq<Origin>, e: Event, o: Origin)
  {
    o in origins && o.fingerprint == e.fingerprint
  }

  /** Official origins before live ones, and each lane by event identifier. */
  predicate Precedes(env: Text, a: Origin, b: Origin)
  {
    if a.lane == b.lane then env.le(a.eventId, b.eventId) else a.lane == Internal
  }

  lemma {:induction false} OriginsInOrder(env: Text, origins: seq<Origin>, e: Event)
    requires ValidText(env) && e in ReconciledEvents(env, origins)
    ensures var ordered := Behind(env, origins, e.fingerprint);
            && ordered != [] && (forall o :: o in ordered <==> Mine(origins, e, o))
            && (forall i, j :: 0 <= i < j < |ordered| ==> Precedes(env, ordered[i], ordered[j]))
  {
    hide *;
    EventHasGroup(env, origins, e);
    BehindMembers(env, origins, e.fingerprint);
    SortedGroup(env, origins, e.fingerprint);
    NonemptyGroup(env, origins, e);
    MineExactly(origins, e);
  }

  lemma {:induction false} MineExactly(origins: seq<Origin>, e: Event)
    ensures forall o :: Mine(origins, e, o) <==> o in origins && o.fingerprint == e.fingerprint
  {
  }

  lemma {:induction false} NonemptyGroup(env: Text, origins: seq<Origin>, e: Event)
    requires EventFor(env, origins, e, e.fingerprint)
    ensures Behind(env, origins, e.fingerprint) != []
  {
    SortPermutes(Group(origins, e.fingerprint), OriginOrder(env));
    hide Sort, Group, ReconcileGroup;
  }

  lemma {:induction false} SortedGroup(env: Text, origins: seq<Origin>, fingerprint: string)
    requires ValidText(env)
    ensures var ordered := Behind(env, origins, fingerprint);
            forall i, j :: 0 <= i < j < |ordered| ==> Precedes(env, ordered[i], ordered[j])
  {
    OriginOrderIsPreorder(env);
    SortSorts(Group(origins, fingerprint), OriginOrder(env));
    hide Sort, Group, ValidText;
  }

  /** The columns of an event, in terms of its ordered origins. */
  ghost predicate HasColumns(env: Text, e: Event, ordered: seq<Origin>)
  {
    && ordered != []
    && e.key == ordered[0].key && e.labelText == ordered[0].labelText && e.eventType == ordered[0].eventType
    && e.entityIds == Sort(OrderedUnique(Flatten(MapSeq(ordered, (o: Origin) => o.entityIds))), env.le)
    && e.date == CanonicalDate(ordered) && e.semantic == CanonicalSemantic(ordered)
    && e.official == LaneViews(ordered, Internal) && e.live == LaneViews(ordered, Live)
    && e.conflicts == ConflictsOn(env, ordered, FIELDS)
    && e.id == VisualId(e.fingerprint, EventIds(ordered))
  }

  ghost predicate HasStatuses(env: Text, e: Event, ordered: seq<Origin>)
  {
    && e.liveStatuses
       == DistinctValues(env, MapSeq(Filter(ordered, (o: Origin) => o.lane == Live), (o: Origin) => o.legalStatus))
    && var established :=
         DistinctValues(env, MapSeq(Filter(ordered, (o: Origin) => o.established), (o: Origin) => o.legalStatus));
       e.establishedStatus == if |established| == 1 then Some(established[0]) else None
  }

  ghost predicate HasKind(env: Text, e: Event, ordered: seq<Origin>)
  {
    && e.conflictId == (if e.conflicts == [] then None
                        else Some(ConflictId(e.fingerprint, MapSeq(e.conflicts, (c: Conflict) => c.field),
                                             EventIds(ordered))))
    && e.kind == if e.conflicts != [] then Conflicting else if |ordered| > 1 then ExactDuplicate
                 else if e.nearId.Some? then NearDuplicate else Standalone
  }

  lemma {:induction false} ColumnsOf(env: Text, origins: seq<Origin>, e: Event)
    requires ValidText(env) && e in ReconciledEvents(env, origins)
    ensures var ordered := Behind(env, origins, e.fingerprint);
            HasColumns(env, e, ordered) && HasStatuses(env, e, ordered) && HasKind(env, e, ordered)
  {
    hide *;
    EventHasGroup(env, origins, e);
    OfGroup(env, origins, e);
    GroupColumns(env, e.fingerprint, Group(origins, e.fingerprint));
    var g := ReconcileGroup(env, e.fingerprint, Group(origins, e.fingerprint));
    MarkedColumns(env, g, e, Behind(env, origins, e.fingerprint));
  }

  lemma {:induction false} OfGroup(env: Text, origins: seq<Origin>, e: Event)
    requires EventFor(env, origins, e, e.fingerprint)
    ensures Group(origins, e.fingerprint) != []
    ensures var g := ReconcileGroup(env, e.fingerprint, Group(origins, e.fingerprint));
            e == g || (g.kind == Standalone && e == g.(kind := NearDuplicate, nearId := e.nearId) && e.nearId.Some?)
    ensures Behind(env, origins, e.fingerprint) == Sort(Group(origins, e.fingerprint), OriginOrder(env))
  {
    hide ReconcileGroup, Group, Sort;
  }

  lemma {:induction false} GroupColumns(env: Text, fingerprint: string, group: seq<Origin>)
    requires group != []
    ensures var (g, ordered) := (ReconcileGroup(env, fingerprint, group), Sort(group, OriginOrder(env)));
            && g.fingerprint == fingerprint && g.nearId == None
            && HasColumns(env, g, ordered) && HasStatuses(env, g, ordered) && HasKind(env, g, ordered)
  {
    SortPermutes(group, OriginOrder(env));
    hide Sort, OrderedUnique, Flatten, CanonicalDate, CanonicalSemantic, LaneViews, ConflictsOn, OriginOrder;
    hide EventIds, DistinctValues, Filter, MapSeq;
  }

  lemma {:induction false} MarkedColumns(env: Text, g: Event, e: Event, ordered: seq<Origin>)
    requires HasColumns(env, g, ordered) && HasStatuses(env, g, ordered) && HasKind(env, g, ordered) && g.nearId == None
    requires e == g || (g.kind == Standalone && e == g.(kind := NearDuplicate, nearId := e.nearId) && e.nearId.Some?)
    ensures HasColumns(env, e, ordered) && HasStatuses(env, e, ordered) && HasKind(env, e, ordered)
  {
    hide Sort, OrderedUnique, Flatten, CanonicalDate, CanonicalSemantic, LaneViews, ConflictsOn;
    hide EventIds, DistinctValues, Filter, MapSeq;
  }

  /** An event is displayed as its first origin: an official one if there is any,
      and the one with the least identifier among those. */
  lemma {:induction false} DisplayExactly(env: Text, origins: seq<Origin>, e: Event)
    requires ValidText(env) && e in ReconciledEvents(env, origins)
    ensures exists o :: Mine(origins, e, o) && (forall q :: Mine(origins, e, q) ==> Precedes(env, o, q))
                        && e.key == o.key && e.labelText == o.labelText && e.eventType == o.eventType
  {
    OriginsInOrder(env, origins, e);
    ColumnsOf(env, origins, e);
    var ordered := Behind(env, origins, e.fingerprint);
    hide ReconciledEvents, Behind, Mine, CanonicalDate, CanonicalSemantic, Flatten;
    hide LaneViews, ConflictsOn, DistinctValues;
    var o := ordered[0];
    assert o in ordered;
    forall q | Mine(origins, e, q)
      ensures Precedes(env, o, q)
    {
      var i :| 0 <= i < |ordered| && ordered[i] == q;
    }
  }

  /** A view shows its origin as it is. */
  predicate Shows(v: View, o: Origin)
  {
    && v.eventId == o.eventId && v.lane == o.lane && v.labelText == o.labelText && v.eventType == o.eventType
    && v.date == o.date && v.semantic == o.semantic && v.sourceIds == o.sourceIds && v.ancestry == o.ancestry
    && v.publishedAt == o.publishedAt && v.retrievedAt == o.retrievedAt && v.legalStatus == o.legalStatus
    && v.established == o.established
  }

  /** The views of an event show exactly its origins, each in its own lane. */
  lemma {:induction false} ViewsExactly(env: Text, origins: seq<Origin>, e: Event)
    requires ValidText(env) && e in ReconciledEvents(env, origins)
    ensures forall v :: v in e.official <==> exists o :: Mine(origins, e, o) && o.lane == Internal && Shows(v, o)
    ensures forall v :: v in e.live <==> exists o :: Mine(origins, e, o) && o.lane == Live && Shows(v, o)
  {
    hide ReconciledEvents, ValidText;
    forall v, lane
      ensures v in LaneOf(e, lane) <==> exists o :: Mine(origins, e, o) && o.lane == lane && Shows(v, o)
    {
      OriginsInTheirEvent(env, origins, e, lane, v);
      forall o
        ensures Shows(v, o) <==> v == ViewOf(o)
      {
      }
      hide Shows, ViewOf, LaneOf;
    }
    assert LaneOf(e, Internal) == e.official && LaneOf(e, Live) == e.live;
  }

  // ----- values without repetition --------------------------------------------------

  predicate HasStatus(origins: seq<Origin>, e: Event, o: Origin)
  {
    Mine(origins, e, o) && o.legalStatus.Some?
  }

  /** The value at a place stands for its normalised form: it is the stripped value
      of the first that has it. */
  ghost predicate StandsFor(env: Text, values: seq<Option<string>>, norm: string, value: string)
  {
    exists i :: 0 <= i < |values| && values[i].Some? && env.norm(values[i].value) == norm
                && env.strip(values[i].value) == value
                && forall j :: 0 <= j < i && values[j].Some? ==> env.norm(values[j].value) != norm
  }

  ghost predicate Increasing(env: Text, norms: seq<string>)
  {
    forall i, j :: 0 <= i < j < |norms| ==> env.le(norms[i], norms[j]) && norms[i] != norms[j]
  }

  ghost predicate FirstValues(env: Text, values: seq<Option<string>>, entries: seq<Entry>)
  {
    && (forall i, j :: 0 <= i < j < |entries| ==> entries[i].norm != entries[j].norm)
    && (forall k :: 0 <= k < |entries| ==> StandsFor(env, values, entries[k].norm, entries[k].value))
    && (forall i :: 0 <= i < |values| && values[i].Some? ==> Listed(entries, env.norm(values[i].value)))
  }

  ghost predicate Listed(entries: seq<Entry>, norm: string)
  {
    exists e :: e in entries && e.norm == norm
  }

  lemma {:induction false} StandsForMore(
    env: Text, values: seq<Option<string>>, v: Option<string>, norm: string, value: string)
    requires StandsFor(env, values, norm, value)
    ensures StandsFor(env, values + [v], norm, value)
  {
    var i :| 0 <= i < |values| && values[i].Some? && env.norm(values[i].value) == norm
             && env.strip(values[i].value) == value
             && forall j :: 0 <= j < i && values[j].Some? ==> env.norm(values[j].value) != norm;
    var more := values + [v];
    assert more[i] == values[i] && forall j :: 0 <= j < i ==> more[j] == values[j];
  }

  lemma {:induction false} FirstByNormExactly(env: Text, values: seq<Option<string>>)
    ensures FirstValues(env, values, FirstByNorm(env, values))
  {
    if values != [] {
      var init, v := values[..|values| - 1], values[|values| - 1];
      FirstByNormExactly(env, init);
      FirstByNormLast(env, values);
      assert values == init + [v];
      hide *;
      FirstValuesMore(env, init, FirstByNorm(env, init), FirstByNorm(env, values), v);
    }
  }

  lemma {:induction false} FirstValuesMore(
    env: Text, init: seq<Option<string>>, done: seq<Entry>, all: seq<Entry>, v: Option<string>)
    requires FirstValues(env, init, done)
    requires all == if v.None? || Listed(done, env.norm(v.value)) then done
                    else done + [Entry(env.norm(v.value), env.strip(v.value))]
    ensures FirstValues(env, init + [v], all)
  {
    hide StandsFor;
    forall k | 0 <= k < |all|
      ensures StandsFor(env, init + [v], all[k].norm, all[k].value)
    {
      if k < |done| {
        StandsForMore(env, init, v, done[k].norm, done[k].value);
      } else {
        NewEntry(env, init, done, v);
      }
    }
    FirstValuesListed(env, init, done, all, v);
    forall i, j | 0 <= i < j < |all|
      ensures all[i].norm != all[j].norm
    {
      assert i < |done| ==> done[i] in done;
    }
  }

  lemma {:induction false} FirstByNormLast(env: Text, values: seq<Option<string>>)
    requires values != []
    ensures var (done, v) := (FirstByNorm(env, values[..|values| - 1]), values[|values| - 1]);
            FirstByNorm(env, values) == if v.None? || Listed(done, env.norm(v.value)) then done
                                        else done + [Entry(env.norm(v.value), env.strip(v.value))]
  {
  }

  lemma {:induction false} NewEntry(env: Text, init: seq<Option<string>>, done: seq<Entry>, v: Option<string>)
    requires FirstValues(env, init, done) && v.Some? && !Listed(done, env.norm(v.value))
    ensures StandsFor(env, init + [v], env.norm(v.value), env.strip(v.value))
  {
    var values := init + [v];
    assert values[|init|] == v;
    forall j | 0 <= j < |init| && values[j].Some?
      ensures env.norm(values[j].value) != env.norm(v.value)
    {
      assert init[j] == values[j];
    }
  }

  lemma {:induction false} FirstValuesListed(
    env: Text, init: seq<Option<string>>, done: seq<Entry>, all: seq<Entry>, v: Option<string>)
    requires FirstValues(env, init, done)
    requires all == if v.None? || Listed(done, env.norm(v.value)) then done
                    else done + [Entry(env.norm(v.value), env.strip(v.value))]
    ensures var values := init + [v];
            forall i :: 0 <= i < |values| && values[i].Some? ==> Listed(all, env.norm(values[i].value))
  {
    var values := init + [v];
    forall i | 0 <= i < |values| && values[i].Some?
      ensures Listed(all, env.norm(values[i].value))
    {
      if i < |init| {
        assert init[i] == values[i] && Listed(done, env.norm(init[i].value));
        var x :| x in done && x.norm == env.norm(init[i].value);
        assert x in all;
      } else if !Listed(done, env.norm(v.value)) {
        assert all[|done|].norm == env.norm(v.value) && all[|done|] in all;
      }
    }
  }

  /** One value for every normalised value that occurs, in order of these. */
  ghost predicate OnePerNorm(env: Text, values: seq<Option<string>>, norms: seq<string>, shown: seq<string>)
  {
    && |norms| == |shown| && Increasing(env, norms)
    && (forall n :: n in norms <==> exists v :: v in values && v.Some? && env.norm(v.value) == n)
    && (forall k :: 0 <= k < |norms| ==> StandsFor(env, values, norms[k], shown[k]))
  }

  lemma {:induction false} DistinctValuesExactly(env: Text, values: seq<Option<string>>) returns (norms: seq<string>)
    requires ValidText(env)
    ensures OnePerNorm(env, values, norms, DistinctValues(env, values))
  {
    var entries := FirstByNorm(env, values);
    var sorted := SortedEntries(env, entries);
    FirstByNormExactly(env, values);
    norms := MapSeq(sorted, (e: Entry) => e.norm);
    EntriesInOrder(env, entries, sorted);
    assert DistinctValues(env, values) == MapSeq(sorted, (e: Entry) => e.value);
    hide FirstByNorm, StandsFor, ValidText, SortedEntries;
    forall k | 0 <= k < |norms|
      ensures StandsFor(env, values, norms[k], DistinctValues(env, values)[k])
    {
      assert sorted[k] in entries;
    }
    hide DistinctValues;
    forall n
      ensures n in norms <==> exists v :: v in values && v.Some? && env.norm(v.value) == n
    {
      NormOccurs(env, values, entries, sorted, n);
    }
  }

  function SortedEntries(env: Text, entries: seq<Entry>): seq<Entry>
  {
    Sort(entries, (a: Entry, b: Entry) => env.le(a.norm, b.norm))
  }

  lemma {:induction false} EntriesInOrder(env: Text, entries: seq<Entry>, sorted: seq<Entry>)
    requires ValidText(env) && sorted == SortedEntries(env, entries)
    requires forall i, j :: 0 <= i < j < |entries| ==> entries[i].norm != entries[j].norm
    ensures forall x :: x in sorted <==> x in entries
    ensures Increasing(env, MapSeq(sorted, (e: Entry) => e.norm))
  {
    var le := (a: Entry, b: Entry) => env.le(a.norm, b.norm);
    assert TotalPreorder(le) by {
      assert TotalPreorder(env.le);
      assert forall x: Entry, y: Entry :: env.le(x.norm, y.norm) || env.le(y.norm, x.norm);
    }
    SortSorts(entries, le);
    SortPermutes(entries, le);
    PairwisePermuted(entries, sorted, (a: Entry, b: Entry) => a.norm != b.norm);
    hide Sort, ValidText;
  }

  lemma {:induction false} NormOccurs(
    env: Text, values: seq<Option<string>>, entries: seq<Entry>, sorted: seq<Entry>, n: string)
    requires FirstValues(env, values, entries) && forall x :: x in sorted <==> x in entries
    ensures n in MapSeq(sorted, (e: Entry) => e.norm) <==> exists v :: v in values && v.Some? && env.norm(v.value) == n
  {
    var norms := MapSeq(sorted, (e: Entry) => e.norm);
    if n in norms {
      var k :| 0 <= k < |norms| && norms[k] == n;
      assert sorted[k] in entries;
      var m :| 0 <= m < |entries| && entries[m] == sorted[k];
      assert StandsFor(env, values, entries[m].norm, entries[m].value);
    }
    if v :| v in values && v.Some? && env.norm(v.value) == n {
      var i :| 0 <= i < |values| && values[i] == v;
      assert Listed(entries, env.norm(values[i].value));
      var x :| x in entries && x.norm == n;
      var k :| 0 <= k < |sorted| && sorted[k] == x;
      assert norms[k] == n;
    }
  }

  // ----- legal status ----------------------------------------------------------------

  /** The statuses of the origins kept, as the source collects them. */
  ghost function StatusesOf(ordered: seq<Origin>, keep: Origin -> bool): seq<Option<string>>
  {
    MapSeq(Filter(ordered, keep), (o: Origin) => o.legalStatus)
  }

  lemma {:induction false} StatusesExactly(ordered: seq<Origin>, keep: Origin -> bool)
    ensures forall v :: v in StatusesOf(ordered, keep) <==> exists o :: o in ordered && keep(o) && o.legalStatus == v
  {
    var kept := Filter(ordered, keep);
    FilterMembers(ordered, keep);
    hide Filter;
    forall v
      ensures v in StatusesOf(ordered, keep) <==> exists o :: o in ordered && keep(o) && o.legalStatus == v
    {
      if v in StatusesOf(ordered, keep) {
        var i :| 0 <= i < |kept| && kept[i].legalStatus == v;
        assert kept[i] in kept;
      }
      if o :| o in ordered && keep(o) && o.legalStatus == v {
        assert o in kept;
        var i :| 0 <= i < |kept| && kept[i] == o;
        assert StatusesOf(ordered, keep)[i] == v;
      }
    }
  }

  predicate Established(origins: seq<Origin>, e: Event, o: Origin)
  {
    Mine(origins, e, o) && o.established && o.legalStatus.Some?
  }

  predicate SameStatus(env: Text, a: Origin, b: Origin)
  {
    a.legalStatus.Some? && b.legalStatus.Some? && env.norm(a.legalStatus.value) == env.norm(b.legalStatus.value)
  }

  /** An event has an established status exactly when some origin establishes one and
      all that do agree on it up to normalisation; it is the stripped status of one
      of them. Live reporting never establishes anything. */
  lemma {:induction false} EstablishedExactly(env: Text, origins: seq<Origin>, e: Event)
    requires ValidText(env) && e in ReconciledEvents(env, origins)
    ensures e.establishedStatus.Some?
            <==> && (exists o :: Established(origins, e, o))
                 && (forall a, b :: Established(origins, e, a) && Established(origins, e, b) ==> SameStatus(env, a, b))
    ensures e.establishedStatus.Some? ==>
      exists o :: Established(origins, e, o) && e.establishedStatus.value == env.strip(o.legalStatus.value)
  {
    OriginsInOrder(env, origins, e);
    ColumnsOf(env, origins, e);
    var ordered := Behind(env, origins, e.fingerprint);
    var keep := (o: Origin) => o.established;
    var values := StatusesOf(ordered, keep);
    StatusesExactly(ordered, keep);
    var norms := DistinctValuesExactly(env, values);
    assert e.establishedStatus
        == if |DistinctValues(env, values)| == 1 then Some(DistinctValues(env, values)[0]) else None;
    hide ReconciledEvents, Behind, ValidText, DistinctValues, StatusesOf;
    forall o
      ensures Established(origins, e, o) <==> o in ordered && keep(o) && o.legalStatus.Some?
    {
    }
    OneNormExactly(env, origins, e, ordered, keep, values, norms);
    if |norms| == 1 {
      StandsForSome(env, values, norms[0], DistinctValues(env, values)[0]);
    }
  }

  lemma {:induction false} StandsForSome(env: Text, values: seq<Option<string>>, norm: string, value: string)
    requires StandsFor(env, values, norm, value)
    ensures exists v :: v in values && v.Some? && env.strip(v.value) == value
  {
    var i :| 0 <= i < |values| && values[i].Some? && env.norm(values[i].value) == norm
             && env.strip(values[i].value) == value
             && forall j :: 0 <= j < i && values[j].Some? ==> env.norm(values[j].value) != norm;
    assert values[i] in values;
  }

  lemma {:induction false} OneNormExactly(
    env: Text, origins: seq<Origin>, e: Event, ordered: seq<Origin>, keep: Origin -> bool,
    values: seq<Option<string>>, norms: seq<string>)
    requires forall v :: v in values <==> exists o :: o in ordered && keep(o) && o.legalStatus == v
    requires forall o :: Established(origins, e, o) <==> o in ordered && keep(o) && o.legalStatus.Some?
    requires Increasing(env, norms)
    requires forall n :: n in norms <==> exists v :: v in values && v.Some? && env.norm(v.value) == n
    ensures |norms| == 1
            <==> && (exists o :: Established(origins, e, o))
                 && (forall a, b :: Established(origins, e, a) && Established(origins, e, b) ==> SameStatus(env, a, b))
  {
    hide Established;
    forall o | Established(origins, e, o)
      ensures env.norm(o.legalStatus.value) in norms
    {
      assert o.legalStatus in values;
    }
    forall k | 0 <= k < |norms|
      ensures exists o :: Established(origins, e, o) && env.norm(o.legalStatus.value) == norms[k]
    {
      assert norms[k] in norms;
      var v :| v in values && v.Some? && env.norm(v.value) == norms[k];
      var o :| o in ordered && keep(o) && o.legalStatus == v;
      assert Established(origins, e, o);
    }
    if |norms| >= 2 {
      var a :| Established(origins, e, a) && env.norm(a.legalStatus.value) == norms[0];
      var b :| Established(origins, e, b) && env.norm(b.legalStatus.value) == norms[1];
      assert norms[0] != norms[1];
      assert !SameStatus(env, a, b);
    }
  }

  /** Some live origin has the normalised status, and the value is its stripped one. */
  ghost predicate Reports(env: Text, origins: seq<Origin>, e: Event, norm: string, value: string)
  {
    exists o :: HasStatus(origins, e, o) && o.lane == Live && env.norm(o.legalStatus.value) == norm
                && env.strip(o.legalStatus.value) == value
  }

  /** The reported statuses: one for every normalised status of the live origins, in
      order of these, each the stripped status of one of them. */
  lemma {:induction false} ReportedExactly(env: Text, origins: seq<Origin>, e: Event) returns (norms: seq<string>)
    requires ValidText(env) && e in ReconciledEvents(env, origins)
    ensures |norms| == |e.liveStatuses| && Increasing(env, norms)
    ensures forall n :: n in norms
                        <==> exists o :: HasStatus(origins, e, o) && o.lane == Live
                                         && env.norm(o.legalStatus.value) == n
    ensures forall k :: 0 <= k < |norms| ==> Reports(env, origins, e, norms[k], e.liveStatuses[k])
  {
    hide ReconciledEvents, ValidText, DistinctValues, StatusesOf, StandsFor, Behind, OnePerNorm, Mine, Increasing;
    var values := StatusesOf(Behind(env, origins, e.fingerprint), (o: Origin) => o.lane == Live);
    LiveValues(env, origins, e, values);
    norms := DistinctValuesExactly(env, values);
    OnePerNormFacts(env, values, norms, e.liveStatuses);
    LiveNorms(env, origins, e, values, norms);
    forall k | 0 <= k < |norms|
      ensures Reports(env, origins, e, norms[k], e.liveStatuses[k])
    {
      StandsForValue(env, values, norms[k], e.liveStatuses[k]);
      var v :| v in values && v.Some? && env.norm(v.value) == norms[k] && env.strip(v.value) == e.liveStatuses[k];
      var o :| HasStatus(origins, e, o) && o.lane == Live && o.legalStatus == v;
    }
  }

  lemma {:induction false} OnePerNormFacts(
    env: Text, values: seq<Option<string>>, norms: seq<string>, shown: seq<string>)
    requires OnePerNorm(env, values, norms, shown)
    ensures |norms| == |shown| && Increasing(env, norms)
    ensures forall n :: n in norms <==> exists v :: v in values && v.Some? && env.norm(v.value) == n
    ensures forall k :: 0 <= k < |norms| ==> StandsFor(env, values, norms[k], shown[k])
  {
    hide StandsFor, Increasing;
  }

  lemma {:induction false} LiveValues(env: Text, origins: seq<Origin>, e: Event, values: seq<Option<string>>)
    requires ValidText(env) && e in ReconciledEvents(env, origins)
    requires values == StatusesOf(Behind(env, origins, e.fingerprint), (o: Origin) => o.lane == Live)
    ensures e.liveStatuses == DistinctValues(env, values)
    ensures forall v: Option<string> :: v.Some? ==>
      (v in values <==> exists o :: HasStatus(origins, e, o) && o.lane == Live && o.legalStatus == v)
  {
    var ordered := Behind(env, origins, e.fingerprint);
    OriginsInOrder(env, origins, e);
    ColumnsOf(env, origins, e);
    StatusesExactly(ordered, (o: Origin) => o.lane == Live);
    assert e.liveStatuses == DistinctValues(env, values);
    hide ReconciledEvents, Behind, ValidText, DistinctValues, StatusesOf;
    forall v: Option<string> | v.Some?
      ensures v in values <==> exists o :: HasStatus(origins, e, o) && o.lane == Live && o.legalStatus == v
    {
      if o :| HasStatus(origins, e, o) && o.lane == Live && o.legalStatus == v {
        assert o in ordered;
      }
    }
  }

  lemma {:induction false} LiveNorms(
    env: Text, origins: seq<Origin>, e: Event, values: seq<Option<string>>, norms: seq<string>)
    requires forall v: Option<string> :: v.Some? ==>
      (v in values <==> exists o :: HasStatus(origins, e, o) && o.lane == Live && o.legalStatus == v)
    requires forall n :: n in norms <==> exists v :: v in values && v.Some? && env.norm(v.value) == n
    ensures forall n :: n in norms
                        <==> exists o :: HasStatus(origins, e, o) && o.lane == Live
                                         && env.norm(o.legalStatus.value) == n
  {
    forall n
      ensures n in norms
              <==> exists o :: HasStatus(origins, e, o) && o.lane == Live && env.norm(o.legalStatus.value) == n
    {
      if o :| HasStatus(origins, e, o) && o.lane == Live && env.norm(o.legalStatus.value) == n {
        assert o.legalStatus in values;
      }
    }
  }

  lemma {:induction false} StandsForValue(env: Text, values: seq<Option<string>>, norm: string, value: string)
    requires StandsFor(env, values, norm, value)
    ensures exists v :: v in values && v.Some? && env.norm(v.value) == norm && env.strip(v.value) == value
  {
    var i :| 0 <= i < |values| && values[i].Some? && env.norm(values[i].value) == norm
             && env.strip(values[i].value) == value
             && forall j :: 0 <= j < i && values[j].Some? ==> env.norm(values[j].value) != norm;
    assert values[i] in values;
  }

  // ----- dates -------------------------------------------------------------------------

  predicate DatedOrigin(origins: seq<Origin>, e: Event, o: Origin)
  {
    Mine(origins, e, o) && o.date.Some?
  }

  lemma {:induction false} DatedMembers(ordered: seq<Origin>)
    ensures forall o :: o in Dated(ordered) <==> o in ordered && o.date.Some?
  {
    FilterMembers(ordered, (o: Origin) => o.date.Some?);
  }

  /** An event has a date exactly when some origin has one and all that do agree on
      the instant; it is one of theirs. It has a semantic exactly when the dated
      origins agree on theirs. */
  lemma {:induction false} DateExactly(env: Text, origins: seq<Origin>, e: Event)
    requires ValidText(env) && e in ReconciledEvents(env, origins)
    ensures e.date.Some?
            <==> && (exists o :: DatedOrigin(origins, e, o))
                 && (forall a, b :: DatedOrigin(origins, e, a) && DatedOrigin(origins, e, b) ==>
                       a.date.value.instant == b.date.value.instant)
    ensures e.date.Some? ==> exists o :: DatedOrigin(origins, e, o) && o.date == e.date
    ensures e.semantic.Some?
            <==> && (exists o :: DatedOrigin(origins, e, o))
                 && (forall a, b :: DatedOrigin(origins, e, a) && DatedOrigin(origins, e, b) ==>
                       a.semantic == b.semantic)
    ensures e.semantic.Some? ==> exists o :: DatedOrigin(origins, e, o) && o.semantic == e.semantic.value
  {
    OriginsInOrder(env, origins, e);
    ColumnsOf(env, origins, e);
    var ordered := Behind(env, origins, e.fingerprint);
    DatedMembers(ordered);
    hide ReconciledEvents, Behind, ValidText, Dated, Mine;
    var dated := Dated(ordered);
    assert forall o :: o in dated <==> DatedOrigin(origins, e, o);
    assert dated != [] ==> dated[0] in dated;
  }

  // ----- identifiers ---------------------------------------------------------------------

  lemma {:induction false} FlattenExactly(lists: seq<seq<string>>)
    ensures forall x :: x in Flatten(lists) <==> exists i :: 0 <= i < |lists| && x in lists[i]
  {
    if lists != [] {
      var init := lists[..|lists| - 1];
      FlattenExactly(init);
      assert forall i :: 0 <= i < |init| ==> init[i] == lists[i];
    }
  }

  /** The entities are those of the origins, each once, in order. */
  lemma {:induction false} EntitiesExactly(env: Text, origins: seq<Origin>, e: Event)
    requires ValidText(env) && e in ReconciledEvents(env, origins)
    ensures forall id :: id in e.entityIds <==> exists o :: Mine(origins, e, o) && id in o.entityIds
    ensures Increasing(env, e.entityIds)
  {
    OriginsInOrder(env, origins, e);
    ColumnsOf(env, origins, e);
    var ordered := Behind(env, origins, e.fingerprint);
    hide ReconciledEvents, Behind, ValidText, Mine, OrderedUnique, Flatten, Sort, Increasing, LaneViews, ConflictsOn;
    hide CanonicalDate, CanonicalSemantic, MapSeq, EventIds, HasStatuses, HasKind;
    EntitiesOf(env, ordered);
  }

  lemma {:induction false} EntitiesOf(env: Text, ordered: seq<Origin>)
    requires ValidText(env)
    ensures var ids := Sort(OrderedUnique(Flatten(MapSeq(ordered, (o: Origin) => o.entityIds))), env.le);
            Increasing(env, ids) && forall id :: id in ids <==> exists o :: o in ordered && id in o.entityIds
  {
    var lists := MapSeq(ordered, (o: Origin) => o.entityIds);
    OrderedUniqueMembers(Flatten(lists));
    DistinctInOrder(env, OrderedUnique(Flatten(lists)));
    SortPermutes(OrderedUnique(Flatten(lists)), env.le);
    hide OrderedUnique, Flatten, Sort, Increasing, ValidText;
    forall id
      ensures id in Flatten(lists) <==> exists o :: o in ordered && id in o.entityIds
    {
      EntityMembers(ordered, lists, id);
    }
  }

  lemma {:induction false} EntityMembers(ordered: seq<Origin>, lists: seq<seq<string>>, id: string)
    requires |lists| == |ordered| && forall i :: 0 <= i < |ordered| ==> lists[i] == ordered[i].entityIds
    ensures id in Flatten(lists) <==> exists o :: o in ordered && id in o.entityIds
  {
    FlattenExactly(lists);
    hide Flatten;
    if o :| o in ordered && id in o.entityIds {
      var i :| 0 <= i < |ordered| && ordered[i] == o;
      assert id in lists[i];
    }
  }

  lemma {:induction false} DistinctInOrder(env: Text, unique: seq<string>)
    requires ValidText(env) && forall i, j :: 0 <= i < j < |unique| ==> unique[i] != unique[j]
    ensures Increasing(env, Sort(unique, env.le))
  {
    SortSorts(unique, env.le);
    SortPermutes(unique, env.le);
    DistinctPermute(unique, Sort(unique, env.le));
    hide Sort;
  }

  /** The first place of every value, and nothing twice. */
  ghost predicate FirstPlaces(values: seq<string>, places: seq<nat>, kept: seq<string>)
  {
    && |places| == |kept|
    && (forall k :: 0 <= k < |places| ==>
          places[k] < |values| && values[places[k]] == kept[k] && kept[k] !in values[..places[k]])
    && (forall j, k :: 0 <= j < k < |places| ==> places[j] < places[k])
    && (forall x :: x in kept <==> x in values)
  }

  /** A list without repetition keeps the first occurrence of every value, in order. */
  lemma {:induction false} OrderedUniqueExactly(values: seq<string>) returns (places: seq<nat>)
    ensures FirstPlaces(values, places, OrderedUnique(values))
  {
    OrderedUniqueMembers(values);
    if values == [] {
      places := [];
    } else {
      var init, last := values[..|values| - 1], values[|values| - 1];
      var before := OrderedUniqueExactly(init);
      OrderedUniqueMembers(init);
      assert values == init + [last];
      places := if last in init then before else before + [|init|];
      LastPlace(init, last, before, OrderedUnique(init));
    }
  }

  lemma {:induction false} LastPlace(init: seq<string>, last: string, places: seq<nat>, kept: seq<string>)
    requires FirstPlaces(init, places, kept)
    ensures if last in init then FirstPlaces(init + [last], places, kept)
            else FirstPlaces(init + [last], places + [|init|], kept + [last])
  {
    var values := init + [last];
    assert values[..|init|] == init;
    assert forall k :: 0 <= k < |places| ==> values[..places[k]] == init[..places[k]];
  }

  function ViewIds(views: seq<View>): seq<string> { MapSeq(views, (v: View) => v.eventId) }

  /** Each lane is ordered by event identifier, and the event is named after its
      fingerprint and its origins, official ones first. */
  lemma {:induction false} NamesExactly(env: Text, origins: seq<Origin>, e: Event)
    requires ValidText(env) && e in ReconciledEvents(env, origins)
    ensures e.id == VisualId(e.fingerprint, ViewIds(e.official) + ViewIds(e.live))
    ensures forall i, j :: 0 <= i < j < |e.official| ==> env.le(e.official[i].eventId, e.official[j].eventId)
    ensures forall i, j :: 0 <= i < j < |e.live| ==> env.le(e.live[i].eventId, e.live[j].eventId)
    ensures e.conflictId == if e.conflicts == [] then None
                            else Some(ConflictId(e.fingerprint, FieldsOf(e.conflicts), e.id.eventIds))
  {
    OriginsInOrder(env, origins, e);
    ColumnsOf(env, origins, e);
    var ordered := Behind(env, origins, e.fingerprint);
    hide ReconciledEvents, Behind, ValidText, Mine, LaneViews, Precedes, HasStatuses, EventIds, ViewIds;
    LanesInOrder(env, ordered);
    FieldsAre(e.conflicts);
  }

  ghost function FieldsOf(conflicts: seq<Conflict>): (fields: seq<Field>)
    ensures |fields| == |conflicts| && forall k :: 0 <= k < |conflicts| ==> fields[k] == conflicts[k].field
  {
    seq(|conflicts|, k requires 0 <= k < |conflicts| => conflicts[k].field)
  }

  lemma {:induction false} FieldsAre(conflicts: seq<Conflict>)
    ensures MapSeq(conflicts, (c: Conflict) => c.field) == FieldsOf(conflicts)
  {
  }

  lemma {:induction false} LanesInOrder(env: Text, ordered: seq<Origin>)
    requires forall i, j :: 0 <= i < j < |ordered| ==> Precedes(env, ordered[i], ordered[j])
    ensures EventIds(ordered) == ViewIds(LaneViews(ordered, Internal)) + ViewIds(LaneViews(ordered, Live))
    ensures ByEventId(env, LaneViews(ordered, Internal)) && ByEventId(env, LaneViews(ordered, Live))
  {
    if ordered != [] {
      var init, last := ordered[..|ordered| - 1], ordered[|ordered| - 1];
      LanesInOrder(env, init);
      assert ordered == init + [last];
      assert forall k :: 0 <= k < |init| ==> Precedes(env, init[k], last) by {
        assert forall k :: 0 <= k < |init| ==> Precedes(env, ordered[k], ordered[|init|]);
      }
      hide LaneViews, Precedes, EventIds, ByEventId, ViewIds;
      LaneLast(init, last, Internal);
      LaneLast(init, last, Live);
      LaneGrows(env, init, last, last.lane);
      NamesGrow(env, init, last);
      assert LaneViews(init, Internal) + [] == LaneViews(init, Internal);
      assert LaneViews(init, Live) + [] == LaneViews(init, Live);
    }
  }

  ghost predicate ByEventId(env: Text, views: seq<View>)
  {
    forall i, j :: 0 <= i < j < |views| ==> env.le(views[i].eventId, views[j].eventId)
  }

  lemma {:induction false} LaneGrows(env: Text, init: seq<Origin>, last: Origin, lane: Lane)
    requires lane == last.lane && ByEventId(env, LaneViews(init, lane))
    requires forall k :: 0 <= k < |init| ==> Precedes(env, init[k], last)
    ensures ByEventId(env, LaneViews(init, lane) + [ViewOf(last)])
  {
    var views := LaneViews(init, lane);
    forall i | 0 <= i < |views|
      ensures env.le(views[i].eventId, last.eventId)
    {
      assert views[i] in views;
      LaneMembers(init, lane, views[i]);
      var o :| o in init && o.lane == lane && views[i] == ViewOf(o);
      var k :| 0 <= k < |init| && init[k] == o;
      assert Precedes(env, init[k], last);
    }
    hide LaneViews;
  }

  lemma {:induction false} NamesGrow(env: Text, init: seq<Origin>, last: Origin)
    requires EventIds(init) == ViewIds(LaneViews(init, Internal)) + ViewIds(LaneViews(init, Live))
    requires forall k :: 0 <= k < |init| ==> Precedes(env, init[k], last)
    ensures EventIds(init + [last])
         == ViewIds(LaneViews(init, Internal) + if last.lane == Internal then [ViewOf(last)] else [])
            + ViewIds(LaneViews(init, Live) + if last.lane == Live then [ViewOf(last)] else [])
  {
    var (official, live) := (LaneViews(init, Internal), LaneViews(init, Live));
    assert EventIds(init + [last]) == EventIds(init) + [last.eventId];
    if last.lane == Internal {
      NoLive(init, last, env);
    }
    hide LaneViews, EventIds, Precedes;
    assert ViewIds(official + [ViewOf(last)]) == ViewIds(official) + [last.eventId];
    assert ViewIds(live + [ViewOf(last)]) == ViewIds(live) + [last.eventId];
    assert official + [] == official && live + [] == live;
  }

  lemma {:induction false} LaneLast(init: seq<Origin>, last: Origin, lane: Lane)
    ensures LaneViews(init + [last], lane)
         == LaneViews(init, lane) + if last.lane == lane then [ViewOf(last)] else []
  {
    assert (init + [last])[..|init|] == init;
  }

  lemma {:induction false} NoLive(init: seq<Origin>, last: Origin, env: Text)
    requires last.lane == Internal && forall k :: 0 <= k < |init| ==> Precedes(env, init[k], last)
    ensures LaneViews(init, Live) == []
  {
    forall o | o in init
      ensures o.lane == Internal
    {
      var k :| 0 <= k < |init| && init[k] == o;
    }
    forall v
      ensures v !in LaneViews(init, Live)
    {
      LaneMembers(init, Live, v);
    }
    NoElement(LaneViews(init, Live));
  }

  lemma {:induction false} NoElement<T>(s: seq<T>)
    ensures s == [] || exists x :: x in s
  {
    if s != [] {
      assert s[0] in s;
    }
  }

  // ----- conflicts ------------------------------------------------------------------------

  lemma {:induction false} JoinExactly(separator: string, parts: seq<string>, last: string)
    ensures Join(separator, []) == "" && Join(separator, [last]) == last
    ensures parts != [] ==> Join(separator, parts + [last]) == Join(separator, parts) + separator + last
  {
    assert (parts + [last])[..|parts|] == parts;
  }

  /** What is compared on each field, and what an observation of it shows. Key and
      entities stand together, as do semantic and date. */
  lemma {:induction false} FieldsExactly(env: Text, o: Origin)
    ensures var entities := Sort(o.entityIds, env.le);
            && Compared(env, o, EventIdentity) == Some(env.norm(Join("|", [env.norm(o.key)] + entities)))
            && Displayed(env, o, EventIdentity) == o.key + " \U{2014} " + Join(", ", entities)
    ensures Compared(env, o, Date)
         == if o.date.None? then None else Some(env.norm(o.semantic + "|" + env.iso(o.date.value)))
    ensures o.date.Some? ==> Displayed(env, o, Date) == o.semantic + " \U{B7} " + env.iso(o.date.value)
    ensures Compared(env, o, EventType) == Some(env.norm(o.eventType)) && Displayed(env, o, EventType) == o.eventType
    ensures Compared(env, o, Description) == Some(env.norm(o.description))
    ensures Displayed(env, o, Description) == o.labelText
    ensures Compared(env, o, LegalStatus)
         == if o.legalStatus.None? then None else Some(env.norm(o.legalStatus.value))
    ensures o.legalStatus.Some? ==> Displayed(env, o, LegalStatus) == o.legalStatus.value
  {
    hide Sort;
    if o.date.Some? {
      TwoParts("|", o.semantic, env.iso(o.date.value));
      TwoParts(" \U{B7} ", o.semantic, env.iso(o.date.value));
    }
  }

  lemma {:induction false} TwoParts(separator: string, a: string, b: string)
    ensures Join(separator, [a, b]) == a + separator + b
  {
    JoinExactly(separator, [a], b);
    assert [a] + [b] == [a, b];
  }

  function Number(f: Field): nat
  {
    match f
    case EventIdentity => 0
    case Date => 1
    case EventType => 2
    case Description => 3
    case LegalStatus => 4
  }

  ghost predicate InFieldOrder(conflicts: seq<Conflict>, bound: nat)
  {
    && (forall i :: 0 <= i < |conflicts| ==> Number(conflicts[i].field) < bound)
    && forall i, j :: 0 <= i < j < |conflicts| ==> Number(conflicts[i].field) < Number(conflicts[j].field)
  }

  lemma {:induction false} ConflictsInOrder(env: Text, ordered: seq<Origin>, n: nat)
    requires n <= |FIELDS|
    ensures InFieldOrder(ConflictsOn(env, ordered, FIELDS[..n]), n)
  {
    hide ComparedValues, Observations;
    if n > 0 {
      ConflictsInOrder(env, ordered, n - 1);
      assert FIELDS[..n][..n - 1] == FIELDS[..n - 1];
      assert Number(FIELDS[n - 1]) == n - 1;
    }
  }

  /** The observations of a conflict: one for every origin that has the field, in the
      order of the origins, with its event, lane and text. */
  ghost predicate Observed(env: Text, ordered: seq<Origin>, f: Field, observations: seq<Observation>)
  {
    exists places: seq<nat> :: ObservedAt(env, ordered, f, observations, places)
  }

  ghost predicate ObservedAt(
    env: Text, ordered: seq<Origin>, f: Field, observations: seq<Observation>, places: seq<nat>)
  {
    && |places| == |observations|
    && (forall k :: 0 <= k < |places| ==>
          && places[k] < |ordered| && Compared(env, ordered[places[k]], f).Some?
          && observations[k] == Observation(ordered[places[k]].eventId, ordered[places[k]].lane,
                                            Displayed(env, ordered[places[k]], f)))
    && (forall j, k :: 0 <= j < k < |places| ==> places[j] < places[k])
    && (forall i: nat :: i < |ordered| && Compared(env, ordered[i], f).Some? ==> i in places)
  }

  lemma {:induction false} ObservationsExactly(env: Text, ordered: seq<Origin>, f: Field) returns (places: seq<nat>)
    ensures ObservedAt(env, ordered, f, Observations(env, ordered, f), places)
  {
    hide Compared, Displayed;
    if ordered == [] {
      places := [];
    } else {
      var init, last := ordered[..|ordered| - 1], ordered[|ordered| - 1];
      var before := ObservationsExactly(env, init, f);
      assert ordered == init + [last];
      hide Observations, ObservedAt;
      ObservationLast(env, init, last, f);
      if Compared(env, last, f).Some? {
        ObservedMore(env, init, last, f, Observations(env, init, f), before);
        places := before + [|init|];
      } else {
        ObservedStill(env, init, last, f, Observations(env, init, f), before);
        assert Observations(env, init, f) + [] == Observations(env, init, f);
        places := before;
      }
    }
  }

  lemma {:induction false} ObservedStill(
    env: Text, init: seq<Origin>, last: Origin, f: Field, observations: seq<Observation>, places: seq<nat>)
    requires ObservedAt(env, init, f, observations, places) && Compared(env, last, f).None?
    ensures ObservedAt(env, init + [last], f, observations, places)
  {
    hide Compared, Displayed;
    var ordered := init + [last];
    assert forall k :: 0 <= k < |places| ==> ordered[places[k]] == init[places[k]];
    forall i: nat | i < |ordered| && Compared(env, ordered[i], f).Some?
      ensures i in places
    {
      assert i < |init| && init[i] == ordered[i];
    }
  }

  lemma {:induction false} ObservedMore(
    env: Text, init: seq<Origin>, last: Origin, f: Field, observations: seq<Observation>, places: seq<nat>)
    requires ObservedAt(env, init, f, observations, places) && Compared(env, last, f).Some?
    ensures ObservedAt(env, init + [last], f,
                       observations + [Observation(last.eventId, last.lane, Displayed(env, last, f))],
                       places + [|init|])
  {
    hide Compared, Displayed;
    var (ordered, more) := (init + [last], places + [|init|]);
    var all := observations + [Observation(last.eventId, last.lane, Displayed(env, last, f))];
    forall k | 0 <= k < |more|
      ensures more[k] < |ordered| && Compared(env, ordered[more[k]], f).Some?
      ensures all[k]
           == Observation(ordered[more[k]].eventId, ordered[more[k]].lane, Displayed(env, ordered[more[k]], f))
    {
      if k < |places| {
        assert more[k] == places[k] && ordered[places[k]] == init[places[k]];
      }
    }
    forall i: nat | i < |ordered| && Compared(env, ordered[i], f).Some?
      ensures i in more
    {
      if i < |init| {
        assert init[i] == ordered[i] && i in places;
      }
    }
  }

  lemma {:induction false} ObservationLast(env: Text, init: seq<Origin>, last: Origin, f: Field)
    ensures Observations(env, init + [last], f)
         == Observations(env, init, f)
            + if Compared(env, last, f).None? then []
              else [Observation(last.eventId, last.lane, Displayed(env, last, f))]
  {
    assert (init + [last])[..|init|] == init;
    hide Compared, Displayed;
  }

  /** The conflicts of an event come in the order of the fields, and each shows what
      its origins say. */
  lemma {:induction false} ConflictsShowOrigins(env: Text, origins: seq<Origin>, e: Event)
    requires ValidText(env) && e in ReconciledEvents(env, origins)
    ensures InFieldOrder(e.conflicts, 5)
    ensures forall c :: c in e.conflicts ==>
      Observed(env, Behind(env, origins, e.fingerprint), c.field, c.observations)
  {
    ColumnsOf(env, origins, e);
    var ordered := Behind(env, origins, e.fingerprint);
    ConflictsInOrder(env, ordered, 5);
    assert FIELDS[..5] == FIELDS;
    ConflictsExactly(env, ordered, FIELDS, Date);
    hide *;
    forall c | c in e.conflicts
      ensures Observed(env, ordered, c.field, c.observations)
    {
      var places := ObservationsExactly(env, ordered, c.field);
      ObservedBy(env, ordered, c.field, c.observations, places);
    }
  }

  lemma {:induction false} ObservedBy(
    env: Text, ordered: seq<Origin>, f: Field, observations: seq<Observation>, places: seq<nat>)
    requires ObservedAt(env, ordered, f, observations, places)
    ensures Observed(env, ordered, f, observations)
  {
    hide ObservedAt;
  }

  // ----- match kinds ------------------------------------------------------------------------

  /** A single origin, and nothing in conflict. */
  predicate Alone(e: Event)
  {
    |e.official| + |e.live| == 1 && e.conflicts == []
  }

  /** The same entities, and up to normalisation the same key and type. */
  predicate SameStory(env: Text, a: Event, b: Event)
  {
    a.entityIds == b.entityIds && env.norm(a.key) == env.norm(b.key) && env.norm(a.eventType) == env.norm(b.eventType)
  }

  ghost function Unmarked(env: Text, origins: seq<Origin>): seq<Event>
  {
    FingerprintGroups(env, origins);
    GroupEvents(env, origins, Fingerprints(env, origins))
  }

  /** One event for every fingerprint, none of them marked yet. */
  lemma {:induction false} UnmarkedAt(env: Text, origins: seq<Origin>, i: nat)
    requires i < |Unmarked(env, origins)|
    ensures var (g, fs) := (Unmarked(env, origins)[i], Fingerprints(env, origins));
            && |Unmarked(env, origins)| == |fs| && g.fingerprint == fs[i]
            && g.nearId == None && g.kind != NearDuplicate && (g.kind == Standalone <==> Alone(g))
  {
    var fs := Fingerprints(env, origins);
    FingerprintGroups(env, origins);
    GroupEventsLength(env, origins, fs);
    GroupEventsAt(env, origins, fs, i);
    assert fs[i] in fs;
    hide Fingerprints, GroupEvents, Group;
    UnmarkedGroup(env, fs[i], Group(origins, fs[i]));
  }

  lemma {:induction false} UnmarkedGroup(env: Text, fingerprint: string, group: seq<Origin>)
    requires group != []
    ensures var g := ReconcileGroup(env, fingerprint, group);
            && g.fingerprint == fingerprint
            && g.nearId == None && g.kind != NearDuplicate && (g.kind == Standalone <==> Alone(g))
  {
    SortPermutes(group, OriginOrder(env));
    LanesPartition(Sort(group, OriginOrder(env)));
    hide Sort, OrderedUnique, DistinctValues, LaneViews, ConflictsOn, MapSeq, Flatten, Filter, EventIds;
    hide SortedDistinct, CanonicalDate, CanonicalSemantic;
  }

  lemma {:induction false} ResultIs(env: Text, origins: seq<Origin>)
    ensures ReconciledEvents(env, origins) == Sort(MarkNear(env, Unmarked(env, origins)), EventOrder(env))
  {
    FingerprintGroups(env, origins);
    hide Sort, MarkNear, GroupEvents, Fingerprints, EventOrder;
  }

  /** The place of an event before it was marked, and of every other. */
  lemma {:induction false} PlaceOf(env: Text, origins: seq<Origin>, e: Event) returns (i: nat)
    requires ValidText(env) && e in ReconciledEvents(env, origins)
    ensures i < |Unmarked(env, origins)| && e == MarkOne(env, Unmarked(env, origins), Unmarked(env, origins)[i])
  {
    var events := Unmarked(env, origins);
    var marked := MarkNear(env, events);
    ResultIs(env, origins);
    SortPermutes(marked, EventOrder(env));
    hide Sort, Unmarked, MarkOne, ReconciledEvents, EventOrder;
    assert e in marked;
    i :| 0 <= i < |marked| && marked[i] == e;
  }

  lemma {:induction false} InResult(env: Text, origins: seq<Origin>, j: nat)
    requires j < |Unmarked(env, origins)|
    ensures MarkOne(env, Unmarked(env, origins), Unmarked(env, origins)[j]) in ReconciledEvents(env, origins)
  {
    var events := Unmarked(env, origins);
    var marked := MarkNear(env, events);
    ResultIs(env, origins);
    SortPermutes(marked, EventOrder(env));
    hide Sort, Unmarked, MarkOne, ReconciledEvents, EventOrder;
    assert marked[j] in marked;
  }

  lemma {:induction false} MarkKeeps(env: Text, events: seq<Event>, i: nat)
    requires i < |events| && events[i].kind != NearDuplicate && events[i].nearId == None
    ensures var (g, m) := (events[i], MarkOne(env, events, events[i]));
            && m.(kind := g.kind, nearId := None) == g && NearKeyOf(env, m) == NearKeyOf(env, g)
            && (m.kind == NearDuplicate <==> g.kind == Standalone && HasTwin(env, events, i))
            && (m.kind != NearDuplicate ==> m == g)
            && (m.kind == NearDuplicate ==>
                  m.nearId == Some(NearId(NearKeyOf(env, g),
                                          MapSeq(NearGroup(env, events, NearKeyOf(env, g)), (x: Event) => x.id))))
  {
    NearDuplicatesExactly(env, events, i);
    assert MarkNear(env, events)[i] == MarkOne(env, events, events[i]);
    hide NearGroup, HasTwin;
  }

  lemma {:induction false} KeysAreStories(env: Text, a: Event, b: Event)
    ensures NearKeyOf(env, a) == NearKeyOf(env, b) <==> SameStory(env, a, b)
  {
  }

  /** Conflicting means in conflict, an exact duplicate has several origins that
      agree, and a single origin is a near duplicate exactly when another event of
      a single origin tells the same story. */
  lemma {:induction false} KindExactly(env: Text, origins: seq<Origin>, e: Event)
    requires ValidText(env) && e in ReconciledEvents(env, origins)
    ensures e.kind == Conflicting <==> e.conflicts != []
    ensures e.kind == ExactDuplicate <==> e.conflicts == [] && |e.official| + |e.live| > 1
    ensures e.kind == NearDuplicate
            <==> Alone(e) && exists x :: x in ReconciledEvents(env, origins) && x.fingerprint != e.fingerprint
                                         && Alone(x) && SameStory(env, e, x)
  {
    hide *;
    EventKinds(env, origins, e);
    var i := PlaceOf(env, origins, e);
    if HasTwin(env, Unmarked(env, origins), i) {
      TwinTellsStory(env, origins, e, i);
    }
    if exists x :: x in ReconciledEvents(env, origins) && x.fingerprint != e.fingerprint && Alone(x)
                   && SameStory(env, e, x) {
      var x :| x in ReconciledEvents(env, origins) && x.fingerprint != e.fingerprint && Alone(x)
               && SameStory(env, e, x);
      StoryIsTwin(env, origins, e, i, x);
    }
    MarkedKind(env, origins, e, i);
  }

  lemma {:induction false} MarkedKind(env: Text, origins: seq<Origin>, e: Event, i: nat)
    requires i < |Unmarked(env, origins)| && e == MarkOne(env, Unmarked(env, origins), Unmarked(env, origins)[i])
    ensures e.kind == NearDuplicate <==> Alone(e) && HasTwin(env, Unmarked(env, origins), i)
  {
    UnmarkedTogether(env, origins, i);
    UnmarkedAt(env, origins, i);
    MarkKeeps(env, Unmarked(env, origins), i);
    hide Unmarked, MarkOne, HasTwin, NearKeyOf, ReconciledEvents, Fingerprints, Alone;
  }

  lemma {:induction false} TwinTellsStory(env: Text, origins: seq<Origin>, e: Event, i: nat)
    requires ValidText(env) && i < |Unmarked(env, origins)|
    requires e == MarkOne(env, Unmarked(env, origins), Unmarked(env, origins)[i])
    requires HasTwin(env, Unmarked(env, origins), i)
    ensures exists x :: x in ReconciledEvents(env, origins) && x.fingerprint != e.fingerprint && Alone(x)
                        && SameStory(env, e, x)
  {
    var events := Unmarked(env, origins);
    hide Unmarked, MarkOne, NearKeyOf, ReconciledEvents, Fingerprints, Alone, SameStory, ValidText;
    var j: nat :| j < |events| && j != i && events[j].kind == Standalone
                  && NearKeyOf(env, events[j]) == NearKeyOf(env, events[i]);
    UnmarkedTogether(env, origins, i);
    UnmarkedTogether(env, origins, j);
    FingerprintsDistinct(env, origins);
    KeysAreStories(env, e, MarkOne(env, events, events[j]));
  }

  lemma {:induction false} StoryIsTwin(env: Text, origins: seq<Origin>, e: Event, i: nat, x: Event)
    requires ValidText(env) && i < |Unmarked(env, origins)|
    requires e == MarkOne(env, Unmarked(env, origins), Unmarked(env, origins)[i])
    requires x in ReconciledEvents(env, origins) && x.fingerprint != e.fingerprint && Alone(x) && SameStory(env, e, x)
    ensures HasTwin(env, Unmarked(env, origins), i)
  {
    var events := Unmarked(env, origins);
    var j := PlaceOf(env, origins, x);
    hide Unmarked, MarkOne, NearKeyOf, ReconciledEvents, Fingerprints, Alone, SameStory, ValidText;
    UnmarkedTogether(env, origins, i);
    UnmarkedTogether(env, origins, j);
    KeysAreStories(env, e, x);
    assert j != i;
  }

  /** An event before and after it is marked. */
  ghost predicate UnmarkedFacts(env: Text, origins: seq<Origin>, j: nat)
    requires j < |Unmarked(env, origins)|
  {
    var (events, fs) := (Unmarked(env, origins), Fingerprints(env, origins));
    var (g, m) := (events[j], MarkOne(env, events, events[j]));
    && |events| == |fs| && g.fingerprint == fs[j] == m.fingerprint && g.nearId == None && g.kind != NearDuplicate
    && (g.kind == Standalone <==> Alone(m)) && NearKeyOf(env, m) == NearKeyOf(env, g) && m.id == g.id
    && m in ReconciledEvents(env, origins)
  }

  lemma {:induction false} UnmarkedTogether(env: Text, origins: seq<Origin>, j: nat)
    requires j < |Unmarked(env, origins)|
    ensures UnmarkedFacts(env, origins, j)
  {
    UnmarkedAt(env, origins, j);
    MarkKeeps(env, Unmarked(env, origins), j);
    InResult(env, origins, j);
    hide ReconciledEvents, Unmarked, MarkOne, NearKeyOf, Fingerprints;
  }

  lemma {:induction false} EventKinds(env: Text, origins: seq<Origin>, e: Event)
    requires ValidText(env) && e in ReconciledEvents(env, origins)
    ensures e.kind == Conflicting <==> e.conflicts != []
    ensures e.kind == ExactDuplicate <==> e.conflicts == [] && |e.official| + |e.live| > 1
    ensures e.kind == NearDuplicate ==> Alone(e)
  {
    hide *;
    var ordered := Behind(env, origins, e.fingerprint);
    ColumnsOf(env, origins, e);
    LanesPartition(ordered);
    KindOf(env, e, ordered);
  }

  lemma {:induction false} KindOf(env: Text, e: Event, ordered: seq<Origin>)
    requires HasColumns(env, e, ordered) && HasKind(env, e, ordered)
    requires |LaneViews(ordered, Internal)| + |LaneViews(ordered, Live)| == |ordered|
    ensures e.kind == Conflicting <==> e.conflicts != []
    ensures e.kind == ExactDuplicate <==> e.conflicts == [] && |e.official| + |e.live| > 1
    ensures e.kind == NearDuplicate ==> Alone(e)
  {
    hide LaneViews, ConflictsOn, EventIds, Sort, OrderedUnique, Flatten, MapSeq, CanonicalDate, CanonicalSemantic;
  }

  /** Near duplicates share one group: their story and the names of all that tell it. */
  lemma {:induction false} NearGroupExactly(env: Text, origins: seq<Origin>, e: Event)
    requires ValidText(env) && e in ReconciledEvents(env, origins) && e.kind == NearDuplicate
    ensures e.nearId.Some?
    ensures e.nearId.value.key == NearKey(e.entityIds, env.norm(e.key), env.norm(e.eventType))
    ensures forall id :: id in e.nearId.value.ids
                         <==> exists x :: x in ReconciledEvents(env, origins) && Alone(x) && SameStory(env, e, x)
                                          && x.id == id
  {
    var events := Unmarked(env, origins);
    var i := PlaceOf(env, origins, e);
    UnmarkedTogether(env, origins, i);
    UnmarkedAt(env, origins, i);
    MarkKeeps(env, events, i);
    var group := NearGroup(env, events, NearKeyOf(env, e));
    FilterMembers(events, (x: Event) => x.kind == Standalone && NearKeyOf(env, x) == NearKeyOf(env, e));
    assert forall x :: x in group <==> x in events && x.kind == Standalone && NearKeyOf(env, x) == NearKeyOf(env, e);
    hide ReconciledEvents, Unmarked, MarkOne, Fingerprints, ValidText, NearGroup;
    forall id
      ensures id in e.nearId.value.ids
              <==> exists x :: x in ReconciledEvents(env, origins) && Alone(x) && SameStory(env, e, x) && x.id == id
    {
      NearMember(env, origins, e, group, id);
    }
  }

  lemma {:induction false} NearMember(env: Text, origins: seq<Origin>, e: Event, group: seq<Event>, id: VisualId)
    requires ValidText(env)
    requires forall x :: x in group <==>
      x in Unmarked(env, origins) && x.kind == Standalone && NearKeyOf(env, x) == NearKeyOf(env, e)
    ensures id in MapSeq(group, (x: Event) => x.id)
            <==> exists x :: x in ReconciledEvents(env, origins) && Alone(x) && SameStory(env, e, x) && x.id == id
  {
    var ids, events := MapSeq(group, (x: Event) => x.id), Unmarked(env, origins);
    hide ReconciledEvents, Unmarked, MarkOne, Fingerprints, ValidText, NearKeyOf, Alone, SameStory;
    if id in ids {
      var k :| 0 <= k < |ids| && ids[k] == id;
      assert group[k] in group;
      var j :| 0 <= j < |events| && events[j] == group[k];
      UnmarkedTogether(env, origins, j);
      KeysAreStories(env, e, MarkOne(env, events, events[j]));
    }
    if x :| x in ReconciledEvents(env, origins) && Alone(x) && SameStory(env, e, x) && x.id == id {
      var j := PlaceOf(env, origins, x);
      UnmarkedTogether(env, origins, j);
      KeysAreStories(env, e, x);
      assert events[j] in group;
      var k :| 0 <= k < |group| && group[k] == events[j];
      assert ids[k] == id;
    }
  }

  // ----- the result -------------------------------------------------------------------------

  /** By instant, undated events last; then by key, then by name. */
  ghost predicate Earlier(env: Text, a: Event, b: Event)
  {
    && (a.date.None? ==> b.date.None?)
    && (a.date.Some? && b.date.Some? ==> a.date.value.instant <= b.date.value.instant)
    && (a.date.Some? == b.date.Some? && (a.date.Some? ==> a.date.value.instant == b.date.value.instant) ==>
          && env.le(a.key, b.key) && (a.key == b.key ==> env.idLe(a.id, b.id)))
  }

  lemma {:induction false} EventOrderExactly(env: Text, a: Event, b: Event)
    requires ValidText(env)
    ensures EventOrder(env)(a, b) <==> Earlier(env, a, b)
  {
    assert env.le(a.key, a.key);
  }

  lemma {:induction false} EventOrderIsPreorder(env: Text)
    requires ValidText(env)
    ensures TotalPreorder(EventOrder(env))
  {
    var le := EventOrder(env);
    forall a, b
      ensures le(a, b) <==> Earlier(env, a, b)
    {
      EventOrderExactly(env, a, b);
    }
    hide EventOrder;
    forall a: Event, b: Event, c: Event | le(a, b) && le(b, c)
      ensures le(a, c)
    {
      EarlierTransitive(env, a, b, c);
    }
  }

  lemma {:induction false} EarlierTransitive(env: Text, a: Event, b: Event, c: Event)
    requires ValidText(env) && Earlier(env, a, b) && Earlier(env, b, c)
    ensures Earlier(env, a, c)
  {
    if a.key == c.key && env.le(a.key, b.key) && env.le(b.key, c.key) {
      assert a.key == b.key;
    }
  }

  /** What a reconciliation answers, what it notes, and in which order the events
      come. */
  lemma {:induction false} OutcomeExactly(env: Text, origins: seq<Origin>, cutoffReached: bool)
    requires ValidText(env)
    ensures var r := Reconcile(env, origins, cutoffReached);
            var twice := exists i, j :: 0 <= i < j < |origins| && origins[i].eventId == origins[j].eventId;
            && (r == DuplicateOriginIds <==> twice)
            && (r == BeforeCutoff <==> !twice && !cutoffReached)
            && (r.Reconciled? && origins == [] ==> r == Reconciled(NoEvents, [], [NothingToReconcile]))
            && (r.Reconciled? && origins != [] ==>
                  && r.events == ReconciledEvents(env, origins)
                  && r.status == (if exists e :: e in r.events && e.conflicts != [] then Partial else Complete)
                  && (ExactConsolidated in r.notes <==> exists e :: e in r.events && e.kind == ExactDuplicate)
                  && (NearRetained in r.notes <==> exists e :: e in r.events && e.kind == NearDuplicate)
                  && (ConflictsRetained in r.notes <==> exists e :: e in r.events && e.kind == Conflicting)
                  && NothingToReconcile !in r.notes
                  && forall i, j :: 0 <= i < j < |r.events| ==> Earlier(env, r.events[i], r.events[j]))
  {
    if origins != [] && UniqueIds(origins) && cutoffReached {
      var events := ReconciledEvents(env, origins);
      forall e | e in events
        ensures e.kind == Conflicting <==> e.conflicts != []
      {
        EventKinds(env, origins, e);
      }
      ResultInOrder(env, origins);
      NotesExactly(events);
    }
    hide ReconciledEvents, ValidText, Earlier, NotesOf;
  }

  lemma {:induction false} NotesExactly(events: seq<Event>)
    requires forall e :: e in events ==> (e.kind == Conflicting <==> e.conflicts != [])
    ensures ExactConsolidated in NotesOf(events) <==> exists e :: e in events && e.kind == ExactDuplicate
    ensures NearRetained in NotesOf(events) <==> exists e :: e in events && e.kind == NearDuplicate
    ensures ConflictsRetained in NotesOf(events) <==> exists e :: e in events && e.kind == Conflicting
    ensures NothingToReconcile !in NotesOf(events)
  {
  }

  lemma {:induction false} ResultInOrder(env: Text, origins: seq<Origin>)
    requires ValidText(env)
    ensures var events := ReconciledEvents(env, origins);
            forall i, j :: 0 <= i < j < |events| ==> Earlier(env, events[i], events[j])
  {
    ResultIs(env, origins);
    EventOrderIsPreorder(env);
    SortSorts(MarkNear(env, Unmarked(env, origins)), EventOrder(env));
    var events := ReconciledEvents(env, origins);
    hide ReconciledEvents, Sort, MarkNear, Unmarked, EventOrder, Earlier, ValidText;
    forall i, j | 0 <= i < j < |events|
      ensures Earlier(env, events[i], events[j])
    {
      EventOrderExactly(env, events[i], events[j]);
    }
  }
}
