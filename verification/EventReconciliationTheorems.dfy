/** Properties of event reconciliation: independence of the input order,
    conservation of origins, and exactly when conflicts appear. */
module EventReconciliationTheorems {
  import opened Foundations
  import opened Ordering
  import opened EventReconciliation

  // ----- the input order does not matter --------------------------------------

  lemma {:induction false} FilterForgetsOrder(a: seq<Origin>, b: seq<Origin>, keep: Origin -> bool)
    requires multiset(a) == multiset(b)
    ensures multiset(Filter(a, keep)) == multiset(Filter(b, keep))
  {
    forall x: Origin
      ensures multiset(Filter(a, keep))[x] == multiset(Filter(b, keep))[x]
    {
      FilterCounts(a, keep, x);
      FilterCounts(b, keep, x);
    }
  }

  lemma {:induction false} SameIdSameOrigin(origins: seq<Origin>, a: Origin, b: Origin)
    requires UniqueIds(origins) && a in origins && b in origins && a.eventId == b.eventId
    ensures a == b
  {
    var i :| 0 <= i < |origins| && origins[i] == a;
    var j :| 0 <= j < |origins| && origins[j] == b;
    assert i == j;
  }

  lemma {:induction false} UniqueIdsPermute(a: seq<Origin>, b: seq<Origin>)
    requires multiset(a) == multiset(b) && UniqueIds(a)
    ensures UniqueIds(b)
  {
    PairwisePermuted(a, b, (x: Origin, y: Origin) => x.eventId != y.eventId);
  }

  lemma {:induction false} OriginOrderIsPreorder(env: Text)
    requires ValidText(env)
    ensures TotalPreorder(OriginOrder(env))
  {
  }

  lemma {:induction false} NoTiedOrigins(env: Text, origins: seq<Origin>)
    requires ValidText(env) && UniqueIds(origins)
    ensures NoTies(origins, OriginOrder(env))
  {
    forall x, y | x in origins && y in origins && OriginOrder(env)(x, y) && OriginOrder(env)(y, x)
      ensures x == y
    {
      SameIdSameOrigin(origins, x, y);
    }
  }

  lemma {:induction false} FilterKeepsUniqueIds(origins: seq<Origin>, keep: Origin -> bool)
    requires UniqueIds(origins)
    ensures UniqueIds(Filter(origins, keep))
  {
    PairwiseFiltered(origins, keep, (x: Origin, y: Origin) => x.eventId != y.eventId);
  }

  lemma {:induction false} GroupForgetsOrder(env: Text, a: seq<Origin>, b: seq<Origin>, f: string)
    requires ValidText(env) && multiset(a) == multiset(b) && UniqueIds(a)
    ensures Sort(Group(a, f), OriginOrder(env)) == Sort(Group(b, f), OriginOrder(env))
  {
    var keep := (o: Origin) => o.fingerprint == f;
    FilterForgetsOrder(a, b, keep);
    FilterKeepsUniqueIds(a, keep);
    OriginOrderIsPreorder(env);
    NoTiedOrigins(env, Group(a, f));
    SortForgetsOrder(Group(a, f), Group(b, f), OriginOrder(env));
  }

  lemma {:induction false} DistinctSameElements(a: seq<string>, b: seq<string>)
    requires forall i, j :: 0 <= i < j < |a| ==> a[i] != a[j]
    requires forall i, j :: 0 <= i < j < |b| ==> b[i] != b[j]
    requires forall x :: x in a <==> x in b
    ensures multiset(a) == multiset(b)
  {
    forall x
      ensures multiset(a)[x] == multiset(b)[x]
    {
      DistinctCount(a, x);
      DistinctCount(b, x);
    }
  }

  lemma {:induction false} DistinctCount(s: seq<string>, x: string)
    requires forall i, j :: 0 <= i < j < |s| ==> s[i] != s[j]
    ensures multiset(s)[x] == if x in s then 1 else 0
  {
    if s != [] {
      var init, last := s[..|s| - 1], s[|s| - 1];
      DistinctCount(init, x);
      assert s == init + [last];
    }
  }

  lemma {:induction false} SortedDistinctForgetsOrder(env: Text, a: seq<string>, b: seq<string>)
    requires ValidText(env) && forall x :: x in a <==> x in b
    ensures SortedDistinct(a, env) == SortedDistinct(b, env)
  {
    OrderedUniqueMembers(a);
    OrderedUniqueMembers(b);
    DistinctSameElements(OrderedUnique(a), OrderedUnique(b));
    SortForgetsOrder(OrderedUnique(a), OrderedUnique(b), env.le);
  }

  lemma {:induction false} FingerprintsForgetOrder(env: Text, a: seq<Origin>, b: seq<Origin>)
    requires ValidText(env) && multiset(a) == multiset(b)
    ensures Fingerprints(env, a) == Fingerprints(env, b)
  {
    var fa, fb := MapSeq(a, (o: Origin) => o.fingerprint), MapSeq(b, (o: Origin) => o.fingerprint);
    SameElements(a, b);
    forall x
      ensures x in fa <==> x in fb
    {
      if x in fa {
        var i :| 0 <= i < |fa| && fa[i] == x;
        assert a[i] in b;
        var j :| 0 <= j < |b| && b[j] == a[i];
        assert fb[j] == x;
      }
      if x in fb {
        var i :| 0 <= i < |fb| && fb[i] == x;
        assert b[i] in a;
        var j :| 0 <= j < |a| && a[j] == b[i];
        assert fa[j] == x;
      }
    }
    SortedDistinctForgetsOrder(env, fa, fb);
  }

  lemma {:induction false} GroupEventsForgetOrder(env: Text, a: seq<Origin>, b: seq<Origin>, fs: seq<string>)
    requires ValidText(env) && multiset(a) == multiset(b) && UniqueIds(a)
    requires forall f :: f in fs ==> Group(a, f) != [] && Group(b, f) != []
    ensures GroupEvents(env, a, fs) == GroupEvents(env, b, fs)
  {
    if fs != [] {
      GroupEventsForgetOrder(env, a, b, fs[..|fs| - 1]);
      GroupForgetsOrder(env, a, b, fs[|fs| - 1]);
      hide Group, ReconcileOrdered;
    }
  }

  /** Reordering the input origins never changes anything in the result. */
  lemma {:induction false} ReorderingChangesNothing(env: Text, a: seq<Origin>, b: seq<Origin>, cutoff: bool)
    requires ValidText(env) && multiset(a) == multiset(b)
    ensures Reconcile(env, a, cutoff) == Reconcile(env, b, cutoff)
  {
    SameElements(a, b);
    if UniqueIds(a) {
      UniqueIdsPermute(a, b);
      FingerprintsForgetOrder(env, a, b);
      FingerprintGroups(env, a);
      FingerprintGroups(env, b);
      hide Group, Fingerprints, UniqueIds;
      GroupEventsForgetOrder(env, a, b, Fingerprints(env, a));
    } else if UniqueIds(b) {
      UniqueIdsPermute(b, a);
    }
  }

  // ----- events and their origins -------------------------------------------

  lemma {:induction false} GroupEventsAt(env: Text, origins: seq<Origin>, fs: seq<string>, i: nat)
    requires forall f :: f in fs ==> Group(origins, f) != []
    requires i < |fs|
    ensures |GroupEvents(env, origins, fs)| == |fs|
    ensures GroupEvents(env, origins, fs)[i] == ReconcileGroup(env, fs[i], Group(origins, fs[i]))
  {
    hide ReconcileGroup;
    if i < |fs| - 1 {
      GroupEventsAt(env, origins, fs[..|fs| - 1], i);
    } else {
      GroupEventsLength(env, origins, fs);
    }
  }

  lemma {:induction false} GroupEventsLength(env: Text, origins: seq<Origin>, fs: seq<string>)
    requires forall f :: f in fs ==> Group(origins, f) != []
    ensures |GroupEvents(env, origins, fs)| == |fs|
  {
    if fs != [] {
      GroupEventsLength(env, origins, fs[..|fs| - 1]);
    }
  }

  /** The sorted origins behind an event. */
  function Behind(env: Text, origins: seq<Origin>, fingerprint: string): seq<Origin>
  {
    Sort(Group(origins, fingerprint), OriginOrder(env))
  }

  /** An event of the result: the group of a fingerprint, possibly marked. */
  ghost predicate EventFor(env: Text, origins: seq<Origin>, e: Event, f: string)
  {
    && Group(origins, f) != []
    && var g := ReconcileGroup(env, f, Group(origins, f));
       (e == g || (g.kind == Standalone && e == g.(kind := NearDuplicate, nearId := e.nearId) && e.nearId.Some?))
  }

  lemma {:induction false} MarkedAt(env: Text, origins: seq<Origin>, fs: seq<string>, i: nat)
    requires forall f :: f in fs ==> Group(origins, f) != []
    requires i < |fs|
    ensures var marked := MarkNear(env, GroupEvents(env, origins, fs));
            |marked| == |fs| && marked[i].fingerprint == fs[i] && EventFor(env, origins, marked[i], fs[i])
  {
    hide *;
    GroupEventsAt(env, origins, fs, i);
    MarkedShape(env, GroupEvents(env, origins, fs), i);
    MarkingKeepsGroup(env, origins, fs[i], MarkNear(env, GroupEvents(env, origins, fs))[i]);
  }

  lemma {:induction false} MarkedShape(env: Text, events: seq<Event>, i: nat)
    requires i < |events|
    ensures |MarkNear(env, events)| == |events| && MayMark(events[i], MarkNear(env, events)[i])
  {
    hide NearGroup, NearKeyOf;
  }

  /** Marking changes at most the kind of a standalone event. */
  predicate MayMark(e: Event, marked: Event)
  {
    || marked == e
    || (e.kind == Standalone && marked == e.(kind := NearDuplicate, nearId := marked.nearId) && marked.nearId.Some?)
  }

  lemma {:induction false} MarkingKeepsGroup(env: Text, origins: seq<Origin>, f: string, marked: Event)
    requires Group(origins, f) != [] && MayMark(ReconcileGroup(env, f, Group(origins, f)), marked)
    ensures marked.fingerprint == f && EventFor(env, origins, marked, f)
  {
    hide Group, Sort;
  }

  /** Every event of the result belongs to a fingerprint of the input. */
  lemma {:induction false} EventHasGroup(env: Text, origins: seq<Origin>, e: Event)
    requires ValidText(env) && e in ReconciledEvents(env, origins)
    ensures e.fingerprint in Fingerprints(env, origins) && EventFor(env, origins, e, e.fingerprint)
  {
    var fs := Fingerprints(env, origins);
    FingerprintGroups(env, origins);
    var marked := MarkNear(env, GroupEvents(env, origins, fs));
    GroupEventsLength(env, origins, fs);
    hide MarkNear, Sort, Fingerprints, EventFor, GroupEvents, Group;
    SortPermutes(marked, EventOrder(env));
    assert e in marked;
    var i :| 0 <= i < |marked| && marked[i] == e;
    MarkedAt(env, origins, fs, i);
  }

  /** Every fingerprint of the input has an event in the result. */
  lemma {:induction false} GroupHasEvent(env: Text, origins: seq<Origin>, f: string)
    requires ValidText(env) && f in Fingerprints(env, origins)
    ensures exists e :: e in ReconciledEvents(env, origins) && e.fingerprint == f
    ensures |ReconciledEvents(env, origins)| == |Fingerprints(env, origins)|
  {
    var fs := Fingerprints(env, origins);
    FingerprintGroups(env, origins);
    var marked := MarkNear(env, GroupEvents(env, origins, fs));
    GroupEventsLength(env, origins, fs);
    hide MarkNear, Sort, Fingerprints, EventFor, GroupEvents, Group;
    var events := ReconciledEvents(env, origins);
    assert events == Sort(marked, EventOrder(env));
    hide ReconciledEvents;
    SortPermutes(marked, EventOrder(env));
    var i :| 0 <= i < |fs| && fs[i] == f;
    MarkedAt(env, origins, fs, i);
    assert marked[i] in events;
  }

  lemma {:induction false} EventLanes(env: Text, origins: seq<Origin>, e: Event, f: string)
    requires EventFor(env, origins, e, f)
    ensures e.fingerprint == f
    ensures e.official == LaneViews(Behind(env, origins, f), Internal)
    ensures e.live == LaneViews(Behind(env, origins, f), Live)
    ensures e.conflicts == ConflictsOn(env, Behind(env, origins, f), FIELDS)
    ensures e.id == VisualId(f, EventIds(Behind(env, origins, f)))
  {
    SortPermutes(Group(origins, f), OriginOrder(env));
    hide ConflictsOn, CanonicalDate, CanonicalSemantic, DistinctValues, SortedDistinct, OrderedUnique, Sort, EventIds,
      LaneViews;
  }

  lemma {:induction false} BehindMembers(env: Text, origins: seq<Origin>, f: string)
    ensures forall o :: o in Behind(env, origins, f) <==> o in origins && o.fingerprint == f
  {
    FilterMembers(origins, (o: Origin) => o.fingerprint == f);
    SortPermutes(Group(origins, f), OriginOrder(env));
  }

  lemma {:induction false} LaneMembers(ordered: seq<Origin>, lane: Lane, v: View)
    ensures v in LaneViews(ordered, lane) <==> exists o :: o in ordered && o.lane == lane && v == ViewOf(o)
  {
    var kept := Filter(ordered, (o: Origin) => o.lane == lane);
    FilterMembers(ordered, (o: Origin) => o.lane == lane);
    if v in LaneViews(ordered, lane) {
      var i :| 0 <= i < |kept| && ViewOf(kept[i]) == v;
      assert kept[i] in kept;
    }
    if o :| o in ordered && o.lane == lane && v == ViewOf(o) {
      assert o in kept;
      var i :| 0 <= i < |kept| && kept[i] == o;
      assert LaneViews(ordered, lane)[i] == v;
    }
  }

  function LaneOf(e: Event, lane: Lane): seq<View> { if lane == Internal then e.official else e.live }

  /** An event shows an origin exactly when their fingerprints match, and only
      in the origin's own lane; nothing else is shown. Hence two origins share
      an event exactly when their fingerprints match. */
  lemma {:induction false} OriginsInTheirEvent(env: Text, origins: seq<Origin>, e: Event, lane: Lane, v: View)
    requires ValidText(env) && e in ReconciledEvents(env, origins)
    ensures v in LaneOf(e, lane)
            <==> exists o :: o in origins && o.fingerprint == e.fingerprint && o.lane == lane && v == ViewOf(o)
  {
    EventHasGroup(env, origins, e);
    EventLanes(env, origins, e, e.fingerprint);
    BehindMembers(env, origins, e.fingerprint);
    LaneMembers(Behind(env, origins, e.fingerprint), lane, v);
    hide ReconciledEvents, EventFor, LaneViews, Behind;
    if exists o :: o in origins && o.fingerprint == e.fingerprint && o.lane == lane && v == ViewOf(o) {
      var o :| o in origins && o.fingerprint == e.fingerprint && o.lane == lane && v == ViewOf(o);
      assert o in Behind(env, origins, e.fingerprint);
    }
  }

  // ----- conservation ----------------------------------------------------------

  function ViewCount(e: Event): nat { |e.official| + |e.live| }

  function TotalViews(events: seq<Event>): nat
  {
    if events == [] then 0 else TotalViews(events[..|events| - 1]) + ViewCount(events[|events| - 1])
  }

  lemma {:induction false} TotalOfInsert(x: Event, s: seq<Event>, le: (Event, Event) -> bool)
    ensures TotalViews(Insert(x, s, le)) == TotalViews(s) + ViewCount(x)
  {
    if s == [] || le(s[|s| - 1], x) {
      assert (s + [x])[..|s|] == s;
    } else {
      TotalOfInsert(x, s[..|s| - 1], le);
      var r := Insert(x, s[..|s| - 1], le) + [s[|s| - 1]];
      assert r[..|r| - 1] == Insert(x, s[..|s| - 1], le);
    }
  }

  lemma {:induction false} TotalOfSort(s: seq<Event>, le: (Event, Event) -> bool)
    ensures TotalViews(Sort(s, le)) == TotalViews(s)
  {
    if s != [] {
      TotalOfSort(s[..|s| - 1], le);
      TotalOfInsert(s[|s| - 1], Sort(s[..|s| - 1], le), le);
    }
  }

  lemma {:induction false} TotalOfSame(a: seq<Event>, b: seq<Event>)
    requires |a| == |b| && forall i :: 0 <= i < |a| ==> ViewCount(a[i]) == ViewCount(b[i])
    ensures TotalViews(a) == TotalViews(b)
  {
    if a != [] {
      TotalOfSame(a[..|a| - 1], b[..|b| - 1]);
    }
  }

  lemma {:induction false} LanesPartition(s: seq<Origin>)
    ensures |LaneViews(s, Internal)| + |LaneViews(s, Live)| == |s|
  {
    if s != [] {
      LanesPartition(s[..|s| - 1]);
    }
  }

  function SumGroups(origins: seq<Origin>, fs: seq<string>): nat
  {
    if fs == [] then 0 else SumGroups(origins, fs[..|fs| - 1]) + |Group(origins, fs[|fs| - 1])|
  }

  /** One more origin enlarges exactly one of the distinct groups. */
  lemma {:induction false} SumGroupsStep(origins: seq<Origin>, o: Origin, fs: seq<string>)
    requires forall i, j :: 0 <= i < j < |fs| ==> fs[i] != fs[j]
    ensures SumGroups(origins + [o], fs) == SumGroups(origins, fs) + if o.fingerprint in fs then 1 else 0
  {
    if fs != [] {
      var init, f := fs[..|fs| - 1], fs[|fs| - 1];
      SumGroupsStep(origins, o, init);
      assert (origins + [o])[..|origins|] == origins;
      assert fs == init + [f];
      assert |Group(origins + [o], f)| == |Group(origins, f)| + if o.fingerprint == f then 1 else 0;
    }
  }

  lemma {:induction false} SumGroupsIsLength(origins: seq<Origin>, fs: seq<string>)
    requires forall i, j :: 0 <= i < j < |fs| ==> fs[i] != fs[j]
    requires forall o :: o in origins ==> o.fingerprint in fs
    ensures SumGroups(origins, fs) == |origins|
  {
    if origins == [] {
      SumGroupsEmpty(fs);
    } else {
      var init, last := origins[..|origins| - 1], origins[|origins| - 1];
      assert origins == init + [last];
      SumGroupsIsLength(init, fs);
      SumGroupsStep(init, last, fs);
    }
  }

  lemma {:induction false} SumGroupsEmpty(fs: seq<string>)
    ensures SumGroups([], fs) == 0
  {
    if fs != [] {
      SumGroupsEmpty(fs[..|fs| - 1]);
    }
  }

  lemma {:induction false} TotalOfGroups(env: Text, origins: seq<Origin>, fs: seq<string>)
    requires forall f :: f in fs ==> Group(origins, f) != []
    ensures TotalViews(GroupEvents(env, origins, fs)) == SumGroups(origins, fs)
  {
    if fs != [] {
      var f := fs[|fs| - 1];
      TotalOfGroups(env, origins, fs[..|fs| - 1]);
      assert EventFor(env, origins, ReconcileGroup(env, f, Group(origins, f)), f);
      EventLanes(env, origins, ReconcileGroup(env, f, Group(origins, f)), f);
      LanesPartition(Behind(env, origins, f));
      SortPermutes(Group(origins, f), OriginOrder(env));
      hide ReconcileGroup, LaneViews, Group, Sort;
    }
  }

  lemma {:induction false} FingerprintsDistinct(env: Text, origins: seq<Origin>)
    requires ValidText(env)
    ensures var fs := Fingerprints(env, origins); forall i, j :: 0 <= i < j < |fs| ==> fs[i] != fs[j]
  {
    var names := MapSeq(origins, (o: Origin) => o.fingerprint);
    var distinct := OrderedUnique(names);
    OrderedUniqueMembers(names);
    SortPermutes(distinct, env.le);
    DistinctPermute(distinct, Sort(distinct, env.le));
  }

  lemma {:induction false} DistinctPermute(a: seq<string>, b: seq<string>)
    requires multiset(a) == multiset(b) && forall i, j :: 0 <= i < j < |a| ==> a[i] != a[j]
    ensures forall i, j :: 0 <= i < j < |b| ==> b[i] != b[j]
  {
    PairwisePermuted(a, b, (x: string, y: string) => x != y);
  }

  /** Every origin is shown once: the views of all events add up to the origins. */
  lemma {:induction false} OriginsConserved(env: Text, origins: seq<Origin>)
    requires ValidText(env)
    ensures TotalViews(ReconciledEvents(env, origins)) == |origins|
  {
    var fs := Fingerprints(env, origins);
    FingerprintGroups(env, origins);
    FingerprintsDistinct(env, origins);
    var groups := GroupEvents(env, origins, fs);
    TotalOfGroups(env, origins, fs);
    SumGroupsIsLength(origins, fs);
    TotalOfSame(MarkNear(env, groups), groups);
    TotalOfSort(MarkNear(env, groups), EventOrder(env));
  }

  // ----- conflicts ---------------------------------------------------------------

  /** Two origins disagree on a field if both have it and the normalised values differ. */
  predicate Disagree(env: Text, a: Origin, b: Origin, f: Field)
  {
    Compared(env, a, f).Some? && Compared(env, b, f).Some? && Compared(env, a, f) != Compared(env, b, f)
  }

  lemma {:induction false} TwoValuesExactlyOnDisagreement(env: Text, ordered: seq<Origin>, f: Field)
    ensures |ComparedValues(env, ordered, f)| >= 2
            <==> exists a, b :: a in ordered && b in ordered && Disagree(env, a, b, f)
  {
    hide Compared;
    var values := ComparedValues(env, ordered, f);
    if a, b :| a in ordered && b in ordered && Disagree(env, a, b, f) {
      var x, y := Compared(env, a, f).value, Compared(env, b, f).value;
      assert x in values && y in values && x != y;
      SubsetCardinality({x, y}, values);
    }
    if |values| >= 2 {
      var x :| x in values;
      assert values - {x} != {} by {
        SubsetCardinality(values, {x} + (values - {x}));
      }
      var y :| y in values - {x};
      var a :| a in ordered && Compared(env, a, f).Some? && Compared(env, a, f).value == x;
      var b :| b in ordered && Compared(env, b, f).Some? && Compared(env, b, f).value == y;
      assert Disagree(env, a, b, f);
    }
  }

  predicate ConflictOn(conflicts: seq<Conflict>, f: Field) { exists c :: c in conflicts && c.field == f }

  lemma {:induction false} ConflictsExactly(env: Text, ordered: seq<Origin>, fields: seq<Field>, f: Field)
    ensures ConflictOn(ConflictsOn(env, ordered, fields), f)
            <==> f in fields && |ComparedValues(env, ordered, f)| >= 2
    ensures forall c :: c in ConflictsOn(env, ordered, fields) ==>
      c.field in fields && c.observations == Observations(env, ordered, c.field)
      && |ComparedValues(env, ordered, c.field)| >= 2
  {
    hide ComparedValues, Observations;
    if fields != [] {
      var init, last := fields[..|fields| - 1], fields[|fields| - 1];
      ConflictsExactly(env, ordered, init, f);
      assert fields == init + [last];
      var all, before := ConflictsOn(env, ordered, fields), ConflictsOn(env, ordered, init);
      assert all == before + if |ComparedValues(env, ordered, last)| < 2 then []
                             else [Conflict(last, Observations(env, ordered, last))];
      if |ComparedValues(env, ordered, last)| >= 2 {
        assert Conflict(last, Observations(env, ordered, last)) in all;
      }
      assert forall c :: c in before ==> c in all;
    }
  }

  /** An event carries a conflict on a field exactly when two of its origins disagree on it. */
  lemma {:induction false} ConflictExactlyOnDisagreement(env: Text, origins: seq<Origin>, e: Event, f: Field)
    requires ValidText(env) && e in ReconciledEvents(env, origins)
    ensures ConflictOn(e.conflicts, f)
            <==> exists a, b :: a in origins && b in origins && a.fingerprint == b.fingerprint == e.fingerprint
                               && Disagree(env, a, b, f)
  {
    EventHasGroup(env, origins, e);
    EventLanes(env, origins, e, e.fingerprint);
    BehindMembers(env, origins, e.fingerprint);
    var ordered := Behind(env, origins, e.fingerprint);
    ConflictsExactly(env, ordered, FIELDS, f);
    TwoValuesExactlyOnDisagreement(env, ordered, f);
    hide ReconciledEvents, EventFor, Behind, Disagree, ConflictsOn, ConflictOn, ComparedValues;
  }

  lemma {:induction false} ConflictComesFromOrigins(env: Text, origins: seq<Origin>)
    requires ValidText(env) && HasConflict(ReconciledEvents(env, origins))
    ensures exists a, b, f :: a in origins && b in origins && a.fingerprint == b.fingerprint && Disagree(env, a, b, f)
  {
    var events := ReconciledEvents(env, origins);
    hide ReconciledEvents, Disagree;
    var e :| e in events && e.conflicts != [];
    var c := e.conflicts[0];
    assert c in e.conflicts && ConflictOn(e.conflicts, c.field);
    ConflictExactlyOnDisagreement(env, origins, e, c.field);
  }

  lemma {:induction false} DisagreementMakesConflict(env: Text, origins: seq<Origin>, a: Origin, b: Origin, f: Field)
    requires ValidText(env) && a in origins && b in origins && a.fingerprint == b.fingerprint && Disagree(env, a, b, f)
    ensures HasConflict(ReconciledEvents(env, origins))
  {
    FingerprintGroups(env, origins);
    hide ReconciledEvents, Disagree, EventFor, Fingerprints, Group;
    GroupHasEvent(env, origins, a.fingerprint);
    var e :| e in ReconciledEvents(env, origins) && e.fingerprint == a.fingerprint;
    ConflictExactlyOnDisagreement(env, origins, e, f);
    assert e.conflicts != [];
  }

  /** The result is partial exactly when two origins of one fingerprint disagree. */
  lemma {:induction false} PartialExactlyOnDisagreement(env: Text, origins: seq<Origin>)
    requires ValidText(env) && UniqueIds(origins) && origins != []
    ensures Reconcile(env, origins, true).status == Partial
            <==> exists a, b, f :: a in origins && b in origins && a.fingerprint == b.fingerprint &&
                                 Disagree(env, a, b, f)
    ensures Reconcile(env, origins, true).status != NoEvents
  {
    hide ReconciledEvents, Disagree;
    if HasConflict(ReconciledEvents(env, origins)) {
      ConflictComesFromOrigins(env, origins);
    }
    if a, b, f :| a in origins && b in origins && a.fingerprint == b.fingerprint && Disagree(env, a, b, f) {
      DisagreementMakesConflict(env, origins, a, b, f);
    }
  }

  // ----- near duplicates and the event contract ---------------------------

  /** Another standalone event of the list has the same near key. */
  predicate HasTwin(env: Text, events: seq<Event>, i: nat)
    requires i < |events|
  {
    exists j :: 0 <= j < |events| && j != i && events[j].kind == Standalone
                && NearKeyOf(env, events[j]) == NearKeyOf(env, events[i])
  }

  /** Marking keeps the list: same events in the same places, only their match
      kind and near group change, and an event is marked exactly when another
      standalone event of the list has the same near key. */
  lemma {:induction false} NearDuplicatesExactly(env: Text, events: seq<Event>, i: nat)
    requires i < |events| && events[i].kind != NearDuplicate
    ensures |MarkNear(env, events)| == |events|
    ensures var m, e := MarkNear(env, events)[i], events[i];
            && m.(kind := e.kind, nearId := e.nearId) == e
            && (m.kind == NearDuplicate <==> e.kind == Standalone && HasTwin(env, events, i))
            && (m.kind != NearDuplicate ==> m == e)
  {
    var e := events[i];
    var near := (x: Event) => x.kind == Standalone && NearKeyOf(env, x) == NearKeyOf(env, e);
    assert NearGroup(env, events, NearKeyOf(env, e)) == Filter(events, near);
    hide NearKeyOf;
    if e.kind == Standalone {
      FilterAtLeastTwo(events, near, i);
    }
  }

  /** A filter that keeps position `i` keeps a second element exactly when
      another position passes. */
  lemma {:induction false} FilterAtLeastTwo(s: seq<Event>, keep: Event -> bool, i: nat)
    requires i < |s| && keep(s[i])
    ensures |Filter(s, keep)| >= 2 <==> exists j :: 0 <= j < |s| && j != i && keep(s[j])
  {
    var init, last := s[..|s| - 1], s[|s| - 1];
    assert Filter(s, keep) == Filter(init, keep) + if keep(last) then [last] else [];
    hide Filter;
    if i == |s| - 1 {
      FilterMembers(init, keep);
      if |Filter(init, keep)| > 0 {
        var x := Filter(init, keep)[0];
        assert x in Filter(init, keep);
        var j :| 0 <= j < |init| && init[j] == x;
        assert s[j] == init[j] && keep(s[j]);
      }
      if j :| 0 <= j < |s| && j != i && keep(s[j]) {
        assert s[j] == init[j] && s[j] in Filter(init, keep);
      }
    } else {
      FilterAtLeastTwo(init, keep, i);
      assert init[i] in init;
      FilterMembers(init, keep);
      assert |Filter(init, keep)| >= 1;
      if j :| 0 <= j < |init| && j != i && keep(init[j]) {
        assert s[j] == init[j];
      }
    }
  }

  /** The checks that the event model applies to every event it constructs. */
  predicate ValidEvent(e: Event)
  {
    && (e.official != [] || e.live != [])
    && (forall v :: v in e.official ==> v.lane == Internal)
    && (forall v :: v in e.live ==> v.lane == Live)
    && e.sourceIds == OrderedUnique(Flatten(MapSeq(e.official + e.live, (v: View) => v.sourceIds)))
    && (e.kind == Standalone ==> ViewCount(e) == 1 && e.conflicts == [] && e.nearId.None?)
    && (e.kind == NearDuplicate ==> ViewCount(e) == 1 && e.nearId.Some? && e.conflicts == [])
    && (e.kind == ExactDuplicate ==> ViewCount(e) >= 2 && e.conflicts == [])
    && (e.kind == Conflicting ==> e.conflicts != [] && e.conflictId.Some?)
    && e.penaltyRequired == (e.conflicts != [])
    && e.highAllowed == (e.conflicts == [])
    && (forall c :: c in e.conflicts ==> |c.observations| >= 2)
  }

  lemma {:induction false} ManyValuesManyObservations(env: Text, ordered: seq<Origin>, f: Field)
    ensures |ComparedValues(env, ordered, f)| <= |Observations(env, ordered, f)|
  {
    hide Compared, Displayed;
    if ordered == [] {
      assert ComparedValues(env, ordered, f) == {};
    } else {
      var init, last := ordered[..|ordered| - 1], ordered[|ordered| - 1];
      ManyValuesManyObservations(env, init, f);
      assert ordered == init + [last];
      var here := if Compared(env, last, f).Some? then {Compared(env, last, f).value} else {};
      assert ComparedValues(env, ordered, f) == ComparedValues(env, init, f) + here;
      SubsetCardinality(ComparedValues(env, ordered, f), ComparedValues(env, init, f) + here);
      UnionCardinality(ComparedValues(env, init, f), here);
    }
  }

  lemma {:induction false} UnionCardinality(a: set<string>, b: set<string>)
    ensures |a + b| <= |a| + |b|
  {
    assert a + b == a + (b - a);
    SubsetCardinality(b - a, b);
  }

  lemma {:induction false} ViewsInLanes(ordered: seq<Origin>)
    ensures forall lane, v :: v in LaneViews(ordered, lane) ==> v.lane == lane
  {
    forall lane, v | v in LaneViews(ordered, lane)
      ensures v.lane == lane
    {
      LaneMembers(ordered, lane, v);
    }
  }

  lemma {:induction false} ConflictsObserved(env: Text, ordered: seq<Origin>)
    ensures forall c :: c in ConflictsOn(env, ordered, FIELDS) ==> |c.observations| >= 2
  {
    ConflictsExactly(env, ordered, FIELDS, Date);
    hide ConflictsOn, Observations, ComparedValues;
    forall c | c in ConflictsOn(env, ordered, FIELDS)
      ensures |c.observations| >= 2
    {
      ManyValuesManyObservations(env, ordered, c.field);
    }
  }

  lemma {:induction false} GroupEventValid(env: Text, fingerprint: string, group: seq<Origin>)
    requires group != []
    ensures ValidEvent(ReconcileGroup(env, fingerprint, group))
  {
    SortPermutes(group, OriginOrder(env));
    hide Sort, OrderedUnique, DistinctValues, LaneViews, ConflictsOn, MapSeq, Flatten, Filter;
    hide SortedDistinct, CanonicalDate, CanonicalSemantic, EventIds;
    var ordered := Sort(group, OriginOrder(env));
    LanesPartition(ordered);
    ViewsInLanes(ordered);
    ConflictsObserved(env, ordered);
  }

  /** Every event of a result passes the checks of the event model. */
  lemma {:induction false} EventsAlwaysValid(env: Text, origins: seq<Origin>, e: Event)
    requires ValidText(env) && e in ReconciledEvents(env, origins)
    ensures ValidEvent(e)
  {
    hide ReconciledEvents, ReconcileGroup, Group, OrderedUnique, Flatten;
    EventHasGroup(env, origins, e);
    GroupEventValid(env, e.fingerprint, Group(origins, e.fingerprint));
  }

  function Names(es: seq<Event>): seq<string> { MapSeq(es, (e: Event) => e.fingerprint) }

  /** No fingerprint, and so no event identifier, occurs twice in a result. */
  lemma {:induction false} EventsDistinct(env: Text, origins: seq<Origin>)
    requires ValidText(env) && origins != []
    ensures var es := ReconciledEvents(env, origins);
            forall i, j :: 0 <= i < j < |es| ==> es[i].fingerprint != es[j].fingerprint && es[i].id != es[j].id
  {
    var fs := Fingerprints(env, origins);
    var es := ReconciledEvents(env, origins);
    FingerprintsDistinct(env, origins);
    FingerprintGroups(env, origins);
    assert origins[0].fingerprint in fs;
    GroupHasEvent(env, origins, origins[0].fingerprint);
    hide ReconciledEvents, Fingerprints;
    forall f | f in fs
      ensures f in Names(es)
    {
      GroupHasEvent(env, origins, f);
      var e :| e in es && e.fingerprint == f;
      var i :| 0 <= i < |es| && es[i] == e;
      assert Names(es)[i] == f;
    }
    SamePigeons(Names(es), fs);
    forall i, j | 0 <= i < j < |es|
      ensures es[i].fingerprint != es[j].fingerprint && es[i].id != es[j].id
    {
      assert Names(es)[i] != Names(es)[j];
      EventIdNamesFingerprint(env, origins, es[i]);
      EventIdNamesFingerprint(env, origins, es[j]);
    }
  }

  lemma {:induction false} EventIdNamesFingerprint(env: Text, origins: seq<Origin>, e: Event)
    requires ValidText(env) && e in ReconciledEvents(env, origins)
    ensures e.id.fingerprint == e.fingerprint
  {
    EventHasGroup(env, origins, e);
    EventLanes(env, origins, e, e.fingerprint);
    hide ReconciledEvents, EventFor;
  }

  // ----- the contract of a result ---------------------------------------------

  /** A conflict shows at least two observations, each of another event. */
  predicate ValidConflict(c: Conflict)
  {
    && |c.observations| >= 2
    && forall i, j :: 0 <= i < j < |c.observations| ==> c.observations[i].eventId != c.observations[j].eventId
  }

  predicate DistinctNotes(notes: seq<Note>)
  {
    forall i, j :: 0 <= i < j < |notes| ==> notes[i] != notes[j]
  }

  /** What the result, event and conflict models check when a result is built. */
  ghost predicate ValidReconciliation(r: Outcome)
  {
    r.Reconciled? ==>
      && (forall e :: e in r.events ==> ValidEvent(e) && forall c :: c in e.conflicts ==> ValidConflict(c))
      && (match r.status
          case NoEvents => r.events == []
          case Complete => r.events != [] && !HasConflict(r.events)
          case Partial => HasConflict(r.events))
      && (forall i, j :: 0 <= i < j < |r.events| ==> r.events[i].id != r.events[j].id)
      && DistinctNotes(r.notes)
  }

  lemma {:induction false} ObservationsDistinct(env: Text, ordered: seq<Origin>, f: Field)
    requires UniqueIds(ordered)
    ensures var os := Observations(env, ordered, f);
            forall i, j :: 0 <= i < j < |os| ==> os[i].eventId != os[j].eventId
  {
    hide Compared, Displayed;
    FilterKeepsUniqueIds(ordered, (o: Origin) => Compared(env, o, f).Some?);
  }

  lemma {:induction false} ConflictsValid(env: Text, origins: seq<Origin>, e: Event, c: Conflict)
    requires ValidText(env) && UniqueIds(origins) && e in ReconciledEvents(env, origins) && c in e.conflicts
    ensures ValidConflict(c)
  {
    hide ReconciledEvents, Observations, ComparedValues, ConflictsOn;
    EventHasGroup(env, origins, e);
    EventLanes(env, origins, e, e.fingerprint);
    var ordered := Behind(env, origins, e.fingerprint);
    ConflictsExactly(env, ordered, FIELDS, Date);
    ManyValuesManyObservations(env, ordered, c.field);
    FilterKeepsUniqueIds(origins, (o: Origin) => o.fingerprint == e.fingerprint);
    SortPermutes(Group(origins, e.fingerprint), OriginOrder(env));
    UniqueIdsPermute(Group(origins, e.fingerprint), ordered);
    ObservationsDistinct(env, ordered, c.field);
  }

  lemma {:induction false} NotesDistinct(events: seq<Event>)
    ensures DistinctNotes(NotesOf(events))
  {
  }

  lemma {:induction false} SomeEvent(env: Text, origins: seq<Origin>)
    requires ValidText(env) && origins != []
    ensures ReconciledEvents(env, origins) != []
  {
    FingerprintGroups(env, origins);
    hide ReconciledEvents, Fingerprints;
    assert origins[0].fingerprint in Fingerprints(env, origins);
    GroupHasEvent(env, origins, origins[0].fingerprint);
  }

  lemma {:induction false} EventAndConflictsValid(env: Text, origins: seq<Origin>, e: Event)
    requires ValidText(env) && UniqueIds(origins) && e in ReconciledEvents(env, origins)
    ensures ValidEvent(e) && forall c :: c in e.conflicts ==> ValidConflict(c)
  {
    hide *;
    EventsAlwaysValid(env, origins, e);
    forall c | c in e.conflicts
      ensures ValidConflict(c)
    {
      ConflictsValid(env, origins, e, c);
    }
  }

  /** Whatever the origins, a result that is built passes every check that its
      models make across their fields. */
  lemma {:induction false} ResultAlwaysValid(env: Text, origins: seq<Origin>, cutoffReached: bool)
    requires ValidText(env)
    ensures ValidReconciliation(Reconcile(env, origins, cutoffReached))
  {
    hide ReconciledEvents, ValidEvent, ValidConflict, NotesOf, UniqueIds, ValidText;
    if UniqueIds(origins) && cutoffReached && origins != [] {
      var events := ReconciledEvents(env, origins);
      SomeEvent(env, origins);
      NotesDistinct(events);
      forall e | e in events
        ensures ValidEvent(e) && forall c :: c in e.conflicts ==> ValidConflict(c)
      {
        EventAndConflictsValid(env, origins, e);
      }
      hide DistinctNotes;
      forall i, j | 0 <= i < j < |events|
        ensures events[i].id != events[j].id
      {
        EventsDistinct(env, origins);
      }
    } else {
      assert DistinctNotes([NothingToReconcile]);
    }
  }

  /** As many names as distinct fingerprints, and all of them: no name repeats. */
  lemma {:induction false} SamePigeons(names: seq<string>, fs: seq<string>)
    requires |names| == |fs|
    requires forall i, j :: 0 <= i < j < |fs| ==> fs[i] != fs[j]
    requires forall f :: f in fs ==> f in names
    ensures forall i, j :: 0 <= i < j < |names| ==> names[i] != names[j]
  {
    forall f
      ensures multiset(fs)[f] <= multiset(names)[f]
    {
      DistinctCount(fs, f);
      assert f in names ==> f in multiset(names);
    }
    assert multiset(fs) <= multiset(names);
    assert multiset(names) == multiset(fs) + (multiset(names) - multiset(fs));
    assert |multiset(names)| == |names| && |multiset(fs)| == |fs|;
    assert multiset(names) == multiset(fs);
    DistinctPermute(fs, names);
  }
}
