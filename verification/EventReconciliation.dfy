/** Event reconciliation (apps/api/backend/ask/event_reconciliation.py):
    grouping origins by fingerprint, detecting conflicts, marking near
    duplicates and ordering the result.

    Text normalisation, `strip`, `isoformat` and the two string orders are the
    fields of `Text`; digests are free constructors. */
module EventReconciliation {
  import opened Foundations
  import opened Ordering

  /** The primitives on text that the module takes from Python. */
  datatype Text = Text(
    norm: string -> string,
    strip: string -> string,
    iso: DateTime -> string,
    le: (string, string) -> bool,
    idLe: (VisualId, VisualId) -> bool)

  ghost predicate ValidText(env: Text) { TotalOrder(env.le) && TotalOrder(env.idLe) }

  // ----- origins ---------------------------------------------------------------

  datatype DateTime = DateTime(instant: int, offset: int)

  datatype Lane = Internal | Live

  datatype Origin = Origin(
    eventId: string, key: string, labelText: string, eventType: string,
    date: Option<DateTime>, semantic: string, lane: Lane,
    sourceIds: seq<string>, ancestry: seq<string>,
    entityIds: seq<string>, fingerprint: string, description: string,
    publishedAt: Option<DateTime>, retrievedAt: DateTime,
    legalStatus: Option<string>, established: bool)

  /** The view of an origin keeps its event, sources, times and status. */
  datatype View = View(
    eventId: string, lane: Lane, labelText: string, eventType: string,
    date: Option<DateTime>, semantic: string, sourceIds: seq<string>, ancestry: seq<string>,
    publishedAt: Option<DateTime>, retrievedAt: DateTime, legalStatus: Option<string>, established: bool)

  function ViewOf(o: Origin): View
  {
    View(o.eventId, o.lane, o.labelText, o.eventType, o.date, o.semantic, o.sourceIds, o.ancestry,
         o.publishedAt, o.retrievedAt, o.legalStatus, o.established)
  }

  // ----- events ------------------------------------------------------------------

  datatype Field = EventIdentity | Date | EventType | Description | LegalStatus

  datatype Observation = Observation(eventId: string, lane: Lane, value: string)

  datatype Conflict = Conflict(field: Field, observations: seq<Observation>)

  datatype VisualId = VisualId(fingerprint: string, eventIds: seq<string>)

  datatype ConflictId = ConflictId(fingerprint: string, fields: seq<Field>, eventIds: seq<string>)

  datatype NearKey = NearKey(entityIds: seq<string>, key: string, eventType: string)

  datatype NearId = NearId(key: NearKey, ids: seq<VisualId>)

  datatype Match = Standalone | ExactDuplicate | NearDuplicate | Conflicting

  datatype Event = Event(
    id: VisualId, fingerprint: string, entityIds: seq<string>, key: string, labelText: string, eventType: string,
    date: Option<DateTime>, semantic: Option<string>, kind: Match,
    official: seq<View>, live: seq<View>, sourceIds: seq<string>,
    establishedStatus: Option<string>, liveStatuses: seq<string>,
    conflicts: seq<Conflict>, conflictId: Option<ConflictId>, nearId: Option<NearId>,
    penaltyRequired: bool, highAllowed: bool)

  // ----- lists without repetition ------------------------------------------

  function MapSeq<A, B>(s: seq<A>, f: A -> B): seq<B>
  {
    seq(|s|, i requires 0 <= i < |s| => f(s[i]))
  }

  function Flatten(s: seq<seq<string>>): seq<string>
  {
    if s == [] then [] else Flatten(s[..|s| - 1]) + s[|s| - 1]
  }

  /** `_ordered_unique`: the first occurrence of every value. */
  function OrderedUnique(s: seq<string>): seq<string>
  {
    if s == [] then []
    else
      var done := OrderedUnique(s[..|s| - 1]);
      if s[|s| - 1] in done then done else done + [s[|s| - 1]]
  }

  function SortedDistinct(s: seq<string>, env: Text): seq<string> { Sort(OrderedUnique(s), env.le) }

  // ----- one fingerprint group ---------------------------------------------------

  /** Official origins first, then by event id. */
  predicate OriginLe(env: Text, a: Origin, b: Origin)
  {
    (a.lane == Internal && b.lane == Live) || (a.lane == b.lane && env.le(a.eventId, b.eventId))
  }

  function OriginOrder(env: Text): (Origin, Origin) -> bool { (a, b) => OriginLe(env, a, b) }

  function Join(separator: string, parts: seq<string>): string
  {
    if parts == [] then "" else if |parts| == 1 then parts[0]
    else Join(separator, parts[..|parts| - 1]) + separator + parts[|parts| - 1]
  }

  /** The compared value of an origin on a field, if it has one. */
  function Compared(env: Text, o: Origin, f: Field): Option<string>
  {
    match f
    case EventIdentity => Some(env.norm(Join("|", [env.norm(o.key)] + Sort(o.entityIds, env.le))))
    case Date => if o.date.Some? then Some(env.norm(Join("|", [o.semantic, env.iso(o.date.value)]))) else None
    case EventType => Some(env.norm(o.eventType))
    case Description => Some(env.norm(o.description))
    case LegalStatus => if o.legalStatus.Some? then Some(env.norm(o.legalStatus.value)) else None
  }

  function Displayed(env: Text, o: Origin, f: Field): string
  {
    match f
    case EventIdentity => o.key + " \U{2014} " + Join(", ", Sort(o.entityIds, env.le))
    case Date => if o.date.Some? then Join(" \U{B7} ", [o.semantic, env.iso(o.date.value)]) else ""
    case EventType => o.eventType
    case Description => o.labelText
    case LegalStatus => if o.legalStatus.Some? then o.legalStatus.value else ""
  }

  function ComparedValues(env: Text, origins: seq<Origin>, f: Field): set<string>
  {
    set o | o in origins && Compared(env, o, f).Some? :: Compared(env, o, f).value
  }

  function Observations(env: Text, origins: seq<Origin>, f: Field): seq<Observation>
  {
    MapSeq(Filter(origins, (o: Origin) => Compared(env, o, f).Some?),
           (o: Origin) => Observation(o.eventId, o.lane, Displayed(env, o, f)))
  }

  const FIELDS: seq<Field> := [EventIdentity, Date, EventType, Description, LegalStatus]

  function ConflictsOn(env: Text, origins: seq<Origin>, fields: seq<Field>): seq<Conflict>
  {
    if fields == [] then []
    else
      var f := fields[|fields| - 1];
      ConflictsOn(env, origins, fields[..|fields| - 1])
      + if |ComparedValues(env, origins, f)| < 2 then [] else [Conflict(f, Observations(env, origins, f))]
  }

  /** `_distinct_values`: one stripped value for every normalised value, in order of the latter. */
  datatype Entry = Entry(norm: string, value: string)

  function FirstByNorm(env: Text, values: seq<Option<string>>): seq<Entry>
  {
    if values == [] then []
    else
      var done := FirstByNorm(env, values[..|values| - 1]);
      var v := values[|values| - 1];
      if v.None? || exists e :: e in done && e.norm == env.norm(v.value) then done
      else done + [Entry(env.norm(v.value), env.strip(v.value))]
  }

  function DistinctValues(env: Text, values: seq<Option<string>>): seq<string>
  {
    MapSeq(Sort(FirstByNorm(env, values), (a: Entry, b: Entry) => env.le(a.norm, b.norm)), (e: Entry) => e.value)
  }

  function Dated(origins: seq<Origin>): seq<Origin> { Filter(origins, (o: Origin) => o.date.Some?) }

  predicate SameInstant(a: Origin, b: Origin)
  {
    a.date.Some? && b.date.Some? && a.date.value.instant == b.date.value.instant
  }

  /** The common date of the dated origins, if their instants agree. */
  function CanonicalDate(origins: seq<Origin>): Option<DateTime>
  {
    var dated := Dated(origins);
    if dated != [] && forall o :: o in dated ==> SameInstant(o, dated[0]) then dated[0].date else None
  }

  function CanonicalSemantic(origins: seq<Origin>): Option<string>
  {
    var dated := Dated(origins);
    if dated != [] && forall o :: o in dated ==> o.semantic == dated[0].semantic then Some(dated[0].semantic) else None
  }

  function EventIds(origins: seq<Origin>): seq<string> { MapSeq(origins, (o: Origin) => o.eventId) }

  function LaneViews(origins: seq<Origin>, lane: Lane): seq<View>
  {
    MapSeq(Filter(origins, (o: Origin) => o.lane == lane), (o: Origin) => ViewOf(o))
  }

  /** The event of a sorted group. */
  function ReconcileOrdered(env: Text, fingerprint: string, ordered: seq<Origin>): Event
    requires ordered != []
  {
    var official, live := LaneViews(ordered, Internal), LaneViews(ordered, Live);
    var conflicts := ConflictsOn(env, ordered, FIELDS);
    var established := DistinctValues(env,
      MapSeq(Filter(ordered, (o: Origin) => o.established), (o: Origin) => o.legalStatus));
    var primary := ordered[0];
    Event(
      VisualId(fingerprint, EventIds(ordered)),
      fingerprint,
      SortedDistinct(Flatten(MapSeq(ordered, (o: Origin) => o.entityIds)), env),
      primary.key, primary.labelText, primary.eventType,
      CanonicalDate(ordered), CanonicalSemantic(ordered),
      if conflicts != [] then Conflicting else if |ordered| > 1 then ExactDuplicate else Standalone,
      official, live,
      OrderedUnique(Flatten(MapSeq(official + live, (v: View) => v.sourceIds))),
      if |established| == 1 then Some(established[0]) else None,
      DistinctValues(env, MapSeq(Filter(ordered, (o: Origin) => o.lane == Live), (o: Origin) => o.legalStatus)),
      conflicts,
      if conflicts != []
      then Some(ConflictId(fingerprint, MapSeq(conflicts, (c: Conflict) => c.field), EventIds(ordered))) else None,
      None,
      conflicts != [],
      conflicts == [])
  }

  function ReconcileGroup(env: Text, fingerprint: string, group: seq<Origin>): Event
    requires group != []
  {
    SortPermutes(group, OriginOrder(env));
    ReconcileOrdered(env, fingerprint, Sort(group, OriginOrder(env)))
  }

  // ----- near duplicates -----------------------------------------------------------

  function NearKeyOf(env: Text, e: Event): NearKey
  {
    NearKey(e.entityIds, env.norm(e.key), env.norm(e.eventType))
  }

  /** The standalone events that share a near key, in list order. */
  function NearGroup(env: Text, events: seq<Event>, k: NearKey): seq<Event>
  {
    Filter(events, (e: Event) => e.kind == Standalone && NearKeyOf(env, e) == k)
  }

  function MarkOne(env: Text, events: seq<Event>, e: Event): Event
  {
    var group := NearGroup(env, events, NearKeyOf(env, e));
    if e.kind != Standalone || |group| < 2 then e
    else e.(kind := NearDuplicate,
            nearId := Some(NearId(NearKeyOf(env, e), MapSeq(group, (g: Event) => g.id))))
  }

  function MarkNear(env: Text, events: seq<Event>): seq<Event>
  {
    MapSeq(events, (e: Event) => MarkOne(env, events, e))
  }

  // ----- the whole reconciliation --------------------------------------------------

  /** Undated events last, then by instant, key and identifier. */
  predicate EventLe(env: Text, a: Event, b: Event)
  {
    if a.date.None? != b.date.None? then b.date.None?
    else if a.date.Some? && b.date.Some? && a.date.value.instant != b.date.value.instant then
      a.date.value.instant < b.date.value.instant
    else if a.key != b.key then env.le(a.key, b.key)
    else env.idLe(a.id, b.id)
  }

  function EventOrder(env: Text): (Event, Event) -> bool { (a, b) => EventLe(env, a, b) }

  function Group(origins: seq<Origin>, fingerprint: string): seq<Origin>
  {
    Filter(origins, (o: Origin) => o.fingerprint == fingerprint)
  }

  function Fingerprints(env: Text, origins: seq<Origin>): seq<string>
  {
    SortedDistinct(MapSeq(origins, (o: Origin) => o.fingerprint), env)
  }

  function GroupEvents(env: Text, origins: seq<Origin>, fingerprints: seq<string>): seq<Event>
    requires forall f :: f in fingerprints ==> Group(origins, f) != []
  {
    if fingerprints == [] then []
    else
      var f := fingerprints[|fingerprints| - 1];
      GroupEvents(env, origins, fingerprints[..|fingerprints| - 1]) + [ReconcileGroup(env, f, Group(origins, f))]
  }

  datatype Status = Complete | Partial | NoEvents

  datatype Note = NothingToReconcile | ExactConsolidated | NearRetained | ConflictsRetained

  datatype Outcome =
    | Reconciled(status: Status, events: seq<Event>, notes: seq<Note>)
    | DuplicateOriginIds
    | BeforeCutoff

  predicate UniqueIds(origins: seq<Origin>)
  {
    forall i, j :: 0 <= i < j < |origins| ==> origins[i].eventId != origins[j].eventId
  }

  function NotesOf(events: seq<Event>): seq<Note>
  {
    (if exists e :: e in events && e.kind == ExactDuplicate then [ExactConsolidated] else [])
    + (if exists e :: e in events && e.kind == NearDuplicate then [NearRetained] else [])
    + (if exists e :: e in events && e.conflicts != [] then [ConflictsRetained] else [])
  }

  lemma {:induction false} OrderedUniqueMembers(s: seq<string>)
    ensures forall x :: x in OrderedUnique(s) <==> x in s
    ensures forall i, j :: 0 <= i < j < |OrderedUnique(s)| ==> OrderedUnique(s)[i] != OrderedUnique(s)[j]
  {
    if s != [] {
      OrderedUniqueMembers(s[..|s| - 1]);
      assert s == s[..|s| - 1] + [s[|s| - 1]];
    }
  }

  lemma {:induction false} FingerprintGroups(env: Text, origins: seq<Origin>)
    ensures forall f :: f in Fingerprints(env, origins) <==> exists o :: o in origins && o.fingerprint == f
    ensures forall f :: f in Fingerprints(env, origins) ==> Group(origins, f) != []
  {
    var fs := MapSeq(origins, (o: Origin) => o.fingerprint);
    OrderedUniqueMembers(fs);
    SortPermutes(OrderedUnique(fs), env.le);
    forall f
      ensures f in fs <==> exists o :: o in origins && o.fingerprint == f
    {
      if f in fs {
        var i :| 0 <= i < |fs| && fs[i] == f;
        assert origins[i] in origins && origins[i].fingerprint == f;
      }
      if o :| o in origins && o.fingerprint == f {
        var i :| 0 <= i < |origins| && origins[i] == o;
        assert fs[i] == f;
      }
    }
    forall f | f in fs
      ensures Group(origins, f) != []
    {
      var o :| o in origins && o.fingerprint == f;
      FilterMembers(origins, (o: Origin) => o.fingerprint == f);
      assert o in Group(origins, f);
    }
  }

  function ReconciledEvents(env: Text, origins: seq<Origin>): seq<Event>
  {
    FingerprintGroups(env, origins);
    Sort(MarkNear(env, GroupEvents(env, origins, Fingerprints(env, origins))), EventOrder(env))
  }

  predicate HasConflict(events: seq<Event>) { exists e :: e in events && e.conflicts != [] }

  function Reconcile(env: Text, origins: seq<Origin>, cutoffReached: bool): Outcome
  {
    if !UniqueIds(origins) then DuplicateOriginIds
    else if !cutoffReached then BeforeCutoff
    else if origins == [] then Reconciled(NoEvents, [], [NothingToReconcile])
    else
      var events := ReconciledEvents(env, origins);
      Reconciled(if HasConflict(events) then Partial else Complete, events, NotesOf(events))
  }
}
