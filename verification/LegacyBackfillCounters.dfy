/** The verification pass of the backfill in its own form: two scans that grow
    sets and counters, one row at a time. */
module LegacyBackfillCounters {
  import opened Foundations
  import opened LegacyBackfill

  /** The counters of the message scan. */
  datatype Counter =
    | LegacyRows | PendingRows | PublicIds | SessionIds | Ownership | Events | BackfilledRows

  function Counters(): set<Counter>
  {
    {LegacyRows, PendingRows, PublicIds, SessionIds, Ownership, Events, BackfilledRows}
  }

  /** The rows a counter is meant to count. */
  function RowsCounted(db: Db, c: Counter): set<MessageId>
  {
    match c
    case LegacyRows => LegacyMessages(db)
    case PendingRows => AllPending(db)
    case PublicIds => PublicIdMismatches(db)
    case SessionIds => SessionIdMismatches(db)
    case Ownership => OwnershipMismatches(db)
    case Events => EventMismatches(db)
    case BackfilledRows => BackfilledMessages(db)
  }

  /** The guard under which the loop body increments a counter. */
  predicate Increments(db: Db, id: MessageId, c: Counter)
    requires id in db.messages
  {
    var m := db.messages[id];
    IsLegacyMessage(db, id) &&
    match c
    case LegacyRows => true
    case PendingRows => Pending(m)
    case PublicIds => m.publicId.Some? && m.publicId != Some(LegacyPublicId(id))
    case SessionIds => m.sessionId.Some? && m.sessionId != Some(LegacySessionId(m))
    case Ownership => OwnershipMismatch(db, m)
    case Events => EventMismatch(db, m)
    case BackfilledRows => Backfilled(id, m)
  }

  lemma {:induction false} IncrementsCountedRows(db: Db, id: MessageId, c: Counter)
    requires id in db.messages
    ensures Increments(db, id, c) <==> id in RowsCounted(db, c)
  {
  }

  function One(b: bool): nat { if b then 1 else 0 }

  ghost predicate Tallied(db: Db, seen: set<MessageId>, tally: map<Counter, nat>, expected: set<Uuid>)
    requires seen <= db.messages.Keys
  {
    && tally.Keys == Counters()
    && (forall c :: c in tally ==> tally[c] == |RowsCounted(db, c) * seen|)
    && expected == SessionIdsOf(db, LegacyMessages(db) * seen)
  }

  lemma {:induction false} CounterOneMore(db: Db, seen: set<MessageId>, id: MessageId, c: Counter)
    requires id in db.messages && id !in seen
    ensures |RowsCounted(db, c) * (seen + {id})| == |RowsCounted(db, c) * seen| + One(Increments(db, id, c))
  {
    hide RowsCounted, Increments;
    IncrementsCountedRows(db, id, c);
    CountOneMore(RowsCounted(db, c), seen, id);
  }

  lemma {:induction false} TalliedOneMore(
    db: Db, seen: set<MessageId>, tally: map<Counter, nat>, expected: set<Uuid>, id: MessageId)
    requires seen <= db.messages.Keys && id in db.messages && id !in seen
    requires Tallied(db, seen, tally, expected)
    ensures Tallied(db, seen + {id},
                    map c | c in Counters() :: tally[c] + One(Increments(db, id, c)),
                    expected + (if IsLegacyMessage(db, id) then {LegacySessionId(db.messages[id])} else {}))
  {
    hide RowsCounted, Increments, SessionIdsOf, LegacyMessages, IsLegacyMessage, Counters, LegacySessionId, One;
    ExpectedOneMore(db, seen, id);
    forall c: Counter
      ensures |RowsCounted(db, c) * (seen + {id})| == |RowsCounted(db, c) * seen| + One(Increments(db, id, c))
    {
      CounterOneMore(db, seen, id, c);
    }
  }

  lemma {:induction false} ExpectedOneMore(db: Db, seen: set<MessageId>, id: MessageId)
    requires seen <= db.messages.Keys && id in db.messages
    ensures SessionIdsOf(db, LegacyMessages(db) * (seen + {id}))
            == SessionIdsOf(db, LegacyMessages(db) * seen)
               + (if IsLegacyMessage(db, id) then {LegacySessionId(db.messages[id])} else {})
  {
    var legacy := LegacyMessages(db);
    hide IsLegacyMessage;
    forall u | u in SessionIdsOf(db, legacy * (seen + {id}))
      ensures u in SessionIdsOf(db, legacy * seen)
              || (IsLegacyMessage(db, id) && u == LegacySessionId(db.messages[id]))
    {
      var r :| r in legacy * (seen + {id}) && LegacySessionId(db.messages[r]) == u;
      assert r == id || r in legacy * seen;
    }
  }

  lemma {:induction false} NothingTallied(db: Db)
    ensures Tallied(db, {}, map c | c in Counters() :: 0, {})
  {
    assert SessionIdsOf(db, LegacyMessages(db) * {}) == {};
    assert forall s: set<MessageId> :: s * {} == {};
  }

  /** The state of the message scan after `i` rows. */
  ghost predicate ScannedTo(db: Db, rows: seq<MessageId>, i: nat, tally: map<Counter, nat>, expected: set<Uuid>)
  {
    && Enumerates(rows, db.messages.Keys) && i <= |rows|
    && RowSet(rows[..i]) <= db.messages.Keys
    && Tallied(db, RowSet(rows[..i]), tally, expected)
  }

  lemma {:induction false} ScanStart(db: Db, rows: seq<MessageId>)
    requires Enumerates(rows, db.messages.Keys)
    ensures ScannedTo(db, rows, 0, map c | c in Counters() :: 0, {})
  {
    NothingTallied(db);
    hide Tallied;
    assert RowSet(rows[..0]) == {};
  }

  lemma {:induction false} ScanStep(db: Db, rows: seq<MessageId>, i: nat, tally: map<Counter, nat>, expected: set<Uuid>)
    requires ScannedTo(db, rows, i, tally, expected) && i < |rows|
    ensures rows[i] in db.messages && tally.Keys == Counters()
    ensures ScannedTo(db, rows, i + 1,
                      map c | c in Counters() :: tally[c] + One(Increments(db, rows[i], c)),
                      expected + (if IsLegacyMessage(db, rows[i]) then {LegacySessionId(db.messages[rows[i]])} else {}))
  {
    assert rows[i] in db.messages.Keys;
    NextRow(rows, i);
    TalliedOneMore(db, RowSet(rows[..i]), tally, expected, rows[i]);
    hide RowsCounted, Increments, IsLegacyMessage, LegacyMessages, SessionIdsOf;
  }

  lemma {:induction false} ScanEnd(db: Db, rows: seq<MessageId>, tally: map<Counter, nat>, expected: set<Uuid>)
    requires ScannedTo(db, rows, |rows|, tally, expected)
    ensures Tallied(db, db.messages.Keys, tally, expected)
  {
    hide Tallied;
    assert rows[..|rows|] == rows;
    assert forall id :: id in RowSet(rows) <==> id in db.messages;
    assert RowSet(rows) == db.messages.Keys;
  }

  /** The message scan, in ascending id order. */
  method CountMessages(db: Db) returns (tally: map<Counter, nat>, expected: set<Uuid>)
    ensures Tallied(db, db.messages.Keys, tally, expected)
  {
    var rows := Ascending(db.messages.Keys);
    AscendingEnumerates(db.messages.Keys);
    tally, expected := map c | c in Counters() :: 0, {};
    ScanStart(db, rows);
    hide Tallied, ScannedTo, Ascending, Enumerates, Increments, IsLegacyMessage;
    for i := 0 to |rows|
      invariant ScannedTo(db, rows, i, tally, expected)
    {
      ScanStep(db, rows, i, tally, expected);
      tally := map c | c in Counters() :: tally[c] + One(Increments(db, rows[i], c));
      expected := expected + (if IsLegacyMessage(db, rows[i]) then {LegacySessionId(db.messages[rows[i]])} else {});
    }
    ScanEnd(db, rows, tally, expected);
  }

  lemma {:induction false} NextRow(rows: seq<MessageId>, i: nat)
    requires i < |rows| && forall j, k :: 0 <= j < k < |rows| ==> rows[j] < rows[k]
    ensures RowSet(rows[..i + 1]) == RowSet(rows[..i]) + {rows[i]}
    ensures rows[i] !in RowSet(rows[..i])
  {
    assert rows[..i + 1] == rows[..i] + [rows[i]];
  }

  // ----- sessions ---------------------------------------------------------

  function InScope(db: Db, us: set<Uuid>, sc: Scope): set<Uuid>
    requires us <= db.sessions.Keys
  {
    set u | u in us && ScopeOf(db.sessions[u]) == sc
  }

  ghost predicate ScopeCounts(db: Db, us: set<Uuid>, counts: map<Scope, nat>)
    requires us <= db.sessions.Keys
  {
    && (forall u :: u in us ==> ScopeOf(db.sessions[u]) in counts)
    && (forall sc :: sc in counts ==> counts[sc] == |InScope(db, us, sc)| >= 1)
  }

  lemma {:induction false} InScopeOneMore(db: Db, us: set<Uuid>, u: Uuid, sc: Scope)
    requires us <= db.sessions.Keys && u in db.sessions && u !in us
    ensures InScope(db, us + {u}, sc) == InScope(db, us, sc) + (if ScopeOf(db.sessions[u]) == sc then {u} else {})
    ensures |InScope(db, us + {u}, sc)| == |InScope(db, us, sc)| + One(ScopeOf(db.sessions[u]) == sc)
  {
    assert InScope(db, us + {u}, sc) == InScope(db, us, sc) + (if ScopeOf(db.sessions[u]) == sc then {u} else {});
  }

  lemma {:induction false} ScopeNotSeen(db: Db, us: set<Uuid>, counts: map<Scope, nat>, sc: Scope)
    requires us <= db.sessions.Keys && ScopeCounts(db, us, counts)
    ensures |InScope(db, us, sc)| == if sc in counts then counts[sc] else 0
  {
    if sc !in counts {
      assert InScope(db, us, sc) == {};
    }
  }

  lemma {:induction false} ScopeCountsOneMore(db: Db, us: set<Uuid>, counts: map<Scope, nat>, u: Uuid)
    requires us <= db.sessions.Keys && u in db.sessions && u !in us
    requires ScopeCounts(db, us, counts)
    ensures var sc := ScopeOf(db.sessions[u]);
            ScopeCounts(db, us + {u}, counts[sc := (if sc in counts then counts[sc] else 0) + 1])
  {
    hide InScope;
    var sc := ScopeOf(db.sessions[u]);
    var more := counts[sc := (if sc in counts then counts[sc] else 0) + 1];
    forall other | other in more
      ensures more[other] == |InScope(db, us + {u}, other)| >= 1
    {
      ScopeNotSeen(db, us, counts, other);
      InScopeOneMore(db, us, u, other);
    }
  }

  lemma {:induction false} OneScopeMore(db: Db, us: set<Uuid>, done: set<Scope>, sc: Scope)
    requires us <= db.sessions.Keys && sc !in done
    ensures |InScopes(db, us, done + {sc})| == |InScopes(db, us, done)| + |InScope(db, us, sc)|
  {
    DisjointCardinality(InScopes(db, us, done), InScope(db, us, sc));
    assert InScopes(db, us, done + {sc}) == InScopes(db, us, done) + InScope(db, us, sc);
  }

  function InScopes(db: Db, us: set<Uuid>, scopes: set<Scope>): set<Uuid>
    requires us <= db.sessions.Keys
  {
    set u | u in us && ScopeOf(db.sessions[u]) in scopes
  }

  lemma {:induction false} CountedScopes(db: Db, us: set<Uuid>, counts: map<Scope, nat>)
    requires us <= db.sessions.Keys && ScopeCounts(db, us, counts)
    ensures counts.Keys == set u | u in us :: ScopeOf(db.sessions[u])
    ensures InScopes(db, us, counts.Keys) == us
  {
    forall sc | sc in counts
      ensures exists u :: u in us && ScopeOf(db.sessions[u]) == sc
    {
      assert |InScope(db, us, sc)| >= 1;
      var u :| u in InScope(db, us, sc);
    }
  }

  /** The state of the duplicate sum while the scopes `left` are still to come. */
  ghost predicate Summing(db: Db, us: set<Uuid>, counts: map<Scope, nat>, left: set<Scope>, duplicates: nat)
    requires us <= db.sessions.Keys
  {
    && ScopeCounts(db, us, counts)
    && left <= counts.Keys
    && duplicates == |InScopes(db, us, counts.Keys - left)| - |counts.Keys - left|
  }

  lemma {:induction false} SumStart(db: Db, us: set<Uuid>, counts: map<Scope, nat>)
    requires us <= db.sessions.Keys && ScopeCounts(db, us, counts)
    ensures Summing(db, us, counts, counts.Keys, 0)
  {
    assert counts.Keys - counts.Keys == {};
    assert InScopes(db, us, {}) == {};
  }

  lemma {:induction false} SumStep(
    db: Db, us: set<Uuid>, counts: map<Scope, nat>, left: set<Scope>, duplicates: nat, sc: Scope)
    requires us <= db.sessions.Keys && Summing(db, us, counts, left, duplicates) && sc in left
    ensures sc in counts
    ensures Summing(db, us, counts, left - {sc}, duplicates + (if counts[sc] > 1 then counts[sc] - 1 else 0))
  {
    var done := counts.Keys - left;
    OneScopeMore(db, us, done, sc);
    hide InScopes, InScope;
    assert counts.Keys - (left - {sc}) == done + {sc};
  }

  lemma {:induction false} SumEnd(db: Db, us: set<Uuid>, counts: map<Scope, nat>, duplicates: nat)
    requires us <= db.sessions.Keys && Summing(db, us, counts, {}, duplicates)
    ensures duplicates == |us| - |set u | u in us :: ScopeOf(db.sessions[u])|
  {
    assert counts.Keys - {} == counts.Keys;
    CountedScopes(db, us, counts);
  }

  /** Sessions beyond the first of their scope, summed over the scopes. */
  method SumDuplicates(db: Db, us: set<Uuid>, counts: map<Scope, nat>) returns (duplicates: nat)
    requires us <= db.sessions.Keys && ScopeCounts(db, us, counts)
    ensures duplicates == |us| - |set u | u in us :: ScopeOf(db.sessions[u])|
  {
    var left := counts.Keys;
    duplicates := 0;
    SumStart(db, us, counts);
    hide ScopeCounts, Summing;
    while left != {}
      invariant Summing(db, us, counts, left, duplicates)
      decreases left
    {
      var sc :| sc in left;
      SumStep(db, us, counts, left, duplicates, sc);
      duplicates := duplicates + (if counts[sc] > 1 then counts[sc] - 1 else 0);
      left := left - {sc};
    }
    SumEnd(db, us, counts, duplicates);
  }

  /** The variables of the session scan. */
  datatype SessionScan = SessionScan(ids: set<Uuid>, count: nat, metadata: nat, counts: map<Scope, nat>)

  /** What the loop body does with one legacy session. */
  function ReadOne(db: Db, scan: SessionScan, u: Uuid): SessionScan
    requires u in db.sessions
  {
    var sc := ScopeOf(db.sessions[u]);
    SessionScan(scan.ids + {u}, scan.count + 1, scan.metadata + One(MetadataMismatch(u, db.sessions[u])),
                scan.counts[sc := (if sc in scan.counts then scan.counts[sc] else 0) + 1])
  }

  /** The state of the session scan while the sessions `left` are still to come. */
  ghost predicate Reading(db: Db, left: set<Uuid>, scan: SessionScan)
  {
    && RowsRead(db, left, scan)
    && ScopeCounts(db, scan.ids, scan.counts)
  }

  ghost predicate RowsRead(db: Db, left: set<Uuid>, scan: SessionScan)
    ensures RowsRead(db, left, scan) ==> scan.ids <= db.sessions.Keys
  {
    && left <= LegacySessions(db) && scan.ids == LegacySessions(db) - left
    && scan.count == |scan.ids|
    && scan.metadata == |MetadataMismatches(db) * scan.ids|
  }

  lemma {:induction false} ReadStart(db: Db)
    ensures Reading(db, LegacySessions(db), SessionScan({}, 0, 0, map[]))
  {
    assert MetadataMismatches(db) * {} == {};
  }

  lemma {:induction false} ReadStep(db: Db, left: set<Uuid>, scan: SessionScan, u: Uuid)
    requires Reading(db, left, scan) && u in left
    ensures u in db.sessions && Reading(db, left - {u}, ReadOne(db, scan, u))
  {
    hide ScopeCounts, RowsRead, MetadataMismatch, LegacySessions;
    ReadRow(db, left, scan, u);
    ScopeCountsOneMore(db, scan.ids, scan.counts, u);
  }

  lemma {:induction false} ReadRow(db: Db, left: set<Uuid>, scan: SessionScan, u: Uuid)
    requires RowsRead(db, left, scan) && u in left
    ensures u in db.sessions && u !in scan.ids
    ensures RowsRead(db, left - {u}, ReadOne(db, scan, u))
  {
    LegacySessionRow(db, u);
    hide MetadataMismatch, MetadataMismatches, LegacySessions;
    OneFewerLeft(LegacySessions(db), left, u);
    CountOneMore(MetadataMismatches(db), scan.ids, u);
  }

  lemma {:induction false} LegacySessionRow(db: Db, u: Uuid)
    requires u in LegacySessions(db)
    ensures u in db.sessions && LegacySessions(db) <= db.sessions.Keys
    ensures u in MetadataMismatches(db) <==> MetadataMismatch(u, db.sessions[u])
  {
  }

  lemma {:induction false} ReadEnd(db: Db, scan: SessionScan)
    requires Reading(db, {}, scan)
    ensures scan.ids == LegacySessions(db) && scan.count == |scan.ids| && scan.metadata == |MetadataMismatches(db)|
    ensures ScopeCounts(db, scan.ids, scan.counts)
    ensures LegacySessions(db) <= db.sessions.Keys
    ensures LegacyScopes(db) == set u | u in LegacySessions(db) :: ScopeOf(db.sessions[u])
  {
    assert LegacySessions(db) - {} == LegacySessions(db);
    assert MetadataMismatches(db) * LegacySessions(db) == MetadataMismatches(db);
  }

  method CountSessions(db: Db) returns (count: nat, ids: set<Uuid>, metadata: nat, duplicates: nat)
    ensures ids == LegacySessions(db) && count == |ids|
    ensures metadata == |MetadataMismatches(db)|
    ensures duplicates == |LegacySessions(db)| - |LegacyScopes(db)|
  {
    hide Reading, ReadOne, ScopeCounts, LegacySessions, LegacyScopes, MetadataMismatches;
    var left, scan := LegacySessions(db), SessionScan({}, 0, 0, map[]);
    ReadStart(db);
    while left != {}
      invariant Reading(db, left, scan)
      decreases left
    {
      var u :| u in left;
      ReadStep(db, left, scan, u);
      scan, left := ReadOne(db, scan, u), left - {u};
    }
    ReadEnd(db, scan);
    duplicates := SumDuplicates(db, scan.ids, scan.counts);
    count, ids, metadata := scan.count, scan.ids, scan.metadata;
  }

  method VerifyBackfill(db: Db) returns (v: Verification)
    ensures v == Verify(db)
  {
    hide Verify, Tallied, RowsCounted, Counters, LegacySessions, LegacyScopes, MetadataMismatches, ExpectedSessionIds;
    var tally, expected := CountMessages(db);
    var count, ids, metadata, duplicates := CountSessions(db);
    VerifyFromScans(db, tally, expected);
    var orphans := |ids - expected|;
    var drift := tally[PublicIds] + tally[SessionIds] + tally[Ownership] + tally[Events]
                 + metadata + duplicates + orphans;
    v := Verification(
      tally[LegacyRows], tally[BackfilledRows], tally[PendingRows], |expected|, count, tally[PublicIds],
      tally[SessionIds], tally[Ownership], tally[Events], metadata, duplicates, orphans, drift,
      tally[PendingRows] == 0 && drift == 0);
  }

  lemma {:induction false} EveryCounter(c: Counter)
    ensures c in Counters()
  {
  }

  lemma {:induction false} VerifyFromScans(db: Db, tally: map<Counter, nat>, expected: set<Uuid>)
    requires Tallied(db, db.messages.Keys, tally, expected)
    ensures forall c: Counter :: c in tally
    ensures |LegacyScopes(db)| <= |LegacySessions(db)|
    ensures var duplicates, orphans := |LegacySessions(db)| - |LegacyScopes(db)|, |LegacySessions(db) - expected|;
            var drift := tally[PublicIds] + tally[SessionIds] + tally[Ownership] + tally[Events]
                       + |MetadataMismatches(db)| + duplicates + orphans;
            Verify(db) == Verification(
              tally[LegacyRows], tally[BackfilledRows], tally[PendingRows], |expected|, |LegacySessions(db)|,
              tally[PublicIds], tally[SessionIds], tally[Ownership], tally[Events], |MetadataMismatches(db)|,
              duplicates, orphans, drift, tally[PendingRows] == 0 && drift == 0)
  {
    hide LegacyMessages, AllPending, PublicIdMismatches, SessionIdMismatches, OwnershipMismatches, EventMismatches,
      BackfilledMessages, MetadataMismatches, LegacySessions, LegacyScopes, ExpectedSessionIds, Tallied, Counters;
    WholeTally(db, tally, expected);
    ScopesAtMostSessions(db);
    assert OrphanSessions(db) == LegacySessions(db) - expected;
    forall c: Counter
      ensures c in tally
    {
      EveryCounter(c);
    }
  }

  lemma {:induction false} CountedRowsAreRows(db: Db, c: Counter)
    ensures RowsCounted(db, c) * db.messages.Keys == RowsCounted(db, c)
  {
    forall id | id in RowsCounted(db, c)
      ensures id in db.messages
    {
      match c
      case LegacyRows =>
      case PendingRows =>
      case PublicIds =>
      case SessionIds =>
      case Ownership =>
      case Events =>
      case BackfilledRows =>
    }
  }

  lemma {:induction false} WholeTally(db: Db, tally: map<Counter, nat>, expected: set<Uuid>)
    requires Tallied(db, db.messages.Keys, tally, expected)
    ensures tally.Keys == Counters() && expected == ExpectedSessionIds(db)
    ensures forall c :: c in tally ==> tally[c] == |RowsCounted(db, c)|
  {
    assert LegacyMessages(db) * db.messages.Keys == LegacyMessages(db);
    hide RowsCounted;
    forall c | c in tally
      ensures RowsCounted(db, c) * db.messages.Keys == RowsCounted(db, c)
    {
      CountedRowsAreRows(db, c);
    }
  }

  method PreviewBackfill(db: Db) returns (p: Preview)
    ensures p == PreviewOf(db)
  {
    var tally, expected := CountMessages(db);
    WholeTally(db, tally, expected);
    hide LegacyMessages, AllPending, LegacySessions, ExpectedSessionIds;
    var existing := LegacySessions(db);
    p := Preview(tally[LegacyRows], tally[PendingRows], |expected|, |existing|, |expected - existing|);
  }
}
