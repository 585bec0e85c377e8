/** The legacy backfill engine (apps/api/backend/ask/backfill.py) on values:
    two tables, the committed effect of one batch, of one run and of a series
    of runs, and the verification counters.

    The name-based identifiers of section 5.5 of RFC 9562 are free
    constructors: different names give different identifiers, and neither kind
    collides with the other or with a randomly drawn identifier. */
module LegacyBackfill {
  import opened Foundations

  type UserId = int
  type EventId = int
  type MessageId = int
  type Time = int

  datatype Uuid =
    | SessionUuid(user: UserId, event: Option<EventId>)
    | MessageUuid(message: MessageId)
    | RandomUuid(n: nat)

  const MAX_BATCH_SIZE: nat := 10_000
  const LEGACY_BACKFILL_VERSION: int := 1

  // ----- rows -------------------------------------------------------------

  /** `content` stands for the columns that the backfill never writes. */
  datatype Message = Message(
    user: UserId,
    event: Option<EventId>,
    publicId: Option<Uuid>,
    sessionId: Option<Uuid>,
    createdAt: Time,
    content: string)

  datatype Title = LegacyTitle(event: Option<EventId>) | OtherTitle(text: string)

  /** `legacy`: the snapshot contains `"legacy_backfill": true`. */
  datatype Snapshot = Snapshot(legacy: bool, version: Option<int>, event: Option<EventId>)

  datatype Session = Session(
    user: UserId,
    event: Option<EventId>,
    title: Title,
    status: string,
    snapshot: Snapshot,
    createdAt: Time,
    updatedAt: Time,
    lastMessageAt: Option<Time>)

  datatype Db = Db(messages: map<MessageId, Message>, sessions: map<Uuid, Session>)

  // ----- identities ---------------------------------------------------------

  function LegacySessionId(m: Message): Uuid { SessionUuid(m.user, m.event) }

  function LegacyPublicId(id: MessageId): Uuid { MessageUuid(id) }

  predicate Pending(m: Message) { m.publicId.None? || m.sessionId.None? }

  /** `coalesce`: an identity that is already there is kept. */
  function Assign(id: MessageId, m: Message): Message
  {
    m.(publicId := if m.publicId.Some? then m.publicId else Some(LegacyPublicId(id)),
       sessionId := if m.sessionId.Some? then m.sessionId else Some(LegacySessionId(m)))
  }

  function PendingAfter(db: Db, after: int): set<MessageId>
  {
    set id | id in db.messages && id > after && Pending(db.messages[id])
  }

  function AllPending(db: Db): set<MessageId>
  {
    set id | id in db.messages && Pending(db.messages[id])
  }

  /** The next batch: pending rows above the cursor, ascending, at most `limit`. */
  function SelectBatch(db: Db, after: int, limit: nat): seq<MessageId>
  {
    var all := Ascending(PendingAfter(db, after));
    if |all| <= limit then all else all[..limit]
  }

  /** The rows of a batch as a set. */
  function RowSet(rows: seq<MessageId>): set<MessageId> { set id | id in rows }

  lemma {:induction false} RowSetCardinality(rows: seq<MessageId>)
    requires forall i, j :: 0 <= i < j < |rows| ==> rows[i] < rows[j]
    ensures |RowSet(rows)| == |rows|
  {
    if rows == [] {
      assert RowSet(rows) == {};
    } else {
      var init, last := rows[..|rows| - 1], rows[|rows| - 1];
      RowSetCardinality(init);
      assert RowSet(rows) == RowSet(init) + {last} by {
        assert rows == init + [last];
      }
    }
  }

  /** A prefix of an ascending enumeration is what lies at or below its last element. */
  lemma {:induction false} AscendingPrefix(all: seq<int>, s: set<int>, n: nat)
    requires 0 < n <= |all|
    requires Enumerates(all, s)
    ensures forall x :: x in s ==> (x in all[..n] <==> x <= all[n - 1])
  {
    forall x | x in s
      ensures x in all[..n] <==> x <= all[n - 1]
    {
      var k :| 0 <= k < |all| && all[k] == x;
      if k < n {
        assert all[..n][k] == x;
      }
    }
  }

  /** A batch is the lowest part of the pending rows above the cursor. */
  lemma {:induction false} SelectedBatch(db: Db, after: int, limit: nat)
    ensures var rows := SelectBatch(db, after, limit);
            && RowSet(rows) <= PendingAfter(db, after)
            && |RowSet(rows)| == |rows|
            && (limit >= 1 && PendingAfter(db, after) != {} ==> rows != [])
            && (rows != [] ==>
                  PendingAfter(db, rows[|rows| - 1]) == PendingAfter(db, after) - RowSet(rows))
  {
    var pending := PendingAfter(db, after);
    var all := Ascending(pending);
    AscendingEnumerates(pending);
    hide Ascending, Pending;
    var rows := SelectBatch(db, after, limit);
    assert rows == all[..|rows|];
    RowSetCardinality(rows);
    assert RowSet(rows) <= pending;
    if rows != [] {
      AscendingPrefix(all, pending, |rows|);
      assert PendingAfter(db, rows[|rows| - 1]) == pending - RowSet(rows) by {
        assert rows[|rows| - 1] in pending;
      }
    }
  }

  // ----- one batch ----------------------------------------------------------

  function Times(db: Db, ids: set<MessageId>): set<Time>
    requires ids <= db.messages.Keys
  {
    set id | id in ids :: db.messages[id].createdAt
  }

  /** The rows of `ids` that fall into the legacy session `u`. */
  function RowsOf(db: Db, ids: set<MessageId>, u: Uuid): set<MessageId>
    requires ids <= db.messages.Keys
  {
    set id | id in ids && LegacySessionId(db.messages[id]) == u
  }

  function SessionIdsOf(db: Db, ids: set<MessageId>): set<Uuid>
    requires ids <= db.messages.Keys
  {
    set id | id in ids :: LegacySessionId(db.messages[id])
  }

  function NewSession(user: UserId, event: Option<EventId>, first: Time, last: Time): Session
  {
    Session(user, event, LegacyTitle(event), "complete",
            Snapshot(true, Some(LEGACY_BACKFILL_VERSION), event), first, last, Some(last))
  }

  lemma {:induction false} RowsOfNonempty(db: Db, ids: set<MessageId>, u: Uuid)
    requires ids <= db.messages.Keys
    requires u in SessionIdsOf(db, ids)
    ensures u.SessionUuid? && Times(db, RowsOf(db, ids, u)) != {}
  {
    var id :| id in ids && LegacySessionId(db.messages[id]) == u;
    assert id in RowsOf(db, ids, u);
    assert db.messages[id].createdAt in Times(db, RowsOf(db, ids, u));
  }

  /** The row inserted for the legacy session `u` of a batch: its bounds are
      the bounds of the batch's own rows in that scope. */
  function SessionFor(db: Db, ids: set<MessageId>, u: Uuid): Session
    requires ids <= db.messages.Keys
    requires u in SessionIdsOf(db, ids)
  {
    RowsOfNonempty(db, ids, u);
    var times := Times(db, RowsOf(db, ids, u));
    NewSession(u.user, u.event, Least(times), Greatest(times))
  }

  /** `insert ... on conflict (id) do nothing`: one session for every scope of
      the batch whose deterministic identifier is still free. */
  function MissingSessions(db: Db, ids: set<MessageId>): (s: map<Uuid, Session>)
    requires ids <= db.messages.Keys
    ensures s.Keys == SessionIdsOf(db, ids) - db.sessions.Keys
  {
    map u | u in SessionIdsOf(db, ids) && u !in db.sessions :: SessionFor(db, ids, u)
  }

  /** The committed effect of a batch that raises no drift error. */
  function ApplyBatch(db: Db, ids: set<MessageId>): Db
    requires ids <= db.messages.Keys
  {
    Db(map id | id in db.messages :: if id in ids then Assign(id, db.messages[id]) else db.messages[id],
       db.sessions + MissingSessions(db, ids))
  }

  /** The two drift checks of a batch, for one of its rows. */
  predicate SessionAgrees(s: Session, user: UserId, event: Option<EventId>)
  {
    s.user == user && s.event == event && s.snapshot.legacy
    && s.snapshot.version == Some(LEGACY_BACKFILL_VERSION)
  }

  predicate IdentityAgrees(id: MessageId, m: Message)
  {
    (m.publicId.None? || m.publicId == Some(LegacyPublicId(id)))
    && (m.sessionId.None? || m.sessionId == Some(LegacySessionId(m)))
  }

  predicate Compatible(db: Db, id: MessageId)
    requires id in db.messages
  {
    var m := db.messages[id];
    (LegacySessionId(m) in db.sessions ==> SessionAgrees(db.sessions[LegacySessionId(m)], m.user, m.event))
    && IdentityAgrees(id, m)
  }

  datatype BatchOutcome = Committed(db: Db, updated: nat, created: nat) | DriftError

  function BatchStep(db: Db, ids: set<MessageId>): BatchOutcome
    requires ids <= db.messages.Keys
  {
    if forall id :: id in ids ==> Compatible(db, id)
    then Committed(ApplyBatch(db, ids), |ids|, |MissingSessions(db, ids)|)
    else DriftError
  }

  // ----- session timestamps -----------------------------------------------

  function MessagesIn(db: Db, u: Uuid): set<MessageId>
  {
    set id | id in db.messages && db.messages[id].sessionId == Some(u)
  }

  lemma {:induction false} MessagesInTimes(db: Db, u: Uuid)
    requires MessagesIn(db, u) != {}
    ensures Times(db, MessagesIn(db, u)) != {}
  {
    var id := Least(MessagesIn(db, u));
    assert db.messages[id].createdAt in Times(db, MessagesIn(db, u));
  }

  function Retimed(db: Db, u: Uuid, s: Session): Session
  {
    if s.snapshot.legacy && MessagesIn(db, u) != {} then
      MessagesInTimes(db, u);
      var last := Greatest(Times(db, MessagesIn(db, u)));
      s.(createdAt := Least(Times(db, MessagesIn(db, u))), updatedAt := last, lastMessageAt := Some(last))
    else s
  }

  function ReconcileTimestamps(db: Db): Db
  {
    Db(db.messages, map u | u in db.sessions :: Retimed(db, u, db.sessions[u]))
  }

  // ----- the one-shot assignment ------------------------------------------

  /** Every pending row gets its identity, every missing session is inserted. */
  function Completed(db: Db): Db { ApplyBatch(db, AllPending(db)) }

  /** What the backfill is for: complete all pending rows in one step, then let
      every legacy session take its bounds from its messages. */
  function OneShot(db: Db): Db { ReconcileTimestamps(Completed(db)) }

  // ----- verification -------------------------------------------------------

  datatype Verification = Verification(
    legacyMessages: nat,
    backfilled: nat,
    pending: nat,
    expectedSessions: nat,
    legacySessions: nat,
    publicIdMismatches: nat,
    sessionIdMismatches: nat,
    ownershipMismatches: nat,
    eventMismatches: nat,
    metadataMismatches: nat,
    duplicateScopes: nat,
    orphanSessions: nat,
    drift: nat,
    isValid: bool)

  /** The session a message row is left-joined with. */
  function JoinedSession(db: Db, m: Message): Option<Session>
  {
    if m.sessionId.Some? && m.sessionId.value in db.sessions then Some(db.sessions[m.sessionId.value]) else None
  }

  predicate IsLegacyMessage(db: Db, id: MessageId)
    requires id in db.messages
  {
    var m := db.messages[id];
    Pending(m)
    || (JoinedSession(db, m).Some? && JoinedSession(db, m).value.snapshot.legacy)
    || m.publicId == Some(LegacyPublicId(id))
  }

  predicate OwnershipMismatch(db: Db, m: Message)
  {
    JoinedSession(db, m).Some? && JoinedSession(db, m).value.user != m.user
  }

  predicate EventMismatch(db: Db, m: Message)
  {
    m.sessionId.Some?
    && m.event != (match JoinedSession(db, m) case Some(s) => s.event case None => None)
  }

  predicate Backfilled(id: MessageId, m: Message)
  {
    m.publicId == Some(LegacyPublicId(id)) && m.sessionId == Some(LegacySessionId(m))
  }

  predicate MetadataMismatch(u: Uuid, s: Session)
  {
    u != SessionUuid(s.user, s.event)
    || !(s.snapshot.legacy && s.snapshot.version == Some(LEGACY_BACKFILL_VERSION))
  }

  function LegacyMessages(db: Db): set<MessageId>
  {
    set id | id in db.messages && IsLegacyMessage(db, id)
  }

  function PublicIdMismatches(db: Db): set<MessageId>
  {
    set id | id in LegacyMessages(db) && db.messages[id].publicId.Some?
             && db.messages[id].publicId != Some(LegacyPublicId(id))
  }

  function SessionIdMismatches(db: Db): set<MessageId>
  {
    set id | id in LegacyMessages(db) && db.messages[id].sessionId.Some?
             && db.messages[id].sessionId != Some(LegacySessionId(db.messages[id]))
  }

  function OwnershipMismatches(db: Db): set<MessageId>
  {
    set id | id in LegacyMessages(db) && OwnershipMismatch(db, db.messages[id])
  }

  function EventMismatches(db: Db): set<MessageId>
  {
    set id | id in LegacyMessages(db) && EventMismatch(db, db.messages[id])
  }

  function BackfilledMessages(db: Db): set<MessageId>
  {
    set id | id in LegacyMessages(db) && Backfilled(id, db.messages[id])
  }

  function ExpectedSessionIds(db: Db): set<Uuid>
  {
    SessionIdsOf(db, LegacyMessages(db))
  }

  function LegacySessions(db: Db): set<Uuid>
  {
    set u | u in db.sessions && db.sessions[u].snapshot.legacy
  }

  function MetadataMismatches(db: Db): set<Uuid>
  {
    set u | u in LegacySessions(db) && MetadataMismatch(u, db.sessions[u])
  }

  datatype Scope = Scope(user: UserId, event: Option<EventId>)

  function ScopeOf(s: Session): Scope { Scope(s.user, s.event) }

  function LegacyScopes(db: Db): set<Scope>
  {
    set u | u in LegacySessions(db) :: ScopeOf(db.sessions[u])
  }

  lemma {:induction false} ScopesAtMostSessions(db: Db)
    ensures |LegacyScopes(db)| <= |LegacySessions(db)|
  {
    ImageAtMost(LegacySessions(db), db);
  }

  lemma {:induction false} ImageAtMost(us: set<Uuid>, db: Db)
    requires us <= db.sessions.Keys
    ensures |set u | u in us :: ScopeOf(db.sessions[u])| <= |us|
    decreases |us|
  {
    if us != {} {
      var u :| u in us;
      ImageAtMost(us - {u}, db);
      var image := set v | v in us :: ScopeOf(db.sessions[v]);
      var rest := set v | v in us - {u} :: ScopeOf(db.sessions[v]);
      assert image == rest + {ScopeOf(db.sessions[u])} by {
        forall sc | sc in image ensures sc in rest + {ScopeOf(db.sessions[u])} {
          var v :| v in us && sc == ScopeOf(db.sessions[v]);
          assert v == u || v in us - {u};
        }
      }
    }
  }

  function OrphanSessions(db: Db): set<Uuid>
  {
    set u | u in LegacySessions(db) && u !in ExpectedSessionIds(db)
  }

  /** The drift counter: mismatches, duplicates and orphans together. */
  function DriftOf(db: Db): nat
  {
    ScopesAtMostSessions(db);
    |PublicIdMismatches(db)| + |SessionIdMismatches(db)| + |OwnershipMismatches(db)| + |EventMismatches(db)|
    + |MetadataMismatches(db)| + (|LegacySessions(db)| - |LegacyScopes(db)|) + |OrphanSessions(db)|
  }

  function Verify(db: Db): Verification
  {
    ScopesAtMostSessions(db);
    Verification(
      |LegacyMessages(db)|,
      |BackfilledMessages(db)|,
      |AllPending(db)|,
      |ExpectedSessionIds(db)|,
      |LegacySessions(db)|,
      |PublicIdMismatches(db)|,
      |SessionIdMismatches(db)|,
      |OwnershipMismatches(db)|,
      |EventMismatches(db)|,
      |MetadataMismatches(db)|,
      |LegacySessions(db)| - |LegacyScopes(db)|,
      |OrphanSessions(db)|,
      DriftOf(db),
      AllPending(db) == {} && DriftOf(db) == 0)
  }

  // ----- preview ------------------------------------------------------------

  datatype Preview = Preview(
    legacyMessages: nat, pending: nat, expectedSessions: nat, existingLegacySessions: nat, sessionsToCreate: nat)

  function PreviewOf(db: Db): Preview
  {
    Preview(|LegacyMessages(db)|, |AllPending(db)|, |ExpectedSessionIds(db)|, |LegacySessions(db)|,
            |ExpectedSessionIds(db) - LegacySessions(db)|)
  }

  // ----- one run --------------------------------------------------------------

  datatype RunRequest = RunRequest(batchSize: int, maxBatches: Option<int>, after: int)

  predicate ValidRequest(p: RunRequest)
  {
    1 <= p.batchSize <= MAX_BATCH_SIZE
    && (p.maxBatches.Some? ==> p.maxBatches.value >= 1)
    && p.after >= 0
  }

  /** The committed part of a run: a drift error rolls back its own batch only. */
  datatype Progress = Progress(
    db: Db, batches: nat, updated: nat, created: nat, last: Option<MessageId>, raised: bool)

  lemma {:induction false} PendingAboveBatch(db: Db, ids: set<MessageId>, after: int)
    requires ids <= db.messages.Keys && ids !! PendingAfter(db, after)
    ensures PendingAfter(ApplyBatch(db, ids), after) == PendingAfter(db, after)
  {
  }

  lemma {:induction false} BatchShrinksPending(db: Db, after: int, limit: nat)
    requires SelectBatch(db, after, limit) != []
    ensures var rows := SelectBatch(db, after, limit);
            var next := rows[|rows| - 1];
            && RowSet(rows) <= db.messages.Keys
            && var db' := ApplyBatch(db, RowSet(rows));
            && PendingAfter(db', next) == PendingAfter(db, after) - RowSet(rows)
            && |PendingAfter(db', next)| == |PendingAfter(db, after)| - |rows|
  {
    SelectedBatch(db, after, limit);
    var rows := SelectBatch(db, after, limit);
    PendingAboveBatch(db, RowSet(rows), rows[|rows| - 1]);
    RemainderCardinality(PendingAfter(db, after), RowSet(rows));
  }

  /** One turn of the batch loop. */
  datatype Turn =
    | NoRows
    | RolledBack
    | Batch(db: Db, last: MessageId, updated: nat, created: nat)

  function BatchIds(db: Db, after: int, size: nat): set<MessageId>
  {
    RowSet(SelectBatch(db, after, size))
  }

  function NextTurn(db: Db, after: int, size: nat): Turn
  {
    var rows := SelectBatch(db, after, size);
    if rows == [] then NoRows
    else
      SelectedBatch(db, after, size);
      match BatchStep(db, RowSet(rows))
      case DriftError => RolledBack
      case Committed(next, updated, created) => Batch(next, rows[|rows| - 1], updated, created)
  }

  lemma {:induction false} TurnFacts(db: Db, after: int, size: nat)
    ensures BatchIds(db, after, size) <= PendingAfter(db, after) <= AllPending(db) <= db.messages.Keys
    ensures var turn := NextTurn(db, after, size);
            && (size >= 1 ==> (turn.NoRows? <==> PendingAfter(db, after) == {}))
            && (turn.RolledBack? ==> exists id :: id in BatchIds(db, after, size) && !Compatible(db, id))
            && (turn.Batch? ==>
                  && (forall id :: id in BatchIds(db, after, size) ==> Compatible(db, id))
                  && turn.db == ApplyBatch(db, BatchIds(db, after, size))
                  && turn.updated == |BatchIds(db, after, size)| > 0
                  && turn.created == |MissingSessions(db, BatchIds(db, after, size))|
                  && PendingAfter(turn.db, turn.last) == PendingAfter(db, after) - BatchIds(db, after, size))
  {
    SelectedBatch(db, after, size);
    if SelectBatch(db, after, size) != [] {
      BatchShrinksPending(db, after, size);
    }
  }

  lemma {:induction false} TurnShrinksPending(db: Db, after: int, size: nat)
    requires NextTurn(db, after, size).Batch?
    ensures var turn := NextTurn(db, after, size);
            |PendingAfter(turn.db, turn.last)| == |PendingAfter(db, after)| - turn.updated < |PendingAfter(db, after)|
  {
    hide NextTurn, BatchIds, PendingAfter, ApplyBatch, Compatible, AllPending, MissingSessions;
    TurnFacts(db, after, size);
    RemainderCardinality(PendingAfter(db, after), BatchIds(db, after, size));
  }

  function OneFewer(left: Option<int>): Option<int>
  {
    if left.Some? then Some(left.value - 1) else None
  }

  function RunBatches(db: Db, batchSize: nat, left: Option<int>, after: int): (r: Progress)
    requires left.Some? ==> left.value >= 0
    decreases |PendingAfter(db, after)|
  {
    if left.Some? && left.value == 0 then Progress(db, 0, 0, 0, None, false)
    else
      match NextTurn(db, after, batchSize)
      case NoRows => Progress(db, 0, 0, 0, None, false)
      case RolledBack => Progress(db, 0, 0, 0, None, true)
      case Batch(next, last, updated, created) =>
        TurnShrinksPending(db, after, batchSize);
        var rest := RunBatches(next, batchSize, OneFewer(left), last);
        Progress(rest.db, rest.batches + 1, rest.updated + updated, rest.created + created,
                 if rest.last.Some? then rest.last else Some(last), rest.raised)
  }

  datatype Status = Complete | Partial | Failed

  datatype RunOutcome =
    | Returned(db: Db, status: Status, batches: nat, updated: nat, created: nat,
               last: Option<MessageId>, verification: Verification)
    | Raised(db: Db)
    | InvalidRequest(db: Db)

  function StatusOf(v: Verification): Status
  {
    if v.drift != 0 then Failed else if v.pending != 0 then Partial else Complete
  }

  function Run(db: Db, p: RunRequest): RunOutcome
  {
    if !ValidRequest(p) then InvalidRequest(db)
    else
      var progress := RunBatches(db, p.batchSize, p.maxBatches, p.after);
      if progress.raised then Raised(progress.db)
      else
        var final := ReconcileTimestamps(progress.db);
        Returned(final, StatusOf(Verify(final)), progress.batches, progress.updated, progress.created,
                 progress.last, Verify(final))
  }

  /** The tables after a series of runs, whatever each of them did. */
  function AfterRuns(db: Db, runs: seq<RunRequest>): Db
    decreases |runs|
  {
    if runs == [] then db else AfterRuns(Run(db, runs[0]).db, runs[1..])
  }
}
