/** The backfill engine in its own form: two mutable tables and the methods
    that rewrite them, each tied to the value-level model. A SQL statement is
    one assignment of a whole table; a raise rolls its transaction back. */
module LegacyBackfillStore {
  import opened Foundations
  import opened LegacyBackfill
  import opened LegacyBackfillCounters
  import opened LegacyBackfillOutcome

  /** `grouped` maps every legacy session id of the batch to the batch rows in its scope. */
  ghost predicate Groups(db: Db, grouped: map<Uuid, seq<MessageId>>, ids: set<MessageId>)
    requires ids <= db.messages.Keys
  {
    && grouped.Keys == SessionIdsOf(db, ids)
    && (forall u :: u in grouped ==> RowSet(grouped[u]) == RowsOf(db, ids, u))
  }

  lemma {:induction false} GroupsOneMore(db: Db, grouped: map<Uuid, seq<MessageId>>, ids: set<MessageId>, id: MessageId)
    requires ids <= db.messages.Keys && id in db.messages
    requires Groups(db, grouped, ids)
    ensures var u := LegacySessionId(db.messages[id]);
            Groups(db, grouped[u := (if u in grouped then grouped[u] else []) + [id]], ids + {id})
  {
    var u := LegacySessionId(db.messages[id]);
    var more := grouped[u := (if u in grouped then grouped[u] else []) + [id]];
    assert SessionIdsOf(db, ids + {id}) == SessionIdsOf(db, ids) + {u} by {
      forall v | v in SessionIdsOf(db, ids + {id})
        ensures v in SessionIdsOf(db, ids) + {u}
      {
        var r :| r in ids + {id} && LegacySessionId(db.messages[r]) == v;
        assert r in ids || r == id;
      }
    }
    forall v | v in more
      ensures RowSet(more[v]) == RowsOf(db, ids + {id}, v)
    {
      if v == u {
        assert forall r :: r in ids ==> LegacySessionId(db.messages[r]) in SessionIdsOf(db, ids);
        assert u !in grouped ==> RowsOf(db, ids, u) == {};
        assert RowsOf(db, ids + {id}, u) == RowsOf(db, ids, u) + {id};
        assert RowSet(more[u]) == RowSet(if u in grouped then grouped[u] else []) + {id};
      } else {
        assert RowsOf(db, ids + {id}, v) == RowsOf(db, ids, v);
      }
    }
  }

  /** A session row agrees with the owner and event its identifier stands for. */
  predicate RowAgrees(sessions: map<Uuid, Session>, u: Uuid)
    requires u in sessions
  {
    u.SessionUuid? && SessionAgrees(sessions[u], u.user, u.event)
  }

  ghost predicate SessionsAgree(db: Db, ids: set<MessageId>)
    requires ids <= db.messages.Keys
  {
    forall u :: u in SessionIdsOf(db, ids) && u in db.sessions ==> RowAgrees(db.sessions, u)
  }

  ghost predicate IdentitiesAgree(db: Db, ids: set<MessageId>)
    requires ids <= db.messages.Keys
  {
    forall id :: id in ids ==> IdentityAgrees(id, db.messages[id])
  }

  /** The two checks of a batch together are the compatibility of its rows. */
  lemma {:induction false} ChecksAreCompatibility(db: Db, ids: set<MessageId>)
    requires ids <= db.messages.Keys
    ensures (SessionsAgree(db, ids) && IdentitiesAgree(db, ids)) <==> (forall id :: id in ids ==> Compatible(db, id))
  {
    hide SessionAgrees, IdentityAgrees;
    if forall id :: id in ids ==> Compatible(db, id) {
      forall u | u in SessionIdsOf(db, ids) && u in db.sessions
        ensures RowAgrees(db.sessions, u)
      {
        var id :| id in ids && LegacySessionId(db.messages[id]) == u;
        assert Compatible(db, id);
      }
    }
    if SessionsAgree(db, ids) && IdentitiesAgree(db, ids) {
      forall id | id in ids
        ensures Compatible(db, id)
      {
        assert LegacySessionId(db.messages[id]) in SessionIdsOf(db, ids);
      }
    }
  }

  lemma {:induction false} StepFromChecks(db: Db, ids: set<MessageId>)
    requires ids <= db.messages.Keys
    ensures SessionsAgree(db, ids) && IdentitiesAgree(db, ids) ==>
      BatchStep(db, ids) == Committed(Db(ApplyBatch(db, ids).messages, db.sessions + MissingSessions(db, ids)),
                                      |ids|, |MissingSessions(db, ids)|)
    ensures !(SessionsAgree(db, ids) && IdentitiesAgree(db, ids)) ==> BatchStep(db, ids) == DriftError
  {
    ChecksAreCompatibility(db, ids);
    hide SessionsAgree, IdentitiesAgree, Compatible, MissingSessions, Assign;
  }

  /** The turn of the batch loop, seen from the rows it selects. */
  lemma {:induction false} TurnOfRows(db: Db, after: int, size: nat)
    ensures var rows := SelectBatch(db, after, size);
            && RowSet(rows) <= db.messages.Keys && |RowSet(rows)| == |rows|
            && (rows == [] ==> NextTurn(db, after, size) == NoRows)
            && (rows != [] ==>
                  match BatchStep(db, RowSet(rows))
                  case DriftError => NextTurn(db, after, size) == RolledBack
                  case Committed(next, u, c) => NextTurn(db, after, size) == Batch(next, rows[|rows| - 1], u, c))
  {
    SelectedBatch(db, after, size);
    hide BatchStep, SelectBatch;
  }

  /** The counters of a finished part of a run followed by the rest of it. */
  function Continue(done: Progress, rest: Progress): Progress
  {
    Progress(rest.db, done.batches + rest.batches, done.updated + rest.updated, done.created + rest.created,
             if rest.last.Some? then rest.last else done.last, rest.raised)
  }

  /** The counters after one more committed batch. */
  function Advance(done: Progress, turn: Turn): Progress
    requires turn.Batch?
  {
    Progress(turn.db, done.batches + 1, done.updated + turn.updated, done.created + turn.created,
             Some(turn.last), false)
  }

  lemma {:induction false} AdvanceDb(done: Progress, turn: Turn)
    requires turn.Batch?
    ensures Advance(done, turn).db == turn.db && !Advance(done, turn).raised
  {
  }

  predicate Exhausted(left: Option<int>) { left.Some? && left.value == 0 }

  /** One turn of the loop keeps the outcome of the whole run. */
  lemma {:induction false} LoopTurn(done: Progress, size: nat, left: Option<int>, after: int)
    requires (left.Some? ==> left.value >= 0) && !done.raised
    ensures var whole := Continue(done, RunBatches(done.db, size, left, after));
            var turn := NextTurn(done.db, after, size);
            && (Exhausted(left) || turn.NoRows? ==> whole == done)
            && (!Exhausted(left) && turn.RolledBack? ==> whole == done.(raised := true))
            && (!Exhausted(left) && turn.Batch? ==>
                  && |PendingAfter(turn.db, turn.last)| < |PendingAfter(done.db, after)|
                  && whole == Continue(Advance(done, turn), RunBatches(turn.db, size, OneFewer(left), turn.last)))
  {
    hide NextTurn, PendingAfter;
    if NextTurn(done.db, after, size).Batch? {
      TurnShrinksPending(done.db, after, size);
    }
  }

  class Store {
    var messages: map<MessageId, Message>
    var sessions: map<Uuid, Session>

    function Tables(): Db
      reads this
    {
      Db(messages, sessions)
    }

    constructor (db: Db)
      ensures Tables() == db
    {
      messages, sessions := db.messages, db.sessions;
    }

    /** One candidate session per scope, with the bounds of the batch's own rows. */
    method CandidateSessions(grouped: map<Uuid, seq<MessageId>>, ghost ids: set<MessageId>)
      returns (batch: map<Uuid, Session>)
      requires ids <= messages.Keys && Groups(Tables(), grouped, ids)
      ensures batch.Keys == SessionIdsOf(Tables(), ids)
      ensures forall u :: u in batch ==> batch[u] == SessionFor(Tables(), ids, u)
    {
      var scopes := grouped.Keys;
      batch := map[];
      while scopes != {}
        invariant scopes <= grouped.Keys && batch.Keys == grouped.Keys - scopes
        invariant forall u :: u in batch ==> batch[u] == SessionFor(Tables(), ids, u)
        decreases |scopes|
      {
        var u :| u in scopes;
        RowsOfNonempty(Tables(), ids, u);
        var timestamps := set id | id in RowSet(grouped[u]) :: messages[id].createdAt;
        assert timestamps == Times(Tables(), RowsOf(Tables(), ids, u));
        batch := batch[u := NewSession(u.user, u.event, Least(timestamps), Greatest(timestamps))];
        scopes := scopes - {u};
      }
    }

    /** `insert ... on conflict (id) do nothing returning id`: the candidates
        with a free identifier are added as they are, every session that was
        there stays as it was, and the returned ids are those by which the table
        grew. */
    method InsertSessions(batch: map<Uuid, Session>) returns (inserted: set<Uuid>)
      modifies this`sessions
      ensures Inserts(old(sessions), batch, sessions, inserted)
    {
      inserted := set u | u in batch && u !in sessions;
      hide Inserts;
      InsertEffect(sessions, batch, inserted);
      sessions := sessions + map u | u in inserted :: batch[u];
    }

    /** Joins the batch with the session table and counts the rows that disagree. */
    method SessionsDisagree(batch: set<Uuid>) returns (drift: bool)
      requires batch <= sessions.Keys
      ensures drift <==> !forall u :: u in batch ==> RowAgrees(sessions, u)
    {
      var found := set u | u in batch && u in sessions;
      assert found == batch;
      var mismatched := set u | u in found && !RowAgrees(sessions, u);
      assert forall u :: u in batch ==> (u in mismatched <==> !RowAgrees(sessions, u));
      assert mismatched == {} || exists u :: u in mismatched;
      drift := |found| != |batch| || |mismatched| != 0;
    }

    /** Inserts the missing sessions of a batch, then re-reads all of them. */
    method EnsureSessions(grouped: map<Uuid, seq<MessageId>>, ghost ids: set<MessageId>)
      returns (created: nat, drift: bool)
      requires ids <= messages.Keys && Groups(Tables(), grouped, ids)
      modifies this`sessions
      ensures sessions == old(sessions + MissingSessions(Tables(), ids))
      ensures created == old(|MissingSessions(Tables(), ids)|)
      ensures drift <==> !old(SessionsAgree(Tables(), ids))
    {
      ghost var before := Tables();
      var batch := CandidateSessions(grouped, ids);
      hide SessionFor, SessionIdsOf, SessionAgrees, SessionsAgree, Groups, MissingSessions, Inserts;
      var inserted := InsertSessions(batch);
      InsertedAreMissing(before, ids, batch, inserted, sessions);
      created := |inserted|;
      CheckAfterInsert(before, ids, sessions);
      drift := SessionsDisagree(batch.Keys);
    }

    /** Gives one batch its identities; on drift the caller rolls back. */
    method BackfillBatch(rows: seq<MessageId>) returns (updated: nat, created: nat, drift: bool)
      requires RowSet(rows) <= messages.Keys && |RowSet(rows)| == |rows|
      modifies this
      ensures match old(BatchStep(Tables(), RowSet(rows)))
              case DriftError => drift
              case Committed(db, u, c) => !drift && Tables() == db && updated == u && created == c
    {
      ghost var before := Tables();
      ghost var ids := RowSet(rows);
      StepFromChecks(before, ids);
      hide BatchStep, RowSet, Groups, SessionsAgree, IdentitiesAgree, IdentityAgrees;
      hide Assign, ApplyBatch, MissingSessions;
      var grouped := GroupRows(rows);
      updated := 0;
      created, drift := EnsureSessions(grouped, ids);
      if drift {
        return;
      }
      var matched := set id | id in RowSet(rows) && IdentityAgrees(id, messages[id]);
      messages := map id | id in messages :: if id in matched then Assign(id, messages[id]) else messages[id];
      updated := |matched|;
      drift := updated != |rows|;
      CheckAfterUpdate(before, ids, messages, matched);
    }

    /** `grouped.setdefault(scope, []).append(row)` over the batch. */
    method GroupRows(rows: seq<MessageId>) returns (grouped: map<Uuid, seq<MessageId>>)
      requires RowSet(rows) <= messages.Keys
      ensures Groups(Tables(), grouped, RowSet(rows))
    {
      grouped := map[];
      var i := 0;
      assert RowSet(rows[..0]) == {};
      while i < |rows|
        invariant 0 <= i <= |rows|
        invariant RowSet(rows[..i]) <= RowSet(rows)
        invariant Groups(Tables(), grouped, RowSet(rows[..i]))
      {
        var id := rows[i];
        assert id in RowSet(rows);
        var u := LegacySessionId(messages[id]);
        GroupsOneMore(Tables(), grouped, RowSet(rows[..i]), id);
        assert RowSet(rows[..i + 1]) == RowSet(rows[..i]) + {id};
        grouped := grouped[u := (if u in grouped then grouped[u] else []) + [id]];
        i := i + 1;
      }
      assert rows[..|rows|] == rows;
    }

    /** Every legacy session with messages takes its bounds from them, and nothing
        else changes. */
    method ReconcileSessionTimestamps()
      modifies this`sessions
      ensures Tables() == old(ReconcileTimestamps(Tables()))
      ensures forall u :: u in sessions <==> u in old(sessions)
      ensures forall u :: u in sessions ==>
        if sessions[u].snapshot.legacy && Linked(Tables(), u) != {}
        then BoundedBy(Tables(), Linked(Tables(), u), sessions[u]) && SameColumns(sessions[u], old(sessions)[u])
        else sessions[u] == old(sessions)[u]
    {
      ghost var before := Tables();
      BoundsRepaired(before);
      var stale := map u | u in sessions && Retimed(Tables(), u, sessions[u]) != sessions[u]
        :: Retimed(Tables(), u, sessions[u]);
      sessions := sessions + stale;
      assert sessions == ReconcileTimestamps(before).sessions;
    }

    /** One turn of the loop as one transaction: select, write, commit or roll back. */
    method BatchTransaction(after: int, size: nat) returns (turn: Turn)
      modifies this
      ensures turn == old(NextTurn(Tables(), after, size))
      ensures Tables() == if turn.Batch? then turn.db else old(Tables())
    {
      TurnOfRows(Tables(), after, size);
      hide NextTurn, SelectBatch, BatchStep, RowSet;
      var rows := SelectBatch(Tables(), after, size);
      if rows == [] {
        return NoRows;
      }
      var savedMessages, savedSessions := messages, sessions;
      var updated, created, drift := BackfillBatch(rows);
      if drift {
        messages, sessions := savedMessages, savedSessions;
        return RolledBack;
      }
      turn := Batch(Tables(), rows[|rows| - 1], updated, created);
    }

    method RunBatchLoop(batchSize: nat, maxBatches: Option<int>, start: int) returns (r: Progress)
      requires maxBatches.Some? ==> maxBatches.value >= 0
      modifies this
      ensures r == old(RunBatches(Tables(), batchSize, maxBatches, start)) && Tables() == r.db
    {
      var after, left := start, maxBatches;
      r := Progress(Tables(), 0, 0, 0, None, false);
      ghost var whole := RunBatches(Tables(), batchSize, maxBatches, start);
      hide RunBatches, NextTurn, PendingAfter, Advance;
      while !Exhausted(left)
        invariant left.Some? ==> left.value >= 0
        invariant Tables() == r.db && !r.raised
        invariant whole == Continue(r, RunBatches(r.db, batchSize, left, after))
        decreases |PendingAfter(r.db, after)|
      {
        LoopTurn(r, batchSize, left, after);
        var turn := BatchTransaction(after, batchSize);
        if !turn.Batch? {
          return if turn.NoRows? then r else r.(raised := true);
        }
        AdvanceDb(r, turn);
        r, left, after := Advance(r, turn), OneFewer(left), turn.last;
      }
      LoopTurn(r, batchSize, left, after);
    }

    method RunBackfill(p: RunRequest) returns (r: RunOutcome)
      modifies this
      ensures r == old(Run(Tables(), p)) && Tables() == r.db
    {
      if !ValidRequest(p) {
        return InvalidRequest(Tables());
      }
      hide RunBatches, LegacyBackfill.Verify, StatusOf, ReconcileTimestamps;
      var progress := RunBatchLoop(p.batchSize, p.maxBatches, p.after);
      if progress.raised {
        return Raised(Tables());
      }
      ReconcileSessionTimestamps();
      var verification := VerifyBackfill(Tables());
      r := Returned(Tables(), StatusOf(verification), progress.batches, progress.updated, progress.created,
                    progress.last, verification);
    }
  }

  lemma {:induction false} BoundsRepaired(db: Db)
    ensures var after := ReconcileTimestamps(db);
            && after.messages == db.messages && after.sessions.Keys == db.sessions.Keys
            && forall u :: u in db.sessions ==>
                 if after.sessions[u].snapshot.legacy && Linked(after, u) != {}
                 then BoundedBy(after, Linked(after, u), after.sessions[u])
                      && SameColumns(after.sessions[u], db.sessions[u])
                 else after.sessions[u] == db.sessions[u]
  {
    var after := ReconcileTimestamps(db);
    forall u | u in db.sessions
      ensures if after.sessions[u].snapshot.legacy && Linked(after, u) != {}
              then BoundedBy(after, Linked(after, u), after.sessions[u])
                   && SameColumns(after.sessions[u], db.sessions[u])
              else after.sessions[u] == db.sessions[u]
    {
      RepairSetsBounds(db, u);
      assert Linked(after, u) == Linked(db, u);
      hide Linked;
      BoundedAlike(db, after, Linked(db, u), after.sessions[u]);
      hide BoundedBy;
    }
  }

  /** All rows are matched exactly when no row carries a conflicting identity. */
  lemma {:induction false} CheckAfterUpdate(
    db: Db, ids: set<MessageId>, messages: map<MessageId, Message>, matched: set<MessageId>)
    requires ids <= db.messages.Keys
    requires matched == set id | id in ids && IdentityAgrees(id, db.messages[id])
    requires messages == map id | id in db.messages ::
      if id in matched then Assign(id, db.messages[id]) else db.messages[id]
    ensures |matched| == |ids| <==> IdentitiesAgree(db, ids)
    ensures |matched| == |ids| ==> messages == ApplyBatch(db, ids).messages
  {
    SubsetCardinality(matched, ids);
    hide IdentityAgrees, Assign;
    if |matched| != |ids| {
      assert matched != ids;
    }
  }

  /** The table after inserting candidates: all keys, no old row changed, and as
      many new rows as ids returned, each a candidate. */
  ghost predicate Inserts(
    before: map<Uuid, Session>, batch: map<Uuid, Session>, after: map<Uuid, Session>, inserted: set<Uuid>)
  {
    && (forall u :: u in after <==> u in before || u in batch)
    && (forall u :: u in before ==> after[u] == before[u])
    && (forall u :: u in inserted <==> u in after && u !in before)
    && (forall u :: u in inserted ==> u in batch && after[u] == batch[u])
    && |after| == |before| + |inserted|
  }

  lemma {:induction false} InsertEffect(before: map<Uuid, Session>, batch: map<Uuid, Session>, inserted: set<Uuid>)
    requires inserted == set u | u in batch && u !in before
    ensures Inserts(before, batch, before + (map u | u in inserted :: batch[u]), inserted)
  {
    InsertGrows(before, batch, inserted);
  }

  lemma {:induction false} InsertGrows(before: map<Uuid, Session>, batch: map<Uuid, Session>, inserted: set<Uuid>)
    requires inserted <= batch.Keys && before.Keys !! inserted
    ensures |before + (map u | u in inserted :: batch[u])| == |before| + |inserted|
  {
    var rows := map u | u in inserted :: batch[u];
    var keys := (before + rows).Keys;
    assert keys == before.Keys + inserted;
    DisjointCardinality(before.Keys, inserted);
  }

  /** What insertion leaves is the old table with the new candidates. */
  lemma {:induction false} InsertsExactly(
    before: map<Uuid, Session>, batch: map<Uuid, Session>, after: map<Uuid, Session>, inserted: set<Uuid>)
    requires Inserts(before, batch, after, inserted)
    ensures after == before + (map u | u in batch && u !in before :: batch[u])
    ensures |inserted| == |map u | u in batch && u !in before :: batch[u]|
  {
    var rows := map u | u in batch && u !in before :: batch[u];
    assert rows.Keys == inserted;
  }

  lemma {:induction false} CandidatesMissing(db: Db, ids: set<MessageId>, batch: map<Uuid, Session>)
    requires ids <= db.messages.Keys && batch.Keys == SessionIdsOf(db, ids)
    requires forall u :: u in batch ==> batch[u] == SessionFor(db, ids, u)
    ensures (map u | u in batch && u !in db.sessions :: batch[u]) == MissingSessions(db, ids)
  {
  }

  lemma {:induction false} InsertedAreMissing(
    db: Db, ids: set<MessageId>, batch: map<Uuid, Session>, inserted: set<Uuid>, sessions: map<Uuid, Session>)
    requires ids <= db.messages.Keys && batch.Keys == SessionIdsOf(db, ids)
    requires forall u :: u in batch ==> batch[u] == SessionFor(db, ids, u)
    requires Inserts(db.sessions, batch, sessions, inserted)
    ensures sessions == db.sessions + MissingSessions(db, ids)
    ensures |inserted| == |MissingSessions(db, ids)|
  {
    hide Inserts, MissingSessions;
    CandidatesMissing(db, ids, batch);
    InsertsExactly(db.sessions, batch, sessions, inserted);
  }

  /** Inserted sessions agree with their batch, so only sessions that were
      already there can fail the re-read. */
  lemma {:induction false} CheckAfterInsert(db: Db, ids: set<MessageId>, sessions: map<Uuid, Session>)
    requires ids <= db.messages.Keys
    requires sessions == db.sessions + MissingSessions(db, ids)
    ensures SessionIdsOf(db, ids) <= sessions.Keys
    ensures SessionsAgree(db, ids) <==> forall u :: u in SessionIdsOf(db, ids) ==> RowAgrees(sessions, u)
  {
    forall u | u in SessionIdsOf(db, ids) && u !in db.sessions
      ensures RowAgrees(sessions, u)
    {
      assert sessions[u] == SessionFor(db, ids, u);
    }
  }
}
