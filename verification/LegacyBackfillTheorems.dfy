/** What the batched, resumable backfill guarantees over every series of runs. */
module LegacyBackfillTheorems {
  import opened Foundations
  import opened LegacyBackfill

  // ----- every committed step keeps the one-shot result ------------------

  predicate SameButTimes(s: Session, t: Session)
  {
    s.(createdAt := t.createdAt, updatedAt := t.updatedAt, lastMessageAt := t.lastMessageAt) == t
  }

  /** Timestamp repair forgets whatever bounds a legacy session with messages had. */
  lemma {:induction false} RetimedForgetsTimes(a: Db, b: Db, u: Uuid, s: Session, t: Session)
    requires a.messages == b.messages
    requires s == t || (SameButTimes(s, t) && s.snapshot.legacy && MessagesIn(a, u) != {})
    ensures Retimed(a, u, s) == Retimed(b, u, t)
  {
    assert MessagesIn(a, u) == MessagesIn(b, u);
    assert Times(a, MessagesIn(a, u)) == Times(b, MessagesIn(b, u));
  }

  lemma {:induction false} PendingAfterBatch(db: Db, ids: set<MessageId>)
    requires ids <= AllPending(db)
    ensures AllPending(ApplyBatch(db, ids)) == AllPending(db) - ids
  {
  }

  lemma {:induction false} BatchThenRestMessages(db: Db, ids: set<MessageId>)
    requires ids <= AllPending(db)
    ensures Completed(ApplyBatch(db, ids)).messages == Completed(db).messages
  {
    PendingAfterBatch(db, ids);
  }

  lemma {:induction false} BatchThenRestKeys(db: Db, ids: set<MessageId>)
    requires ids <= AllPending(db)
    ensures Completed(ApplyBatch(db, ids)).sessions.Keys == Completed(db).sessions.Keys
  {
    var one := ApplyBatch(db, ids);
    var all := AllPending(db);
    PendingAfterBatch(db, ids);
    assert SessionIdsOf(one, all - ids) == SessionIdsOf(db, all - ids);
    assert SessionIdsOf(db, all) == SessionIdsOf(db, ids) + SessionIdsOf(db, all - ids) by {
      forall u | u in SessionIdsOf(db, all)
        ensures u in SessionIdsOf(db, ids) + SessionIdsOf(db, all - ids)
      {
        var id :| id in all && LegacySessionId(db.messages[id]) == u;
        assert id in ids || id in all - ids;
      }
    }
  }

  /** A session that a compatible batch inserts has a message once all rows are assigned. */
  lemma {:induction false} InsertedSessionHasMessage(db: Db, ids: set<MessageId>, u: Uuid)
    requires ids <= AllPending(db)
    requires forall id :: id in ids ==> Compatible(db, id)
    requires u in SessionIdsOf(db, ids)
    ensures MessagesIn(Completed(db), u) != {}
  {
    var id :| id in ids && LegacySessionId(db.messages[id]) == u;
    assert Compatible(db, id);
    assert id in MessagesIn(Completed(db), u);
  }

  /** A session the batch inserts keeps only the bounds of its own batch ... */
  lemma {:induction false} SessionOfTheBatch(db: Db, ids: set<MessageId>, u: Uuid)
    requires ids <= AllPending(db)
    requires u in SessionIdsOf(db, ids) && u !in db.sessions
    ensures u in Completed(ApplyBatch(db, ids)).sessions && u in Completed(db).sessions
    ensures SameButTimes(Completed(ApplyBatch(db, ids)).sessions[u], Completed(db).sessions[u])
    ensures Completed(db).sessions[u].snapshot.legacy
  {
    BatchThenRestKeys(db, ids);
    assert u in ApplyBatch(db, ids).sessions;
    assert u in SessionIdsOf(db, AllPending(db));
  }

  lemma {:induction false} SameSessionFor(db: Db, ids: set<MessageId>, all: set<MessageId>, u: Uuid)
    requires ids <= all <= db.messages.Keys
    requires u in SessionIdsOf(db, all) && u !in SessionIdsOf(db, ids)
    ensures all - ids <= ApplyBatch(db, ids).messages.Keys
    ensures u in SessionIdsOf(ApplyBatch(db, ids), all - ids)
    ensures SessionFor(ApplyBatch(db, ids), all - ids, u) == SessionFor(db, all, u)
  {
    var one := ApplyBatch(db, ids);
    var id :| id in all && LegacySessionId(db.messages[id]) == u;
    assert id in all - ids && LegacySessionId(one.messages[id]) == u;
    assert forall r :: r in ids ==> LegacySessionId(db.messages[r]) != u;
    assert RowsOf(one, all - ids, u) == RowsOf(db, all, u);
    assert Times(one, RowsOf(one, all - ids, u)) == Times(db, RowsOf(db, all, u));
  }

  /** ... and a session of the remaining rows is untouched by the batch. */
  lemma {:induction false} SessionOfTheRest(db: Db, ids: set<MessageId>, u: Uuid)
    requires ids <= AllPending(db)
    requires u in SessionIdsOf(db, AllPending(db)) && u !in SessionIdsOf(db, ids) && u !in db.sessions
    ensures u in Completed(ApplyBatch(db, ids)).sessions && u in Completed(db).sessions
    ensures Completed(ApplyBatch(db, ids)).sessions[u] == Completed(db).sessions[u]
  {
    var one, rest := ApplyBatch(db, ids), AllPending(db) - ids;
    BatchThenRestKeys(db, ids);
    PendingAfterBatch(db, ids);
    SameSessionFor(db, ids, AllPending(db), u);
    hide SessionIdsOf, SessionFor, AllPending;
    assert u in MissingSessions(one, rest);
    assert u in MissingSessions(db, AllPending(db));
  }

  lemma {:induction false} SessionAlreadyThere(db: Db, ids: set<MessageId>, u: Uuid)
    requires ids <= AllPending(db)
    requires u in db.sessions
    ensures u in Completed(ApplyBatch(db, ids)).sessions && u in Completed(db).sessions
    ensures Completed(ApplyBatch(db, ids)).sessions[u] == Completed(db).sessions[u]
  {
  }

  lemma {:induction false} SplitSession(db: Db, ids: set<MessageId>, u: Uuid)
    requires ids <= AllPending(db)
    requires forall id :: id in ids ==> Compatible(db, id)
    requires u in Completed(db).sessions
    ensures u in Completed(ApplyBatch(db, ids)).sessions
    ensures var s, t := Completed(ApplyBatch(db, ids)).sessions[u], Completed(db).sessions[u];
            s == t || (SameButTimes(s, t) && s.snapshot.legacy && MessagesIn(Completed(db), u) != {})
  {
    if u in db.sessions {
      SessionAlreadyThere(db, ids, u);
    } else if u in SessionIdsOf(db, ids) {
      SessionOfTheBatch(db, ids, u);
      InsertedSessionHasMessage(db, ids, u);
    } else {
      assert u in SessionIdsOf(db, AllPending(db));
      SessionOfTheRest(db, ids, u);
    }
  }

  /** Splitting the pending rows gives the same sessions up to bounds that
      the timestamp repair overwrites. */
  lemma {:induction false} BatchThenRestSession(db: Db, ids: set<MessageId>, u: Uuid)
    requires ids <= AllPending(db)
    requires forall id :: id in ids ==> Compatible(db, id)
    requires u in Completed(db).sessions
    ensures u in Completed(ApplyBatch(db, ids)).sessions
    ensures Retimed(Completed(ApplyBatch(db, ids)), u, Completed(ApplyBatch(db, ids)).sessions[u])
            == Retimed(Completed(db), u, Completed(db).sessions[u])
  {
    BatchThenRestMessages(db, ids);
    SplitSession(db, ids, u);
    hide *;
    var split, whole := Completed(ApplyBatch(db, ids)), Completed(db);
    SameMessagesIn(split, whole, u);
    RetimedForgetsTimes(split, whole, u, split.sessions[u], whole.sessions[u]);
  }

  lemma {:induction false} SameMessagesIn(a: Db, b: Db, u: Uuid)
    requires a.messages == b.messages
    ensures MessagesIn(a, u) == MessagesIn(b, u)
  {
  }

  lemma {:induction false} SameRepair(a: Db, b: Db)
    requires a.messages == b.messages && a.sessions.Keys == b.sessions.Keys
    requires forall u :: u in a.sessions ==> Retimed(a, u, a.sessions[u]) == Retimed(b, u, b.sessions[u])
    ensures ReconcileTimestamps(a) == ReconcileTimestamps(b)
  {
    assert ReconcileTimestamps(a).sessions == ReconcileTimestamps(b).sessions;
  }

  lemma {:induction false} BatchKeepsOneShot(db: Db, ids: set<MessageId>)
    requires ids <= AllPending(db)
    requires forall id :: id in ids ==> Compatible(db, id)
    ensures OneShot(ApplyBatch(db, ids)) == OneShot(db)
  {
    var split, whole := Completed(ApplyBatch(db, ids)), Completed(db);
    BatchThenRestMessages(db, ids);
    BatchThenRestKeys(db, ids);
    forall u | u in split.sessions
      ensures Retimed(split, u, split.sessions[u]) == Retimed(whole, u, whole.sessions[u])
    {
      BatchThenRestSession(db, ids, u);
    }
    SameRepair(split, whole);
  }

  lemma {:induction false} RepairKeepsOneShot(db: Db)
    ensures OneShot(ReconcileTimestamps(db)) == OneShot(db)
  {
    var repaired := ReconcileTimestamps(db);
    var all := AllPending(db);
    assert AllPending(repaired) == all;
    var a, b := Completed(repaired), Completed(db);
    assert a.messages == b.messages;
    assert SessionIdsOf(repaired, all) == SessionIdsOf(db, all);
    assert a.sessions.Keys == b.sessions.Keys;
    forall u | u in b.sessions
      ensures Retimed(a, u, a.sessions[u]) == Retimed(b, u, b.sessions[u])
    {
      if u in db.sessions {
        if MessagesIn(db, u) != {} {
          var id := Least(MessagesIn(db, u));
          assert id in MessagesIn(a, u);
        }
        RetimedForgetsTimes(a, b, u, a.sessions[u], b.sessions[u]);
      } else {
        assert RowsOf(repaired, all, u) == RowsOf(db, all, u);
        assert Times(repaired, RowsOf(db, all, u)) == Times(db, RowsOf(db, all, u));
        RetimedForgetsTimes(a, b, u, a.sessions[u], b.sessions[u]);
      }
    }
    SameRepair(a, b);
  }

  lemma {:induction false} TurnKeepsOneShot(db: Db, after: int, size: nat)
    requires NextTurn(db, after, size).Batch?
    ensures OneShot(NextTurn(db, after, size).db) == OneShot(db)
  {
    TurnFacts(db, after, size);
    BatchKeepsOneShot(db, BatchIds(db, after, size));
  }

  lemma {:induction false} BatchesKeepOneShot(db: Db, size: nat, left: Option<int>, after: int)
    requires left.Some? ==> left.value >= 0
    ensures OneShot(RunBatches(db, size, left, after).db) == OneShot(db)
    decreases |PendingAfter(db, after)|
  {
    hide OneShot, NextTurn;
    var turn := NextTurn(db, after, size);
    if !(left.Some? && left.value == 0) && turn.Batch? {
      TurnShrinksPending(db, after, size);
      TurnKeepsOneShot(db, after, size);
      BatchesKeepOneShot(turn.db, size, OneFewer(left), turn.last);
    }
  }

  lemma {:induction false} RunKeepsOneShot(db: Db, p: RunRequest)
    ensures OneShot(Run(db, p).db) == OneShot(db)
  {
    if ValidRequest(p) {
      BatchesKeepOneShot(db, p.batchSize, p.maxBatches, p.after);
      RepairKeepsOneShot(RunBatches(db, p.batchSize, p.maxBatches, p.after).db);
    }
  }

  /** Any series of runs, whatever their batch sizes, limits and cursors, and
      whether they return, raise or are refused, keeps the one-shot result. */
  lemma {:induction false} RunsKeepOneShot(db: Db, runs: seq<RunRequest>)
    ensures OneShot(AfterRuns(db, runs)) == OneShot(db)
    decreases |runs|
  {
    if runs != [] {
      RunKeepsOneShot(db, runs[0]);
      RunsKeepOneShot(Run(db, runs[0]).db, runs[1..]);
    }
  }

  lemma {:induction false} RepairIdempotent(db: Db)
    ensures ReconcileTimestamps(ReconcileTimestamps(db)) == ReconcileTimestamps(db)
  {
    var r := ReconcileTimestamps(db);
    forall u | u in db.sessions
      ensures Retimed(r, u, r.sessions[u]) == r.sessions[u]
    {
      if db.sessions[u].snapshot.legacy && MessagesIn(db, u) != {} {
        RetimedForgetsTimes(r, db, u, r.sessions[u], db.sessions[u]);
      }
    }
    assert ReconcileTimestamps(r).sessions == r.sessions;
  }

  lemma {:induction false} NothingPendingIsSettled(db: Db)
    requires AllPending(db) == {}
    ensures OneShot(ReconcileTimestamps(db)) == ReconcileTimestamps(db)
  {
    var r := ReconcileTimestamps(db);
    assert AllPending(r) == {};
    assert ApplyBatch(r, {}).messages == r.messages;
    assert MissingSessions(r, {}) == map[];
    assert ApplyBatch(r, {}) == r;
    RepairIdempotent(db);
  }

  /** Refinement: if the last run returns normally and leaves no pending row,
      then the tables are exactly the one-shot assignment of the first tables. */
  lemma {:induction false} RunsRefineOneShot(db: Db, runs: seq<RunRequest>, last: RunRequest)
    requires Run(AfterRuns(db, runs), last).Returned?
    requires AllPending(Run(AfterRuns(db, runs), last).db) == {}
    ensures Run(AfterRuns(db, runs), last).db == OneShot(db)
  {
    var before := AfterRuns(db, runs);
    RunsKeepOneShot(db, runs);
    RunKeepsOneShot(before, last);
    var committed := RunBatches(before, last.batchSize, last.maxBatches, last.after).db;
    assert AllPending(committed) == AllPending(ReconcileTimestamps(committed));
    NothingPendingIsSettled(committed);
  }

  /** ... and a further run selects nothing and changes nothing. */
  lemma {:induction false} FurtherRunChangesNothing(db: Db, p: RunRequest, again: RunRequest)
    requires Run(db, p).Returned? && AllPending(Run(db, p).db) == {}
    requires ValidRequest(again)
    ensures var settled := Run(db, p).db;
            Run(settled, again) ==
              Returned(settled, StatusOf(Verify(settled)), 0, 0, 0, None, Verify(settled))
  {
    var settled := Run(db, p).db;
    assert PendingAfter(settled, again.after) == {};
    assert SelectBatch(settled, again.after, again.batchSize) == [];
    RepairIdempotent(RunBatches(db, p.batchSize, p.maxBatches, p.after).db);
  }
}
