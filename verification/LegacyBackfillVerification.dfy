/** What a run reports: conservation of rows, the exact condition under which
    it raises, and the verification counters it ends with. */
module LegacyBackfillVerification {
  import opened Foundations
  import opened LegacyBackfill
  import opened LegacyBackfillTheorems

  // ----- nothing that is already there is overwritten ---------------------

  /** The only change a message row may undergo: null identities are filled in. */
  predicate OnlyFilled(before: Db, after: Db)
  {
    && after.messages.Keys == before.messages.Keys
    && (forall id :: id in before.messages ==>
          after.messages[id] in {before.messages[id], Assign(id, before.messages[id])})
    && before.sessions.Keys <= after.sessions.Keys
    && (forall u :: u in before.sessions ==> SameButTimes(after.sessions[u], before.sessions[u]))
  }

  lemma {:induction false} OnlyFilledTransitive(a: Db, b: Db, c: Db)
    requires OnlyFilled(a, b) && OnlyFilled(b, c)
    ensures OnlyFilled(a, c)
  {
  }

  lemma {:induction false} BatchOnlyFills(db: Db, ids: set<MessageId>)
    requires ids <= db.messages.Keys
    ensures OnlyFilled(db, ApplyBatch(db, ids))
  {
  }

  lemma {:induction false} TurnOnlyFills(db: Db, after: int, size: nat)
    requires NextTurn(db, after, size).Batch?
    ensures OnlyFilled(db, NextTurn(db, after, size).db)
  {
    TurnFacts(db, after, size);
    BatchOnlyFills(db, BatchIds(db, after, size));
    hide *;
  }

  lemma {:induction false} BatchesOnlyFill(db: Db, size: nat, left: Option<int>, after: int)
    requires left.Some? ==> left.value >= 0
    ensures OnlyFilled(db, RunBatches(db, size, left, after).db)
    decreases |PendingAfter(db, after)|
  {
    hide NextTurn, OnlyFilled;
    var turn := NextTurn(db, after, size);
    OnlyFilledReflexive(db);
    if !(left.Some? && left.value == 0) && turn.Batch? {
      TurnShrinksPending(db, after, size);
      TurnOnlyFills(db, after, size);
      var left' := OneFewer(left);
      BatchesOnlyFill(turn.db, size, left', turn.last);
      OnlyFilledTransitive(db, turn.db, RunBatches(turn.db, size, left', turn.last).db);
    }
  }

  lemma {:induction false} OnlyFilledReflexive(db: Db)
    ensures OnlyFilled(db, db)
  {
  }

  lemma {:induction false} RepairOnlyFills(db: Db)
    ensures OnlyFilled(db, ReconcileTimestamps(db))
  {
  }

  /** Over every series of runs no row appears or disappears, no column but a
      null identity of a message changes, and a session that was there keeps
      everything but its bounds. */
  lemma {:induction false} RunsOnlyFill(db: Db, runs: seq<RunRequest>)
    ensures OnlyFilled(db, AfterRuns(db, runs))
    decreases |runs|
  {
    if runs == [] {
      OnlyFilledReflexive(db);
    } else {
      var p := runs[0];
      OnlyFilledReflexive(db);
      if ValidRequest(p) {
        BatchesOnlyFill(db, p.batchSize, p.maxBatches, p.after);
        var committed := RunBatches(db, p.batchSize, p.maxBatches, p.after).db;
        RepairOnlyFills(committed);
        OnlyFilledTransitive(db, committed, ReconcileTimestamps(committed));
      }
      RunsOnlyFill(Run(db, p).db, runs[1..]);
      OnlyFilledTransitive(db, Run(db, p).db, AfterRuns(Run(db, p).db, runs[1..]));
    }
  }

  // ----- conservation -------------------------------------------------------

  lemma {:induction false} BatchConserves(db: Db, ids: set<MessageId>)
    requires ids <= AllPending(db)
    ensures |AllPending(ApplyBatch(db, ids))| + |ids| == |AllPending(db)|
    ensures |ApplyBatch(db, ids).sessions| == |db.sessions| + |MissingSessions(db, ids)|
  {
    PendingAfterBatch(db, ids);
    hide AllPending, SessionIdsOf, Assign;
    RemainderCardinality(AllPending(db), ids);
    var added := MissingSessions(db, ids);
    assert (db.sessions + added).Keys == db.sessions.Keys + added.Keys;
    DisjointCardinality(db.sessions.Keys, added.Keys);
  }

  lemma {:induction false} TurnConserves(db: Db, after: int, size: nat)
    requires NextTurn(db, after, size).Batch?
    ensures var turn := NextTurn(db, after, size);
            |AllPending(turn.db)| + turn.updated == |AllPending(db)|
            && |turn.db.sessions| == |db.sessions| + turn.created
  {
    TurnFacts(db, after, size);
    BatchConserves(db, BatchIds(db, after, size));
    hide *;
  }

  /** Every updated row stops being pending and every created session is new:
      the reported counters add up, whether the run returns or raises. */
  lemma {:induction false} BatchesConserve(db: Db, size: nat, left: Option<int>, after: int)
    requires left.Some? ==> left.value >= 0
    ensures var r := RunBatches(db, size, left, after);
            |AllPending(r.db)| + r.updated == |AllPending(db)|
            && |r.db.sessions| == |db.sessions| + r.created
            && (left.Some? ==> r.batches <= left.value)
            && r.batches <= r.updated <= r.batches * size
    decreases |PendingAfter(db, after)|
  {
    hide NextTurn, AllPending;
    var turn := NextTurn(db, after, size);
    if !(left.Some? && left.value == 0) && turn.Batch? {
      TurnShrinksPending(db, after, size);
      TurnConserves(db, after, size);
      TurnBounded(db, after, size);
      var left' := OneFewer(left);
      BatchesConserve(turn.db, size, left', turn.last);
      var rest := RunBatches(turn.db, size, left', turn.last);
      assert (rest.batches + 1) * size == rest.batches * size + size;
    }
  }

  lemma {:induction false} TurnBounded(db: Db, after: int, size: nat)
    requires NextTurn(db, after, size).Batch?
    ensures 1 <= NextTurn(db, after, size).updated <= size
  {
    TurnFacts(db, after, size);
    SelectedBatch(db, after, size);
    hide NextTurn, PendingAfter, AllPending, Compatible, ApplyBatch, MissingSessions;
    assert |SelectBatch(db, after, size)| <= size;
  }

  // ----- when a run raises --------------------------------------------------

  /** Committing a batch neither repairs nor breaks the compatibility of another row. */
  lemma {:induction false} BatchKeepsCompatibility(db: Db, ids: set<MessageId>, id: MessageId)
    requires ids <= db.messages.Keys && id in db.messages && id !in ids
    ensures Compatible(ApplyBatch(db, ids), id) <==> Compatible(db, id)
  {
  }

  lemma {:induction false} TurnKeepsCompatibility(db: Db, after: int, size: nat, id: MessageId)
    requires NextTurn(db, after, size).Batch?
    requires id in db.messages && id !in BatchIds(db, after, size)
    ensures id in NextTurn(db, after, size).db.messages
    ensures Compatible(NextTurn(db, after, size).db, id) <==> Compatible(db, id)
  {
    TurnFacts(db, after, size);
    BatchKeepsCompatibility(db, BatchIds(db, after, size), id);
    hide NextTurn, BatchIds, Compatible;
  }

  ghost predicate AllCompatible(db: Db, ids: set<MessageId>)
    requires ids <= db.messages.Keys
  {
    forall id :: id in ids ==> Compatible(db, id)
  }

  lemma {:induction false} TurnSplitsCompatibility(db: Db, after: int, size: nat)
    requires NextTurn(db, after, size).Batch?
    ensures var turn := NextTurn(db, after, size);
            PendingAfter(turn.db, turn.last) <= turn.db.messages.Keys
            && (AllCompatible(db, PendingAfter(db, after))
                <==> AllCompatible(turn.db, PendingAfter(turn.db, turn.last)))
  {
    TurnFacts(db, after, size);
    var turn := NextTurn(db, after, size);
    var ids := BatchIds(db, after, size);
    forall id | id in PendingAfter(db, after) && id !in ids
      ensures id in turn.db.messages && (Compatible(turn.db, id) <==> Compatible(db, id))
    {
      TurnKeepsCompatibility(db, after, size, id);
    }
    hide NextTurn, BatchIds, Compatible, ApplyBatch;
  }

  /** An unlimited run raises exactly when some pending row above its cursor
      conflicts with the deterministic identity, by its own columns or by the
      session that already holds its deterministic identifier; otherwise it
      updates every pending row above the cursor. */
  lemma {:induction false} UnlimitedRunRaisesExactlyOnConflict(db: Db, size: nat, after: int)
    requires size >= 1
    ensures var r := RunBatches(db, size, None, after);
            && (r.raised <==> !AllCompatible(db, PendingAfter(db, after)))
            && (!r.raised ==> r.updated == |PendingAfter(db, after)|)
    decreases |PendingAfter(db, after)|
  {
    TurnFacts(db, after, size);
    var turn := NextTurn(db, after, size);
    if turn.Batch? {
      TurnShrinksPending(db, after, size);
      TurnSplitsCompatibility(db, after, size);
      UnlimitedRunRaisesExactlyOnConflict(turn.db, size, turn.last);
      hide NextTurn, BatchIds, Compatible, AllCompatible, PendingAfter, ApplyBatch, AllPending;
    } else if turn.RolledBack? {
      hide NextTurn, Compatible, PendingAfter;
    } else {
      hide NextTurn, Compatible;
    }
  }

  // ----- runs with a batch limit ----------------------------------------------

  function FirstOf(all: seq<int>, n: nat): seq<int>
  {
    if |all| <= n then all else all[..n]
  }

  lemma {:induction false} FirstSplits(all: seq<int>, size: nat, more: nat)
    ensures FirstOf(all, size + more) == FirstOf(all, size) + FirstOf(all[|FirstOf(all, size)|..], more)
  {
  }

  /** Without its first elements a set enumerates as the rest of its enumeration. */
  lemma {:induction false} AscendingRest(s: set<int>, n: nat)
    requires n <= |Ascending(s)|
    ensures Ascending(s - RowSet(Ascending(s)[..n])) == Ascending(s)[n..]
    decreases n
  {
    if n == 0 {
      assert s - RowSet([]) == s;
    } else {
      var m := Least(s);
      var rest := Ascending(s - {m});
      AscendingRest(s - {m}, n - 1);
      assert Ascending(s) == [m] + rest;
      hide Ascending, Least;
      assert ([m] + rest)[..n] == [m] + rest[..n - 1];
      assert s - RowSet([m] + rest[..n - 1]) == s - {m} - RowSet(rest[..n - 1]);
    }
  }

  /** The first elements of a set, as a set. */
  function FirstRows(s: set<int>, n: nat): set<int>
  {
    RowSet(FirstOf(Ascending(s), n))
  }

  lemma {:induction false} FirstRowsWithin(s: set<int>, n: nat)
    ensures FirstRows(s, n) <= s
  {
    AscendingEnumerates(s);
    hide Ascending;
  }

  lemma {:induction false} FirstRowsSplit(s: set<int>, size: nat, more: nat)
    ensures FirstRows(s, size + more) == FirstRows(s, size) + FirstRows(s - FirstRows(s, size), more)
    ensures FirstRows(s, size) !! FirstRows(s - FirstRows(s, size), more)
  {
    hide Ascending;
    var all := Ascending(s);
    var first := FirstOf(all, size);
    assert first == all[..|first|];
    AscendingRest(s, |first|);
    FirstSplits(all, size, more);
    FirstRowsWithin(s - FirstRows(s, size), more);
    hide FirstOf, RowSet;
    RowSetAppend(first, FirstOf(all[|first|..], more));
  }

  lemma {:induction false} BatchIdsAreFirst(db: Db, after: int, n: nat)
    ensures BatchIds(db, after, n) == FirstRows(PendingAfter(db, after), n)
  {
    hide Ascending, PendingAfter, RowSet;
  }

  /** The rows of a turn, then the first rows it leaves, are the first rows of
      both together. */
  lemma {:induction false} TurnTakesFirst(db: Db, after: int, size: nat, more: nat)
    requires NextTurn(db, after, size).Batch?
    ensures var turn := NextTurn(db, after, size);
            && BatchIds(db, after, size + more) == BatchIds(db, after, size) + BatchIds(turn.db, turn.last, more)
            && BatchIds(db, after, size) !! BatchIds(turn.db, turn.last, more)
  {
    hide *;
    TurnLeaves(db, after, size);
    var turn := NextTurn(db, after, size);
    BatchIdsAreFirst(db, after, size);
    BatchIdsAreFirst(db, after, size + more);
    BatchIdsAreFirst(turn.db, turn.last, more);
    FirstRowsSplit(PendingAfter(db, after), size, more);
  }

  lemma {:induction false} TurnLeaves(db: Db, after: int, size: nat)
    requires NextTurn(db, after, size).Batch?
    ensures var turn := NextTurn(db, after, size);
            PendingAfter(turn.db, turn.last) == PendingAfter(db, after) - BatchIds(db, after, size)
  {
    hide *;
    TurnFacts(db, after, size);
  }

  lemma {:induction false} RowSetAppend(a: seq<MessageId>, b: seq<MessageId>)
    ensures RowSet(a + b) == RowSet(a) + RowSet(b)
  {
  }

  lemma {:induction false} TurnSplitsLimited(db: Db, after: int, size: nat, more: nat)
    requires NextTurn(db, after, size).Batch?
    ensures var turn := NextTurn(db, after, size);
            && BatchIds(db, after, size + more) <= db.messages.Keys
            && BatchIds(turn.db, turn.last, more) <= turn.db.messages.Keys
            && (AllCompatible(db, BatchIds(db, after, size + more))
                <==> AllCompatible(turn.db, BatchIds(turn.db, turn.last, more)))
            && |BatchIds(db, after, size + more)| == turn.updated + |BatchIds(turn.db, turn.last, more)|
  {
    TurnFacts(db, after, size);
    TurnFacts(db, after, size + more);
    TurnTakesFirst(db, after, size, more);
    var turn := NextTurn(db, after, size);
    TurnFacts(turn.db, turn.last, more);
    var ids, rest := BatchIds(db, after, size), BatchIds(turn.db, turn.last, more);
    hide NextTurn, BatchIds, Compatible, ApplyBatch, MissingSessions, AllPending, PendingAfter;
    forall id | id in rest
      ensures id in turn.db.messages && (Compatible(turn.db, id) <==> Compatible(db, id))
    {
      TurnKeepsCompatibility(db, after, size, id);
    }
    DisjointCardinality(ids, rest);
  }

  ghost predicate RaisesWithin(db: Db, r: Progress, ids: set<MessageId>)
  {
    && ids <= db.messages.Keys
    && (r.raised <==> !AllCompatible(db, ids))
    && (!r.raised ==> r.updated == |ids|)
  }

  /** One turn of a limited run, and what is left of it. */
  lemma {:induction false} LimitedTurn(db: Db, size: nat, left: nat, after: int, more: nat)
    requires size >= 1 && left >= 1
    requires NextTurn(db, after, size).Batch? ==>
      var turn := NextTurn(db, after, size);
      RaisesWithin(turn.db, RunBatches(turn.db, size, Some(left - 1), turn.last), BatchIds(turn.db, turn.last, more))
    ensures RaisesWithin(db, RunBatches(db, size, Some(left), after), BatchIds(db, after, size + more))
  {
    hide NextTurn, BatchIds, Compatible, PendingAfter, ApplyBatch, AllPending, MissingSessions, AllCompatible;
    TurnStops(db, after, size, more);
    var turn := NextTurn(db, after, size);
    if turn.Batch? {
      TurnSplitsLimited(db, after, size, more);
      assert OneFewer(Some(left)) == Some(left - 1);
    }
  }

  lemma {:induction false} LimitedRun(db: Db, size: nat, left: nat, after: int, n: nat)
    requires size >= 1 && n == left * size
    ensures RaisesWithin(db, RunBatches(db, size, Some(left), after), BatchIds(db, after, n))
    decreases left
  {
    hide *;
    if left == 0 {
      NoTurns(db, size, after);
      assert n == 0;
    } else {
      var turn := NextTurn(db, after, size);
      assert n - size == (left - 1) * size >= 0 by { OneTimeFewer(left, size); }
      if turn.Batch? {
        LimitedRun(turn.db, size, left - 1, turn.last, n - size);
      }
      LimitedTurn(db, size, left, after, n - size);
    }
  }

  lemma {:induction false} NoTurns(db: Db, size: nat, after: int)
    ensures RaisesWithin(db, RunBatches(db, size, Some(0), after), BatchIds(db, after, 0))
  {
    NoRowsWithin(db, after);
    hide BatchIds, NextTurn, Compatible;
  }

  lemma {:induction false} OneTimeFewer(left: nat, size: nat)
    requires left >= 1
    ensures left * size - size == (left - 1) * size >= 0
  {
  }

  /** A run limited to `left` batches raises exactly when a conflicting row is
      among the first `left * size` pending rows above its cursor; otherwise it
      updates exactly those. */
  lemma {:induction false} LimitedRunRaisesExactlyOnConflict(db: Db, size: nat, left: nat, after: int)
    requires size >= 1
    ensures BatchIds(db, after, left * size) <= db.messages.Keys
    ensures var (r, within) := (RunBatches(db, size, Some(left), after), BatchIds(db, after, left * size));
            && (r.raised <==> !AllCompatible(db, within))
            && (!r.raised ==> r.updated == |within|)
  {
    LimitedRun(db, size, left, after, left * size);
    hide BatchIds, RunBatches, AllCompatible;
  }

  lemma {:induction false} TurnStops(db: Db, after: int, size: nat, more: nat)
    requires size >= 1
    ensures BatchIds(db, after, size + more) <= db.messages.Keys
    ensures NextTurn(db, after, size).RolledBack? ==> !AllCompatible(db, BatchIds(db, after, size + more))
    ensures NextTurn(db, after, size).NoRows? ==>
      BatchIds(db, after, size + more) == {} && AllCompatible(db, BatchIds(db, after, size + more))
  {
    TurnFacts(db, after, size);
    TurnFacts(db, after, size + more);
    FirstWithin(db, after, size, more);
    hide NextTurn, BatchIds, Compatible, PendingAfter, ApplyBatch, AllPending, MissingSessions;
  }

  lemma {:induction false} NoRowsWithin(db: Db, after: int)
    ensures BatchIds(db, after, 0) == {}
  {
    hide Ascending, PendingAfter;
  }

  lemma {:induction false} FirstWithin(db: Db, after: int, size: nat, more: nat)
    ensures BatchIds(db, after, size) <= BatchIds(db, after, size + more)
  {
    hide Ascending, PendingAfter;
    var all := Ascending(PendingAfter(db, after));
    FirstSplits(all, size, more);
    RowSetAppend(FirstOf(all, size), FirstOf(all[|FirstOf(all, size)|..], more));
  }

  // ----- what a full run leaves behind -------------------------------------

  /** Foreign key of the message table: a session id names a session. */
  ghost predicate SessionsExist(db: Db)
  {
    forall id :: id in db.messages && db.messages[id].sessionId.Some? ==>
      db.messages[id].sessionId.value in db.sessions
  }

  ghost predicate DriftFree(db: Db)
  {
    && (forall id :: id in LegacyMessages(db) ==>
          && IdentityAgrees(id, db.messages[id])
          && !OwnershipMismatch(db, db.messages[id])
          && !EventMismatch(db, db.messages[id]))
    && (forall u :: u in LegacySessions(db) ==>
          u in ExpectedSessionIds(db) && !MetadataMismatch(u, db.sessions[u]))
  }

  lemma {:induction false} EmptyByCount<T>(s: set<T>)
    requires |s| == 0
    ensures s == {}
  {
  }

  lemma {:induction false} CountersAreSets(db: Db)
    ensures DriftOf(db) == 0 ==>
      && PublicIdMismatches(db) == SessionIdMismatches(db) == OwnershipMismatches(db) == EventMismatches(db) == {}
      && MetadataMismatches(db) == {} && OrphanSessions(db) == {}
  {
    hide PublicIdMismatches, SessionIdMismatches, OwnershipMismatches, EventMismatches, MetadataMismatches,
      LegacySessions, ExpectedSessionIds, LegacyMessages, LegacyScopes, AllPending, BackfilledMessages;
    ScopesAtMostSessions(db);
    if DriftOf(db) == 0 {
      EmptyByCount(PublicIdMismatches(db));
      EmptyByCount(SessionIdMismatches(db));
      EmptyByCount(OwnershipMismatches(db));
      EmptyByCount(EventMismatches(db));
      EmptyByCount(MetadataMismatches(db));
      EmptyByCount(OrphanSessions(db));
    }
  }

  lemma {:induction false} NoMismatchMeansMessageAgrees(db: Db, id: MessageId)
    requires id in LegacyMessages(db)
    requires id !in PublicIdMismatches(db) && id !in SessionIdMismatches(db)
    requires id !in OwnershipMismatches(db) && id !in EventMismatches(db)
    ensures IdentityAgrees(id, db.messages[id])
    ensures !OwnershipMismatch(db, db.messages[id]) && !EventMismatch(db, db.messages[id])
  {
  }

  lemma {:induction false} NoMismatchMeansSessionAgrees(db: Db, u: Uuid)
    requires u in LegacySessions(db) && u !in MetadataMismatches(db)
    requires OrphanSessions(db) == {}
    ensures u in ExpectedSessionIds(db) && !MetadataMismatch(u, db.sessions[u])
  {
    hide ExpectedSessionIds, MetadataMismatch;
    assert u !in OrphanSessions(db);
  }

  lemma {:induction false} NoMismatchMeansDriftFree(db: Db)
    requires PublicIdMismatches(db) == SessionIdMismatches(db) == OwnershipMismatches(db) == EventMismatches(db) == {}
    requires MetadataMismatches(db) == {} && OrphanSessions(db) == {}
    ensures DriftFree(db)
  {
    hide IsLegacyMessage, OwnershipMismatch, EventMismatch, MetadataMismatch, ExpectedSessionIds, IdentityAgrees,
      PublicIdMismatches, SessionIdMismatches, OwnershipMismatches, EventMismatches, MetadataMismatches;
    forall id | id in LegacyMessages(db)
      ensures IdentityAgrees(id, db.messages[id])
              && !OwnershipMismatch(db, db.messages[id]) && !EventMismatch(db, db.messages[id])
    {
      NoMismatchMeansMessageAgrees(db, id);
    }
    forall u | u in LegacySessions(db)
      ensures u in ExpectedSessionIds(db) && !MetadataMismatch(u, db.sessions[u])
    {
      NoMismatchMeansSessionAgrees(db, u);
    }
  }

  /** The drift counter is 0 exactly when every row agrees: counting loses no
      mismatch and reports none that is not there. */
  lemma {:induction false} NoDriftExactly(db: Db)
    ensures DriftOf(db) == 0 <==> DriftFree(db)
  {
    hide *;
    CountersAreSets(db);
    if DriftOf(db) == 0 {
      NoMismatchMeansDriftFree(db);
    }
    if DriftFree(db) {
      DriftFreeMeansNoDrift(db);
    }
  }

  lemma {:induction false} DriftFreeMeansNoDrift(db: Db)
    requires DriftFree(db)
    ensures DriftOf(db) == 0
  {
    NoMessageMismatches(db);
    hide DriftFree, PublicIdMismatches, SessionIdMismatches, OwnershipMismatches, EventMismatches;
    NoSessionMismatches(db);
    hide LegacyMessages, LegacySessions, LegacyScopes, MetadataMismatches;
    hide ExpectedSessionIds, AllPending, BackfilledMessages;
  }

  lemma {:induction false} NoMessageMismatches(db: Db)
    requires DriftFree(db)
    ensures PublicIdMismatches(db) == SessionIdMismatches(db) == OwnershipMismatches(db) == EventMismatches(db) == {}
  {
    hide IsLegacyMessage, OwnershipMismatch, EventMismatch, MetadataMismatch, ExpectedSessionIds, LegacySessions;
    forall id | id in LegacyMessages(db)
      ensures id !in PublicIdMismatches(db) && id !in SessionIdMismatches(db)
      ensures id !in OwnershipMismatches(db) && id !in EventMismatches(db)
    {
      assert IdentityAgrees(id, db.messages[id]);
    }
    assert PublicIdMismatches(db) <= LegacyMessages(db) && SessionIdMismatches(db) <= LegacyMessages(db);
    assert OwnershipMismatches(db) <= LegacyMessages(db) && EventMismatches(db) <= LegacyMessages(db);
  }

  lemma {:induction false} NoSessionMismatches(db: Db)
    requires DriftFree(db)
    ensures MetadataMismatches(db) == {} && OrphanSessions(db) == {}
    ensures |LegacyScopes(db)| == |LegacySessions(db)|
  {
    hide LegacyMessages, ExpectedSessionIds;
    DistinctScopes(db, LegacySessions(db));
  }

  /** Sessions that sit at the identifier of their scope have different scopes. */
  lemma {:induction false} DistinctScopes(db: Db, us: set<Uuid>)
    requires us <= db.sessions.Keys
    requires forall u :: u in us ==> u == SessionUuid(db.sessions[u].user, db.sessions[u].event)
    ensures |set u | u in us :: ScopeOf(db.sessions[u])| == |us|
    decreases |us|
  {
    if us != {} {
      var u :| u in us;
      DistinctScopes(db, us - {u});
      var image := set v | v in us :: ScopeOf(db.sessions[v]);
      var rest := set v | v in us - {u} :: ScopeOf(db.sessions[v]);
      assert image == rest + {ScopeOf(db.sessions[u])} by {
        forall sc | sc in image ensures sc in rest + {ScopeOf(db.sessions[u])} {
          var v :| v in us && sc == ScopeOf(db.sessions[v]);
          assert v == u || v in us - {u};
        }
      }
      assert ScopeOf(db.sessions[u]) !in rest;
    }
  }

  /** The one-shot assignment of a drift-free table whose pending rows do not conflict. */
  ghost predicate ReadyForBackfill(db: Db)
  {
    DriftFree(db) && SessionsExist(db) && AllCompatible(db, AllPending(db))
  }

  lemma {:induction false} AssignedRow(db: Db, id: MessageId)
    requires ReadyForBackfill(db) && id in LegacyMessages(db)
    ensures Backfilled(id, Assign(id, db.messages[id]))
  {
    assert id in AllPending(db) ==> Compatible(db, id);
  }

  /** A legacy message ends up in a session of its owner and scope. */
  lemma {:induction false} AssignedSession(db: Db, id: MessageId)
    requires ReadyForBackfill(db) && id in LegacyMessages(db)
    ensures var u := LegacySessionId(db.messages[id]);
            && u in Completed(db).sessions
            && Completed(db).sessions[u].user == db.messages[id].user
            && Completed(db).sessions[u].event == db.messages[id].event
  {
    var m := db.messages[id];
    if Pending(m) {
      assert id in AllPending(db);
      assert Compatible(db, id);
      assert LegacySessionId(m) in SessionIdsOf(db, AllPending(db));
    } else {
      assert IdentityAgrees(id, m) && !OwnershipMismatch(db, m) && !EventMismatch(db, m);
    }
  }

  lemma {:induction false} OneShotMessages(db: Db)
    ensures OneShot(db).messages.Keys == db.messages.Keys
    ensures forall id :: id in db.messages ==> OneShot(db).messages[id] == Assign(id, db.messages[id])
    ensures AllPending(OneShot(db)) == {}
  {
  }

  lemma {:induction false} OneShotSessions(db: Db)
    ensures OneShot(db).sessions.Keys == Completed(db).sessions.Keys
    ensures forall u :: u in Completed(db).sessions ==>
      SameButTimes(OneShot(db).sessions[u], Completed(db).sessions[u])
  {
  }

  lemma {:induction false} SameLegacyMessages(db: Db)
    requires ReadyForBackfill(db)
    ensures LegacyMessages(OneShot(db)) == LegacyMessages(db)
  {
    var o := OneShot(db);
    OneShotMessages(db);
    OneShotSessions(db);
    forall id | id in db.messages
      ensures IsLegacyMessage(o, id) <==> IsLegacyMessage(db, id)
    {
      if id in LegacyMessages(db) {
        AssignedRow(db, id);
      } else {
        StillNotLegacy(db, id);
      }
    }
    hide OneShot, IsLegacyMessage, ReadyForBackfill, Completed;
  }

  lemma {:induction false} StillNotLegacy(db: Db, id: MessageId)
    requires ReadyForBackfill(db) && id in db.messages && !IsLegacyMessage(db, id)
    requires OneShot(db).messages.Keys == db.messages.Keys
    ensures !IsLegacyMessage(OneShot(db), id)
  {
    var o := OneShot(db);
    OneShotMessages(db);
    OneShotSessions(db);
    var m := db.messages[id];
    assert o.messages[id] == m;
    assert m.sessionId.value in db.sessions;
    hide OneShot, ReadyForBackfill, Compatible;
    assert Completed(db).sessions[m.sessionId.value] == db.sessions[m.sessionId.value];
  }

  lemma {:induction false} OneShotRowAgrees(db: Db, id: MessageId)
    requires ReadyForBackfill(db) && id in LegacyMessages(db)
    ensures var o := OneShot(db);
            && id in o.messages
            && Backfilled(id, o.messages[id])
            && !OwnershipMismatch(o, o.messages[id]) && !EventMismatch(o, o.messages[id])
  {
    AssignedRow(db, id);
    AssignedSession(db, id);
    OneShotMessages(db);
    OneShotSessions(db);
    hide OneShot, Completed, ReadyForBackfill, LegacyMessages;
  }

  lemma {:induction false} OneShotSessionAgrees(db: Db, u: Uuid)
    requires ReadyForBackfill(db) && u in LegacySessions(OneShot(db))
    ensures u in ExpectedSessionIds(OneShot(db)) && !MetadataMismatch(u, OneShot(db).sessions[u])
  {
    OneShotMessages(db);
    OneShotSessions(db);
    SameLegacyMessages(db);
    var o := OneShot(db);
    CompletedSessionAgrees(db, u);
    var id :| id in LegacyMessages(db) && LegacySessionId(db.messages[id]) == u;
    assert LegacySessionId(o.messages[id]) == u;
    hide OneShot, Completed, ReadyForBackfill, LegacyMessages;
  }

  lemma {:induction false} CompletedSessionAgrees(db: Db, u: Uuid)
    requires ReadyForBackfill(db) && u in LegacySessions(Completed(db))
    ensures u in ExpectedSessionIds(db) && !MetadataMismatch(u, Completed(db).sessions[u])
  {
    if u in db.sessions {
      assert u in LegacySessions(db);
    } else {
      var id :| id in AllPending(db) && LegacySessionId(db.messages[id]) == u;
      assert id in LegacyMessages(db);
    }
  }

  lemma {:induction false} OneShotDriftFree(db: Db)
    requires ReadyForBackfill(db)
    ensures DriftFree(OneShot(db))
    ensures BackfilledMessages(OneShot(db)) == LegacyMessages(db) == LegacyMessages(OneShot(db))
  {
    var o := OneShot(db);
    SameLegacyMessages(db);
    forall id | id in LegacyMessages(o)
      ensures Backfilled(id, o.messages[id]) && IdentityAgrees(id, o.messages[id])
              && !OwnershipMismatch(o, o.messages[id]) && !EventMismatch(o, o.messages[id])
    {
      OneShotRowAgrees(db, id);
    }
    forall u | u in LegacySessions(o)
      ensures u in ExpectedSessionIds(o) && !MetadataMismatch(u, o.sessions[u])
    {
      OneShotSessionAgrees(db, u);
    }
    hide OneShot, LegacyMessages, LegacySessions, ExpectedSessionIds, Backfilled, IdentityAgrees, OwnershipMismatch,
      EventMismatch, MetadataMismatch;
  }

  lemma {:induction false} EverythingAboveZero(db: Db)
    requires forall id :: id in db.messages ==> id > 0
    ensures PendingAfter(db, 0) == AllPending(db)
  {
  }

  /** A full run over tables without drift that returns normally ends valid:
      no drift, nothing pending, every legacy message backfilled, every pending
      row updated once, every missing session created once. */
  lemma {:induction false} FullRunEndsValid(db: Db, size: int)
    requires DriftFree(db) && SessionsExist(db)
    requires forall id :: id in db.messages ==> id > 0
    requires Run(db, RunRequest(size, None, 0)).Returned?
    ensures var r := Run(db, RunRequest(size, None, 0));
            && r.db == OneShot(db)
            && r.status == Complete
            && r.verification.isValid
            && r.verification.backfilled == r.verification.legacyMessages == Verify(db).legacyMessages
            && r.updated == PreviewOf(db).pending
            && r.created == |r.db.sessions| - |db.sessions|
  {
    var p := RunRequest(size, None, 0);
    EverythingAboveZero(db);
    UnlimitedRunRaisesExactlyOnConflict(db, size, 0);
    BatchesConserve(db, size, None, 0);
    var committed := RunBatches(db, size, None, 0).db;
    FullRunSettles(db, size);
    OneShotMessages(db);
    assert Run(db, p).db == OneShot(db) by {
      assert AfterRuns(db, []) == db;
      RunsRefineOneShot(db, [], p);
    }
    OneShotDriftFree(db);
    DriftFreeMeansNoDrift(OneShot(db));
    hide OneShot, DriftFree, RunBatches, AllPending, AllCompatible, BackfilledMessages, LegacyMessages;
  }

  lemma {:induction false} FullRunSettles(db: Db, size: int)
    requires Run(db, RunRequest(size, None, 0)).Returned?
    requires PendingAfter(db, 0) == AllPending(db)
    ensures AllPending(Run(db, RunRequest(size, None, 0)).db) == {}
    ensures |Run(db, RunRequest(size, None, 0)).db.sessions| == |RunBatches(db, size, None, 0).db.sessions|
  {
    UnlimitedRunRaisesExactlyOnConflict(db, size, 0);
    BatchesConserve(db, size, None, 0);
    var committed := RunBatches(db, size, None, 0).db;
    EmptyByCount(AllPending(committed));
    assert AllPending(ReconcileTimestamps(committed)) == AllPending(committed);
    assert ReconcileTimestamps(committed).sessions.Keys == committed.sessions.Keys;
  }

  /** The preview predicts the rows to update exactly. It predicts the sessions
      to create up to those expected sessions that exist without the legacy
      marker, and it is exact when there are none. */
  lemma {:induction false} PreviewPredictsRun(db: Db, size: int)
    requires DriftFree(db) && SessionsExist(db)
    requires forall id :: id in db.messages ==> id > 0
    requires Run(db, RunRequest(size, None, 0)).Returned?
    ensures var r := Run(db, RunRequest(size, None, 0));
            && r.updated == PreviewOf(db).pending
            && PreviewOf(db).sessionsToCreate == r.created + |UnmarkedExpected(db)|
  {
    FullRunEndsValid(db, size);
    OneShotSessions(db);
    BatchConserves(db, AllPending(db));
    assert |OneShot(db).sessions.Keys| == |Completed(db).sessions.Keys|;
    MissingAmongExpected(db);
    hide ExpectedSessionIds, LegacySessions, UnmarkedExpected, Run, OneShot, Completed, AllPending, MissingSessions;
    DisjointCardinality(MissingSessions(db, AllPending(db)).Keys, UnmarkedExpected(db));
  }

  /** Expected sessions that exist but do not carry the legacy marker. */
  function UnmarkedExpected(db: Db): set<Uuid>
  {
    set u | u in ExpectedSessionIds(db) && u in db.sessions && !db.sessions[u].snapshot.legacy
  }

  lemma {:induction false} MissingAmongExpected(db: Db)
    requires DriftFree(db) && SessionsExist(db)
    ensures ExpectedSessionIds(db) - LegacySessions(db)
            == MissingSessions(db, AllPending(db)).Keys + UnmarkedExpected(db)
    ensures MissingSessions(db, AllPending(db)).Keys !! UnmarkedExpected(db)
  {
    var missing := MissingSessions(db, AllPending(db)).Keys;
    forall u | u in ExpectedSessionIds(db) && u !in db.sessions
      ensures u in missing
    {
      var id :| id in LegacyMessages(db) && LegacySessionId(db.messages[id]) == u;
      assert IdentityAgrees(id, db.messages[id]);
      assert id in AllPending(db);
    }
    forall u | u in missing
      ensures u in ExpectedSessionIds(db) && u !in db.sessions
    {
      var id :| id in AllPending(db) && LegacySessionId(db.messages[id]) == u;
      assert id in LegacyMessages(db);
    }
  }

  /** A drift-free table on which a full run raises: an ordinary session already
      holds the deterministic identifier of a pending message's scope. */
  function OccupiedIdentifier(): Db
  {
    Db(map[1 := Message(7, None, None, None, 100, "question")],
       map[SessionUuid(7, None) :=
             Session(7, None, OtherTitle("chat"), "draft", Snapshot(false, None, None), 90, 95, None)])
  }

  lemma {:induction false} ConflictingRowsRaiseAtOnce(db: Db, size: nat, after: int)
    requires size >= 1 && PendingAfter(db, after) != {}
    requires forall id :: id in PendingAfter(db, after) ==> !Compatible(db, id)
    ensures RunBatches(db, size, None, after) == Progress(db, 0, 0, 0, None, true)
  {
    TurnFacts(db, after, size);
    hide NextTurn, BatchIds, Compatible, PendingAfter, AllPending, ApplyBatch, MissingSessions;
    if BatchIds(db, after, size) != {} {
      var id := Least(BatchIds(db, after, size));
      assert id in PendingAfter(db, after) && !Compatible(db, id);
    }
  }

  lemma {:induction false} OccupiedIdentifierHasNoDrift()
    ensures DriftOf(OccupiedIdentifier()) == 0 && SessionsExist(OccupiedIdentifier())
  {
    hide Verify;
    var db := OccupiedIdentifier();
    assert LegacySessions(db) == {};
    assert DriftFree(db);
    NoDriftExactly(db);
  }

  lemma {:induction false} OccupiedIdentifierConflicts()
    ensures var db := OccupiedIdentifier();
            PendingAfter(db, 0) == {1} && !Compatible(db, 1)
  {
  }

  lemma {:induction false} NoDriftDoesNotPreventRaising()
    ensures DriftOf(OccupiedIdentifier()) == 0
    ensures Run(OccupiedIdentifier(), RunRequest(1000, None, 0)) == Raised(OccupiedIdentifier())
  {
    hide Compatible, PendingAfter, RunBatches, Verify, OccupiedIdentifier;
    OccupiedIdentifierHasNoDrift();
    OccupiedIdentifierConflicts();
    ConflictingRowsRaiseAtOnce(OccupiedIdentifier(), 1000, 0);
  }
}
