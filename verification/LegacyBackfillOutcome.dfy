/** What the backfill writes and reports, column by column and without its own
    vocabulary (apps/api/backend/ask/backfill.py). */
module LegacyBackfillOutcome {
  import opened Foundations
  import opened LegacyBackfill
  import opened LegacyBackfillTheorems
  import opened LegacyBackfillVerification

  // ----- session bounds -------------------------------------------------------

  /** Creation and update are the first and last time of the rows, and the last
      message is the update. */
  ghost predicate BoundedBy(db: Db, ids: set<MessageId>, s: Session)
    requires ids <= db.messages.Keys
  {
    && (forall id :: id in ids ==> s.createdAt <= db.messages[id].createdAt <= s.updatedAt)
    && (exists id :: id in ids && db.messages[id].createdAt == s.createdAt)
    && (exists id :: id in ids && db.messages[id].createdAt == s.updatedAt)
    && s.lastMessageAt == Some(s.updatedAt)
  }

  predicate SameBounds(s: Session, t: Session)
  {
    s.createdAt == t.createdAt && s.updatedAt == t.updatedAt && s.lastMessageAt == t.lastMessageAt
  }

  predicate SameColumns(s: Session, t: Session)
  {
    s.user == t.user && s.event == t.event && s.title == t.title && s.status == t.status && s.snapshot == t.snapshot
  }

  ghost function Linked(db: Db, u: Uuid): set<MessageId>
  {
    set id | id in db.messages && db.messages[id].sessionId == Some(u)
  }

  lemma {:induction false} TimesBound(db: Db, ids: set<MessageId>, s: Session)
    requires ids <= db.messages.Keys && ids != {} && Times(db, ids) != {}
    requires s.createdAt == Least(Times(db, ids)) && s.updatedAt == Greatest(Times(db, ids))
    requires s.lastMessageAt == Some(s.updatedAt)
    ensures BoundedBy(db, ids, s)
  {
    hide Least, Greatest;
    forall id | id in ids
      ensures s.createdAt <= db.messages[id].createdAt <= s.updatedAt
    {
      assert db.messages[id].createdAt in Times(db, ids);
    }
  }

  lemma {:induction false} BoundsUnique(db: Db, ids: set<MessageId>, s: Session, t: Session)
    requires ids <= db.messages.Keys && BoundedBy(db, ids, s) && BoundedBy(db, ids, t)
    ensures SameBounds(s, t)
  {
    var a :| a in ids && db.messages[a].createdAt == s.createdAt;
    var b :| b in ids && db.messages[b].createdAt == t.createdAt;
    var c :| c in ids && db.messages[c].createdAt == s.updatedAt;
    var d :| d in ids && db.messages[d].createdAt == t.updatedAt;
  }

  /** The repair gives a legacy session with messages exactly their bounds, and
      leaves every other session and every other column as it was. */
  lemma {:induction false} RepairSetsBounds(db: Db, u: Uuid)
    requires u in db.sessions
    ensures ReconcileTimestamps(db).messages == db.messages && ReconcileTimestamps(db).sessions.Keys == db.sessions.Keys
    ensures var (s, before) := (ReconcileTimestamps(db).sessions[u], db.sessions[u]);
            && SameColumns(s, before)
            && if before.snapshot.legacy && Linked(db, u) != {} then BoundedBy(db, Linked(db, u), s)
               else SameBounds(s, before)
  {
    assert Linked(db, u) == MessagesIn(db, u);
    if db.sessions[u].snapshot.legacy && MessagesIn(db, u) != {} {
      MessagesInTimes(db, u);
      TimesBound(db, Linked(db, u), ReconcileTimestamps(db).sessions[u]);
    }
    hide BoundedBy, Times, Least, Greatest;
  }

  /** Every session is an old one as it was, or a legacy session with a message. */
  ghost predicate Grown(before: Db, after: Db)
  {
    forall u :: u in after.sessions ==>
      (u in before.sessions && after.sessions[u] == before.sessions[u])
      || (after.sessions[u].snapshot.legacy && Linked(after, u) != {})
  }

  lemma {:induction false} StaysLinked(a: Db, b: Db, u: Uuid)
    requires OnlyFilled(a, b)
    ensures Linked(a, u) <= Linked(b, u)
  {
    forall id | id in Linked(a, u)
      ensures id in Linked(b, u)
    {
      assert b.messages[id] in {a.messages[id], Assign(id, a.messages[id])};
    }
  }

  lemma {:induction false} GrownTransitive(a: Db, b: Db, c: Db)
    requires Grown(a, b) && Grown(b, c) && OnlyFilled(b, c)
    ensures Grown(a, c)
  {
    forall u
      ensures Linked(b, u) <= Linked(c, u)
    {
      StaysLinked(b, c, u);
    }
    hide OnlyFilled, Linked;
  }

  lemma {:induction false} InsertedIsLinked(db: Db, ids: set<MessageId>, u: Uuid)
    requires ids <= AllPending(db) && forall id :: id in ids ==> Compatible(db, id)
    requires u in ApplyBatch(db, ids).sessions && u !in db.sessions
    ensures ApplyBatch(db, ids).sessions[u].snapshot.legacy && Linked(ApplyBatch(db, ids), u) != {}
  {
    var id :| id in ids && LegacySessionId(db.messages[id]) == u;
    assert Compatible(db, id);
    assert id in Linked(ApplyBatch(db, ids), u);
    hide Times, Least, Greatest;
  }

  lemma {:induction false} TurnGrows(db: Db, after: int, size: nat)
    requires NextTurn(db, after, size).Batch?
    ensures Grown(db, NextTurn(db, after, size).db)
  {
    TurnFacts(db, after, size);
    var next, ids := NextTurn(db, after, size).db, BatchIds(db, after, size);
    hide NextTurn, BatchIds, PendingAfter, AllPending, Compatible, Linked, MissingSessions;
    forall u | u in next.sessions && u !in db.sessions
      ensures next.sessions[u].snapshot.legacy && Linked(next, u) != {}
    {
      InsertedIsLinked(db, ids, u);
    }
  }

  lemma {:induction false} BatchesGrow(db: Db, size: nat, left: Option<int>, after: int)
    requires left.Some? ==> left.value >= 0
    ensures Grown(db, RunBatches(db, size, left, after).db)
    decreases |PendingAfter(db, after)|
  {
    hide NextTurn, OnlyFilled;
    var turn := NextTurn(db, after, size);
    if !(left.Some? && left.value == 0) && turn.Batch? {
      TurnShrinksPending(db, after, size);
      TurnGrows(db, after, size);
      BatchesGrow(turn.db, size, OneFewer(left), turn.last);
      BatchesOnlyFill(turn.db, size, OneFewer(left), turn.last);
      GrownTransitive(db, turn.db, RunBatches(turn.db, size, OneFewer(left), turn.last).db);
    }
  }

  /** After any run that returns, limited or not, every legacy session with
      messages has exactly their bounds; any other session was there before and
      keeps its own. */
  lemma {:induction false} RunSetsBounds(db: Db, p: RunRequest, u: Uuid)
    requires Run(db, p).Returned? && u in Run(db, p).db.sessions
    ensures var after := Run(db, p).db;
            var s := after.sessions[u];
            if s.snapshot.legacy && Linked(after, u) != {} then BoundedBy(after, Linked(after, u), s)
            else u in db.sessions && SameBounds(s, db.sessions[u])
  {
    var committed := RunBatches(db, p.batchSize, p.maxBatches, p.after).db;
    BatchesGrow(db, p.batchSize, p.maxBatches, p.after);
    RepairSetsBounds(committed, u);
    hide RunBatches, ReconcileTimestamps, BoundedBy, Verify;
    assert Linked(Run(db, p).db, u) == Linked(committed, u);
    BoundedAlike(committed, Run(db, p).db, Linked(committed, u), Run(db, p).db.sessions[u]);
  }

  lemma {:induction false} BoundedAlike(a: Db, b: Db, ids: set<MessageId>, s: Session)
    requires a.messages == b.messages && ids <= a.messages.Keys
    ensures BoundedBy(a, ids, s) <==> BoundedBy(b, ids, s)
  {
  }

  // ----- the completed tables --------------------------------------------------

  /** A null identity is filled with the row's own deterministic one. */
  predicate FilledRow(id: MessageId, before: Message, after: Message)
  {
    && after.user == before.user && after.event == before.event
    && after.createdAt == before.createdAt && after.content == before.content
    && after.publicId == (if before.publicId.Some? then before.publicId else Some(MessageUuid(id)))
    && after.sessionId
       == (if before.sessionId.Some? then before.sessionId else Some(SessionUuid(before.user, before.event)))
  }

  /** The rows with a null identity whose deterministic session is `u`. */
  ghost function NullRows(db: Db, u: Uuid): set<MessageId>
  {
    set id | id in db.messages && (db.messages[id].publicId.None? || db.messages[id].sessionId.None?)
             && u == SessionUuid(db.messages[id].user, db.messages[id].event)
  }

  predicate FreshSession(u: Uuid, s: Session)
  {
    u.SessionUuid? && s.user == u.user && s.event == u.event && s.title == LegacyTitle(u.event)
    && s.status == "complete" && s.snapshot == Snapshot(true, Some(1), u.event)
  }

  ghost predicate BoundsAre(before: Db, after: Db, u: Uuid)
    requires u in after.sessions
  {
    var s := after.sessions[u];
    if s.snapshot.legacy && Linked(after, u) != {} then BoundedBy(after, Linked(after, u), s)
    else if u in before.sessions then SameBounds(s, before.sessions[u])
    else BoundedBy(before, NullRows(before, u), s)
  }

  /** What a complete backfill makes of the tables. */
  ghost predicate Completes(before: Db, after: Db)
  {
    && after.messages.Keys == before.messages.Keys
    && (forall id :: id in before.messages ==> FilledRow(id, before.messages[id], after.messages[id]))
    && (forall u :: u in after.sessions <==> u in before.sessions || NullRows(before, u) != {})
    && (forall u :: u in before.sessions ==> SameColumns(after.sessions[u], before.sessions[u]))
    && (forall u :: u in after.sessions && u !in before.sessions ==> FreshSession(u, after.sessions[u]))
    && (forall u :: u in after.sessions ==> BoundsAre(before, after, u))
  }

  lemma {:induction false} NullRowsExactly(db: Db, u: Uuid)
    ensures u in SessionIdsOf(db, AllPending(db)) <==> NullRows(db, u) != {}
    ensures RowsOf(db, AllPending(db), u) == NullRows(db, u)
  {
    var pending := AllPending(db);
    forall id
      ensures id in RowsOf(db, pending, u) <==> id in NullRows(db, u)
    {
    }
    assert RowsOf(db, pending, u) == NullRows(db, u);
    hide NullRows, AllPending;
    if u in SessionIdsOf(db, pending) {
      var id :| id in pending && LegacySessionId(db.messages[id]) == u;
      assert id in RowsOf(db, pending, u);
    }
    var rows := RowsOf(db, pending, u);
    if rows != {} {
      var id := Least(rows);
      assert LegacySessionId(db.messages[id]) in SessionIdsOf(db, pending);
    }
  }

  lemma {:induction false} OneShotMessages(db: Db)
    ensures OneShot(db).messages.Keys == db.messages.Keys
    ensures forall id :: id in db.messages ==> FilledRow(id, db.messages[id], OneShot(db).messages[id])
  {
  }

  lemma {:induction false} CompletedSessions(db: Db, u: Uuid)
    ensures u in Completed(db).sessions <==> u in db.sessions || NullRows(db, u) != {}
    ensures u in db.sessions ==> Completed(db).sessions[u] == db.sessions[u]
    ensures u in Completed(db).sessions && u !in db.sessions ==>
      FreshSession(u, Completed(db).sessions[u]) && BoundedBy(db, NullRows(db, u), Completed(db).sessions[u])
  {
    NullRowsExactly(db, u);
    if u in Completed(db).sessions && u !in db.sessions {
      RowsOfNonempty(db, AllPending(db), u);
      hide AllPending, SessionIdsOf, BoundedBy, Least, Greatest, Times;
      TimesBound(db, NullRows(db, u), Completed(db).sessions[u]);
    }
  }

  lemma {:induction false} OneShotSession(db: Db, u: Uuid)
    ensures u in OneShot(db).sessions <==> u in db.sessions || NullRows(db, u) != {}
    ensures u in db.sessions ==> SameColumns(OneShot(db).sessions[u], db.sessions[u])
    ensures u in OneShot(db).sessions && u !in db.sessions ==> FreshSession(u, OneShot(db).sessions[u])
    ensures u in OneShot(db).sessions ==> BoundsAre(db, OneShot(db), u)
  {
    CompletedSessions(db, u);
    var whole := Completed(db);
    assert NullRows(db, u) <= db.messages.Keys;
    hide Completed, NullRows;
    if u in whole.sessions {
      RepairSetsBounds(whole, u);
      assert Linked(OneShot(db), u) == Linked(whole, u);
      hide ReconcileTimestamps, Linked;
      BoundedAlike(whole, OneShot(db), Linked(whole, u), OneShot(db).sessions[u]);
      if u !in db.sessions {
        BoundsMove(db, NullRows(db, u), whole.sessions[u], OneShot(db).sessions[u]);
      }
    }
  }

  lemma {:induction false} BoundsMove(db: Db, ids: set<MessageId>, s: Session, t: Session)
    requires ids <= db.messages.Keys && BoundedBy(db, ids, s)
    ensures SameBounds(t, s) ==> BoundedBy(db, ids, t)
  {
  }

  lemma {:induction false} OneShotCompletes(db: Db)
    ensures Completes(db, OneShot(db))
  {
    OneShotMessages(db);
    forall u
      ensures u in OneShot(db).sessions <==> u in db.sessions || NullRows(db, u) != {}
      ensures u in db.sessions ==> SameColumns(OneShot(db).sessions[u], db.sessions[u])
      ensures u in OneShot(db).sessions && u !in db.sessions ==> FreshSession(u, OneShot(db).sessions[u])
      ensures u in OneShot(db).sessions ==> BoundsAre(db, OneShot(db), u)
    {
      OneShotSession(db, u);
    }
    hide OneShot, NullRows, SameColumns, FreshSession, BoundsAre, FilledRow;
  }

  lemma {:induction false} CompletedOneWay(before: Db, a: Db, b: Db, u: Uuid)
    requires Completes(before, a) && Completes(before, b) && a.messages == b.messages && u in a.sessions
    ensures u in b.sessions && a.sessions[u] == b.sessions[u]
  {
    assert BoundsAre(before, a, u) && BoundsAre(before, b, u);
    hide NullRows, BoundedBy;
    assert Linked(a, u) == Linked(b, u);
    assert SameColumns(a.sessions[u], b.sessions[u]);
    var (s, t) := (a.sessions[u], b.sessions[u]);
    if s.snapshot.legacy && Linked(a, u) != {} {
      BoundedAlike(b, a, Linked(a, u), t);
      BoundsUnique(a, Linked(a, u), s, t);
    } else if u !in before.sessions {
      BoundsUnique(before, NullRows(before, u), s, t);
    }
  }

  lemma {:induction false} OneCompletion(before: Db, a: Db, b: Db)
    requires Completes(before, a) && Completes(before, b)
    ensures a == b
  {
    hide BoundsAre, NullRows, FreshSession, SameColumns;
    assert a.messages == b.messages by {
      assert forall id :: id in before.messages ==> a.messages[id] == b.messages[id];
    }
    assert forall u :: u in a.sessions <==> u in b.sessions;
    assert a.sessions.Keys == b.sessions.Keys;
    hide FilledRow;
    forall u | u in a.sessions
      ensures a.sessions[u] == b.sessions[u]
    {
      CompletedOneWay(before, a, b, u);
    }
    assert a.sessions == b.sessions;
  }

  /** The one-shot assignment is the only completion of the tables. */
  lemma {:induction false} OneShotExactly(db: Db, r: Db)
    ensures r == OneShot(db) <==> Completes(db, r)
  {
    hide *;
    OneShotCompletes(db);
    if Completes(db, r) {
      OneCompletion(db, r, OneShot(db));
    }
  }

  ghost predicate NothingNull(db: Db)
  {
    forall id :: id in db.messages ==> db.messages[id].publicId.Some? && db.messages[id].sessionId.Some?
  }

  lemma {:induction false} NothingNullIsSettled(db: Db)
    requires NothingNull(db)
    ensures AllPending(db) == {}
  {
    assert forall id :: id !in AllPending(db);
  }

  /** After any series of runs, a last run that returns and leaves no null identity
      has completed the first tables. */
  lemma {:induction false} RunsComplete(db: Db, runs: seq<RunRequest>, last: RunRequest)
    requires Run(AfterRuns(db, runs), last).Returned?
    requires NothingNull(Run(AfterRuns(db, runs), last).db)
    ensures Completes(db, Run(AfterRuns(db, runs), last).db)
  {
    hide *;
    NothingNullIsSettled(Run(AfterRuns(db, runs), last).db);
    RunsRefineOneShot(db, runs, last);
    OneShotCompletes(db);
  }

  // ----- what a run answers ----------------------------------------------------

  /** A row that stops its batch: an identity that is not its own deterministic
      one, or a deterministic session that belongs to somebody else, has another
      event or lacks the marker of this version. */
  predicate Conflicting(db: Db, id: MessageId)
    requires id in db.messages
  {
    var m := db.messages[id];
    var u := SessionUuid(m.user, m.event);
    || (m.publicId.Some? && m.publicId.value != MessageUuid(id))
    || (m.sessionId.Some? && m.sessionId.value != u)
    || (u in db.sessions
        && (|| db.sessions[u].user != m.user || db.sessions[u].event != m.event
            || !db.sessions[u].snapshot.legacy || db.sessions[u].snapshot.version != Some(1)))
  }

  predicate NullRow(db: Db, id: MessageId)
  {
    id in db.messages && (db.messages[id].publicId.None? || db.messages[id].sessionId.None?)
  }

  /** The run gets to the row: it has a null identity, lies above the cursor, and
      with a limit no more null rows lie between than the batches hold. */
  ghost predicate Due(db: Db, p: RunRequest, id: MessageId)
  {
    && NullRow(db, id) && id > p.after
    && (p.maxBatches.Some? ==>
          |set j | j in db.messages && NullRow(db, j) && p.after < j <= id| <= p.maxBatches.value * p.batchSize)
  }

  lemma {:induction false} CompatibleExactly(db: Db, id: MessageId)
    requires id in db.messages
    ensures Compatible(db, id) <==> !Conflicting(db, id)
  {
  }

  lemma {:induction false} FirstRowsExactly(s: set<int>, n: nat, x: int)
    ensures x in FirstRows(s, n) <==> x in s && |set y | y in s && y <= x| <= n
  {
    AscendingEnumerates(s);
    FirstRowsWithin(s, n);
    if x in s {
      PlaceInOrder(Ascending(s), s, n, x);
    }
    hide Ascending;
  }

  lemma {:induction false} PlaceInOrder(all: seq<int>, s: set<int>, n: nat, x: int)
    requires Enumerates(all, s) && x in s
    ensures x in FirstOf(all, n) <==> |set y | y in s && y <= x| <= n
  {
    var k :| 0 <= k < |all| && all[k] == x;
    LowRows(all, s, k);
    if k < n {
      assert FirstOf(all, n)[k] == x;
    }
  }

  lemma {:induction false} LowRows(all: seq<int>, s: set<int>, k: nat)
    requires Enumerates(all, s) && k < |all|
    ensures |set y | y in s && y <= all[k]| == k + 1
  {
    var low := set y | y in s && y <= all[k];
    AscendingPrefix(all, s, k + 1);
    assert RowSet(all[..k + 1]) == low by {
      assert forall y :: y in all[..k + 1] ==> y in all;
    }
    RowSetCardinality(all[..k + 1]);
  }

  /** The rows a run gets to, in terms of its batches. */
  ghost function Within(db: Db, size: nat, left: Option<int>, after: int): set<MessageId>
    requires left.Some? ==> left.value >= 0
  {
    if left.None? then PendingAfter(db, after) else BatchIds(db, after, left.value * size)
  }

  lemma {:induction false} DueExactly(db: Db, p: RunRequest, id: MessageId)
    requires ValidRequest(p)
    ensures Due(db, p, id) <==> id in Within(db, p.batchSize, p.maxBatches, p.after)
  {
    if p.maxBatches.Some? {
      var n := p.maxBatches.value * p.batchSize;
      BatchIdsAreFirst(db, p.after, n);
      FirstRowsExactly(PendingAfter(db, p.after), n, id);
      assert (set j | j in db.messages && NullRow(db, j) && p.after < j <= id)
          == (set y | y in PendingAfter(db, p.after) && y <= id);
      hide BatchIds;
    }
  }

  lemma {:induction false} WithinSplits(db: Db, size: nat, left: Option<int>, after: int)
    requires (left.Some? ==> left.value >= 1) && NextTurn(db, after, size).Batch?
    ensures var turn := NextTurn(db, after, size);
            && Within(db, size, left, after)
               == BatchIds(db, after, size) + Within(turn.db, size, OneFewer(left), turn.last)
            && Within(turn.db, size, OneFewer(left), turn.last) <= PendingAfter(turn.db, turn.last)
  {
    hide *;
    var turn := NextTurn(db, after, size);
    WithinIs(db, size, left, after);
    if left.Some? {
      FewerBatches(left.value);
      OneTimeFewer(left.value, size);
      LimitedSplits(db, size, (left.value - 1) * size, after);
      WithinIs(turn.db, size, OneFewer(left), turn.last);
    } else {
      FewerOfNone();
      UnlimitedSplits(db, size, after);
      WithinIs(turn.db, size, None, turn.last);
    }
  }

  lemma {:induction false} WithinIs(db: Db, size: nat, left: Option<int>, after: int)
    requires left.Some? ==> left.value >= 0
    ensures left.Some? ==>
      left.value * size >= 0 && Within(db, size, left, after) == BatchIds(db, after, left.value * size)
    ensures left.None? ==> Within(db, size, left, after) == PendingAfter(db, after)
  {
    hide BatchIds, PendingAfter;
  }

  lemma {:induction false} FewerBatches(left: int)
    ensures OneFewer(Some(left)) == Some(left - 1)
  {
  }

  lemma {:induction false} FewerOfNone()
    ensures OneFewer(None) == None
  {
  }

  lemma {:induction false} LimitedSplits(db: Db, size: nat, more: nat, after: int)
    requires NextTurn(db, after, size).Batch?
    ensures var turn := NextTurn(db, after, size);
            && BatchIds(db, after, size + more) == BatchIds(db, after, size) + BatchIds(turn.db, turn.last, more)
            && BatchIds(turn.db, turn.last, more) <= PendingAfter(turn.db, turn.last)
  {
    hide *;
    var turn := NextTurn(db, after, size);
    TurnTakesFirst(db, after, size, more);
    TurnFacts(turn.db, turn.last, more);
  }

  lemma {:induction false} UnlimitedSplits(db: Db, size: nat, after: int)
    requires NextTurn(db, after, size).Batch?
    ensures var turn := NextTurn(db, after, size);
            PendingAfter(db, after) == BatchIds(db, after, size) + PendingAfter(turn.db, turn.last)
  {
    hide *;
    TurnLeaves(db, after, size);
    TurnFacts(db, after, size);
  }

  lemma {:induction false} NothingWithin(db: Db, size: nat, left: Option<int>, after: int)
    requires size >= 1 && (left.Some? ==> left.value >= 0)
    requires NextTurn(db, after, size).NoRows? || left == Some(0)
    ensures Within(db, size, left, after) == {}
  {
    TurnFacts(db, after, size);
    hide NextTurn, ApplyBatch, Compatible, MissingSessions, BatchIds;
    if left.Some? {
      NoRowsWithin(db, after);
      TurnFacts(db, after, left.value * size);
    }
  }

  lemma {:induction false} LastOfBatch(db: Db, after: int, size: nat)
    requires NextTurn(db, after, size).Batch?
    ensures var (last, ids) := (NextTurn(db, after, size).last, BatchIds(db, after, size));
            last in ids && forall id :: id in ids ==> id <= last
  {
    hide *;
    var all := Ascending(PendingAfter(db, after));
    LastRow(db, after, size);
    SelectedIsPrefix(db, after, size);
    PendingInOrder(db, after);
    LastOfPrefix(all, SelectBatch(db, after, size));
    BatchIsSelected(db, after, size);
  }

  lemma {:induction false} BatchIsSelected(db: Db, after: int, size: nat)
    ensures BatchIds(db, after, size) == RowSet(SelectBatch(db, after, size))
  {
    hide SelectBatch, RowSet;
  }

  lemma {:induction false} PendingInOrder(db: Db, after: int)
    ensures var all := Ascending(PendingAfter(db, after)); forall i, j :: 0 <= i < j < |all| ==> all[i] < all[j]
  {
    AscendingEnumerates(PendingAfter(db, after));
    hide Ascending, PendingAfter;
  }

  lemma {:induction false} SelectedIsPrefix(db: Db, after: int, size: nat)
    ensures var (all, rows) := (Ascending(PendingAfter(db, after)), SelectBatch(db, after, size));
            |rows| <= |all| && rows == all[..|rows|]
  {
    hide Ascending, PendingAfter;
  }

  lemma {:induction false} LastOfPrefix(all: seq<int>, rows: seq<int>)
    requires rows != [] && |rows| <= |all| && rows == all[..|rows|]
    requires forall i, j :: 0 <= i < j < |all| ==> all[i] < all[j]
    ensures rows[|rows| - 1] in RowSet(rows) && forall id :: id in RowSet(rows) ==> id <= rows[|rows| - 1]
  {
  }

  lemma {:induction false} LastRow(db: Db, after: int, size: nat)
    requires NextTurn(db, after, size).Batch?
    ensures var rows := SelectBatch(db, after, size);
            rows != [] && NextTurn(db, after, size).last == rows[|rows| - 1]
  {
    hide SelectBatch, BatchStep, RowSet;
  }

  ghost predicate IsLast(last: Option<MessageId>, ids: set<MessageId>)
  {
    && (last.None? <==> ids == {})
    && (last.Some? ==> last.value in ids && forall id :: id in ids ==> id <= last.value)
  }

  /** A run that is not stopped fills exactly the rows it gets to. */
  lemma {:induction false} BatchesFill(db: Db, size: nat, left: Option<int>, after: int)
    requires size >= 1 && (left.Some? ==> left.value >= 0)
    ensures var (r, ids) := (RunBatches(db, size, left, after), Within(db, size, left, after));
            !r.raised ==> AllPending(r.db) == AllPending(db) - ids && r.updated == |ids| && IsLast(r.last, ids)
    decreases |PendingAfter(db, after)|
  {
    hide NextTurn, BatchIds, AllPending, Within, PendingAfter, Compatible, ApplyBatch, MissingSessions;
    var turn := NextTurn(db, after, size);
    if (left.Some? && left.value == 0) || turn.NoRows? {
      NothingWithin(db, size, left, after);
    } else if turn.Batch? {
      TurnShrinksPending(db, after, size);
      WithinSplits(db, size, left, after);
      TurnFills(db, after, size);
      BatchesFill(turn.db, size, OneFewer(left), turn.last);
      LastOfBatch(db, after, size);
      var ids, rest := BatchIds(db, after, size), Within(turn.db, size, OneFewer(left), turn.last);
      PendingIsAbove(turn.db, turn.last);
      assert forall id :: id in rest ==> id in PendingAfter(turn.db, turn.last);
      assert forall id :: id in rest ==> id > turn.last;
      assert ids !! rest;
      DisjointCardinality(ids, rest);
    }
  }

  lemma {:induction false} PendingIsAbove(db: Db, after: int)
    ensures forall id :: id in PendingAfter(db, after) ==> id > after
  {
  }

  lemma {:induction false} TurnFills(db: Db, after: int, size: nat)
    requires NextTurn(db, after, size).Batch?
    ensures var (turn, ids) := (NextTurn(db, after, size), BatchIds(db, after, size));
            AllPending(turn.db) == AllPending(db) - ids && turn.updated == |ids|
  {
    TurnFacts(db, after, size);
    PendingAfterBatch(db, BatchIds(db, after, size));
    hide *;
  }

  lemma {:induction false} WithinIsPending(db: Db, size: nat, left: Option<int>, after: int)
    requires left.Some? ==> left.value >= 0
    ensures Within(db, size, left, after) <= AllPending(db) <= db.messages.Keys
  {
    TurnFacts(db, after, if left.Some? then left.value * size else size);
    hide NextTurn, BatchIds, Compatible;
  }

  lemma {:induction false} RaisesWhenConflicting(db: Db, size: nat, left: Option<int>, after: int)
    requires size >= 1 && (left.Some? ==> left.value >= 0)
    ensures RunBatches(db, size, left, after).raised
            <==> exists id :: id in db.messages && id in Within(db, size, left, after) && Conflicting(db, id)
  {
    WithinIsPending(db, size, left, after);
    if left.Some? {
      LimitedRunRaisesExactlyOnConflict(db, size, left.value, after);
    } else {
      UnlimitedRunRaisesExactlyOnConflict(db, size, after);
    }
    hide RunBatches, Compatible, Conflicting, AllPending, BatchIds, PendingAfter;
    forall id | id in db.messages
      ensures Compatible(db, id) <==> !Conflicting(db, id)
    {
      CompatibleExactly(db, id);
    }
  }

  predicate Refusable(p: RunRequest)
  {
    p.batchSize < 1 || p.batchSize > 10_000 || (p.maxBatches.Some? && p.maxBatches.value < 1) || p.after < 0
  }

  lemma {:induction false} RefusedExactly(db: Db, p: RunRequest)
    ensures Run(db, p).InvalidRequest? <==> Refusable(p)
    ensures ValidRequest(p) <==> !Refusable(p)
  {
  }

  /** A request is refused exactly outside its limits; a run raises exactly when it
      gets to a conflicting row; otherwise it fills exactly the rows it gets to and
      reports how many they are, the last of them, and its state: failed on drift,
      partial while rows are left, complete otherwise. */
  lemma {:induction false} RunAnswersExactly(db: Db, p: RunRequest)
    ensures Run(db, p).InvalidRequest? <==> Refusable(p)
    ensures Run(db, p).Raised?
            <==> !Refusable(p) && exists id :: id in db.messages && Due(db, p, id) && Conflicting(db, id)
    ensures var r := Run(db, p);
            r.Returned? ==>
              && (forall id :: NullRow(r.db, id) <==> NullRow(db, id) && !Due(db, p, id))
              && r.updated == |set id | id in db.messages && Due(db, p, id)|
              && IsLast(r.last, set id | id in db.messages && Due(db, p, id))
              && r.status == if r.verification.drift != 0 then Failed
                             else if r.verification.pending != 0 then Partial else Complete
  {
    RefusedExactly(db, p);
    if !Refusable(p) {
      var within := Within(db, p.batchSize, p.maxBatches, p.after);
      RaisesWhenConflicting(db, p.batchSize, p.maxBatches, p.after);
      BatchesFill(db, p.batchSize, p.maxBatches, p.after);
      WithinIsPending(db, p.batchSize, p.maxBatches, p.after);
      forall id
        ensures Due(db, p, id) <==> id in within
      {
        DueExactly(db, p, id);
      }
      var due := set id | id in db.messages && Due(db, p, id);
      assert due == within;
      NullAfterRun(db, p);
      hide Due, Within, Conflicting, AllPending, RunBatches, ReconcileTimestamps, Verify, NullRow;
    }
  }

  lemma {:induction false} NullAfterRun(db: Db, p: RunRequest)
    requires ValidRequest(p)
    ensures var committed := RunBatches(db, p.batchSize, p.maxBatches, p.after).db;
            && (forall id :: NullRow(committed, id) <==> id in AllPending(committed))
            && (forall id :: NullRow(ReconcileTimestamps(committed), id) <==> NullRow(committed, id))
    ensures forall id :: NullRow(db, id) <==> id in AllPending(db)
  {
    hide RunBatches;
  }

  // ----- what the verification counts -------------------------------------------

  /** The session a row names, if the table has it. */
  function NamedSession(db: Db, id: MessageId): Option<Session>
    requires id in db.messages
  {
    var named := db.messages[id].sessionId;
    if named.Some? && named.value in db.sessions then Some(db.sessions[named.value]) else None
  }

  predicate LegacyRow(db: Db, id: MessageId)
  {
    && id in db.messages
    && (|| NullRow(db, id)
        || (NamedSession(db, id).Some? && NamedSession(db, id).value.snapshot.legacy)
        || db.messages[id].publicId == Some(MessageUuid(id)))
  }

  predicate MarkedSession(db: Db, u: Uuid)
  {
    u in db.sessions && db.sessions[u].snapshot.legacy
  }

  function OwnSession(m: Message): Uuid { SessionUuid(m.user, m.event) }

  /** Each counter of the message scan, row by row. */
  lemma {:induction false} MessageCountersExactly(db: Db)
    ensures var (v, ms) := (Verify(db), db.messages);
            && v.legacyMessages == |set id | id in ms && LegacyRow(db, id)|
            && v.pending == |set id | id in ms && NullRow(db, id)|
            && v.backfilled == |set id | id in ms && LegacyRow(db, id)
                 && ms[id].publicId == Some(MessageUuid(id)) && ms[id].sessionId == Some(OwnSession(ms[id]))|
            && v.publicIdMismatches == |set id | id in ms && LegacyRow(db, id)
                 && ms[id].publicId.Some? && ms[id].publicId.value != MessageUuid(id)|
            && v.sessionIdMismatches == |set id | id in ms && LegacyRow(db, id)
                 && ms[id].sessionId.Some? && ms[id].sessionId.value != OwnSession(ms[id])|
            && v.ownershipMismatches == |set id | id in ms && LegacyRow(db, id)
                 && NamedSession(db, id).Some? && NamedSession(db, id).value.user != ms[id].user|
            && v.eventMismatches == |set id | id in ms && LegacyRow(db, id) && ms[id].sessionId.Some?
                 && ms[id].event != if NamedSession(db, id).Some? then NamedSession(db, id).value.event else None|
  {
    var ms := db.messages;
    forall id
      ensures id in LegacyMessages(db) <==> LegacyRow(db, id)
    {
      LegacyRowsExactly(db, id);
    }
    hide LegacyRow, IsLegacyMessage, LegacyMessages;
    assert AllPending(db) == set id | id in ms && NullRow(db, id);
    assert LegacyMessages(db) == set id | id in ms && LegacyRow(db, id) by { LegacyRowsAreRows(db); }
    MismatchesExactly(db);
    assert BackfilledMessages(db) == set id | id in ms && LegacyRow(db, id)
      && ms[id].publicId == Some(MessageUuid(id)) && ms[id].sessionId == Some(OwnSession(ms[id])) by {
      LegacyRowsAreRows(db);
    }
    hide NullRow, NamedSession, PublicIdMismatches, SessionIdMismatches, OwnershipMismatches, EventMismatches;
    hide BackfilledMessages, AllPending;
  }

  lemma {:induction false} LegacyRowsExactly(db: Db, id: MessageId)
    ensures id in LegacyMessages(db) <==> LegacyRow(db, id)
  {
  }

  lemma {:induction false} LegacyRowsAreRows(db: Db)
    ensures forall id :: id in LegacyMessages(db) ==> id in db.messages
    ensures forall id :: LegacyRow(db, id) ==> id in db.messages
  {
  }

  lemma {:induction false} MismatchesExactly(db: Db)
    ensures var ms := db.messages;
            && PublicIdMismatches(db) == (set id | id in ms && LegacyRow(db, id)
                 && ms[id].publicId.Some? && ms[id].publicId.value != MessageUuid(id))
            && SessionIdMismatches(db) == (set id | id in ms && LegacyRow(db, id)
                 && ms[id].sessionId.Some? && ms[id].sessionId.value != OwnSession(ms[id]))
            && OwnershipMismatches(db) == (set id | id in ms && LegacyRow(db, id)
                 && NamedSession(db, id).Some? && NamedSession(db, id).value.user != ms[id].user)
            && EventMismatches(db) == (set id | id in ms && LegacyRow(db, id) && ms[id].sessionId.Some?
                 && ms[id].event != if NamedSession(db, id).Some? then NamedSession(db, id).value.event else None)
  {
    LegacyRowsAreRows(db);
    forall id
      ensures id in LegacyMessages(db) <==> LegacyRow(db, id)
    {
      LegacyRowsExactly(db, id);
    }
    hide LegacyRow, LegacyMessages, IsLegacyMessage;
  }

  /** Each counter of the session scan, the drift they add up to, and what makes
      the tables valid. */
  lemma {:induction false} SessionCountersExactly(db: Db)
    ensures var (v, ss) := (Verify(db), db.sessions);
            var expected := set id | id in db.messages && LegacyRow(db, id) :: OwnSession(db.messages[id]);
            var marked := set u | u in ss && MarkedSession(db, u);
            && v.expectedSessions == |expected| && v.legacySessions == |marked|
            && v.metadataMismatches == |set u | u in ss && MarkedSession(db, u)
                 && (u != SessionUuid(ss[u].user, ss[u].event) || ss[u].snapshot.version != Some(1))|
            && v.duplicateScopes == |marked| - |set u | u in marked :: (ss[u].user, ss[u].event)|
            && v.orphanSessions == |marked - expected|
            && v.drift == v.publicIdMismatches + v.sessionIdMismatches + v.ownershipMismatches + v.eventMismatches
                          + v.metadataMismatches + v.duplicateScopes + v.orphanSessions
            && (v.isValid <==> v.pending == 0 && v.drift == 0)
            && PreviewOf(db) == Preview(v.legacyMessages, v.pending, |expected|, |marked|, |expected - marked|)
  {
    var ss := db.sessions;
    assert LegacyMessages(db) == set id | id in db.messages && LegacyRow(db, id);
    var expected := set id | id in db.messages && LegacyRow(db, id) :: OwnSession(db.messages[id]);
    var marked := set u | u in ss && MarkedSession(db, u);
    assert ExpectedSessionIds(db) == expected;
    assert LegacySessions(db) == marked;
    assert MetadataMismatches(db) == set u | u in ss && MarkedSession(db, u)
      && (u != SessionUuid(ss[u].user, ss[u].event) || ss[u].snapshot.version != Some(1));
    assert OrphanSessions(db) == marked - expected;
    ScopePairs(db, marked);
    EmptyExactly(AllPending(db));
  }

  lemma {:induction false} EmptyExactly<T>(s: set<T>)
    ensures |s| == 0 <==> s == {}
  {
  }

  lemma {:induction false} ScopePairs(db: Db, us: set<Uuid>)
    requires us <= db.sessions.Keys
    ensures |set u | u in us :: ScopeOf(db.sessions[u])|
         == |set u | u in us :: (db.sessions[u].user, db.sessions[u].event)|
    decreases us
  {
    var scopes := set u | u in us :: ScopeOf(db.sessions[u]);
    var pairs := set u | u in us :: (db.sessions[u].user, db.sessions[u].event);
    SameSize(scopes, pairs);
  }

  lemma {:induction false} SameSize(scopes: set<Scope>, pairs: set<(UserId, Option<EventId>)>)
    requires forall x, y :: (x, y) in pairs <==> Scope(x, y) in scopes
    ensures |scopes| == |pairs|
    decreases scopes
  {
    if scopes == {} {
      forall p | p in pairs
        ensures Scope(p.0, p.1) in scopes
      {
        assert (p.0, p.1) in pairs;
      }
      assert pairs == {};
    } else {
      var s :| s in scopes;
      assert (s.user, s.event) in pairs;
      SameSize(scopes - {s}, pairs - {(s.user, s.event)});
    }
  }
}
