/** The reconciler over whole runs: what every operation keeps, and that a
    reconciled turn stays visible in every cached page set. */
module TurnReconciliationRuns {
  import opened Ordering
  import opened TurnReconciliation
  import opened TurnReconciliationTheorems

  // ----- the record list ------------------------------------------------------

  ghost predicate UniqueKeys(records: seq<Record>)
  {
    forall i, j :: 0 <= i < j < |records| ==> records[i].key != records[j].key
  }

  ghost predicate UniqueTurns(records: seq<Record>)
  {
    forall i, j :: 0 <= i < j < |records| ==> records[i].turn.id != records[j].turn.id
  }

  ghost predicate GoodRecords(records: seq<Record>, cfg: Config)
  {
    && AllValid(records) && UniqueKeys(records) && UniqueTurns(records)
    && Sorted(records, RecordOrder(cfg.collate))
    && forall r :: r in records ==> r.session == cfg.scope.session
  }

  /** Every record of `a` is still there with its key, turn and session, and synced stays synced. */
  ghost predicate KeepsRecords(a: seq<Record>, b: seq<Record>)
  {
    forall r :: r in a ==> exists s :: s in b && Succeeds(r, s)
  }

  predicate Succeeds(r: Record, s: Record)
  {
    s.key == r.key && s.turn == r.turn && s.session == r.session && (r.state == Synced ==> s.state == Synced)
  }

  /** The record built by `reconcile` always satisfies the schema once the
      persisted turn has passed `validatePersistedMatch`. */
  lemma {:induction false} SyncedRecordAlwaysValid(r: Record, p: Turn, retained: bool)
    requires ValidRecord(r) && ValidTurn(p) && PersistedMatch(r, p)
    ensures ValidRecord(SyncedRecord(r, p, retained))
  {
  }

  lemma {:induction false} FreshRecordAlwaysValid(input: PendingTurn, persisted: bool)
    requires ValidTurn(input.turn) && OptimisticTurn(input.turn)
    ensures ValidRecord(FreshRecord(input, persisted))
  {
  }

  /** A refused operation leaves the whole cache as it was, pages included. */
  lemma {:induction false} RefusedChangesNothing(cache: Cache, cfg: Config, op: Op)
    requires Apply(cache, cfg, op).Refused?
    ensures Apply(cache, cfg, op).cache == cache
  {
    if op.ReconcileOp? {
      var records := RecordsOf(cache, cfg.scope);
      if ValidTurn(op.persisted) && AllValid(records) && HasKey(records, op.key) {
        var r := FirstWithKey(records, op.key);
        if PersistedMatch(r, op.persisted) {
          SyncedRecordAlwaysValid(r, op.persisted, RetainedEverywhere(cache, cfg.scope, op.persisted));
        }
      }
    }
  }

  /** Operations of one owner and session leave every other scope alone. */
  lemma {:induction false} OtherScopesUntouched(cache: Cache, cfg: Config, op: Op, scope: Scope)
    requires scope != cfg.scope
    ensures var after := Apply(cache, cfg, op).cache;
            && RecordsOf(after, scope) == RecordsOf(cache, scope)
            && KeysOf(after, scope) == KeysOf(cache, scope)
            && forall k :: k in KeysOf(cache, scope) ==> after.pages[k] == cache.pages[k]
  {
    hide Upsert, Sort, ReplaceKey, ValidRecord, AllValid;
  }

  lemma {:induction false} UniqueKeyPositions(records: seq<Record>, key: Id)
    requires UniqueKeys(records) && HasKey(records, key)
    ensures FirstWithKey(records, key) == LastWithKey(records, key)
    ensures forall r :: r in records && r.key == key ==> r == FirstWithKey(records, key)
  {
    var f, l := FirstWithKey(records, key), LastWithKey(records, key);
    forall r | r in records && r.key == key
      ensures r == f
    {
      var i :| 0 <= i < |records| && records[i] == r;
      var j :| 0 <= j < |records| && records[j] == f;
      assert i == j;
    }
  }

  lemma {:induction false} ReplacedShape(records: seq<Record>, key: Id, f: Record -> Record, cfg: Config)
    requires GoodRecords(records, cfg)
    requires forall r :: r in records && r.key == key ==> ValidRecord(f(r)) && Succeeds(r, f(r))
    ensures GoodRecords(ReplaceKey(records, key, f), cfg)
    ensures KeepsRecords(records, ReplaceKey(records, key, f))
  {
    var next := ReplaceKey(records, key, f);
    assert forall i :: 0 <= i < |records| ==> Succeeds(records[i], next[i]) && ValidRecord(next[i]) by {
      forall i | 0 <= i < |records|
        ensures Succeeds(records[i], next[i]) && ValidRecord(next[i])
      {
        assert records[i] in records;
      }
    }
    hide ReplaceKey, ValidRecord;
    forall r | r in records
      ensures exists s :: s in next && Succeeds(r, s)
    {
      var i :| 0 <= i < |records| && records[i] == r;
      assert next[i] in next;
    }
    assert forall i :: 0 <= i < |records| ==> records[i] in records;
  }

  lemma {:induction false} InsertedShape(records: seq<Record>, record: Record, cfg: Config)
    requires TotalPreorder(cfg.collate) && GoodRecords(records, cfg)
    requires ValidRecord(record) && record.session == cfg.scope.session
    requires !HasKey(records, record.key) && !exists r :: r in records && r.turn.id == record.turn.id
    ensures GoodRecords(Sort(records + [record], RecordOrder(cfg.collate)), cfg)
    ensures KeepsRecords(records, Sort(records + [record], RecordOrder(cfg.collate)))
  {
    var le := RecordOrder(cfg.collate);
    PairOrderIsPreorder(cfg.collate);
    SortSorts(records + [record], le);
    SortPermutes(records + [record], le);
    AppendedUnique(records, record);
    hide Sort, RecordOrder, ValidRecord, HasKey;
    var next := Sort(records + [record], le);
    UniqueAfterPermutation(records + [record], next);
    assert forall r :: r in next <==> r in records || r == record;
    assert forall r :: r in records ==> Succeeds(r, r) && r in next;
  }

  lemma {:induction false} AppendedUnique(records: seq<Record>, record: Record)
    requires UniqueKeys(records) && UniqueTurns(records)
    requires !HasKey(records, record.key) && !exists r :: r in records && r.turn.id == record.turn.id
    ensures UniqueBoth(records + [record])
  {
    assert forall i :: 0 <= i < |records| ==> records[i] in records;
  }

  ghost predicate UniqueBoth(records: seq<Record>)
  {
    forall i, j :: 0 <= i < j < |records| ==>
      records[i].key != records[j].key && records[i].turn.id != records[j].turn.id
  }

  lemma {:induction false} UniqueAfterPermutation(a: seq<Record>, b: seq<Record>)
    requires multiset(a) == multiset(b) && UniqueBoth(a)
    ensures UniqueBoth(b)
  {
    PairwisePermuted(a, b, (r: Record, s: Record) => r.key != s.key && r.turn.id != s.turn.id);
  }

  /** Every operation keeps the record list valid, sorted and unique, and keeps
      every record with its key and turn; synced is absorbing. */
  lemma {:induction false} StepKeepsRecords(cache: Cache, cfg: Config, op: Op)
    requires TotalPreorder(cfg.collate) && GoodRecords(RecordsOf(cache, cfg.scope), cfg)
    ensures GoodRecords(RecordsOf(Apply(cache, cfg, op).cache, cfg.scope), cfg)
    ensures KeepsRecords(RecordsOf(cache, cfg.scope), RecordsOf(Apply(cache, cfg, op).cache, cfg.scope))
  {
    var records := RecordsOf(cache, cfg.scope);
    assert forall r :: r in records ==> Succeeds(r, r);
    if Apply(cache, cfg, op).Refused? {
      RefusedChangesNothing(cache, cfg, op);
    } else {
      match op
      case BeginOp(input) => BeginKeepsRecords(cache, cfg, input);
      case ReconcileOp(key, p) => ReconcileKeepsRecords(cache, cfg, key, p);
      case MarkUnsyncedOp(key, code) =>
        assert forall r :: r in records && r.key == key ==> ValidRecord(FailedRecord(r, code));
        ReplacedShape(records, key, r => FailedRecord(r, code), cfg);
      case RetryOp(key) =>
        assert forall r :: r in records && r.key == key ==> ValidRecord(RetriedRecord(r));
        ReplacedShape(records, key, r => RetriedRecord(r), cfg);
    }
  }

  lemma {:induction false} BeginKeepsRecords(cache: Cache, cfg: Config, input: PendingTurn)
    requires TotalPreorder(cfg.collate) && GoodRecords(RecordsOf(cache, cfg.scope), cfg)
    requires Begin(cache, cfg, input).Done?
    ensures GoodRecords(RecordsOf(Begin(cache, cfg, input).cache, cfg.scope), cfg)
    ensures KeepsRecords(RecordsOf(cache, cfg.scope), RecordsOf(Begin(cache, cfg, input).cache, cfg.scope))
  {
    var records := RecordsOf(cache, cfg.scope);
    hide GoodRecords, ValidRecord, AllValid, OptimisticTurn, Sort;
    assert forall r :: r in records ==> Succeeds(r, r);
    if !HasKey(records, input.key) {
      InsertedShape(records, FreshRecord(input, CachedTurn(cache, cfg.scope, input.turn.id)), cfg);
    }
  }

  lemma {:induction false} ReconcileKeepsRecords(cache: Cache, cfg: Config, key: Id, p: Turn)
    requires TotalPreorder(cfg.collate) && GoodRecords(RecordsOf(cache, cfg.scope), cfg)
    requires Reconcile(cache, cfg, key, p).Done?
    ensures GoodRecords(RecordsOf(Reconcile(cache, cfg, key, p).cache, cfg.scope), cfg)
    ensures KeepsRecords(RecordsOf(cache, cfg.scope), RecordsOf(Reconcile(cache, cfg, key, p).cache, cfg.scope))
  {
    var records := RecordsOf(cache, cfg.scope);
    UniqueKeyPositions(records, key);
    var synced := Reconcile(cache, cfg, key, p).record;
    ReplacedShape(records, key, _ => synced, cfg);
  }

  lemma {:induction false} RunKeepsRecords(cache: Cache, cfg: Config, ops: seq<Op>)
    requires TotalPreorder(cfg.collate) && GoodRecords(RecordsOf(cache, cfg.scope), cfg)
    ensures GoodRecords(RecordsOf(RunOps(cache, cfg, ops), cfg.scope), cfg)
    ensures KeepsRecords(RecordsOf(cache, cfg.scope), RecordsOf(RunOps(cache, cfg, ops), cfg.scope))
    decreases |ops|
  {
    hide GoodRecords, Apply;
    if ops == [] {
      assert forall r :: r in RecordsOf(cache, cfg.scope) ==> Succeeds(r, r);
    } else {
      StepKeepsRecords(cache, cfg, ops[0]);
      RunKeepsRecords(Apply(cache, cfg, ops[0]).cache, cfg, ops[1..]);
      KeepsTransitive(RecordsOf(cache, cfg.scope), RecordsOf(Apply(cache, cfg, ops[0]).cache, cfg.scope),
                      RecordsOf(RunOps(cache, cfg, ops), cfg.scope));
    }
  }

  lemma {:induction false} KeepsTransitive(a: seq<Record>, b: seq<Record>, c: seq<Record>)
    requires KeepsRecords(a, b) && KeepsRecords(b, c)
    ensures KeepsRecords(a, c)
  {
    forall r | r in a
      ensures exists t :: t in c && Succeeds(r, t)
    {
      var s :| s in b && Succeeds(r, s);
      var t :| t in c && Succeeds(s, t);
      assert Succeeds(r, t);
    }
  }
}
