/** Which turns the merged view of every cached page set shows. */
module TurnVisibility {
  import opened Foundations
  import opened Ordering
  import opened TurnReconciliation
  import opened TurnReconciliationTheorems
  import opened TurnReconciliationRuns

  function View(cache: Cache, cfg: Config, k: PageKey): seq<Turn>
    requires k in cache.pages
  {
    MergedView(cache.pages[k], RecordsOf(cache, cfg.scope), cfg.collate)
  }

  /** The id is shown exactly once in the view of every cached page set, and there is one. */
  ghost predicate ShownEverywhere(cache: Cache, cfg: Config, id: Id)
  {
    && KeysOf(cache, cfg.scope) != {}
    && forall k :: k in KeysOf(cache, cfg.scope) ==> ShownOnce(View(cache, cfg, k), id)
  }

  /** The same, without the view: by the page or by an overlay. */
  ghost predicate HeldEverywhere(cache: Cache, scope: Scope, id: Id)
  {
    && KeysOf(cache, scope) != {}
    && (Overlaid(RecordsOf(cache, scope), id)
        || forall k :: k in KeysOf(cache, scope) ==> HasId(ItemsOf(cache.pages[k]), id))
  }

  lemma {:induction false} HeldIsShown(cache: Cache, cfg: Config, id: Id)
    requires TotalPreorder(cfg.collate)
    ensures HeldEverywhere(cache, cfg.scope, id) <==> ShownEverywhere(cache, cfg, id)
  {
    forall k | k in KeysOf(cache, cfg.scope)
      ensures ShownOnce(View(cache, cfg, k), id)
              <==> HasId(ItemsOf(cache.pages[k]), id) || Overlaid(RecordsOf(cache, cfg.scope), id)
    {
      MergedViewEffect(cache.pages[k], RecordsOf(cache, cfg.scope), cfg.collate);
    }
    hide View, ShownOnce, Overlaid, HasId;
  }

  /** Over any pages, the view shows the turn of a record unless the record is
      synced without an overlay and the page does not hold it. */
  lemma {:induction false} RecordShownExactly(data: Option<Pages>, records: seq<Record>, r: Record, collate: Collation)
    requires TotalPreorder(collate) && r in records && AllValid(records) && UniqueTurns(records)
    ensures ShownOnce(MergedView(data, records, collate), r.turn.id)
            <==> r.state != Synced || r.resolved.Some? || HasId(ItemsOf(data), r.turn.id)
  {
    MergedViewEffect(data, records, collate);
    OverlayOfTurn(records, r);
    hide MergedView, ValidRecord;
  }

  lemma {:induction false} OverlayId(r: Record)
    requires ValidRecord(r)
    ensures Overlay(r).Some? ==> Overlay(r).value.id == r.turn.id
  {
  }

  lemma {:induction false} OverlayOfTurn(records: seq<Record>, r: Record)
    requires r in records && AllValid(records) && UniqueTurns(records)
    ensures Overlaid(records, r.turn.id) <==> Overlay(r).Some?
    ensures forall s :: s in records && Overlay(s).Some? && Overlay(s).value.id == r.turn.id ==> s == r
  {
    OverlayId(r);
    forall s | s in records && Overlay(s).Some? && Overlay(s).value.id == r.turn.id
      ensures s == r
    {
      OverlayId(s);
      var i :| 0 <= i < |records| && records[i] == s;
      var j :| 0 <= j < |records| && records[j] == r;
      assert i == j;
    }
    hide ValidRecord;
  }

  // ----- reconcile shows the persisted turn --------------------------------

  lemma {:induction false} OverlayMember(entries: seq<Turn>, records: seq<Record>, t: Turn)
    requires t in WithOverlays(entries, records)
    ensures t in entries || exists r :: r in records && Overlay(r) == Some(t)
  {
    if records != [] && t !in entries {
      var init, last := records[..|records| - 1], records[|records| - 1];
      assert records == init + [last];
      var done := WithOverlays(entries, init);
      if t in done {
        OverlayMember(entries, init, t);
        var r :| r in init && Overlay(r) == Some(t);
        assert r in records;
      } else {
        assert last in records && Overlay(last) == Some(t);
      }
    }
  }

  lemma {:induction false} MergedViewShowsOverlay(
    data: Option<Pages>, records: seq<Record>, collate: Collation, r: Record, p: Turn)
    requires TotalPreorder(collate)
    requires r in records && Overlay(r) == Some(p) && !HasId(ItemsOf(data), p.id)
    requires forall s :: s in records && Overlay(s).Some? && Overlay(s).value.id == p.id ==> s == r
    ensures p in MergedView(data, records, collate)
  {
    var entries := ById(ItemsOf(data));
    var merged := WithOverlays(entries, records);
    ByIdEffect(ItemsOf(data));
    OverlaysEffect(entries, records);
    SortPermutes(merged, TurnOrder(collate));
    hide WithOverlays, ById, Sort;
    assert Overlaid(records, p.id);
    var u :| u in merged && u.id == p.id;
    OverlayMember(entries, records, u);
    assert u !in entries;
    assert u == p;
  }

  lemma {:induction false} UpsertedKeys(cache: Cache, scope: Scope, p: Turn)
    ensures var after := cache.(pages := UpsertedPages(cache, scope, p));
            && KeysOf(after, scope) != {}
            && (KeysOf(cache, scope) != {} ==> KeysOf(after, scope) == KeysOf(cache, scope))
            && (forall k :: k in KeysOf(cache, scope) ==> after.pages[k] == Some(Upsert(cache.pages[k], p).0))
            && (KeysOf(cache, scope) == {} ==> forall k :: k in KeysOf(after, scope) ==>
                  after.pages[k] == Some(Upsert(None, p).0))
  {
    var after := cache.(pages := UpsertedPages(cache, scope, p));
    hide Upsert;
    if KeysOf(cache, scope) == {} {
      assert PageKey(scope, DEFAULT_TURN_PAGE_SIZE) in KeysOf(after, scope);
    } else {
      assert KeysOf(after, scope) == KeysOf(cache, scope);
    }
  }

  /** What one page set holds of the persisted turn after the upsert. */
  lemma {:induction false} UpsertedPage(cache: Cache, scope: Scope, p: Turn, k: PageKey)
    requires k in KeysOf(cache.(pages := UpsertedPages(cache, scope, p)), scope)
    ensures var items := ItemsOf(UpsertedPages(cache, scope, p)[k]);
            && (RetainedEverywhere(cache, scope, p) ==> WithId(items, p.id) == [p])
            && (WithId(items, p.id) == [p] || !HasId(items, p.id))
  {
    hide Upsert, WithId, Others, HasId, FlatItems;
    UpsertedKeys(cache, scope, p);
    NothingCachedIsRetained(p);
    var data := if k in KeysOf(cache, scope) then cache.pages[k] else None;
    UpsertEffect(data, p);
    assert UpsertedPages(cache, scope, p)[k] == Some(Upsert(data, p).0);
    hide UpsertedPages;
    HasIdIsWithId(ItemsOf(UpsertedPages(cache, scope, p)[k]), p.id);
  }

  lemma {:induction false} NothingCachedIsRetained(p: Turn)
    ensures Upsert(None, p).1
  {
  }

  /** After `reconcile`, the merged view of every cached page set of the session
      shows the persisted turn exactly once, from the page or from the overlay. */
  lemma {:induction false} ReconcileShowsPersistedTurn(cache: Cache, cfg: Config, key: Id, p: Turn, k: PageKey)
    requires TotalPreorder(cfg.collate) && GoodRecords(RecordsOf(cache, cfg.scope), cfg)
    requires Reconcile(cache, cfg, key, p).Done?
    requires k in KeysOf(Reconcile(cache, cfg, key, p).cache, cfg.scope)
    ensures var view := View(Reconcile(cache, cfg, key, p).cache, cfg, k);
            p in view && DistinctIds(view) && Sorted(view, TurnOrder(cfg.collate))
  {
    hide MergedView, RetainedEverywhere, WithId, HasId, ValidRecord, UpsertedPages;
    var after := Reconcile(cache, cfg, key, p).cache;
    var synced := Reconcile(cache, cfg, key, p).record;
    var records := RecordsOf(after, cfg.scope);
    assert after.pages == UpsertedPages(cache, cfg.scope, p);
    assert k in KeysOf(cache.(pages := UpsertedPages(cache, cfg.scope, p)), cfg.scope);
    hide Reconcile;
    ReconcileKeepsRecords(cache, cfg, key, p);
    SyncedStored(cache, cfg, key, p);
    MergedViewEffect(after.pages[k], records, cfg.collate);
    UpsertedPage(cache, cfg.scope, p, k);
    OverlayOfTurn(records, synced);
    hide KeysOf;
    if WithId(ItemsOf(after.pages[k]), p.id) == [p] {
      MergedViewKeepsPageTurn(after.pages[k], records, cfg.collate, p);
    } else {
      MergedViewShowsOverlay(after.pages[k], records, cfg.collate, synced, p);
    }
  }

  lemma {:induction false} SyncedStored(cache: Cache, cfg: Config, key: Id, p: Turn)
    requires GoodRecords(RecordsOf(cache, cfg.scope), cfg)
    requires Reconcile(cache, cfg, key, p).Done?
    ensures var r := Reconcile(cache, cfg, key, p);
            && r.record in RecordsOf(r.cache, cfg.scope)
            && r.record.turn.id == p.id && r.record.key == key && r.record.state == Synced
            && r.record.resolved == (if RetainedEverywhere(cache, cfg.scope, p) then None else Some(p))
            && RecordsOf(r.cache, cfg.scope) == ReplaceKey(RecordsOf(cache, cfg.scope), key, _ => r.record)
  {
    var records := RecordsOf(cache, cfg.scope);
    var first := FirstWithKey(records, key);
    var i :| 0 <= i < |records| && records[i] == first;
    hide UpsertedPages, RetainedEverywhere, ValidRecord, GoodRecords;
    assert ReplaceKey(records, key, _ => Reconcile(cache, cfg, key, p).record)[i]
           == Reconcile(cache, cfg, key, p).record;
  }

  // ----- visibility over runs ---------------------------------------------

  lemma {:induction false} HasIdInOthers(items: seq<Turn>, id: Id, other: Id)
    requires other != id
    ensures HasId(items, other) <==> HasId(Others(items, id), other)
  {
    if items != [] {
      var init, last := items[..|items| - 1], items[|items| - 1];
      assert items == init + [last];
      HasIdInOthers(init, id, other);
      HasIdSplit(init, last, other);
      HasIdSplit(Others(init, id), last, other);
      assert Others(init, id) + [] == Others(init, id);
    }
  }

  lemma {:induction false} HasIdSplit(items: seq<Turn>, t: Turn, id: Id)
    ensures HasId(items + [t], id) <==> HasId(items, id) || t.id == id
  {
    assert forall u :: u in items + [t] <==> u in items || u == t;
  }

  /** A reconcile keeps every other id in every page set. */
  lemma {:induction false} UpsertKeepsOtherIds(cache: Cache, scope: Scope, p: Turn, k: PageKey, id: Id)
    requires id != p.id && k in KeysOf(cache, scope)
    ensures k in UpsertedPages(cache, scope, p)
    ensures HasId(ItemsOf(UpsertedPages(cache, scope, p)[k]), id) <==> HasId(ItemsOf(cache.pages[k]), id)
  {
    UpsertedKeys(cache, scope, p);
    UpsertEffect(cache.pages[k], p);
    HasIdInOthers(ItemsOf(UpsertedPages(cache, scope, p)[k]), p.id, id);
    HasIdInOthers(ItemsOf(cache.pages[k]), p.id, id);
    hide Upsert, WithId, Others, HasId, FlatItems;
  }

  /** Replacing one record by records with the same overlay id keeps the overlaid ids. */
  lemma {:induction false} OverlaysKept(a: seq<Record>, b: seq<Record>, id: Id)
    requires |a| == |b|
    requires forall i :: 0 <= i < |a| ==> Overlay(a[i]).Some? && Overlay(a[i]).value.id == id ==>
               Overlay(b[i]).Some? && Overlay(b[i]).value.id == id
    ensures Overlaid(a, id) ==> Overlaid(b, id)
  {
    if Overlaid(a, id) {
      var r :| r in a && Overlay(r).Some? && Overlay(r).value.id == id;
      var i :| 0 <= i < |a| && a[i] == r;
      assert b[i] in b;
    }
  }

  lemma {:induction false} StepKeepsHeld(cache: Cache, cfg: Config, op: Op, id: Id)
    requires TotalPreorder(cfg.collate) && GoodRecords(RecordsOf(cache, cfg.scope), cfg)
    requires HeldEverywhere(cache, cfg.scope, id)
    ensures HeldEverywhere(Apply(cache, cfg, op).cache, cfg.scope, id)
  {
    if Apply(cache, cfg, op).Refused? {
      RefusedChangesNothing(cache, cfg, op);
    } else {
      match op
      case BeginOp(input) => BeginKeepsHeld(cache, cfg, input, id);
      case ReconcileOp(key, p) => ReconcileKeepsHeld(cache, cfg, key, p, id);
      case MarkUnsyncedOp(key, code) => MarkKeepsHeld(cache, cfg, key, code, id);
      case RetryOp(key) => RetryKeepsHeld(cache, cfg, key, id);
    }
  }

  lemma {:induction false} SamePages(cache: Cache, scope: Scope, records: seq<Record>, id: Id)
    requires HeldEverywhere(cache, scope, id)
    requires Overlaid(RecordsOf(cache, scope), id) ==> Overlaid(records, id)
    ensures HeldEverywhere(StoreRecords(cache, scope, records), scope, id)
  {
    assert KeysOf(StoreRecords(cache, scope, records), scope) == KeysOf(cache, scope);
    hide Overlaid, HasId;
  }

  lemma {:induction false} BeginKeepsHeld(cache: Cache, cfg: Config, input: PendingTurn, id: Id)
    requires HeldEverywhere(cache, cfg.scope, id) && Begin(cache, cfg, input).Done?
    ensures HeldEverywhere(Begin(cache, cfg, input).cache, cfg.scope, id)
  {
    var records := RecordsOf(cache, cfg.scope);
    hide HeldEverywhere, ValidRecord, Sort;
    if !HasKey(records, input.key) {
      var record := FreshRecord(input, CachedTurn(cache, cfg.scope, input.turn.id));
      var next := Sort(records + [record], RecordOrder(cfg.collate));
      SortPermutes(records + [record], RecordOrder(cfg.collate));
      assert forall r :: r in records ==> r in next;
      SamePages(cache, cfg.scope, next, id);
    }
  }

  lemma {:induction false} MarkKeepsHeld(cache: Cache, cfg: Config, key: Id, code: string, id: Id)
    requires HeldEverywhere(cache, cfg.scope, id) && MarkUnsynced(cache, cfg, key, code).Done?
    ensures HeldEverywhere(MarkUnsynced(cache, cfg, key, code).cache, cfg.scope, id)
  {
    var records := RecordsOf(cache, cfg.scope);
    hide HeldEverywhere, ValidRecord;
    var next := ReplaceKey(records, key, r => FailedRecord(r, code));
    assert forall i :: 0 <= i < |records| ==> records[i] in records;
    OverlaysKept(records, next, id);
    SamePages(cache, cfg.scope, next, id);
  }

  lemma {:induction false} RetryKeepsHeld(cache: Cache, cfg: Config, key: Id, id: Id)
    requires HeldEverywhere(cache, cfg.scope, id) && Retry(cache, cfg, key).Done?
    ensures HeldEverywhere(Retry(cache, cfg, key).cache, cfg.scope, id)
  {
    var records := RecordsOf(cache, cfg.scope);
    hide HeldEverywhere, ValidRecord;
    var next := ReplaceKey(records, key, r => RetriedRecord(r));
    OverlaysKept(records, next, id);
    SamePages(cache, cfg.scope, next, id);
  }

  lemma {:induction false} ReconcileHolds(cache: Cache, cfg: Config, key: Id, p: Turn)
    requires GoodRecords(RecordsOf(cache, cfg.scope), cfg) && Reconcile(cache, cfg, key, p).Done?
    ensures HeldEverywhere(Reconcile(cache, cfg, key, p).cache, cfg.scope, p.id)
  {
    var r := Reconcile(cache, cfg, key, p);
    SyncedStored(cache, cfg, key, p);
    UpsertedKeys(cache, cfg.scope, p);
    assert r.cache.pages == UpsertedPages(cache, cfg.scope, p);
    assert KeysOf(r.cache, cfg.scope) == KeysOf(cache.(pages := UpsertedPages(cache, cfg.scope, p)), cfg.scope);
    hide Reconcile, UpsertedPages, ValidRecord, KeysOf;
    if RetainedEverywhere(cache, cfg.scope, p) {
      forall k | k in KeysOf(r.cache, cfg.scope)
        ensures HasId(ItemsOf(r.cache.pages[k]), p.id)
      {
        UpsertedPage(cache, cfg.scope, p, k);
        HasIdIsWithId(ItemsOf(r.cache.pages[k]), p.id);
      }
    } else {
      assert Overlay(r.record) == Some(p);
      assert Overlaid(RecordsOf(r.cache, cfg.scope), p.id);
    }
  }

  lemma {:induction false} ReconcileKeepsHeld(cache: Cache, cfg: Config, key: Id, p: Turn, id: Id)
    requires GoodRecords(RecordsOf(cache, cfg.scope), cfg) && Reconcile(cache, cfg, key, p).Done?
    requires HeldEverywhere(cache, cfg.scope, id)
    ensures HeldEverywhere(Reconcile(cache, cfg, key, p).cache, cfg.scope, id)
  {
    hide UpsertedPages, Overlaid, HasId, GoodRecords;
    if id == p.id {
      ReconcileHolds(cache, cfg, key, p);
    } else {
      var r := Reconcile(cache, cfg, key, p);
      ReconcileKeepsOverlays(cache, cfg, key, p, id);
      UpsertedKeys(cache, cfg.scope, p);
      assert r.cache.pages == UpsertedPages(cache, cfg.scope, p);
      assert KeysOf(r.cache, cfg.scope) == KeysOf(cache, cfg.scope);
      hide Reconcile, UpsertedPages, KeysOf, Overlaid, HasId;
      forall k | k in KeysOf(cache, cfg.scope)
        ensures HasId(ItemsOf(r.cache.pages[k]), id) <==> HasId(ItemsOf(cache.pages[k]), id)
      {
        UpsertKeepsOtherIds(cache, cfg.scope, p, k, id);
      }
    }
  }

  lemma {:induction false} ReconcileKeepsOverlays(cache: Cache, cfg: Config, key: Id, p: Turn, id: Id)
    requires GoodRecords(RecordsOf(cache, cfg.scope), cfg) && Reconcile(cache, cfg, key, p).Done? && id != p.id
    ensures Overlaid(RecordsOf(cache, cfg.scope), id) ==>
              Overlaid(RecordsOf(Reconcile(cache, cfg, key, p).cache, cfg.scope), id)
  {
    var records := RecordsOf(cache, cfg.scope);
    var r := Reconcile(cache, cfg, key, p);
    SyncedStored(cache, cfg, key, p);
    UniqueKeyPositions(records, key);
    var first := FirstWithKey(records, key);
    OverlayId(first);
    assert first.turn.id == p.id;
    hide Reconcile, ValidRecord;
    assert forall i :: 0 <= i < |records| ==> records[i] in records;
    OverlaysKept(records, ReplaceKey(records, key, _ => r.record), id);
  }

  lemma {:induction false} RunKeepsHeld(cache: Cache, cfg: Config, ops: seq<Op>, id: Id)
    requires TotalPreorder(cfg.collate) && GoodRecords(RecordsOf(cache, cfg.scope), cfg)
    requires HeldEverywhere(cache, cfg.scope, id)
    ensures HeldEverywhere(RunOps(cache, cfg, ops), cfg.scope, id)
    decreases |ops|
  {
    hide HeldEverywhere, GoodRecords, Apply;
    if ops != [] {
      StepKeepsRecords(cache, cfg, ops[0]);
      StepKeepsHeld(cache, cfg, ops[0], id);
      RunKeepsHeld(Apply(cache, cfg, ops[0]).cache, cfg, ops[1..], id);
    }
  }

  /** Once a turn has been reconciled, it is shown exactly once in the merged
      view of every cached page set after any further operations. */
  lemma {:induction false} ReconciledTurnStaysVisible(
    cache: Cache, cfg: Config, before: seq<Op>, key: Id, p: Turn, after: seq<Op>)
    requires TotalPreorder(cfg.collate) && GoodRecords(RecordsOf(cache, cfg.scope), cfg)
    requires Reconcile(RunOps(cache, cfg, before), cfg, key, p).Done?
    ensures ShownEverywhere(RunOps(Reconcile(RunOps(cache, cfg, before), cfg, key, p).cache, cfg, after), cfg, p.id)
  {
    var start := RunOps(cache, cfg, before);
    RunKeepsRecords(cache, cfg, before);
    ReconcileHolds(start, cfg, key, p);
    StepKeepsRecords(start, cfg, ReconcileOp(key, p));
    var next := Reconcile(start, cfg, key, p).cache;
    assert Apply(start, cfg, ReconcileOp(key, p)).cache == next;
    hide Reconcile, HeldEverywhere, ShownEverywhere, GoodRecords;
    RunKeepsHeld(next, cfg, after, p.id);
    HeldIsShown(RunOps(next, cfg, after), cfg, p.id);
  }

  // ----- the begin race -----------------------------------------------------------

  /** A turn that the server persisted before `begin` starts out synced without
      an overlay: it is shown in a page set exactly when that page set holds it. */
  lemma {:induction false} RacedBeginShownExactly(cache: Cache, cfg: Config, input: PendingTurn, k: PageKey)
    requires TotalPreorder(cfg.collate) && GoodRecords(RecordsOf(cache, cfg.scope), cfg)
    requires Begin(cache, cfg, input).Done? && !HasKey(RecordsOf(cache, cfg.scope), input.key)
    requires k in KeysOf(cache, cfg.scope)
    ensures k in Begin(cache, cfg, input).cache.pages
    ensures ShownOnce(View(Begin(cache, cfg, input).cache, cfg, k), input.turn.id)
            <==> !CachedTurn(cache, cfg.scope, input.turn.id) || HasId(ItemsOf(cache.pages[k]), input.turn.id)
  {
    var b := Begin(cache, cfg, input);
    var added := FreshRecord(input, CachedTurn(cache, cfg.scope, input.turn.id));
    FreshRecordStored(cache, cfg, input);
    BeginKeepsRecords(cache, cfg, input);
    hide Begin, MergedView, ValidRecord, CachedTurn;
    RecordShownExactly(cache.pages[k], RecordsOf(b.cache, cfg.scope), added, cfg.collate);
  }

  lemma {:induction false} FreshRecordStored(cache: Cache, cfg: Config, input: PendingTurn)
    requires Begin(cache, cfg, input).Done? && !HasKey(RecordsOf(cache, cfg.scope), input.key)
    ensures var b := Begin(cache, cfg, input);
            var added := FreshRecord(input, CachedTurn(cache, cfg.scope, input.turn.id));
            b.record == added && added in RecordsOf(b.cache, cfg.scope) && b.cache.pages == cache.pages
  {
    hide Sort, ValidRecord, CachedTurn;
    var records := RecordsOf(cache, cfg.scope);
    var added := FreshRecord(input, CachedTurn(cache, cfg.scope, input.turn.id));
    SortPermutes(records + [added], RecordOrder(cfg.collate));
    assert RecordsOf(Begin(cache, cfg, input).cache, cfg.scope) == Sort(records + [added], RecordOrder(cfg.collate));
  }

  /** After any operations, and in every cached page set, a record's turn is shown
      exactly once if and only if the record is saving or unsynced, carries an
      overlay, or the page set holds the turn. */
  lemma {:induction false} RunShowsRecordsExactly(cache: Cache, cfg: Config, ops: seq<Op>, r: Record, k: PageKey)
    requires TotalPreorder(cfg.collate) && GoodRecords(RecordsOf(cache, cfg.scope), cfg)
    requires r in RecordsOf(RunOps(cache, cfg, ops), cfg.scope) && k in KeysOf(RunOps(cache, cfg, ops), cfg.scope)
    ensures ShownOnce(View(RunOps(cache, cfg, ops), cfg, k), r.turn.id)
            <==> r.state != Synced || r.resolved.Some? || HasId(ItemsOf(RunOps(cache, cfg, ops).pages[k]), r.turn.id)
  {
    RunKeepsRecords(cache, cfg, ops);
    var end := RunOps(cache, cfg, ops);
    hide RunOps, MergedView, ValidRecord, ShownOnce, HasId;
    RecordShownExactly(end.pages[k], RecordsOf(end, cfg.scope), r, cfg.collate);
  }

  // ----- a race that hides a turn -----------------------------------------------------

  /** Two cached page sets of one session: the first already holds the turn, the
      second was fetched before it. */
  function RaceTurn(): Turn
  {
    Turn("t", Some(Message("t", None, User, "question", "2026")), None, None)
  }

  function RaceConfig(): Config
  {
    Config(true, Scope("o", "s"), (a: string, b: string) => true)
  }

  function RaceKey(limit: int): PageKey
  {
    PageKey(Scope("o", "s"), limit)
  }

  function RaceCache(): Cache
  {
    Cache(map[], map[RaceKey(20) := Some(Pages([Page([RaceTurn()], None)], [None])),
                     RaceKey(50) := Some(Pages([Page([], None)], [None]))])
  }

  lemma {:induction false} RaceItems()
    ensures ItemsOf(RaceCache().pages[RaceKey(20)]) == [RaceTurn()]
    ensures ItemsOf(RaceCache().pages[RaceKey(50)]) == []
    ensures KeysOf(RaceCache(), RaceConfig().scope) == {RaceKey(20), RaceKey(50)}
  {
    assert FlatItems([Page([RaceTurn()], None)]) == FlatItems([]) + [RaceTurn()] by {
      assert [Page([RaceTurn()], None)][..0] == [];
    }
    assert FlatItems([Page([], None)]) == FlatItems([]) + [] by {
      assert [Page([], None)][..0] == [];
    }
    hide FlatItems;
  }

  /** On this cache `begin` succeeds, yet only the first view shows the turn. */
  lemma {:induction false} RacedBeginCanHideTheTurn()
    ensures var (cache, cfg, input) := (RaceCache(), RaceConfig(), PendingTurn("s", "k", RaceTurn()));
            var b := Begin(cache, cfg, input);
            && b.Done? && RaceKey(20) in b.cache.pages && RaceKey(50) in b.cache.pages
            && ShownOnce(View(b.cache, cfg, RaceKey(20)), "t") && !ShownOnce(View(b.cache, cfg, RaceKey(50)), "t")
  {
    var (cache, cfg, input) := (RaceCache(), RaceConfig(), PendingTurn("s", "k", RaceTurn()));
    RaceItems();
    hide FlatItems;
    assert RecordsOf(cache, cfg.scope) == [];
    assert RaceTurn() in ItemsOf(cache.pages[RaceKey(20)]);
    assert CachedTurn(cache, cfg.scope, "t");
    FreshRecordAlwaysValid(input, true);
    assert Begin(cache, cfg, input).Done?;
    assert GoodRecords(RecordsOf(cache, cfg.scope), cfg) && TotalPreorder(cfg.collate);
    hide Begin, MergedView, CachedTurn, GoodRecords, TotalPreorder;
    RacedBeginShownExactly(cache, cfg, input, RaceKey(20));
    RacedBeginShownExactly(cache, cfg, input, RaceKey(50));
  }
}
