/** The reconciler in its own form: a mutable query cache, the closures that
    rewrite it, and their loops, each tied to the value-level model. */
module TurnReconciler {
  import opened Foundations
  import opened Ordering
  import opened TurnReconciliation
  import opened TurnReconciliationTheorems

  // ----- loops over pages and records -----------------------------------------

  /** `page.items.flatMap` with the shared `replaced` flag. */
  method ReplaceInPage(items: seq<Turn>, p: Turn, replacedBefore: bool) returns (out: seq<Turn>, replaced: bool)
    ensures (out, replaced) == ReplaceIn(items, p, replacedBefore)
  {
    out, replaced := [], replacedBefore;
    for i := 0 to |items|
      invariant (out, replaced) == ReplaceIn(items[..i], p, replacedBefore)
    {
      assert items[..i + 1][..i] == items[..i];
      if items[i].id != p.id {
        out := out + [items[i]];
      } else if !replaced {
        out, replaced := out + [p], true;
      }
    }
    assert items[..|items|] == items;
  }

  method UpsertPersistedTurn(data: Option<Pages>, p: Turn) returns (result: Pages, retained: bool)
    ensures (result, retained) == Upsert(data, p)
  {
    if data.None? || data.value.pages == [] {
      return Pages([Page([p], None)], [None]), true;
    }
    var source := data.value.pages;
    var pages: seq<Page> := [];
    var replaced := false;
    for i := 0 to |source|
      invariant (pages, replaced) == ReplacePages(source[..i], p)
    {
      assert source[..i + 1][..i] == source[..i];
      var items;
      items, replaced := ReplaceInPage(source[i].items, p, replaced);
      pages := pages + [source[i].(items := items)];
    }
    assert source[..|source|] == source;
    ReplacedPages(source, p);
    var last := pages[|pages| - 1];
    var complete := last.next.None?;
    if !replaced && complete {
      assert pages[|pages| - 1 := last.(items := last.items + [p])]
        == pages[..|pages| - 1] + [last.(items := last.items + [p])];
      pages := pages[|pages| - 1 := last.(items := last.items + [p])];
    }
    result, retained := data.value.(pages := pages), replaced || complete;
  }

  /** Fills the id map, overlays the records, and sorts its values. */
  method MergeResearchTurns(data: Option<Pages>, records: seq<Record>, collate: Collation) returns (view: seq<Turn>)
    requires TotalPreorder(collate)
    ensures view == MergedView(data, records, collate)
    ensures Sorted(view, TurnOrder(collate)) && DistinctIds(view)
  {
    var turns := ItemsOf(data);
    var byId: seq<Turn> := [];
    for i := 0 to |turns|
      invariant byId == ById(turns[..i])
    {
      assert turns[..i + 1][..i] == turns[..i];
      byId := Put(byId, turns[i]);
    }
    assert turns[..|turns|] == turns;
    for i := 0 to |records|
      invariant byId == WithOverlays(ById(turns), records[..i])
    {
      assert records[..i + 1][..i] == records[..i];
      var overlay := Overlay(records[i]);
      if overlay.Some? && !HasId(byId, overlay.value.id) {
        byId := byId + [overlay.value];
      }
    }
    assert records[..|records|] == records;
    MergedViewEffect(data, records, collate);
    view := Sort(byId, TurnOrder(collate));
  }

  // ----- the cache and the reconciler ---------------------------------------

  class QueryCache {
    var records: map<Scope, seq<Record>>
    var pages: map<PageKey, Option<Pages>>

    function Contents(): Cache
      reads this
    {
      Cache(records, pages)
    }

    constructor (cache: Cache)
      ensures Contents() == cache
    {
      records, pages := cache.records, cache.pages;
    }
  }

  class ResearchTurnReconciler {
    const cache: QueryCache
    const cfg: Config

    constructor (cache: QueryCache, cfg: Config)
      ensures this.cache == cache && this.cfg == cfg
    {
      this.cache, this.cfg := cache, cfg;
    }

    function Records(): seq<Record>
      reads cache
    {
      RecordsOf(cache.Contents(), cfg.scope)
    }

    method SetRecords(next: seq<Record>)
      modifies cache`records
      ensures cache.Contents() == StoreRecords(old(cache.Contents()), cfg.scope, next)
    {
      cache.records := cache.records[cfg.scope := next];
    }

    method Begin(input: PendingTurn) returns (r: Outcome)
      modifies cache`records
      ensures r == TurnReconciliation.Begin(old(cache.Contents()), cfg, input) && cache.Contents() == r.cache
    {
      if !Active(cfg) {
        return Refused(cache.Contents(), Disabled);
      }
      if !ValidTurn(input.turn) || !OptimisticTurn(input.turn) {
        return Refused(cache.Contents(), SchemaError);
      }
      if input.session != cfg.scope.session {
        return Refused(cache.Contents(), TurnIdConflict);
      }
      var records := Records();
      if !AllValid(records) {
        return Refused(cache.Contents(), SchemaError);
      }
      if HasKey(records, input.key) {
        var existing := FirstWithKey(records, input.key);
        if existing.session != input.session || existing.turn != input.turn {
          return Refused(cache.Contents(), IdempotencyKeyConflict);
        }
        return Done(cache.Contents(), existing);
      }
      if exists r :: r in records && r.turn.id == input.turn.id {
        return Refused(cache.Contents(), TurnIdConflict);
      }
      var record := FreshRecord(input, CachedTurn(cache.Contents(), cfg.scope, input.turn.id));
      if !ValidRecord(record) {
        return Refused(cache.Contents(), SchemaError);
      }
      SetRecords(Sort(records + [record], RecordOrder(cfg.collate)));
      r := Done(cache.Contents(), record);
    }

    /** Rewrites every cached page set of the session, one query at a time. */
    method UpdatePersistedTurnCaches(p: Turn) returns (retained: bool)
      modifies cache`pages
      ensures cache.pages == old(UpsertedPages(cache.Contents(), cfg.scope, p))
      ensures retained == old(RetainedEverywhere(cache.Contents(), cfg.scope, p))
    {
      ghost var before := cache.Contents();
      var keys := KeysOf(cache.Contents(), cfg.scope);
      if keys == {} {
        var data, kept := UpsertPersistedTurn(None, p);
        cache.pages := cache.pages[PageKey(cfg.scope, DEFAULT_TURN_PAGE_SIZE) := Some(data)];
        return kept;
      }
      retained := true;
      hide Upsert;
      while keys != {}
        invariant keys <= KeysOf(before, cfg.scope)
        invariant cache.pages.Keys == before.pages.Keys
        invariant forall k :: k in before.pages ==>
          cache.pages[k] == if k.scope == cfg.scope && k !in keys
            then Some(Upsert(before.pages[k], p).0) else before.pages[k]
        invariant retained == forall k :: k in KeysOf(before, cfg.scope) && k !in keys ==> Upsert(before.pages[k], p).1
        decreases keys
      {
        var k :| k in keys;
        var data, kept := UpsertPersistedTurn(cache.pages[k], p);
        cache.pages := cache.pages[k := Some(data)];
        retained := retained && kept;
        keys := keys - {k};
      }
    }

    method Reconcile(key: Id, p: Turn) returns (r: Outcome)
      modifies cache
      ensures r == TurnReconciliation.Reconcile(old(cache.Contents()), cfg, key, p) && cache.Contents() == r.cache
    {
      if !Active(cfg) {
        return Refused(cache.Contents(), Disabled);
      }
      var records := Records();
      if !ValidTurn(p) || !AllValid(records) {
        return Refused(cache.Contents(), SchemaError);
      }
      if !HasKey(records, key) {
        return Refused(cache.Contents(), IdempotencyKeyConflict);
      }
      var record := FirstWithKey(records, key);
      if !PersistedMatch(record, p) {
        return Refused(cache.Contents(), PersistedTurnConflict);
      }
      hide AllValid, ValidRecord, PersistedMatch, UpsertedPages, RetainedEverywhere;
      var retained := UpdatePersistedTurnCaches(p);
      var synced := SyncedRecord(record, p, retained);
      if !ValidRecord(synced) {
        return Refused(cache.Contents(), SchemaError);
      }
      SetRecords(ReplaceKey(records, key, _ => synced));
      r := Done(cache.Contents(), synced);
    }

    /** `records.map` that remembers the record it updated last. */
    method MarkUnsynced(key: Id, code: string) returns (r: Outcome)
      modifies cache`records
      ensures r == TurnReconciliation.MarkUnsynced(old(cache.Contents()), cfg, key, code) && cache.Contents() == r.cache
    {
      if !Active(cfg) {
        return Refused(cache.Contents(), Disabled);
      }
      var records := Records();
      if !SafeErrorCode(code) || !AllValid(records) {
        return Refused(cache.Contents(), SchemaError);
      }
      hide AllValid, SafeErrorCode;
      var updated: Option<Record> := None;
      var next: seq<Record> := [];
      for i := 0 to |records|
        invariant cache.Contents() == old(cache.Contents())
        invariant next == ReplaceKey(records[..i], key, r => FailedRecord(r, code))
        invariant forall k :: 0 <= k < i ==> !(records[k].key == key && records[k].state == Synced)
        invariant UpdatedLast(records, i, key, r => FailedRecord(r, code), updated)
      {
        var record := records[i];
        UpdatedStep(records, i, key, r => FailedRecord(r, code), updated);
        ReplaceStep(records, i, key, r => FailedRecord(r, code));
        if record.key != key {
          next := next + [record];
        } else if record.state == Synced {
          assert record in records;
          return Refused(cache.Contents(), PersistedTurnConflict);
        } else {
          updated := Some(FailedRecord(record, code));
          next := next + [FailedRecord(record, code)];
        }
      }
      assert records[..|records|] == records;
      assert updated.None? <==> !HasKey(records, key);
      if updated.None? {
        return Refused(cache.Contents(), IdempotencyKeyConflict);
      }
      SetRecords(next);
      r := Done(cache.Contents(), updated.value);
    }

    method Retry(key: Id) returns (r: Outcome)
      modifies cache`records
      ensures r == TurnReconciliation.Retry(old(cache.Contents()), cfg, key) && cache.Contents() == r.cache
    {
      if !Active(cfg) {
        return Refused(cache.Contents(), Disabled);
      }
      var records := Records();
      if !AllValid(records) {
        return Refused(cache.Contents(), SchemaError);
      }
      hide AllValid;
      var updated: Option<Record> := None;
      var next: seq<Record> := [];
      for i := 0 to |records|
        invariant cache.Contents() == old(cache.Contents())
        invariant next == ReplaceKey(records[..i], key, r => RetriedRecord(r))
        invariant UpdatedLast(records, i, key, r => RetriedRecord(r), updated)
      {
        UpdatedStep(records, i, key, r => RetriedRecord(r), updated);
        ReplaceStep(records, i, key, r => RetriedRecord(r));
        if records[i].key != key {
          next := next + [records[i]];
        } else {
          updated := Some(RetriedRecord(records[i]));
          next := next + [RetriedRecord(records[i])];
        }
      }
      assert records[..|records|] == records;
      assert updated.None? <==> !HasKey(records, key);
      if updated.None? {
        return Refused(cache.Contents(), IdempotencyKeyConflict);
      }
      SetRecords(next);
      r := Done(cache.Contents(), updated.value);
    }
  }

  /** `updated` is the rewritten last record of the key among the first `n`. */
  ghost predicate UpdatedLast(records: seq<Record>, n: nat, key: Id, f: Record -> Record, updated: Option<Record>)
    requires n <= |records|
  {
    if HasKey(records[..n], key) then updated == Some(f(LastWithKey(records[..n], key))) else updated == None
  }

  lemma {:induction false} UpdatedStep(
    records: seq<Record>, i: nat, key: Id, f: Record -> Record, updated: Option<Record>)
    requires i < |records| && UpdatedLast(records, i, key, f, updated)
    ensures UpdatedLast(records, i + 1, key, f, if records[i].key == key then Some(f(records[i])) else updated)
  {
    assert records[..i + 1] == records[..i] + [records[i]];
    assert records[..i + 1][..i] == records[..i];
    assert forall r :: r in records[..i + 1] <==> r in records[..i] || r == records[i];
  }

  lemma {:induction false} ReplaceStep(records: seq<Record>, i: nat, key: Id, f: Record -> Record)
    requires i < |records|
    ensures ReplaceKey(records[..i + 1], key, f)
            == ReplaceKey(records[..i], key, f) + [if records[i].key == key then f(records[i]) else records[i]]
  {
  }
}
