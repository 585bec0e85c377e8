/** What the reconciler answers and stores, field by field
    (apps/web/lib/ask-ai-reconciliation.ts). */
module TurnOutcomes {
  import opened Foundations
  import opened Ordering
  import opened TurnReconciliation
  import opened TurnReconciliationTheorems
  import opened TurnReconciliationRuns

  // ----- the schemas ------------------------------------------------------------

  /** An upper-case letter, then up to 99 upper-case letters, digits and underscores. */
  predicate ErrorCodeShape(code: string)
  {
    && code != "" && |code| < 101 && !(code[0] < 'A' || code[0] > 'Z')
    && forall c :: c in code[1..] ==> c == '_' || '0' <= c <= '9' || 'A' <= c <= 'Z'
  }

  lemma {:induction false} SafeErrorCodeExactly(code: string)
    ensures SafeErrorCode(code) <==> ErrorCodeShape(code)
  {
    if code != "" {
      var rest := code[1..];
      assert forall i :: 1 <= i < |code| ==> code[i] == rest[i - 1];
      assert forall i :: 0 <= i < |rest| ==> rest[i] in rest && rest[i] == code[i + 1];
    }
  }

  /** The persisted turn is the optimistic one, come back: the same identifiers,
      content and event. */
  predicate CameBack(sent: Turn, back: Turn)
  {
    && back.id == sent.id && sent.user.Some? && back.user.Some?
    && back.user.value.id == sent.user.value.id && back.user.value.content == sent.user.value.content
    && back.user.value.event == sent.user.value.event
    && (sent.assistant.Some? ==> back.assistant.Some? && back.assistant.value.id == sent.assistant.value.id)
  }

  /** An optimistic turn is anchored by its user message, may hold an assistant
      message of the same event, and claims no run. */
  lemma {:induction false} OptimisticExactly(t: Turn)
    ensures ValidTurn(t) && OptimisticTurn(t)
            <==> && t.user.Some? && t.user.value.role == User && t.user.value.id == t.id && t.run.None?
                 && (t.assistant.Some? ==>
                       t.assistant.value.role == Assistant && t.assistant.value.event == t.user.value.event)
  {
  }

  /** The record schema: what each state may carry. */
  lemma {:induction false} RecordSchemaExactly(r: Record)
    ensures ValidRecord(r)
            <==> && ValidTurn(r.turn) && OptimisticTurn(r.turn)
                 && (r.state == Saving ==> r.errorCode == None && r.persistedId == None && r.resolved == None)
                 && (r.state == Unsynced ==>
                       && r.errorCode.Some? && ErrorCodeShape(r.errorCode.value)
                       && r.persistedId == None && r.resolved == None)
                 && (r.state == Synced ==>
                       && r.errorCode == None && r.persistedId == Some(r.turn.id)
                       && (r.resolved.Some? ==> CameBack(r.turn, r.resolved.value)))
  {
    if r.errorCode.Some? {
      SafeErrorCodeExactly(r.errorCode.value);
    }
    hide SafeErrorCode, ErrorCodeShape;
  }

  lemma {:induction false} MatchExactly(r: Record, p: Turn)
    ensures PersistedMatch(r, p) <==> CameBack(r.turn, p)
  {
  }

  // ----- the stored list --------------------------------------------------------

  lemma {:induction false} RecordsExactly(cache: Cache, scope: Scope)
    ensures scope in cache.records ==> RecordsOf(cache, scope) == cache.records[scope]
    ensures scope !in cache.records ==> RecordsOf(cache, scope) == []
  {
  }

  predicate Usable(cfg: Config)
  {
    cfg.enabled && |cfg.scope.owner| > 0 && |cfg.scope.session| > 0
  }

  predicate FirstOfKey(records: seq<Record>, key: Id, i: int)
  {
    0 <= i < |records| && records[i].key == key && forall j :: 0 <= j < i ==> records[j].key != key
  }

  predicate LastOfKey(records: seq<Record>, key: Id, i: int)
  {
    0 <= i < |records| && records[i].key == key && forall j :: i < j < |records| ==> records[j].key != key
  }

  predicate Known(records: seq<Record>, key: Id)
  {
    exists i :: 0 <= i < |records| && records[i].key == key
  }

  lemma {:induction false} FirstIs(records: seq<Record>, key: Id) returns (i: nat)
    requires HasKey(records, key)
    ensures FirstOfKey(records, key, i) && records[i] == FirstWithKey(records, key)
  {
    if records[0].key == key {
      i := 0;
    } else {
      var r :| r in records && r.key == key;
      assert r in records[1..];
      var j := FirstIs(records[1..], key);
      i := j + 1;
      assert forall k :: 1 <= k < i ==> records[k] == records[1..][k - 1];
    }
  }

  lemma {:induction false} LastIs(records: seq<Record>, key: Id) returns (i: nat)
    requires HasKey(records, key)
    ensures LastOfKey(records, key, i) && records[i] == LastWithKey(records, key)
  {
    var n := |records| - 1;
    if records[n].key == key {
      i := n;
    } else {
      var r :| r in records && r.key == key;
      assert r in records[..n];
      i := LastIs(records[..n], key);
    }
  }

  lemma {:induction false} KnownExactly(records: seq<Record>, key: Id)
    ensures HasKey(records, key) <==> Known(records, key)
  {
    if r :| r in records && r.key == key {
      var i :| 0 <= i < |records| && records[i] == r;
    }
  }

  /** The stored list of the scope is replaced, record by record, and nothing else
      in the cache changes. */
  ghost predicate Stored(before: Cache, after: Cache, scope: Scope, next: seq<Record>)
  {
    after.pages == before.pages && after.records == before.records[scope := next]
  }

  // ----- retry and markUnsynced ----------------------------------------------------

  /** The same record but for its state, which claims neither failure nor
      persistence, unless it was synced. */
  predicate SavingAgain(r: Record, s: Record)
  {
    if r.state == Synced then s == r
    else
      && s.state == Saving && s.errorCode == None && s.persistedId == None && s.resolved == None
      && s.session == r.session && s.key == r.key && s.turn == r.turn
  }

  predicate Failing(r: Record, s: Record, code: string)
  {
    && s.state == Unsynced && s.errorCode == Some(code) && s.persistedId == None && s.resolved == None
    && s.session == r.session && s.key == r.key && s.turn == r.turn
  }

  /** `retry` answers with the stored record of the key and sets exactly the
      records of that key to saving, unless they are synced. */
  lemma {:induction false} RetryExactly(cache: Cache, cfg: Config, key: Id)
    ensures var (records, r) := (RecordsOf(cache, cfg.scope), Retry(cache, cfg, key));
            && (r.Done? <==> Usable(cfg) && AllValid(records) && Known(records, key))
            && (r.Refused? ==>
                  && r.cache == cache
                  && (r.error == Disabled <==> !Usable(cfg))
                  && (r.error == SchemaError <==> Usable(cfg) && !AllValid(records))
                  && (r.error == IdempotencyKeyConflict <==> Usable(cfg) && AllValid(records)))
            && (r.Done? ==>
                  var next := RecordsOf(r.cache, cfg.scope);
                  && Stored(cache, r.cache, cfg.scope, next) && |next| == |records|
                  && (forall i :: 0 <= i < |next| ==>
                        if records[i].key == key then SavingAgain(records[i], next[i]) else next[i] == records[i])
                  && exists i :: LastOfKey(records, key, i) && r.record == next[i])
  {
    var records := RecordsOf(cache, cfg.scope);
    KnownExactly(records, key);
    hide ValidRecord, Known, AllValid;
    if HasKey(records, key) {
      var i := LastIs(records, key);
      assert LastOfKey(records, key, i);
    }
    hide HasKey;
  }

  /** `markUnsynced` answers with the stored record of the key and gives exactly the
      records of that key the code; a synced one refuses. */
  lemma {:induction false} MarkUnsyncedExactly(cache: Cache, cfg: Config, key: Id, code: string)
    ensures var (records, r) := (RecordsOf(cache, cfg.scope), MarkUnsynced(cache, cfg, key, code));
            var accepted := Usable(cfg) && ErrorCodeShape(code) && AllValid(records);
            var synced := exists i :: 0 <= i < |records| && records[i].key == key && records[i].state == Synced;
            && (r.Done? <==> accepted && !synced && Known(records, key))
            && (r.Refused? ==>
                  && r.cache == cache
                  && (r.error == Disabled <==> !Usable(cfg))
                  && (r.error == SchemaError <==> Usable(cfg) && !accepted)
                  && (r.error == PersistedTurnConflict <==> accepted && synced)
                  && (r.error == IdempotencyKeyConflict <==> accepted && !synced))
            && (r.Done? ==>
                  var next := RecordsOf(r.cache, cfg.scope);
                  && Stored(cache, r.cache, cfg.scope, next) && |next| == |records|
                  && (forall i :: 0 <= i < |next| ==>
                        if records[i].key == key then Failing(records[i], next[i], code) else next[i] == records[i])
                  && exists i :: LastOfKey(records, key, i) && r.record == next[i])
  {
    var records := RecordsOf(cache, cfg.scope);
    KnownExactly(records, key);
    SafeErrorCodeExactly(code);
    SyncedExactly(records, key);
    hide ValidRecord, Known, AllValid, SafeErrorCode, ErrorCodeShape;
    if HasKey(records, key) {
      var i := LastIs(records, key);
      assert LastOfKey(records, key, i);
    }
    hide HasKey;
  }

  lemma {:induction false} SyncedExactly(records: seq<Record>, key: Id)
    ensures (exists r :: r in records && r.key == key && r.state == Synced)
            <==> exists i :: 0 <= i < |records| && records[i].key == key && records[i].state == Synced
  {
    if r :| r in records && r.key == key && r.state == Synced {
      var i :| 0 <= i < |records| && records[i] == r;
    }
  }

  // ----- begin -------------------------------------------------------------------

  /** Some page of some cached page set of the scope holds a turn of the id. */
  predicate OnSomePage(cache: Cache, scope: Scope, id: Id)
  {
    exists k :: k in cache.pages && k.scope == scope && cache.pages[k].Some? && InPages(cache.pages[k].value.pages, id)
  }

  predicate InPages(pages: seq<Page>, id: Id)
  {
    exists i :: 0 <= i < |pages| && exists t :: t in pages[i].items && t.id == id
  }

  lemma {:induction false} FlatItemsExactly(pages: seq<Page>)
    ensures forall t :: t in FlatItems(pages) <==> exists i :: 0 <= i < |pages| && t in pages[i].items
  {
    if pages != [] {
      var init := pages[..|pages| - 1];
      FlatItemsExactly(init);
      assert forall i :: 0 <= i < |init| ==> init[i] == pages[i];
    }
  }

  lemma {:induction false} InPagesExactly(pages: seq<Page>, id: Id)
    ensures InPages(pages, id) <==> HasId(FlatItems(pages), id)
  {
    FlatItemsExactly(pages);
    hide FlatItems;
    if HasId(FlatItems(pages), id) {
      var t :| t in FlatItems(pages) && t.id == id;
      var i :| 0 <= i < |pages| && t in pages[i].items;
    }
    if InPages(pages, id) {
      var i :| 0 <= i < |pages| && exists t :: t in pages[i].items && t.id == id;
      var t :| t in pages[i].items && t.id == id;
      assert t in FlatItems(pages);
    }
  }

  lemma {:induction false} OnSomePageExactly(cache: Cache, scope: Scope, id: Id)
    ensures CachedTurn(cache, scope, id) <==> OnSomePage(cache, scope, id)
  {
    forall pages
      ensures InPages(pages, id) <==> HasId(FlatItems(pages), id)
    {
      InPagesExactly(pages, id);
    }
    hide FlatItems, InPages;
  }

  function TimeOf(t: Turn): string
  {
    match (t.user, t.assistant)
    case (Some(m), _) => m.createdAt
    case (None, Some(m)) => m.createdAt
    case (None, None) => ""
  }

  /** By time, and at the same time by name. */
  ghost predicate InOrder(collate: Collation, time: string, name: string, time': string, name': string)
  {
    if collate(time, time') && collate(time', time) then collate(name, name') else collate(time, time')
  }

  lemma {:induction false} OrderExactly(collate: Collation, r: Record, s: Record)
    ensures RecordOrder(collate)(r, s) <==> InOrder(collate, TimeOf(r.turn), r.key, TimeOf(s.turn), s.key)
  {
  }

  ghost predicate RecordsInOrder(collate: Collation, records: seq<Record>)
  {
    forall i, j :: 0 <= i < j < |records| ==>
      InOrder(collate, TimeOf(records[i].turn), records[i].key, TimeOf(records[j].turn), records[j].key)
  }

  /** The key is known with the same turn, or neither key nor turn is known. */
  ghost predicate Fits(records: seq<Record>, input: PendingTurn)
  {
    if Known(records, input.key) then
      exists i :: FirstOfKey(records, input.key, i)
                  && records[i].session == input.session && records[i].turn == input.turn
    else forall i :: 0 <= i < |records| ==> records[i].turn.id != input.turn.id
  }

  lemma {:induction false} FitsKnown(records: seq<Record>, input: PendingTurn)
    requires HasKey(records, input.key)
    ensures var f := FirstWithKey(records, input.key);
            && (Fits(records, input) <==> f.session == input.session && f.turn == input.turn)
            && exists i :: FirstOfKey(records, input.key, i) && records[i] == f
  {
    KnownExactly(records, input.key);
    var i := FirstIs(records, input.key);
    assert forall j :: FirstOfKey(records, input.key, j) ==> j == i;
  }

  lemma {:induction false} FitsNew(records: seq<Record>, input: PendingTurn)
    requires !HasKey(records, input.key)
    ensures Fits(records, input) <==> !exists r :: r in records && r.turn.id == input.turn.id
  {
    KnownExactly(records, input.key);
    hide Known, HasKey;
    if r :| r in records && r.turn.id == input.turn.id {
      var i :| 0 <= i < |records| && records[i] == r;
    }
  }

  predicate ValidInput(input: PendingTurn)
  {
    ValidTurn(input.turn) && OptimisticTurn(input.turn)
  }

  /** When `begin` accepts, and what each refusal means; a refusal changes nothing. */
  lemma {:induction false} BeginAnswersExactly(cache: Cache, cfg: Config, input: PendingTurn)
    ensures var (records, r) := (RecordsOf(cache, cfg.scope), Begin(cache, cfg, input));
            var here := Usable(cfg) && ValidInput(input) && input.session == cfg.scope.session;
            && (r.Done? <==> here && AllValid(records) && Fits(records, input))
            && (r.Refused? ==>
                  && r.cache == cache
                  && (r.error == Disabled <==> !Usable(cfg))
                  && (r.error == SchemaError
                      <==> Usable(cfg) && (!ValidInput(input) || (here && !AllValid(records))))
                  && (r.error == IdempotencyKeyConflict <==> here && AllValid(records) && Known(records, input.key))
                  && r.error != PersistedTurnConflict)
  {
    var records := RecordsOf(cache, cfg.scope);
    KnownExactly(records, input.key);
    if ValidInput(input) {
      FreshRecordAlwaysValid(input, CachedTurn(cache, cfg.scope, input.turn.id));
    }
    if HasKey(records, input.key) {
      FitsKnown(records, input);
    } else {
      FitsNew(records, input);
    }
    hide ValidTurn, OptimisticTurn, ValidRecord, AllValid, Known, HasKey, Fits, CachedTurn, Sort, FreshRecord;
  }

  /** A new record is saving, or synced when the turn is cached already; it joins
      the stored records in order of time and key. A known key answers with its
      record and changes nothing. */
  lemma {:induction false} BeginStoresExactly(cache: Cache, cfg: Config, input: PendingTurn)
    requires TotalPreorder(cfg.collate) && Begin(cache, cfg, input).Done?
    ensures var (records, r) := (RecordsOf(cache, cfg.scope), Begin(cache, cfg, input));
            var next := RecordsOf(r.cache, cfg.scope);
            if Known(records, input.key) then
              r.cache == cache && exists i :: FirstOfKey(records, input.key, i) && r.record == records[i]
            else
              && Stored(cache, r.cache, cfg.scope, next)
              && multiset(next) == multiset(records) + multiset{r.record} && RecordsInOrder(cfg.collate, next)
              && r.record.session == input.session && r.record.key == input.key && r.record.turn == input.turn
              && r.record.errorCode == None && r.record.resolved == None
              && if OnSomePage(cache, cfg.scope, input.turn.id)
                 then r.record.state == Synced && r.record.persistedId == Some(input.turn.id)
                 else r.record.state == Saving && r.record.persistedId == None
  {
    var records := RecordsOf(cache, cfg.scope);
    KnownExactly(records, input.key);
    OnSomePageExactly(cache, cfg.scope, input.turn.id);
    if HasKey(records, input.key) {
      FitsKnown(records, input);
    } else {
      NewRecordStored(cfg.collate, records, FreshRecord(input, CachedTurn(cache, cfg.scope, input.turn.id)));
    }
    hide ValidTurn, OptimisticTurn, ValidRecord, AllValid, Known, HasKey, Fits, CachedTurn, Sort, OnSomePage;
    hide RecordsInOrder, TotalPreorder, RecordOrder;
  }

  lemma {:induction false} NewRecordStored(collate: Collation, records: seq<Record>, record: Record)
    requires TotalPreorder(collate)
    ensures var next := Sort(records + [record], RecordOrder(collate));
            multiset(next) == multiset(records) + multiset{record} && RecordsInOrder(collate, next)
  {
    PairOrderIsPreorder(collate);
    SortSorts(records + [record], RecordOrder(collate));
    SortPermutes(records + [record], RecordOrder(collate));
    SortedRecords(collate, Sort(records + [record], RecordOrder(collate)));
    hide Sort, RecordOrder;
  }

  lemma {:induction false} SortedRecords(collate: Collation, records: seq<Record>)
    requires Sorted(records, RecordOrder(collate))
    ensures RecordsInOrder(collate, records)
  {
    forall i, j | 0 <= i < j < |records|
      ensures InOrder(collate, TimeOf(records[i].turn), records[i].key, TimeOf(records[j].turn), records[j].key)
    {
      OrderExactly(collate, records[i], records[j]);
    }
  }

  // ----- reconcile -----------------------------------------------------------------

  /** A turn of the id is there, or the last page is the end. */
  predicate HasRoom(data: Option<Pages>, id: Id)
  {
    data.Some? && data.value.pages != [] ==>
      InPages(data.value.pages, id) || data.value.pages[|data.value.pages| - 1].next == None
  }

  ghost predicate FirstTurn(items: seq<Turn>, id: Id, i: int)
  {
    0 <= i < |items| && items[i].id == id && forall j :: 0 <= j < i ==> items[j].id != id
  }

  lemma {:induction false} ReplaceInAppend(a: seq<Turn>, b: seq<Turn>, p: Turn, replaced: bool)
    ensures var (done, r) := ReplaceIn(a, p, replaced);
            var (more, r') := ReplaceIn(b, p, r);
            ReplaceIn(a + b, p, replaced) == (done + more, r')
  {
    var (done, r) := ReplaceIn(a, p, replaced);
    if b == [] {
      assert a + b == a && done + [] == done;
    } else {
      var init, t := b[..|b| - 1], b[|b| - 1];
      ReplaceInAppend(a, init, p, replaced);
      assert (a + b)[..|a + b| - 1] == a + init;
      var (more, r') := ReplaceIn(init, p, r);
      assert done + (more + [t]) == (done + more) + [t] && done + (more + [p]) == (done + more) + [p];
    }
  }

  lemma {:induction false} ReplacePagesFlat(pages: seq<Page>, p: Turn)
    ensures var (done, r) := ReplacePages(pages, p);
            (FlatItems(done), r) == ReplaceIn(FlatItems(pages), p, false)
  {
    if pages != [] {
      var init, last := pages[..|pages| - 1], pages[|pages| - 1];
      ReplacePagesFlat(init, p);
      var (done, r) := ReplacePages(init, p);
      ReplaceInAppend(FlatItems(init), last.items, p, false);
      hide ReplaceIn;
      AppendPage(done, last.(items := ReplaceIn(last.items, p, r).0));
    }
  }

  lemma {:induction false} ReplaceInAbsent(items: seq<Turn>, p: Turn, replaced: bool)
    requires forall i :: 0 <= i < |items| ==> items[i].id != p.id
    ensures ReplaceIn(items, p, replaced) == (items, replaced)
  {
    if items != [] {
      ReplaceInAbsent(items[..|items| - 1], p, replaced);
      assert items == items[..|items| - 1] + [items[|items| - 1]];
    }
  }

  lemma {:induction false} ReplaceInAfter(items: seq<Turn>, p: Turn)
    ensures ReplaceIn(items, p, true) == (Others(items, p.id), true)
  {
    if items != [] {
      ReplaceInAfter(items[..|items| - 1], p);
      assert Others(items[..|items| - 1], p.id) + [] == Others(items[..|items| - 1], p.id);
    }
  }

  lemma {:induction false} OneReplaced(t: Turn, p: Turn)
    requires t.id == p.id
    ensures ReplaceIn([t], p, false) == ([p], true)
  {
    assert [t][..0] == [] && ReplaceIn([], p, false) == ([], false);
    assert [] + [p] == [p];
  }

  lemma {:induction false} ReplaceInPlace(items: seq<Turn>, p: Turn, i: nat)
    requires FirstTurn(items, p.id, i)
    ensures ReplaceIn(items, p, false) == (items[..i] + [p] + Others(items[i + 1..], p.id), true)
  {
    var (pre, t, post) := (items[..i], items[i], items[i + 1..]);
    assert items == (pre + [t]) + post;
    ReplaceInAbsent(pre, p, false);
    ReplaceInAppend(pre, [t], p, false);
    ReplaceInAppend(pre + [t], post, p, false);
    ReplaceInAfter(post, p);
    OneReplaced(t, p);
    hide ReplaceIn, Others;
    assert pre + [p] + Others(post, p.id) == (pre + [p]) + Others(post, p.id);
  }

  lemma {:induction false} HasIdAt(items: seq<Turn>, id: Id)
    ensures HasId(items, id) <==> exists i :: 0 <= i < |items| && items[i].id == id
  {
    if t :| t in items && t.id == id {
      var i :| 0 <= i < |items| && items[i] == t;
    }
  }

  /** An upsert makes one page when there is none; otherwise it retains the turn
      exactly when there is room, in the place of the first turn of its id, whose
      repetitions go, or at the end of the last page. */
  lemma {:induction false} UpsertExactly(data: Option<Pages>, p: Turn)
    ensures var (after, retained) := Upsert(data, p);
            && (retained <==> HasRoom(data, p.id))
            && (data.None? || data.value.pages == [] ==> after == Pages([Page([p], None)], [None]))
            && (data.Some? && data.value.pages != [] ==>
                  var (items, next) := (FlatItems(data.value.pages), FlatItems(after.pages));
                  && (forall i :: FirstTurn(items, p.id, i) ==>
                        next == items[..i] + [p] + Others(items[i + 1..], p.id))
                  && (!HasId(items, p.id) ==> next == if retained then items + [p] else items))
  {
    if data.Some? && data.value.pages != [] {
      var pages := data.value.pages;
      var items := FlatItems(pages);
      ReplacedPages(pages, p);
      PagesReplaced(pages, p);
      InPagesExactly(pages, p.id);
      CompletedFlat(ReplacePages(pages, p).0, p);
      hide ReplacePages, InPages, Others, FlatItems, HasId;
    }
  }

  lemma {:induction false} PagesReplaced(pages: seq<Page>, p: Turn)
    ensures var (items, done, replaced) := (FlatItems(pages), ReplacePages(pages, p).0, ReplacePages(pages, p).1);
            && (replaced <==> HasId(items, p.id))
            && (!replaced ==> FlatItems(done) == items)
            && (forall i :: FirstTurn(items, p.id, i) ==>
                  FlatItems(done) == items[..i] + [p] + Others(items[i + 1..], p.id))
  {
    var items := FlatItems(pages);
    ReplacePagesFlat(pages, p);
    HasIdAt(items, p.id);
    ReplacePagesEffect(pages, p);
    HasIdIsWithId(items, p.id);
    var (done, replaced) := ReplacePages(pages, p);
    hide ReplacePages, Others, WithId, FlatItems, HasId, ReplaceIn;
    if !replaced {
      ReplaceInAbsent(items, p, false);
    }
    forall i | FirstTurn(items, p.id, i)
      ensures FlatItems(done) == items[..i] + [p] + Others(items[i + 1..], p.id)
    {
      ReplaceInPlace(items, p, i);
    }
  }

  lemma {:induction false} CompletedFlat(done: seq<Page>, p: Turn)
    requires done != []
    ensures var last := done[|done| - 1];
            FlatItems(done[..|done| - 1] + [last.(items := last.items + [p])]) == FlatItems(done) + [p]
  {
    var init, last := done[..|done| - 1], done[|done| - 1];
    AppendPage(init, last.(items := last.items + [p]));
    hide FlatItems;
    assert FlatItems(done) == FlatItems(init) + last.items by {
      AppendPage(init, last);
      assert done == init + [last];
    }
  }

  /** Every cached page set of the scope has room for the turn. */
  predicate RoomEverywhere(cache: Cache, scope: Scope, id: Id)
  {
    forall k :: k in cache.pages && k.scope == scope ==> HasRoom(cache.pages[k], id)
  }

  lemma {:induction false} RetainedExactly(cache: Cache, scope: Scope, p: Turn)
    ensures RetainedEverywhere(cache, scope, p) <==> RoomEverywhere(cache, scope, p.id)
  {
    forall data
      ensures Upsert(data, p).1 <==> HasRoom(data, p.id)
    {
      UpsertExactly(data, p);
    }
    hide Upsert, HasRoom;
  }

  /** A turn of the server holds a user message, an assistant message or both. */
  predicate HoldsMessage(t: Turn)
  {
    match (t.user, t.assistant)
    case (None, None) => false
    case (Some(_), _) => true
    case (None, Some(_)) => true
  }

  /** `reconcile` accepts exactly a turn with a message that is the first record of the key,
      come back. */
  lemma {:induction false} ReconcileAnswersExactly(cache: Cache, cfg: Config, key: Id, p: Turn)
    ensures var (records, r) := (RecordsOf(cache, cfg.scope), Reconcile(cache, cfg, key, p));
            var accepted := Usable(cfg) && HoldsMessage(p) && AllValid(records);
            var same := exists i :: FirstOfKey(records, key, i) && CameBack(records[i].turn, p);
            && (r.Done? <==> accepted && same)
            && (r.Refused? ==>
                  && r.cache == cache
                  && (r.error == Disabled <==> !Usable(cfg))
                  && (r.error == SchemaError <==> Usable(cfg) && !accepted)
                  && (r.error == IdempotencyKeyConflict <==> accepted && !Known(records, key))
                  && (r.error == PersistedTurnConflict <==> accepted && Known(records, key)))
  {
    var records := RecordsOf(cache, cfg.scope);
    KnownExactly(records, key);
    if HasKey(records, key) {
      var i := FirstIs(records, key);
      assert forall j :: FirstOfKey(records, key, j) ==> j == i;
      MatchExactly(records[i], p);
      if AllValid(records) && ValidTurn(p) && PersistedMatch(records[i], p) {
        SyncedRecordAlwaysValid(records[i], p, RetainedEverywhere(cache, cfg.scope, p));
      }
    }
    assert ValidTurn(p) <==> HoldsMessage(p);
    hide ValidTurn, HoldsMessage, ValidRecord, Known, HasKey, PersistedMatch, CameBack;
    hide UpsertedPages, RetainedEverywhere;
  }

  /** `reconcile` gives every record of the key the persisted turn, as an overlay
      exactly when some page set has no room for it, and upserts it into every page
      set of the scope, or into a first page set of size 20 when there is none. */
  lemma {:induction false} ReconcileStoresExactly(cache: Cache, cfg: Config, key: Id, p: Turn)
    requires Reconcile(cache, cfg, key, p).Done?
    ensures var (records, r) := (RecordsOf(cache, cfg.scope), Reconcile(cache, cfg, key, p));
            var next := RecordsOf(r.cache, cfg.scope);
            && r.record.state == Synced && r.record.errorCode == None && r.record.persistedId == Some(p.id)
            && r.record.resolved == (if RoomEverywhere(cache, cfg.scope, p.id) then None else Some(p))
            && (exists i :: FirstOfKey(records, key, i) && r.record.session == records[i].session
                            && r.record.key == records[i].key && r.record.turn == records[i].turn)
            && r.cache.records == cache.records[cfg.scope := next] && |next| == |records|
            && (forall i :: 0 <= i < |next| ==> next[i] == if records[i].key == key then r.record else records[i])
  {
    var records := RecordsOf(cache, cfg.scope);
    RetainedExactly(cache, cfg.scope, p);
    var i := FirstIs(records, key);
    hide ValidTurn, ValidRecord, AllValid, HasKey, PersistedMatch, UpsertedPages, RetainedEverywhere, RoomEverywhere;
    assert FirstOfKey(records, key, i);
  }

  lemma {:induction false} ReconcilePagesExactly(cache: Cache, cfg: Config, key: Id, p: Turn)
    requires Reconcile(cache, cfg, key, p).Done?
    ensures var (before, after) := (cache.pages, Reconcile(cache, cfg, key, p).cache.pages);
            if exists k :: k in before && k.scope == cfg.scope then
              after.Keys == before.Keys && forall k :: k in before ==>
                after[k] == if k.scope == cfg.scope then Some(Upsert(before[k], p).0) else before[k]
            else after == before[PageKey(cfg.scope, 20) := Some(Pages([Page([p], None)], [None]))]
  {
    hide ValidTurn, ValidRecord, AllValid, HasKey, PersistedMatch, RetainedEverywhere;
    assert KeysOf(cache, cfg.scope) == {} <==> !exists k :: k in cache.pages && k.scope == cfg.scope by {
      if k :| k in cache.pages && k.scope == cfg.scope {
        assert k in KeysOf(cache, cfg.scope);
      }
    }
    UpsertExactly(None, p);
    hide Upsert;
  }

  // ----- the merged view -------------------------------------------------------------

  /** The last turn of its id on the pages. */
  ghost predicate LastTurn(items: seq<Turn>, t: Turn)
  {
    exists i :: 0 <= i < |items| && items[i] == t && forall j :: i < j < |items| ==> items[j].id != t.id
  }

  /** The turn a record adds: the resolved one once it is synced, else its own. */
  function Added(r: Record): Option<Turn>
  {
    match r.state
    case Synced => r.resolved
    case Saving => Some(r.turn)
    case Unsynced => Some(r.turn)
  }

  /** The first turn of its id that a record adds. */
  ghost predicate FirstAdded(records: seq<Record>, t: Turn)
  {
    exists i :: 0 <= i < |records| && Added(records[i]) == Some(t)
                && forall j :: 0 <= j < i ==> Added(records[j]).None? || Added(records[j]).value.id != t.id
  }

  lemma {:induction false} ByIdExactly(items: seq<Turn>)
    ensures forall t :: t in ById(items) <==> LastTurn(items, t)
  {
    if items != [] {
      var init, last := items[..|items| - 1], items[|items| - 1];
      ByIdExactly(init);
      ByIdEffect(init);
      PutEffect(ById(init), last);
      hide ById, Put;
      forall t
        ensures LastTurn(items, t) <==> t == last || (LastTurn(init, t) && t.id != last.id)
      {
        LastTurnSplit(init, last, t);
        assert items == init + [last];
      }
      assert ById(items) == Put(ById(init), last) by { ByIdLast(items); }
    }
  }

  lemma {:induction false} ByIdLast(items: seq<Turn>)
    requires items != []
    ensures ById(items) == Put(ById(items[..|items| - 1]), items[|items| - 1])
  {
  }

  lemma {:induction false} LastTurnSplit(init: seq<Turn>, last: Turn, t: Turn)
    ensures LastTurn(init + [last], t) <==> t == last || (LastTurn(init, t) && t.id != last.id)
  {
    var items := init + [last];
    if t == last {
      assert items[|init|] == t;
    }
    if LastTurn(init, t) && t.id != last.id {
      var i :| 0 <= i < |init| && init[i] == t && forall j :: i < j < |init| ==> init[j].id != t.id;
      assert items[i] == t;
      assert forall j :: i < j < |items| ==> items[j] == if j < |init| then init[j] else last;
    }
    if LastTurn(items, t) && t != last {
      var i :| 0 <= i < |items| && items[i] == t && forall j :: i < j < |items| ==> items[j].id != t.id;
      assert init[i] == t && items[|init|].id != t.id;
      assert forall j :: i < j < |init| ==> init[j] == items[j];
    }
  }

  lemma {:induction false} OverlaysExactly(entries: seq<Turn>, records: seq<Record>)
    requires DistinctIds(entries)
    ensures forall t :: t in WithOverlays(entries, records)
                        <==> t in entries || (!HasId(entries, t.id) && FirstAdded(records, t))
  {
    if records != [] {
      var init, r := records[..|records| - 1], records[|records| - 1];
      OverlaysExactly(entries, init);
      OverlaysEffect(entries, init);
      var done, all := WithOverlays(entries, init), WithOverlays(entries, records);
      assert records == init + [r];
      forall t
        ensures FirstAdded(records, t) <==> FirstAdded(init, t) || (Added(r) == Some(t) && !Overlaid(init, t.id))
      {
        FirstAddedSplit(init, r, t);
      }
      assert Overlay(r) == Added(r);
      assert all == if Added(r).Some? && !HasId(done, Added(r).value.id) then done + [Added(r).value] else done;
      hide WithOverlays, FirstAdded, Overlaid, Added, DistinctIds;
      forall t
        ensures t in all <==> t in entries || (!HasId(entries, t.id) && FirstAdded(records, t))
      {
        assert t in all <==> t in done || (Added(r) == Some(t) && !HasId(done, t.id));
        if t in entries {
          assert t in done;
        }
      }
    } else {
      hide DistinctIds, HasId;
    }
  }

  lemma {:induction false} FirstAddedSplit(init: seq<Record>, r: Record, t: Turn)
    ensures FirstAdded(init + [r], t) <==> FirstAdded(init, t) || (Added(r) == Some(t) && !Overlaid(init, t.id))
  {
    var records := init + [r];
    assert forall s :: Overlay(s) == Added(s);
    hide Added, Overlay;
    if FirstAdded(init, t) {
      var i :| 0 <= i < |init| && Added(init[i]) == Some(t)
               && forall j :: 0 <= j < i ==> Added(init[j]).None? || Added(init[j]).value.id != t.id;
      assert records[i] == init[i] && forall j :: 0 <= j < i ==> records[j] == init[j];
    }
    if Added(r) == Some(t) && !Overlaid(init, t.id) {
      assert records[|init|] == r;
      assert forall j :: 0 <= j < |init| ==> records[j] in init;
    }
    if FirstAdded(records, t) {
      var i :| 0 <= i < |records| && Added(records[i]) == Some(t)
               && forall j :: 0 <= j < i ==> Added(records[j]).None? || Added(records[j]).value.id != t.id;
      assert forall j :: 0 <= j < |init| ==> records[j] == init[j];
      if i < |init| {
        assert init[i] == records[i];
      }
    }
  }

  /** The merged view shows, once for every id, the last turn of the pages or,
      where they have none, the first that a record adds, by time and then by id. */
  lemma {:induction false} ViewExactly(data: Option<Pages>, records: seq<Record>, collate: Collation)
    requires TotalPreorder(collate)
    ensures var (view, items) := (MergedView(data, records, collate), ItemsOf(data));
            && DistinctIds(view)
            && (forall t :: t in view <==> LastTurn(items, t) || (!HasId(items, t.id) && FirstAdded(records, t)))
            && (forall i, j :: 0 <= i < j < |view| ==>
                  InOrder(collate, TimeOf(view[i]), view[i].id, TimeOf(view[j]), view[j].id))
    ensures data.None? ==> ItemsOf(data) == []
    ensures data.Some? ==>
      forall t :: t in ItemsOf(data) <==> exists i :: 0 <= i < |data.value.pages| && t in data.value.pages[i].items
  {
    var items := ItemsOf(data);
    var entries := ById(items);
    MergedViewEffect(data, records, collate);
    ByIdEffect(items);
    ByIdExactly(items);
    OverlaysExactly(entries, records);
    SortPermutes(WithOverlays(entries, records), TurnOrder(collate));
    if data.Some? {
      FlatItemsExactly(data.value.pages);
    }
    var view := MergedView(data, records, collate);
    forall i, j | 0 <= i < j < |view|
      ensures InOrder(collate, TimeOf(view[i]), view[i].id, TimeOf(view[j]), view[j].id)
    {
      TurnsInOrder(collate, view[i], view[j]);
    }
    hide ById, WithOverlays, Sort, FlatItems, LastTurn, FirstAdded, HasId, TotalPreorder, DistinctIds;
  }

  lemma {:induction false} TurnsInOrder(collate: Collation, a: Turn, b: Turn)
    ensures TurnOrder(collate)(a, b) <==> InOrder(collate, TimeOf(a), a.id, TimeOf(b), b.id)
  {
  }
}
