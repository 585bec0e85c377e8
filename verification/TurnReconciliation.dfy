/** The optimistic-turn reconciler (apps/web/lib/ask-ai-reconciliation.ts) on
    values: the record schema, the cached pages of a session, the merged view
    and the four operations. String collation is a parameter. */
module TurnReconciliation {
  import opened Foundations
  import opened Ordering

  type Id = string
  type Collation = (string, string) -> bool

  // ----- turns and records ------------------------------------------------

  datatype Role = User | Assistant

  datatype Message = Message(id: Id, event: Option<int>, role: Role, content: string, createdAt: string)

  datatype Turn = Turn(id: Id, user: Option<Message>, assistant: Option<Message>, run: Option<string>)

  /** A persisted turn contains at least one message. */
  predicate ValidTurn(t: Turn) { t.user.Some? || t.assistant.Some? }

  predicate OptimisticTurn(t: Turn)
  {
    && t.user.Some? && t.user.value.role == User && t.id == t.user.value.id
    && (t.assistant.Some? ==> t.assistant.value.role == Assistant)
    && t.run.None?
    && (t.assistant.Some? ==> t.user.value.event == t.assistant.value.event)
  }

  datatype State = Saving | Unsynced | Synced

  datatype Record = Record(
    session: Id, key: Id, state: State, turn: Turn,
    errorCode: Option<string>, persistedId: Option<Id>, resolved: Option<Turn>)

  /** `^[A-Z][A-Z0-9_]{0,99}$`. */
  predicate SafeErrorCode(code: string)
  {
    && 1 <= |code| <= 100 && 'A' <= code[0] <= 'Z'
    && forall i :: 1 <= i < |code| ==>
         'A' <= code[i] <= 'Z' || '0' <= code[i] <= '9' || code[i] == '_'
  }

  /** The persisted turn keeps the stable identity of the optimistic one. */
  predicate SameIdentity(optimistic: Turn, persisted: Turn)
  {
    && optimistic.user.Some? && persisted.user.Some?
    && persisted.user.value.id == optimistic.user.value.id
    && persisted.user.value.content == optimistic.user.value.content
    && persisted.user.value.event == optimistic.user.value.event
    && (optimistic.assistant.Some? ==>
          persisted.assistant.Some? && persisted.assistant.value.id == optimistic.assistant.value.id)
  }

  predicate ValidRecord(r: Record)
  {
    && ValidTurn(r.turn) && OptimisticTurn(r.turn)
    && (r.errorCode.Some? ==> SafeErrorCode(r.errorCode.value))
    && (r.resolved.Some? ==> ValidTurn(r.resolved.value))
    && (match r.state
        case Saving => r.errorCode.None? && r.persistedId.None? && r.resolved.None?
        case Unsynced => r.errorCode.Some? && r.persistedId.None? && r.resolved.None?
        case Synced =>
          && r.errorCode.None? && r.persistedId == Some(r.turn.id)
          && (r.resolved.Some? ==> r.resolved.value.id == r.turn.id))
    && (r.resolved.Some? ==> SameIdentity(r.turn, r.resolved.value))
  }

  predicate AllValid(records: seq<Record>) { forall r :: r in records ==> ValidRecord(r) }

  /** `validatePersistedMatch`. */
  predicate PersistedMatch(r: Record, persisted: Turn)
  {
    persisted.id == r.turn.id && SameIdentity(r.turn, persisted)
  }

  // ----- order ---------------------------------------------------------------

  function AnchorTime(t: Turn): string
  {
    if t.user.Some? then t.user.value.createdAt
    else if t.assistant.Some? then t.assistant.value.createdAt else ""
  }

  /** `a.localeCompare(b) || c.localeCompare(d)` at most zero. */
  predicate PairLe(collate: Collation, a: string, c: string, b: string, d: string)
  {
    collate(a, b) && (collate(b, a) ==> collate(c, d))
  }

  function RecordOrder(collate: Collation): (Record, Record) -> bool
  {
    (a: Record, b: Record) => PairLe(collate, AnchorTime(a.turn), a.key, AnchorTime(b.turn), b.key)
  }

  function TurnOrder(collate: Collation): (Turn, Turn) -> bool
  {
    (a: Turn, b: Turn) => PairLe(collate, AnchorTime(a), a.id, AnchorTime(b), b.id)
  }

  // ----- cached pages ----------------------------------------------------------

  datatype Page = Page(items: seq<Turn>, next: Option<string>)

  datatype Pages = Pages(pages: seq<Page>, params: seq<Option<string>>)

  function FlatItems(pages: seq<Page>): seq<Turn>
  {
    if pages == [] then [] else FlatItems(pages[..|pages| - 1]) + pages[|pages| - 1].items
  }

  function ItemsOf(data: Option<Pages>): seq<Turn>
  {
    if data.Some? then FlatItems(data.value.pages) else []
  }

  /** One page of `upsertPersistedTurn`: the first turn of the id becomes the
      persisted one, later ones disappear. */
  function ReplaceIn(items: seq<Turn>, p: Turn, replaced: bool): (seq<Turn>, bool)
  {
    if items == [] then ([], replaced)
    else
      var (done, r) := ReplaceIn(items[..|items| - 1], p, replaced);
      var t := items[|items| - 1];
      if t.id != p.id then (done + [t], r) else if r then (done, r) else (done + [p], true)
  }

  function ReplacePages(pages: seq<Page>, p: Turn): (seq<Page>, bool)
  {
    if pages == [] then ([], false)
    else
      var (done, r) := ReplacePages(pages[..|pages| - 1], p);
      var last := pages[|pages| - 1];
      var (items, r') := ReplaceIn(last.items, p, r);
      (done + [last.(items := items)], r')
  }

  function Upsert(data: Option<Pages>, p: Turn): (Pages, bool)
  {
    if data.None? || data.value.pages == [] then (Pages([Page([p], None)], [None]), true)
    else
      var (pages, replaced) := ReplacePages(data.value.pages, p);
      ReplacedPages(data.value.pages, p);
      var last := pages[|pages| - 1];
      var complete := last.next.None?;
      if !replaced && complete
      then (data.value.(pages := pages[..|pages| - 1] + [last.(items := last.items + [p])]), true)
      else (data.value.(pages := pages), replaced || complete)
  }

  lemma {:induction false} ReplacedPages(pages: seq<Page>, p: Turn)
    ensures |ReplacePages(pages, p).0| == |pages|
    ensures forall i :: 0 <= i < |pages| ==> ReplacePages(pages, p).0[i].next == pages[i].next
  {
    if pages != [] {
      ReplacedPages(pages[..|pages| - 1], p);
    }
  }

  // ----- the merged view ---------------------------------------------------

  predicate HasId(turns: seq<Turn>, id: Id) { exists t :: t in turns && t.id == id }

  /** `Map.set`: a known id keeps its position and takes the new value. */
  function Put(entries: seq<Turn>, t: Turn): seq<Turn>
  {
    if entries == [] then [t]
    else if entries[0].id == t.id then [t] + entries[1..]
    else [entries[0]] + Put(entries[1..], t)
  }

  function ById(turns: seq<Turn>): seq<Turn>
  {
    if turns == [] then [] else Put(ById(turns[..|turns| - 1]), turns[|turns| - 1])
  }

  function Overlay(r: Record): Option<Turn>
  {
    if r.state == Synced then r.resolved else Some(r.turn)
  }

  function WithOverlays(entries: seq<Turn>, records: seq<Record>): seq<Turn>
  {
    if records == [] then entries
    else
      var done := WithOverlays(entries, records[..|records| - 1]);
      var overlay := Overlay(records[|records| - 1]);
      if overlay.Some? && !HasId(done, overlay.value.id) then done + [overlay.value] else done
  }

  function MergedView(data: Option<Pages>, records: seq<Record>, collate: Collation): seq<Turn>
  {
    Sort(WithOverlays(ById(ItemsOf(data)), records), TurnOrder(collate))
  }

  // ----- the query cache ------------------------------------------------------

  datatype Scope = Scope(owner: Id, session: Id)

  datatype PageKey = PageKey(scope: Scope, limit: int)

  const DEFAULT_TURN_PAGE_SIZE := 20

  datatype Cache = Cache(records: map<Scope, seq<Record>>, pages: map<PageKey, Option<Pages>>)

  function RecordsOf(cache: Cache, scope: Scope): seq<Record>
  {
    if scope in cache.records then cache.records[scope] else []
  }

  function KeysOf(cache: Cache, scope: Scope): set<PageKey>
  {
    set k | k in cache.pages && k.scope == scope
  }

  predicate CachedTurn(cache: Cache, scope: Scope, id: Id)
  {
    exists k :: k in KeysOf(cache, scope) && HasId(ItemsOf(cache.pages[k]), id)
  }

  function UpsertedPages(cache: Cache, scope: Scope, p: Turn): map<PageKey, Option<Pages>>
  {
    if KeysOf(cache, scope) == {} then
      cache.pages[PageKey(scope, DEFAULT_TURN_PAGE_SIZE) := Some(Upsert(None, p).0)]
    else
      map k | k in cache.pages :: if k.scope == scope then Some(Upsert(cache.pages[k], p).0) else cache.pages[k]
  }

  predicate RetainedEverywhere(cache: Cache, scope: Scope, p: Turn)
  {
    forall k :: k in KeysOf(cache, scope) ==> Upsert(cache.pages[k], p).1
  }

  // ----- operations ------------------------------------------------------------

  datatype Config = Config(enabled: bool, scope: Scope, collate: Collation)

  predicate Active(cfg: Config) { cfg.enabled && cfg.scope.owner != "" && cfg.scope.session != "" }

  datatype Error = Disabled | SchemaError | IdempotencyKeyConflict | PersistedTurnConflict | TurnIdConflict

  datatype Outcome = Done(cache: Cache, record: Record) | Refused(cache: Cache, error: Error)

  datatype PendingTurn = PendingTurn(session: Id, key: Id, turn: Turn)

  predicate HasKey(records: seq<Record>, key: Id) { exists r :: r in records && r.key == key }

  function FirstWithKey(records: seq<Record>, key: Id): (r: Record)
    requires HasKey(records, key)
    ensures r in records && r.key == key
  {
    if records[0].key == key then records[0] else FirstWithKey(records[1..], key)
  }

  function LastWithKey(records: seq<Record>, key: Id): (r: Record)
    requires HasKey(records, key)
    ensures r in records && r.key == key
  {
    var last := records[|records| - 1];
    if last.key == key then last else LastWithKey(records[..|records| - 1], key)
  }

  /** The record list with every record of a key replaced by `f`. */
  function ReplaceKey(records: seq<Record>, key: Id, f: Record -> Record): seq<Record>
  {
    seq(|records|, i requires 0 <= i < |records| => if records[i].key == key then f(records[i]) else records[i])
  }

  function StoreRecords(cache: Cache, scope: Scope, records: seq<Record>): Cache
  {
    cache.(records := cache.records[scope := records])
  }

  function FreshRecord(input: PendingTurn, persisted: bool): Record
  {
    Record(input.session, input.key, if persisted then Synced else Saving, input.turn, None,
           if persisted then Some(input.turn.id) else None, None)
  }

  function Begin(cache: Cache, cfg: Config, input: PendingTurn): Outcome
  {
    var records := RecordsOf(cache, cfg.scope);
    if !Active(cfg) then Refused(cache, Disabled)
    else if !ValidTurn(input.turn) || !OptimisticTurn(input.turn) then Refused(cache, SchemaError)
    else if input.session != cfg.scope.session then Refused(cache, TurnIdConflict)
    else if !AllValid(records) then Refused(cache, SchemaError)
    else if HasKey(records, input.key) then
      var existing := FirstWithKey(records, input.key);
      if existing.session == input.session && existing.turn == input.turn then Done(cache, existing)
      else Refused(cache, IdempotencyKeyConflict)
    else if exists r :: r in records && r.turn.id == input.turn.id then Refused(cache, TurnIdConflict)
    else
      var record := FreshRecord(input, CachedTurn(cache, cfg.scope, input.turn.id));
      if !ValidRecord(record) then Refused(cache, SchemaError)
      else Done(StoreRecords(cache, cfg.scope, Sort(records + [record], RecordOrder(cfg.collate))), record)
  }

  function SyncedRecord(r: Record, p: Turn, retained: bool): Record
  {
    r.(state := Synced, errorCode := None, persistedId := Some(p.id), resolved := if retained then None else Some(p))
  }

  /** The pages are already rewritten when the synced record is parsed. */
  function Reconcile(cache: Cache, cfg: Config, key: Id, p: Turn): Outcome
  {
    var records := RecordsOf(cache, cfg.scope);
    if !Active(cfg) then Refused(cache, Disabled)
    else if !ValidTurn(p) || !AllValid(records) then Refused(cache, SchemaError)
    else if !HasKey(records, key) then Refused(cache, IdempotencyKeyConflict)
    else
      var record := FirstWithKey(records, key);
      if !PersistedMatch(record, p) then Refused(cache, PersistedTurnConflict)
      else
        var updated := cache.(pages := UpsertedPages(cache, cfg.scope, p));
        var synced := SyncedRecord(record, p, RetainedEverywhere(cache, cfg.scope, p));
        if !ValidRecord(synced) then Refused(updated, SchemaError)
        else Done(StoreRecords(updated, cfg.scope, ReplaceKey(records, key, _ => synced)), synced)
  }

  function FailedRecord(r: Record, code: string): Record
  {
    r.(state := Unsynced, errorCode := Some(code), persistedId := None, resolved := None)
  }

  function MarkUnsynced(cache: Cache, cfg: Config, key: Id, code: string): Outcome
  {
    var records := RecordsOf(cache, cfg.scope);
    if !Active(cfg) then Refused(cache, Disabled)
    else if !SafeErrorCode(code) || !AllValid(records) then Refused(cache, SchemaError)
    else if exists r :: r in records && r.key == key && r.state == Synced then Refused(cache, PersistedTurnConflict)
    else if !HasKey(records, key) then Refused(cache, IdempotencyKeyConflict)
    else
      var next := ReplaceKey(records, key, r => FailedRecord(r, code));
      Done(StoreRecords(cache, cfg.scope, next), FailedRecord(LastWithKey(records, key), code))
  }

  function RetriedRecord(r: Record): Record
  {
    if r.state == Synced then r
    else r.(state := Saving, errorCode := None, persistedId := None, resolved := None)
  }

  function Retry(cache: Cache, cfg: Config, key: Id): Outcome
  {
    var records := RecordsOf(cache, cfg.scope);
    if !Active(cfg) then Refused(cache, Disabled)
    else if !AllValid(records) then Refused(cache, SchemaError)
    else if !HasKey(records, key) then Refused(cache, IdempotencyKeyConflict)
    else
      var next := ReplaceKey(records, key, r => RetriedRecord(r));
      Done(StoreRecords(cache, cfg.scope, next), RetriedRecord(LastWithKey(records, key)))
  }

  // ----- runs --------------------------------------------------------------------

  datatype Op =
    | BeginOp(input: PendingTurn)
    | ReconcileOp(key: Id, persisted: Turn)
    | MarkUnsyncedOp(key: Id, code: string)
    | RetryOp(key: Id)

  function Apply(cache: Cache, cfg: Config, op: Op): Outcome
  {
    match op
    case BeginOp(input) => Begin(cache, cfg, input)
    case ReconcileOp(key, persisted) => Reconcile(cache, cfg, key, persisted)
    case MarkUnsyncedOp(key, code) => MarkUnsynced(cache, cfg, key, code)
    case RetryOp(key) => Retry(cache, cfg, key)
  }

  function RunOps(cache: Cache, cfg: Config, ops: seq<Op>): Cache
    decreases |ops|
  {
    if ops == [] then cache else RunOps(Apply(cache, cfg, ops[0]).cache, cfg, ops[1..])
  }
}
