/** Federated search over result groups
    (apps/api/backend/ask/federated_search.py). A group's query may fail; paging
    is within one group. Instants are points on one time line, and text order in
    the database is some strict total order. */
module FederatedSearch {
  import opened Foundations
  import opened Ordering
  import opened Keyset

  datatype Group =
    | BestMatch | Entities | OfficialRegulations | OfficialDocuments | Amendments | Consultations
    | Deadlines | PreviousResearch

  const Searchable: seq<Group> :=
    [Entities, OfficialRegulations, OfficialDocuments, Amendments, Consultations, Deadlines, PreviousResearch]

  datatype Provenance = InternalRegulatoryCorpus | OwnedResearch

  /** The query, its correction mode and the filters of a request. */
  datatype Criteria = Criteria(query: string, autoCorrect: bool, provenance: Option<Provenance>, filters: string)

  datatype Row = Row(stableId: string, relevance: int, sortAt: int)

  /** `open`: the session and the repository can be used at all. A group has its
      matching rows, or nothing when its query fails. */
  datatype Store = Store(open: bool, matching: (Group, Criteria) -> Option<seq<Row>>)

  /** Text order in the database, and case folding. */
  datatype Collation = Collation(precedes: (string, string) -> bool, fold: string -> string)

  ghost predicate StrictTextOrder(env: Collation)
  {
    && (forall x :: !env.precedes(x, x))
    && (forall x, y, z :: env.precedes(x, y) && env.precedes(y, z) ==> env.precedes(x, z))
    && (forall x, y :: x != y ==> env.precedes(x, y) || env.precedes(y, x))
  }

  /** An encoded cursor; `zoned` says whether its instant names a time zone. */
  datatype Token =
    | Token(version: int, group: Group, digest: Criteria, relevance: int, sortAt: int, zoned: bool, stableId: string)
    | Undecodable

  datatype Request = Request(criteria: Criteria, group: Option<Group>, cursor: Option<Token>, limit: nat)

  datatype Status = Complete | NoMatch | NotRequested | Unavailable

  datatype Item = Item(group: Group, stableId: string, relevance: int)

  datatype ResultGroup = ResultGroup(group: Group, status: Status, items: seq<Item>, next: Option<Token>)

  datatype Outcome = CursorInvalid | SearchUnavailable | ResponseRejected | Found(groups: seq<ResultGroup>)

  const MaxLimit: nat := 20

  /** Best matches are derived, and a cursor needs its group. */
  predicate ValidRequest(request: Request)
  {
    && request.group != Some(BestMatch) && 1 <= request.limit <= MaxLimit
    && (request.cursor.Some? ==> request.group.Some?)
  }

  // ----- order and cursors ------------------------------------------------------------------

  predicate Below(env: Collation, a: Row, b: Row)
  {
    || a.relevance < b.relevance
    || (a.relevance == b.relevance &&
        (a.sortAt < b.sortAt || (a.sortAt == b.sortAt && env.precedes(a.stableId, b.stableId))))
  }

  function NotBelow(env: Collation): (Row, Row) -> bool
  {
    (a: Row, b: Row) => !Below(env, a, b)
  }

  /** The digest of a request does not tell case variants of its query apart. */
  function Digest(env: Collation, criteria: Criteria): Criteria
  {
    criteria.(query := env.fold(criteria.query))
  }

  function Encode(env: Collation, group: Group, criteria: Criteria, row: Row): Token
  {
    Token(1, group, Digest(env, criteria), row.relevance, row.sortAt, true, row.stableId)
  }

  /** A decoded cursor is the key of a row. */
  datatype Decoded = Absent | Bad | Cursor(key: Row)

  function Decode(env: Collation, cursor: Option<Token>, group: Option<Group>, criteria: Criteria): Decoded
  {
    match cursor
    case None => Absent
    case Some(token) =>
      if token.Undecodable? || token.version != 1 || group != Some(token.group) || token.digest != Digest(env, criteria)
         || !token.zoned || !(0 <= token.relevance <= 1000) || token.stableId == "" then Bad
      else Cursor(Row(token.stableId, token.relevance, token.sortAt))
  }

  // ----- one group ---------------------------------------------------------------------------

  function ProvenanceOf(group: Group): Provenance
  {
    if group == PreviousResearch then OwnedResearch else InternalRegulatoryCorpus
  }

  function ReachedBy(env: Collation, cursor: Decoded): Row -> bool
  {
    (row: Row) => cursor.Cursor? ==> Below(env, row, cursor.key)
  }

  /** The rows of a group's query under its filters. */
  function Rows(store: Store, criteria: Criteria, group: Group): Option<seq<Row>>
  {
    if criteria.provenance.Some? && criteria.provenance.value != ProvenanceOf(group) then Some([])
    else store.matching(group, criteria)
  }

  datatype Fetched = Failed | Rest(rows: seq<Row>, more: bool)

  function Query(env: Collation, rows: seq<Row>, cursor: Decoded, limit: nat): seq<Row>
  {
    var sorted := Sort(Filter(rows, ReachedBy(env, cursor)), NotBelow(env));
    sorted[..Smaller(limit, |sorted|)]
  }

  function FetchGroup(
    env: Collation, store: Store, criteria: Criteria, group: Group, cursor: Decoded, limit: nat): Fetched
  {
    var found := Rows(store, criteria, group);
    if found.None? then Failed
    else
      var rows := Query(env, found.value, cursor, limit + 1);
      Rest(rows[..Smaller(limit, |rows|)], |rows| > limit)
  }

  function ItemsOf(group: Group, rows: seq<Row>): (items: seq<Item>)
    ensures |items| == |rows|
    ensures forall i :: 0 <= i < |rows| ==> items[i] == Item(group, rows[i].stableId, rows[i].relevance)
  {
    seq(|rows|, i requires 0 <= i < |rows| => Item(group, rows[i].stableId, rows[i].relevance))
  }

  function Answered(env: Collation, criteria: Criteria, group: Group, rows: seq<Row>, more: bool): ResultGroup
  {
    ResultGroup(group, if rows != [] then Complete else NoMatch, ItemsOf(group, rows),
                if more && rows != [] then Some(Encode(env, group, criteria, rows[|rows| - 1])) else None)
  }

  // ----- all groups ----------------------------------------------------------------------------

  function Requested(request: Request): seq<Group>
  {
    if request.group.Some? then [request.group.value] else Searchable
  }

  function FetchFor(env: Collation, store: Store, request: Request, cursor: Decoded, group: Group): Fetched
  {
    FetchGroup(env, store, request.criteria, group, if request.group == Some(group) then cursor else Absent,
               request.limit)
  }

  function ResultFor(env: Collation, store: Store, request: Request, cursor: Decoded, group: Group): ResultGroup
  {
    if group !in Requested(request) then ResultGroup(group, NotRequested, [], None)
    else
      match FetchFor(env, store, request, cursor, group)
      case Failed => ResultGroup(group, Unavailable, [], None)
      case Rest(rows, more) => Answered(env, request.criteria, group, rows, more)
  }

  function ResultsFor(
    env: Collation, store: Store, request: Request, cursor: Decoded, groups: seq<Group>): seq<ResultGroup>
  {
    seq(|groups|, i requires 0 <= i < |groups| => ResultFor(env, store, request, cursor, groups[i]))
  }

  predicate AllFail(env: Collation, store: Store, request: Request, cursor: Decoded)
  {
    forall g :: g in Requested(request) ==> FetchFor(env, store, request, cursor, g).Failed?
  }

  predicate SomeFail(env: Collation, store: Store, request: Request, cursor: Decoded)
  {
    exists g :: g in Requested(request) && FetchFor(env, store, request, cursor, g).Failed?
  }

  function AllItems(groups: seq<ResultGroup>): seq<Item>
  {
    if groups == [] then [] else AllItems(groups[..|groups| - 1]) + groups[|groups| - 1].items
  }

  /** Whether one item ranks above another: relevance, then result identity. */
  predicate Better(ids: (Item, Item) -> bool, a: Item, b: Item)
  {
    a.relevance > b.relevance || (a.relevance == b.relevance && ids(b, a))
  }

  /** The first item that no later one ranks above. */
  function Best(ids: (Item, Item) -> bool, items: seq<Item>): Option<Item>
  {
    if items == [] then None
    else
      var before, last := Best(ids, items[..|items| - 1]), items[|items| - 1];
      if before.None? || Better(ids, last, before.value) then Some(last) else before
  }

  function BestGroup(best: Option<Item>, someFail: bool): ResultGroup
  {
    match best
    case Some(item) => ResultGroup(BestMatch, Complete, [item], None)
    case None => ResultGroup(BestMatch, if someFail then Unavailable else NoMatch, [], None)
  }

  /** The contract of a result group. */
  predicate ValidGroup(r: ResultGroup)
  {
    && (r.group == BestMatch ==> |r.items| <= 1 && r.next == None)
    && (r.group != BestMatch ==> forall i :: 0 <= i < |r.items| ==> r.items[i].group == r.group)
    && (r.status == Complete <==> r.items != [])
    && (r.status != Complete ==> r.next == None)
    && (forall i, j :: 0 <= i < j < |r.items| ==> r.items[i].relevance >= r.items[j].relevance)
    && (forall i, j :: 0 <= i < j < |r.items| ==>
          (r.items[i].group, r.items[i].stableId) != (r.items[j].group, r.items[j].stableId))
  }

  predicate AllValid(groups: seq<ResultGroup>)
  {
    forall i :: 0 <= i < |groups| ==> ValidGroup(groups[i])
  }

  function Respond(groups: seq<ResultGroup>): Outcome
  {
    if AllValid(groups) then Found(groups) else ResponseRejected
  }

  function Search(env: Collation, ids: (Item, Item) -> bool, store: Store, request: Request): Outcome
  {
    var cursor := Decode(env, request.cursor, request.group, request.criteria);
    if cursor.Bad? then CursorInvalid
    else if !store.open || AllFail(env, store, request, cursor) then SearchUnavailable
    else
      var groups := ResultsFor(env, store, request, cursor, Searchable);
      Respond([BestGroup(Best(ids, AllItems(groups)), SomeFail(env, store, request, cursor))] + groups)
  }

  // ----- the loops --------------------------------------------------------------------------------

  ghost predicate PagesSoFar(
    env: Collation, store: Store, request: Request, cursor: Decoded, groups: seq<Group>,
    pages: map<Group, Fetched>, unavailable: set<Group>)
  {
    && (forall g :: g in pages <==> g in groups && !FetchFor(env, store, request, cursor, g).Failed?)
    && (forall g :: g in pages ==> pages[g] == FetchFor(env, store, request, cursor, g))
    && (forall g :: g in unavailable <==> g in groups && FetchFor(env, store, request, cursor, g).Failed?)
  }

  lemma {:induction false} OneMorePage(
    env: Collation, store: Store, request: Request, cursor: Decoded, groups: seq<Group>,
    pages: map<Group, Fetched>, unavailable: set<Group>, g: Group)
    requires PagesSoFar(env, store, request, cursor, groups, pages, unavailable)
    ensures var page := FetchFor(env, store, request, cursor, g);
            PagesSoFar(env, store, request, cursor, groups + [g],
                       if page.Failed? then pages else pages[g := page],
                       if page.Failed? then unavailable + {g} else unavailable)
  {
    hide FetchFor;
  }

  method FetchPages(env: Collation, store: Store, request: Request, cursor: Decoded)
    returns (pages: map<Group, Fetched>, unavailable: set<Group>)
    ensures PagesSoFar(env, store, request, cursor, Requested(request), pages, unavailable)
  {
    var requested := Requested(request);
    pages, unavailable := map[], {};
    for n := 0 to |requested|
      invariant PagesSoFar(env, store, request, cursor, requested[..n], pages, unavailable)
    {
      var group := requested[n];
      OneMorePage(env, store, request, cursor, requested[..n], pages, unavailable, group);
      hide PagesSoFar, FetchFor;
      assert requested[..n + 1] == requested[..n] + [group];
      var page := FetchFor(env, store, request, cursor, group);
      if page.Failed? {
        unavailable := unavailable + {group};
      } else {
        pages := pages[group := page];
      }
    }
    assert requested[..|requested|] == requested;
  }

  lemma {:induction false} ResultFromPages(
    env: Collation, store: Store, request: Request, cursor: Decoded, pages: map<Group, Fetched>,
    unavailable: set<Group>,
    group: Group)
    requires PagesSoFar(env, store, request, cursor, Requested(request), pages, unavailable)
    ensures group in pages ==> pages[group].Rest?
    ensures ResultFor(env, store, request, cursor, group)
         == if group !in pages
            then ResultGroup(group, if group in unavailable then Unavailable else NotRequested, [], None)
            else Answered(env, request.criteria, group, pages[group].rows, pages[group].more)
  {
    hide FetchFor, Requested, Answered;
  }

  method BuildGroups(
    env: Collation, store: Store, request: Request, cursor: Decoded, pages: map<Group, Fetched>,
    unavailable: set<Group>)
    returns (groups: seq<ResultGroup>, allItems: seq<Item>)
    requires PagesSoFar(env, store, request, cursor, Requested(request), pages, unavailable)
    ensures groups == ResultsFor(env, store, request, cursor, Searchable)
    ensures allItems == AllItems(groups)
  {
    hide ResultFor, Answered, FetchFor, Requested, PagesSoFar, AllItems;
    groups, allItems := [], [];
    NoItems();
    for n := 0 to |Searchable|
      invariant |groups| == n
      invariant forall i :: 0 <= i < n ==> groups[i] == ResultFor(env, store, request, cursor, Searchable[i])
      invariant allItems == AllItems(groups)
    {
      var group := Searchable[n];
      ResultFromPages(env, store, request, cursor, pages, unavailable, group);
      var answer;
      if group !in pages {
        answer := ResultGroup(group, if group in unavailable then Unavailable else NotRequested, [], None);
      } else {
        answer := Answered(env, request.criteria, group, pages[group].rows, pages[group].more);
      }
      OneMoreItems(groups, answer);
      allItems := allItems + answer.items;
      groups := groups + [answer];
    }
  }

  lemma {:induction false} NoItems()
    ensures AllItems([]) == []
  {
  }

  lemma {:induction false} OneMoreItems(groups: seq<ResultGroup>, answer: ResultGroup)
    ensures AllItems(groups + [answer]) == AllItems(groups) + answer.items
  {
    assert (groups + [answer])[..|groups|] == groups;
  }

  method FederatedSearch(
    env: Collation, ids: (Item, Item) -> bool, store: Store, request: Request) returns (outcome: Outcome)
    ensures outcome == Search(env, ids, store, request)
  {
    var cursor := Decode(env, request.cursor, request.group, request.criteria);
    if cursor.Bad? {
      return CursorInvalid;
    }
    if !store.open {
      return SearchUnavailable;
    }
    var pages, unavailable := FetchPages(env, store, request, cursor);
    FailuresAre(env, store, request, cursor, pages, unavailable);
    hide AllFail, SomeFail, PagesSoFar, ResultsFor, AllItems, Best, BestGroup, Respond, Decode, Requested;
    if unavailable == set g | g in Requested(request) {
      return SearchUnavailable;
    }
    var groups, allItems := BuildGroups(env, store, request, cursor, pages, unavailable);
    var best := Best(ids, allItems);
    outcome := Respond([BestGroup(best, unavailable != {})] + groups);
  }

  lemma {:induction false} FailuresAre(
    env: Collation, store: Store, request: Request, cursor: Decoded, pages: map<Group, Fetched>,
    unavailable: set<Group>)
    requires PagesSoFar(env, store, request, cursor, Requested(request), pages, unavailable)
    ensures unavailable == (set g | g in Requested(request)) <==> AllFail(env, store, request, cursor)
    ensures unavailable != {} <==> SomeFail(env, store, request, cursor)
  {
    hide FetchFor, Requested;
    if unavailable != {} {
      var g :| g in unavailable;
    }
  }
}
