/** Manual document search
    (apps/api/backend/ask/manual_document_search.py): filters pick rows of an
    unchanged database, and a cursor carries the search date and the key of the
    last item. Dates are day numbers, day 1 being 1 January of year 1. */
module ManualDocumentSearch {
  import opened Foundations
  import opened Ordering
  import opened Keyset

  const MinDate: int := 1
  const MaxLimit: nat := 50

  datatype Registry = Registry(id: int, effective: Option<int>, publication: Option<int>, issue: Option<int>)

  /** A candidate row of the query. */
  datatype Row = Row(documentId: int, registry: Option<Registry>, documentIssue: Option<int>, relevance: int)

  datatype Item = Item(
    documentId: int, registryId: Option<int>, effective: Option<int>, publication: Option<int>, issue: Option<int>,
    relevance: int)

  datatype Key = Key(relevance: int, sortDate: int, documentId: int, registryId: int)

  /** The encoded cursor. Base64, JSON and the digest of the filters are
      injective, so a token is what it encodes, or text that does not decode. */
  datatype Token =
    | Token(version: int, filters: string, asOf: int, key: Key)
    | Undecodable

  datatype Request = Request(filters: string, cursor: Option<Token>, limit: nat)

  datatype Response = Response(complete: bool, asOf: int, items: seq<Item>, next: Option<Token>)

  datatype Outcome = CursorInvalid | Unavailable | ResponseRejected | Found(response: Response)

  /** The rows that match the filters on a given day. */
  datatype Database = Database(matching: (string, int) -> seq<Row>)

  // ----- sort keys -----------------------------------------------------------------------------

  function OrElse(first: Option<int>, second: Option<int>): Option<int>
  {
    if first.Some? then first else second
  }

  function OrDate(first: Option<int>, default: int): int
  {
    if first.Some? then first.value else default
  }

  /** `coalesce` over the five dates of the query. */
  function SqlSortDate(row: Row): int
  {
    match row.registry
    case Some(r) => OrDate(OrElse(r.effective, OrElse(r.publication, OrElse(r.issue, row.documentIssue))), MinDate)
    case None => OrDate(row.documentIssue, MinDate)
  }

  function SqlKey(row: Row): Key
  {
    Key(row.relevance, SqlSortDate(row), row.documentId, if row.registry.Some? then row.registry.value.id else 0)
  }

  /** The row as the query returns it: the issue date is the registry's or the
      document's. */
  function ItemOf(row: Row): Item
  {
    match row.registry
    case Some(r) =>
      Item(row.documentId, Some(r.id), r.effective, r.publication, OrElse(r.issue, row.documentIssue), row.relevance)
    case None => Item(row.documentId, None, None, None, row.documentIssue, row.relevance)
  }

  /** The key recomputed from a returned item. */
  function ItemKey(item: Item): Key
  {
    Key(item.relevance,
        if item.effective.Some? then item.effective.value
        else if item.publication.Some? then item.publication.value
        else if item.issue.Some? then item.issue.value
        else MinDate,
        item.documentId,
        if item.registryId.Some? then item.registryId.value else 0)
  }

  /** The cursor predicate: strictly below in the lexicographic order. */
  predicate Below(a: Key, b: Key)
  {
    || a.relevance < b.relevance
    || (a.relevance == b.relevance &&
        (|| a.sortDate < b.sortDate
         || (a.sortDate == b.sortDate &&
             (|| a.documentId < b.documentId
              || (a.documentId == b.documentId && a.registryId < b.registryId)))))
  }

  /** The `order by`: every column descending. */
  predicate NotBelow(a: Row, b: Row)
  {
    !Below(SqlKey(a), SqlKey(b))
  }

  // ----- cursors ----------------------------------------------------------------------------------

  function Encode(filters: string, asOf: int, item: Item): Token
  {
    Token(1, filters, asOf, ItemKey(item))
  }

  datatype Decoded = Absent | Bad | Cursor(asOf: int, key: Key)

  function Decode(cursor: Option<Token>, filters: string): Decoded
  {
    match cursor
    case None => Absent
    case Some(token) =>
      if token.Undecodable? || token.version != 1 || token.filters != filters
         || !(0 <= token.key.relevance <= 1000) || token.key.documentId <= 0 || token.key.registryId < 0 then Bad
      else Cursor(token.asOf, token.key)
  }

  // ----- the repository ------------------------------------------------------------------------------

  /** What the item contract asks of a row. */
  predicate ValidRow(row: Row)
  {
    row.documentId > 0 && (row.registry.Some? ==> row.registry.value.id > 0) && 0 <= row.relevance <= 1000
  }

  predicate Reached(cursor: Decoded, row: Row)
  {
    cursor.Cursor? ==> Below(SqlKey(row), cursor.key)
  }

  function ReachedBy(cursor: Decoded): Row -> bool
  {
    (row: Row) => Reached(cursor, row)
  }

  /** The query: cursor predicate, order and limit. */
  function Query(rows: seq<Row>, cursor: Decoded, limit: nat): seq<Row>
  {
    var sorted := Sort(Filter(rows, ReachedBy(cursor)), NotBelow);
    sorted[..Smaller(limit, |sorted|)]
  }

  function ItemsOf(rows: seq<Row>): (items: seq<Item>)
    ensures |items| == |rows|
    ensures forall i :: 0 <= i < |rows| ==> items[i] == ItemOf(rows[i])
  {
    seq(|rows|, i requires 0 <= i < |rows| => ItemOf(rows[i]))
  }

  // ----- the service -------------------------------------------------------------------------------------

  function KeyOfItem(items: seq<Item>, i: nat): Key
    requires i < |items|
  {
    ItemKey(items[i])
  }

  /** The contract of a response: the status agrees, keys do not increase and
      result identities, the document with its registry version, are unique. */
  predicate ValidResponse(r: Response)
  {
    && (r.complete <==> r.items != [])
    && (!r.complete ==> r.next.None?)
    && (forall i, j :: 0 <= i < j < |r.items| ==> !Below(KeyOfItem(r.items, i), KeyOfItem(r.items, j)))
    && (forall i, j :: 0 <= i < j < |r.items| ==>
          (r.items[i].documentId, r.items[i].registryId) != (r.items[j].documentId, r.items[j].registryId))
  }

  /** `now` is absent when the clock has no time zone. */
  function Search(db: Database, request: Request, now: Option<int>): Outcome
  {
    var cursor := Decode(request.cursor, request.filters);
    if cursor.Bad? then CursorInvalid
    else if cursor.Absent? && now.None? then Unavailable
    else SearchAt(db, request, cursor, if cursor.Cursor? then cursor.asOf else now.value)
  }

  function SearchAt(db: Database, request: Request, cursor: Decoded, asOf: int): Outcome
  {
    Answer(request.filters, asOf, request.limit,
           Query(db.matching(request.filters, asOf), cursor, request.limit + 1))
  }

  /** The response to the rows of a query with one more than the limit. */
  function Answer(filters: string, asOf: int, limit: nat, rows: seq<Row>): Outcome
  {
    var retained := rows[..Smaller(limit, |rows|)];
    if exists row :: row in retained && !ValidRow(row) then Unavailable
    else
      var items := ItemsOf(retained);
      var next := if |rows| > limit && items != [] then Some(Encode(filters, asOf, items[|items| - 1])) else None;
      var response := Response(items != [], asOf, items, next);
      if ValidResponse(response) then Found(response) else ResponseRejected
  }

  /** A page request by a client that repeats its filters. */
  function FetchFrom(db: Database, filters: string): Fetch<Item, Token>
  {
    (cursor: Option<Token>, limit: nat, now: int) =>
      match Search(db, Request(filters, cursor, limit), Some(now))
      case Found(r) => Some(Page(r.items, r.next))
      case _ => None
  }
}
