/** Following cursors reads every matching row once
    (apps/api/backend/ask/manual_document_search.py). */
module ManualDocumentSearchTheorems {
  import opened Foundations
  import opened Ordering
  import opened Keyset
  import opened ManualDocumentSearch

  // ----- keys and cursors -------------------------------------------------------------------

  /** The key recomputed from an item is the key the query sorted its row by. */
  lemma {:induction false} KeysAgree(row: Row)
    ensures ItemKey(ItemOf(row)) == SqlKey(row)
  {
    match row.registry {
      case Some(r) =>
      case None =>
    }
  }

  /** A cursor made for a valid row decodes to what was encoded, under its own
      filters only. */
  lemma {:induction false} CursorRoundTrip(filters: string, asOf: int, row: Row, others: string)
    requires ValidRow(row)
    ensures Decode(Some(Encode(filters, asOf, ItemOf(row))), filters) == Cursor(asOf, SqlKey(row))
    ensures Decode(Some(Encode(filters, asOf, ItemOf(row))), others).Cursor? <==> others == filters
  {
    KeysAgree(row);
  }

  // ----- the listing --------------------------------------------------------------------------

  predicate Differ(a: Row, b: Row)
  {
    SqlKey(a).documentId != SqlKey(b).documentId || SqlKey(a).registryId != SqlKey(b).registryId
  }

  /** Candidate rows differ in their document or registry version: there is one
      row for each document, and registry identities are positive. */
  ghost predicate DistinctRows(rows: seq<Row>)
  {
    (forall row :: row in rows ==> ValidRow(row)) && Pairwise(rows, Differ)
  }

  ghost predicate WellFormed(db: Database)
  {
    forall filters, asOf :: DistinctRows(db.matching(filters, asOf))
  }

  lemma {:induction false} OrderIsTotal()
    ensures TotalPreorder(NotBelow) && Apart(Differ)
  {
  }

  lemma {:induction false} DistinctRowsDoNotTie(rows: seq<Row>)
    requires DistinctRows(rows)
    ensures Tieless(rows, NotBelow)
  {
    assert forall i, j :: 0 <= i < j < |rows| ==> Differ(rows[i], rows[j]);
    hide SqlKey;
  }

  function Listed(db: Database, filters: string, asOf: int): seq<Row>
  {
    Sort(db.matching(filters, asOf), NotBelow)
  }

  /** Every matching item once, in strictly descending key order. */
  function Listing(db: Database, filters: string, asOf: int): seq<Item>
  {
    ItemsOf(Listed(db, filters, asOf))
  }

  ghost predicate StrictlyDescending(rows: seq<Row>)
  {
    forall i, j :: 0 <= i < j < |rows| ==> Below(SqlKey(rows[j]), SqlKey(rows[i]))
  }

  lemma {:induction false} SortedRows(rows: seq<Row>)
    requires DistinctRows(rows)
    ensures StrictlyDescending(Sort(rows, NotBelow)) && DistinctRows(Sort(rows, NotBelow))
    ensures multiset(Sort(rows, NotBelow)) == multiset(rows)
  {
    hide SqlKey, ValidRow, Sort, Below;
    OrderIsTotal();
    DistinctRowsDoNotTie(rows);
    SortStrictly(rows, NotBelow);
    SortPermutes(rows, NotBelow);
    PairwisePermuted(rows, Sort(rows, NotBelow), Differ);
  }

  /** The listing holds each matching row exactly once, strictly descending. */
  lemma {:induction false} ListingIsExact(db: Database, filters: string, asOf: int)
    requires WellFormed(db)
    ensures multiset(Listed(db, filters, asOf)) == multiset(db.matching(filters, asOf))
    ensures forall row :: multiset(Listed(db, filters, asOf))[row] <= 1
    ensures StrictlyDescending(Listed(db, filters, asOf))
  {
    var rows := db.matching(filters, asOf);
    assert DistinctRows(rows);
    SortedRows(rows);
    OrderIsTotal();
    forall row
      ensures multiset(rows)[row] <= 1
    {
      OnceAtMost(rows, Differ, row);
    }
    hide Sort, DistinctRows;
  }

  // ----- one page ---------------------------------------------------------------------------------

  /** The cursor of a position: the key of the last row before it. */
  function RowCursor(rows: seq<Row>, asOf: int, k: nat): Decoded
    requires k <= |rows|
  {
    if k == 0 then Absent else Cursor(asOf, SqlKey(rows[k - 1]))
  }

  lemma {:induction false} RestIsReached(rows: seq<Row>, asOf: int, k: nat)
    requires DistinctRows(rows) && k <= |Sort(rows, NotBelow)|
    ensures var listed := Sort(rows, NotBelow);
            Sort(Filter(rows, ReachedBy(RowCursor(listed, asOf, k))), NotBelow) == listed[k..]
  {
    hide SqlKey, Below, Sort, DistinctRows, Filter;
    OrderIsTotal();
    DistinctRowsDoNotTie(rows);
    RestOfListing(rows, ReachedBy(RowCursor(Sort(rows, NotBelow), asOf, k)), NotBelow, k);
  }

  lemma {:induction false} QueryIsSlice(rows: seq<Row>, asOf: int, k: nat, limit: nat)
    requires DistinctRows(rows) && k <= |Sort(rows, NotBelow)|
    ensures var listed := Sort(rows, NotBelow);
            Query(rows, RowCursor(listed, asOf, k), limit) == listed[k..][..Smaller(limit, |listed| - k)]
  {
    RestIsReached(rows, asOf, k);
    hide DistinctRows, Sort, Filter, ReachedBy, RowCursor;
  }

  // ----- one response -----------------------------------------------------------------------------

  /** Any rows in strictly descending order make a valid response. */
  lemma {:induction false} DescendingIsValid(listed: seq<Row>, lo: nat, hi: nat, asOf: int, next: Option<Token>)
    requires lo <= hi <= |listed| && StrictlyDescending(listed) && DistinctRows(listed)
    requires lo == hi ==> next == None
    ensures ValidResponse(Response(lo < hi, asOf, ItemsOf(listed[lo..hi]), next))
  {
    var rows := listed[lo..hi];
    var items := ItemsOf(rows);
    forall i, j | 0 <= i < j < |items|
      ensures !Below(KeyOfItem(items, i), KeyOfItem(items, j))
      ensures (items[i].documentId, items[i].registryId) != (items[j].documentId, items[j].registryId)
    {
      PairIsValid(rows, listed, lo, i, j);
    }
    hide StrictlyDescending, DistinctRows, Below, KeyOfItem;
  }

  lemma {:induction false} PairIsValid(rows: seq<Row>, listed: seq<Row>, lo: nat, i: nat, j: nat)
    requires i < j < |rows| && lo + |rows| <= |listed| && rows == listed[lo..lo + |rows|]
    requires StrictlyDescending(listed) && DistinctRows(listed)
    ensures !Below(ItemKey(ItemOf(rows[i])), ItemKey(ItemOf(rows[j])))
    ensures (ItemOf(rows[i]).documentId, ItemOf(rows[i]).registryId)
         != (ItemOf(rows[j]).documentId, ItemOf(rows[j]).registryId)
  {
    var a, b := listed[lo + i], listed[lo + j];
    assert rows[i] == a && rows[j] == b;
    KeysAgree(a);
    KeysAgree(b);
    assert Differ(a, b) && Below(SqlKey(b), SqlKey(a));
  }

  /** The token the service would hand out before a position. */
  function PositionToken(db: Database, filters: string, asOf: int): nat -> Token
  {
    (k: nat) =>
      var listing := Listing(db, filters, asOf);
      if 0 < k <= |listing| then Encode(filters, asOf, listing[k - 1]) else Undecodable
  }

  /** The cursor after the rows before `end`, if any are left. */
  function NextToken(filters: string, asOf: int, listed: seq<Row>, end: nat): Option<Token>
  {
    if 0 < end < |listed| then Some(Encode(filters, asOf, ItemOf(listed[end - 1]))) else None
  }

  /** One more row than the limit tells whether anything is left. */
  lemma {:induction false} AnswerIsSlice(filters: string, asOf: int, limit: nat, listed: seq<Row>, k: nat)
    requires StrictlyDescending(listed) && DistinctRows(listed) && limit >= 1 && k <= |listed|
    ensures var end := Smaller(k + limit, |listed|);
            Answer(filters, asOf, limit, listed[k..][..Smaller(limit + 1, |listed| - k)])
            == Found(Response(k < end, asOf, ItemsOf(listed[k..end]), NextToken(filters, asOf, listed, end)))
  {
    LookAhead(listed, k, limit);
    var end := Smaller(k + limit, |listed|);
    AllValid(listed, k, end);
    DescendingIsValid(listed, k, end, asOf, NextToken(filters, asOf, listed, end));
    hide DistinctRows, StrictlyDescending, ValidResponse, ValidRow, ItemOf, Encode;
    var rows := listed[k..][..Smaller(limit + 1, |listed| - k)];
    var retained := rows[..Smaller(limit, |rows|)];
    assert retained == listed[k..end];
    assert k < end ==> ItemsOf(retained)[end - k - 1] == ItemOf(listed[end - 1]);
  }

  /** From the position a cursor stands for, the service serves the next slice of
      the listing; the response contract holds. */
  lemma {:induction false} SearchIsSlice(
    db: Database, filters: string, asOf: int, k: nat, limit: nat, token: Option<Token>)
    requires WellFormed(db) && limit >= 1 && k <= |Listed(db, filters, asOf)|
    ensures var listed := Listed(db, filters, asOf);
            var end := Smaller(k + limit, |listed|);
            var page := Slice(Listing(db, filters, asOf), PositionToken(db, filters, asOf), k, limit);
            SearchAt(db, Request(filters, token, limit), RowCursor(listed, asOf, k), asOf)
            == Found(Response(k < end, asOf, page.items, page.next))
  {
    hide *;
    var listed := Listed(db, filters, asOf);
    ListedFacts(db, filters, asOf, k, limit);
    AnswerIsSlice(filters, asOf, limit, listed, k);
    SearchAnswers(db, Request(filters, token, limit), RowCursor(listed, asOf, k), asOf);
    PageOfSlice(db, filters, asOf, k, limit);
  }

  lemma {:induction false} ListedFacts(db: Database, filters: string, asOf: int, k: nat, limit: nat)
    requires WellFormed(db) && k <= |Listed(db, filters, asOf)|
    ensures var listed := Listed(db, filters, asOf);
            && StrictlyDescending(listed) && DistinctRows(listed)
            && Query(db.matching(filters, asOf), RowCursor(listed, asOf, k), limit + 1)
               == listed[k..][..Smaller(limit + 1, |listed| - k)]
  {
    var rows := db.matching(filters, asOf);
    assert DistinctRows(rows);
    hide WellFormed, DistinctRows, StrictlyDescending, Query, RowCursor, Sort;
    QueryIsSlice(rows, asOf, k, limit + 1);
    SortedRows(rows);
  }

  lemma {:induction false} PageOfSlice(db: Database, filters: string, asOf: int, k: nat, limit: nat)
    requires k <= |Listed(db, filters, asOf)| && limit >= 1
    ensures var listed := Listed(db, filters, asOf);
            var end := Smaller(k + limit, |listed|);
            var page := Slice(Listing(db, filters, asOf), PositionToken(db, filters, asOf), k, limit);
            page.items == ItemsOf(listed[k..end]) && page.next == NextToken(filters, asOf, listed, end)
  {
    hide Listed, ItemOf, Encode;
    var listed := Listed(db, filters, asOf);
    var end := Smaller(k + limit, |listed|);
    assert Listing(db, filters, asOf)[k..end] == ItemsOf(listed[k..end]);
  }

  lemma {:induction false} SearchAnswers(db: Database, request: Request, cursor: Decoded, asOf: int)
    ensures SearchAt(db, request, cursor, asOf)
         == Answer(request.filters, asOf, request.limit,
                   Query(db.matching(request.filters, asOf), cursor, request.limit + 1))
  {
  }

  lemma {:induction false} AllValid(listed: seq<Row>, lo: nat, hi: nat)
    requires lo <= hi <= |listed| && DistinctRows(listed)
    ensures forall row :: row in listed[lo..hi] ==> ValidRow(row)
  {
    forall row | row in listed[lo..hi]
      ensures row in listed
    {
      var i :| 0 <= i < hi - lo && listed[lo..hi][i] == row;
      assert listed[lo + i] == row;
    }
    hide ValidRow;
  }

  // ----- following cursors ------------------------------------------------------------------------------

  lemma {:induction false} TokenDecodes(db: Database, filters: string, asOf: int, k: nat)
    requires WellFormed(db) && 0 < k <= |Listed(db, filters, asOf)|
    ensures Decode(Some(PositionToken(db, filters, asOf)(k)), filters) == RowCursor(Listed(db, filters, asOf), asOf, k)
  {
    var listed := Listed(db, filters, asOf);
    var rows := db.matching(filters, asOf);
    assert DistinctRows(rows);
    SortedRows(rows);
    var row := listed[k - 1];
    assert row in listed && ValidRow(row);
    CursorRoundTrip(filters, asOf, row, filters);
    hide Sort, ItemOf, SqlKey, DistinctRows, Decode, Encode;
    assert Listing(db, filters, asOf)[k - 1] == ItemOf(row);
  }

  lemma {:induction false} FetchesServe(db: Database, filters: string, asOf: int)
    requires WellFormed(db)
    ensures Serves(FetchFrom(db, filters), Listing(db, filters, asOf), PositionToken(db, filters, asOf), MaxLimit, asOf)
  {
    var listing := Listing(db, filters, asOf);
    var at := PositionToken(db, filters, asOf);
    var fetch := FetchFrom(db, filters);
    var listed := Listed(db, filters, asOf);
    assert |listing| == |listed|;
    hide WellFormed, SearchAt, Listing, Listed, PositionToken;
    forall limit: nat | 1 <= limit <= MaxLimit
      ensures fetch(None, limit, asOf) == Some(Slice(listing, at, 0, limit))
    {
      SearchIsSlice(db, filters, asOf, 0, limit, None);
    }
    forall k: nat, limit: nat, now: int | 0 < k < |listing| && 1 <= limit <= MaxLimit
      ensures ServesFrom(fetch, listing, at, k, limit, now)
    {
      TokenDecodes(db, filters, asOf, k);
      SearchIsSlice(db, filters, asOf, k, limit, Some(at(k)));
    }
  }

  /** Following `next` with any page sizes, whatever the clock says meanwhile: the
      pages read a prefix of the listing of the first day, and reach its end
      exactly when no cursor is left, after at most one page per row. */
  lemma {:induction false} FollowingCursorsReadsEveryRowOnce(
    db: Database, filters: string, limits: nat -> nat, times: nat -> int, pages: seq<Page<Item, Token>>)
    requires WellFormed(db) && GoodLimits(limits, 50)
    requires Session(FetchFrom(db, filters), limits, times, pages)
    ensures var listing := Listing(db, filters, times(0));
            && |Items(pages)| <= |listing| && Items(pages) == listing[..|Items(pages)|]
            && (pages[|pages| - 1].next == None <==> Items(pages) == listing)
            && |pages| <= if listing == [] then 1 else |listing|
  {
    var asOf := times(0);
    FetchesServe(db, filters, asOf);
    var listing, at, fetch := Listing(db, filters, asOf), PositionToken(db, filters, asOf), FetchFrom(db, filters);
    hide Session, Serves, Listing, PositionToken, FetchFrom, WellFormed, GoodLimits;
    SessionPrefix(fetch, listing, at, MaxLimit, limits, times, pages);
    EndedSessionReadsAll(fetch, listing, at, MaxLimit, limits, times, pages);
  }

  /** Following `next` never fails and comes to an end. */
  lemma {:induction false} FollowingCursorsEnds(
    db: Database, filters: string, limits: nat -> nat, times: nat -> int, pages: seq<Page<Item, Token>>)
    returns (whole: seq<Page<Item, Token>>)
    requires WellFormed(db) && GoodLimits(limits, 50)
    requires Session(FetchFrom(db, filters), limits, times, pages)
    ensures Session(FetchFrom(db, filters), limits, times, whole) && pages <= whole
    ensures whole[|whole| - 1].next == None && Items(whole) == Listing(db, filters, times(0))
  {
    var asOf := times(0);
    FetchesServe(db, filters, asOf);
    var listing, at, fetch := Listing(db, filters, asOf), PositionToken(db, filters, asOf), FetchFrom(db, filters);
    hide Session, Serves, Listing, PositionToken, FetchFrom, WellFormed, GoodLimits;
    whole := SessionEnds(fetch, listing, at, MaxLimit, limits, times, pages);
  }

  /** On such a database the response contract never rejects, for any cursor a
      client may send. */
  lemma {:induction false} ResponsesNeverRejected(db: Database, request: Request, now: Option<int>)
    requires WellFormed(db) && 1 <= request.limit
    ensures !Search(db, request, now).ResponseRejected?
  {
    var cursor := Decode(request.cursor, request.filters);
    if cursor.Cursor? || (cursor.Absent? && now.Some?) {
      var asOf := if cursor.Cursor? then cursor.asOf else now.value;
      PageIsValid(db, request, cursor, asOf);
    }
    hide SearchAt, Decode;
  }

  lemma {:induction false} PageIsValid(db: Database, request: Request, cursor: Decoded, asOf: int)
    requires WellFormed(db) && 1 <= request.limit
    ensures !SearchAt(db, request, cursor, asOf).ResponseRejected?
  {
    var rows := db.matching(request.filters, asOf);
    assert DistinctRows(rows);
    hide *;
    SearchAnswers(db, request, cursor, asOf);
    AnswerIsValid(request.filters, asOf, request.limit, rows, cursor);
  }

  lemma {:induction false} AnswerIsValid(filters: string, asOf: int, limit: nat, rows: seq<Row>, cursor: Decoded)
    requires DistinctRows(rows) && limit >= 1
    ensures !Answer(filters, asOf, limit, Query(rows, cursor, limit + 1)).ResponseRejected?
  {
    hide DistinctRows, StrictlyDescending, Answer, Filter, Sort, ReachedBy;
    var kept := Filter(rows, ReachedBy(cursor));
    var sorted := Sort(kept, NotBelow);
    assert sorted[0..] == sorted;
    hide Query;
    assert Query(rows, cursor, limit + 1) == sorted[0..][..Smaller(limit + 1, |sorted|)] by {
      QueryUnfolds(rows, cursor, limit + 1);
    }
    FilteredDistinct(rows, ReachedBy(cursor));
    SortedRows(kept);
    AnswerIsSlice(filters, asOf, limit, sorted, 0);
  }

  lemma {:induction false} QueryUnfolds(rows: seq<Row>, cursor: Decoded, limit: nat)
    ensures var sorted := Sort(Filter(rows, ReachedBy(cursor)), NotBelow);
            Query(rows, cursor, limit) == sorted[..Smaller(limit, |sorted|)]
  {
  }

  lemma {:induction false} FilteredDistinct(rows: seq<Row>, p: Row -> bool)
    requires DistinctRows(rows)
    ensures DistinctRows(Filter(rows, p))
  {
    hide ValidRow, Differ, Filter;
    FilterMembers(rows, p);
    PairwiseFiltered(rows, p, Differ);
  }
}
