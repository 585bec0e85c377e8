/** Keys, items, cursors and answers of the manual search, field by field
    (apps/api/backend/ask/manual_document_search.py). */
module ManualDocumentOutcomes {
  import opened Foundations
  import opened Ordering
  import opened Keyset
  import opened ManualDocumentSearch
  import opened ManualDocumentSearchTheorems

  // ----- rows -----------------------------------------------------------------------

  /** The day a row sorts by: effective, else published, else issued by the registry,
      else issued by the document, else the first day of all. */
  function DayOf(row: Row): int
  {
    match row.registry
    case None => if row.documentIssue.Some? then row.documentIssue.value else 1
    case Some(r) =>
      if r.effective.Some? then r.effective.value
      else if r.publication.Some? then r.publication.value
      else if r.issue.Some? then r.issue.value
      else if row.documentIssue.Some? then row.documentIssue.value
      else 1
  }

  function VersionOf(row: Row): int
  {
    match row.registry
    case None => 0
    case Some(r) => r.id
  }

  /** More relevant; as relevant and later; as late and a higher document; the same
      document and a higher registry version. */
  predicate Outranks(a: Row, b: Row)
  {
    if a.relevance != b.relevance then a.relevance > b.relevance
    else if DayOf(a) != DayOf(b) then DayOf(a) > DayOf(b)
    else if a.documentId != b.documentId then a.documentId > b.documentId
    else VersionOf(a) > VersionOf(b)
  }

  /** The key of a row holds its relevance, day, document and version. */
  lemma {:induction false} KeyExactly(row: Row)
    ensures SqlKey(row) == Key(row.relevance, DayOf(row), row.documentId, VersionOf(row))
  {
  }

  lemma {:induction false} BelowExactly(a: Row, b: Row)
    ensures Below(SqlKey(a), SqlKey(b)) <==> Outranks(b, a)
  {
    KeyExactly(a);
    KeyExactly(b);
  }

  /** The listing is in order of rank, without ties. */
  lemma {:induction false} ListingInOrder(db: Database, filters: string, asOf: int)
    requires WellFormed(db)
    ensures var listed := Listed(db, filters, asOf);
            forall i, j :: 0 <= i < j < |listed| ==> Outranks(listed[i], listed[j])
  {
    ListingIsExact(db, filters, asOf);
    forall a, b
      ensures Below(SqlKey(a), SqlKey(b)) <==> Outranks(b, a)
    {
      BelowExactly(a, b);
    }
    hide WellFormed, Listed, Outranks, SqlKey, Below;
  }

  /** What an item shows of its row. */
  lemma {:induction false} ItemExactly(row: Row)
    ensures var item := ItemOf(row);
            && item.documentId == row.documentId && item.relevance == row.relevance
            && (row.registry.None? ==>
                  && item.registryId == None && item.effective == None && item.publication == None
                  && item.issue == row.documentIssue)
            && (row.registry.Some? ==>
                  var r := row.registry.value;
                  && item.registryId == Some(r.id) && item.effective == r.effective
                  && item.publication == r.publication
                  && item.issue == if r.issue.Some? then r.issue else row.documentIssue)
  {
  }

  lemma {:induction false} RowContractExactly(row: Row)
    ensures ValidRow(row)
            <==> row.documentId >= 1 && row.relevance >= 0 && row.relevance <= 1000
                 && (row.registry.Some? ==> row.registry.value.id >= 1)
  {
  }

  // ----- cursors ----------------------------------------------------------------------

  predicate Accepted(token: Token, filters: string)
  {
    && token.Token? && token.version == 1 && token.filters == filters
    && token.key.relevance >= 0 && token.key.relevance <= 1000
    && token.key.documentId >= 1 && token.key.registryId >= 0
  }

  /** A cursor is accepted in its version, under its filters and with a possible key;
      a row is behind it when the cursor's key outranks its own. */
  lemma {:induction false} CursorExactly(cursor: Option<Token>, filters: string)
    ensures Decode(cursor, filters)
         == if cursor.None? then Absent
            else if Accepted(cursor.value, filters) then Cursor(cursor.value.asOf, cursor.value.key) else Bad
  {
  }

  lemma {:induction false} TokenExactly(filters: string, asOf: int, row: Row)
    ensures Encode(filters, asOf, ItemOf(row))
         == Token(1, filters, asOf, Key(row.relevance, DayOf(row), row.documentId, VersionOf(row)))
  {
    KeysAgree(row);
    KeyExactly(row);
  }

  predicate Behind(row: Row, key: Key)
  {
    if row.relevance != key.relevance then row.relevance < key.relevance
    else if DayOf(row) != key.sortDate then DayOf(row) < key.sortDate
    else if row.documentId != key.documentId then row.documentId < key.documentId
    else VersionOf(row) < key.registryId
  }

  lemma {:induction false} ReachedExactly(cursor: Decoded, row: Row)
    ensures Reached(cursor, row) <==> (cursor.Cursor? ==> Behind(row, cursor.key))
  {
    KeyExactly(row);
  }

  // ----- answers ------------------------------------------------------------------------

  /** A bad cursor is refused, a first page needs a clock, and a found page is
      complete exactly with items and belongs to the day of the cursor or the clock. */
  lemma {:induction false} AnswersExactly(db: Database, request: Request, now: Option<int>)
    requires WellFormed(db) && request.limit >= 1
    ensures var (r, bad) := (Search(db, request, now),
                             request.cursor.Some? && !Accepted(request.cursor.value, request.filters));
            && (r == CursorInvalid <==> bad)
            && (r == Unavailable <==> !bad && request.cursor.None? && now.None?)
            && (r.Found? ==>
                  && (r.response.complete <==> |r.response.items| > 0) && |r.response.items| <= request.limit
                  && r.response.asOf == (if request.cursor.Some? then request.cursor.value.asOf else now.value)
                  && (r.response.next.Some? ==> |r.response.items| == request.limit))
  {
    CursorExactly(request.cursor, request.filters);
    ResponsesNeverRejected(db, request, now);
    var cursor := Decode(request.cursor, request.filters);
    if !cursor.Bad? && (cursor.Cursor? || now.Some?) {
      var asOf := if cursor.Cursor? then cursor.asOf else now.value;
      PageExactly(db, request, cursor, asOf);
    }
    hide WellFormed, Decode, SearchAt, Accepted;
  }

  lemma {:induction false} PageExactly(db: Database, request: Request, cursor: Decoded, asOf: int)
    requires WellFormed(db) && request.limit >= 1
    ensures var r := SearchAt(db, request, cursor, asOf);
            && r != CursorInvalid && r != Unavailable
            && (r.Found? ==>
                  && (r.response.complete <==> |r.response.items| > 0) && |r.response.items| <= request.limit
                  && r.response.asOf == asOf && (r.response.next.Some? ==> |r.response.items| == request.limit))
  {
    var rows := db.matching(request.filters, asOf);
    assert DistinctRows(rows);
    var page := Query(rows, cursor, request.limit + 1);
    QueriedAreRows(rows, cursor, request.limit + 1);
    hide WellFormed, DistinctRows, Query, ValidResponse, ValidRow, Encode, ItemOf;
  }

  lemma {:induction false} QueriedAreRows(rows: seq<Row>, cursor: Decoded, limit: nat)
    requires DistinctRows(rows)
    ensures |Query(rows, cursor, limit)| <= limit
    ensures forall row :: row in Query(rows, cursor, limit) ==> ValidRow(row) && row in rows && Reached(cursor, row)
  {
    var kept := Filter(rows, ReachedBy(cursor));
    FilterMembers(rows, ReachedBy(cursor));
    SortPermutes(kept, NotBelow);
    hide Filter, Sort, ValidRow, Reached;
    var (sorted, page) := (Sort(kept, NotBelow), Query(rows, cursor, limit));
    forall row | row in page
      ensures ValidRow(row) && row in rows && Reached(cursor, row)
    {
      var i :| 0 <= i < |page| && page[i] == row;
      assert sorted[i] == row && row in kept;
      assert ReachedBy(cursor)(row) == Reached(cursor, row);
    }
  }

  // ----- the contract of a response ---------------------------------------------------

  /** The day an item sorts by. */
  function DayOfItem(item: Item): int
  {
    match (item.effective, item.publication, item.issue)
    case (Some(day), _, _) => day
    case (None, Some(day), _) => day
    case (None, None, Some(day)) => day
    case (None, None, None) => 1
  }

  function VersionOfItem(item: Item): int
  {
    match item.registryId
    case Some(id) => id
    case None => 0
  }

  predicate NotOutranked(a: Item, b: Item)
  {
    if a.relevance != b.relevance then a.relevance > b.relevance
    else if DayOfItem(a) != DayOfItem(b) then DayOfItem(a) > DayOfItem(b)
    else if a.documentId != b.documentId then a.documentId > b.documentId
    else VersionOfItem(a) >= VersionOfItem(b)
  }

  /** A response says whether it has items, offers no cursor without any, and holds
      different documents or versions in order of rank. */
  lemma {:induction false} ContractExactly(r: Response)
    ensures ValidResponse(r)
            <==> && (r.complete <==> |r.items| > 0) && (|r.items| == 0 ==> r.next == None)
                 && (forall i, j :: 0 <= i < j < |r.items| ==> NotOutranked(r.items[i], r.items[j]))
                 && (forall i, j :: 0 <= i < j < |r.items| ==>
                       !(r.items[i].documentId == r.items[j].documentId
                         && r.items[i].registryId == r.items[j].registryId))
  {
    forall a, b
      ensures Below(ItemKey(a), ItemKey(b)) <==> !NotOutranked(a, b)
    {
    }
    hide Below, ItemKey, NotOutranked;
    assert forall i, j :: 0 <= i < j < |r.items| ==>
      (Below(KeyOfItem(r.items, i), KeyOfItem(r.items, j)) <==> !NotOutranked(r.items[i], r.items[j]));
  }

  /** Whatever the rows of a query are, a page shows the first of them as far as the
      limit; it is unavailable exactly when one of these breaks the contract of an
      item, and rejected exactly when together they break that of a response. */
  lemma {:induction false} AnyPageExactly(filters: string, asOf: int, limit: nat, rows: seq<Row>)
    ensures var (r, n) := (Answer(filters, asOf, limit, rows), if |rows| < limit then |rows| else limit);
            && (r == Unavailable <==> exists i :: 0 <= i < n && !ValidRow(rows[i]))
            && (r.Found? ==>
                  && ValidResponse(r.response) && r.response.asOf == asOf && |r.response.items| == n
                  && (forall i :: 0 <= i < n ==> r.response.items[i] == ItemOf(rows[i]))
                  && r.response.next == if |rows| > limit && n > 0 then Some(Encode(filters, asOf, ItemOf(rows[n - 1])))
                                        else None)
            && (r == ResponseRejected ==> !ValidResponse(Unchecked(filters, asOf, limit, rows)))
  {
    var n := if |rows| < limit then |rows| else limit;
    var retained := rows[..Smaller(limit, |rows|)];
    assert retained == rows[..n];
    assert (exists row :: row in retained && !ValidRow(row)) <==> exists i :: 0 <= i < n && !ValidRow(rows[i]) by {
      if i :| 0 <= i < n && !ValidRow(rows[i]) {
        assert retained[i] in retained;
      }
    }
    hide ValidRow, ValidResponse, Encode, ItemOf;
  }

  /** The response to rows before it is checked. */
  function Unchecked(filters: string, asOf: int, limit: nat, rows: seq<Row>): Response
  {
    var items := ItemsOf(rows[..Smaller(limit, |rows|)]);
    Response(|items| > 0, asOf, items,
             if |rows| > limit && |items| > 0 then Some(Encode(filters, asOf, items[|items| - 1])) else None)
  }
}
