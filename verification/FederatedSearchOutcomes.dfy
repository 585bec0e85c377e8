/** Order, cursors, groups and statuses of the federated search, field by field
    (apps/api/backend/ask/federated_search.py). */
module FederatedSearchOutcomes {
  import opened Foundations
  import opened Keyset
  import opened FederatedSearch
  import opened FederatedSearchTheorems

  // ----- rows -----------------------------------------------------------------------

  /** More relevant; as relevant and later; as late and behind in text order. */
  predicate Outranks(env: Collation, a: Row, b: Row)
  {
    if a.relevance != b.relevance then a.relevance > b.relevance
    else if a.sortAt != b.sortAt then a.sortAt > b.sortAt
    else env.precedes(b.stableId, a.stableId)
  }

  lemma {:induction false} BelowExactly(env: Collation, a: Row, b: Row)
    ensures Below(env, a, b) <==> Outranks(env, b, a)
  {
  }

  /** The listing of a group is in order of rank, without ties. */
  lemma {:induction false} ListingInOrder(env: Collation, rows: seq<Row>)
    requires StrictTextOrder(env) && DistinctRows(rows)
    ensures var listed := Listed(env, rows);
            forall i, j :: 0 <= i < j < |listed| ==> Outranks(env, listed[i], listed[j])
  {
    GroupListingIsExact(env, rows);
    hide StrictTextOrder, DistinctRows, Listed;
  }

  predicate Foreign(criteria: Criteria, group: Group)
  {
    match criteria.provenance
    case None => false
    case Some(OwnedResearch) => group != PreviousResearch
    case Some(InternalRegulatoryCorpus) => group == PreviousResearch
  }

  /** A provenance filter empties the groups of the other provenance: only previous
      research is the user's own. */
  lemma {:induction false} RowsExactly(store: Store, criteria: Criteria, group: Group)
    ensures Rows(store, criteria, group)
         == if Foreign(criteria, group) then Some([]) else store.matching(group, criteria)
  {
  }

  // ----- requests and cursors ----------------------------------------------------------

  lemma {:induction false} RequestExactly(request: Request)
    ensures ValidRequest(request)
            <==> && request.group != Some(BestMatch) && 0 < request.limit && request.limit <= 20
                 && (request.group.None? ==> request.cursor.None?)
  {
  }

  predicate Accepted(env: Collation, token: Token, group: Option<Group>, criteria: Criteria)
  {
    && token.Token? && token.version == 1 && group.Some? && token.group == group.value && token.zoned
    && token.digest.query == env.fold(criteria.query) && token.digest.autoCorrect == criteria.autoCorrect
    && token.digest.provenance == criteria.provenance && token.digest.filters == criteria.filters
    && token.relevance >= 0 && token.relevance <= 1000 && |token.stableId| > 0
  }

  /** A cursor is accepted in its version, for its group and under its criteria, up
      to the case of the query, and holds a possible key. */
  lemma {:induction false} CursorExactly(
    env: Collation, cursor: Option<Token>, group: Option<Group>, criteria: Criteria)
    ensures Decode(env, cursor, group, criteria)
         == if cursor.None? then Absent
            else if Accepted(env, cursor.value, group, criteria)
            then Cursor(Row(cursor.value.stableId, cursor.value.relevance, cursor.value.sortAt))
            else Bad
  {
  }

  lemma {:induction false} TokenExactly(env: Collation, group: Group, criteria: Criteria, row: Row)
    ensures var token := Encode(env, group, criteria, row);
            && token.Token? && token.version == 1 && token.group == group && token.zoned
            && token.digest.query == env.fold(criteria.query) && token.digest.autoCorrect == criteria.autoCorrect
            && token.digest.provenance == criteria.provenance && token.digest.filters == criteria.filters
            && token.relevance == row.relevance && token.sortAt == row.sortAt && token.stableId == row.stableId
  {
  }

  lemma {:induction false} ReachedExactly(env: Collation, cursor: Decoded, row: Row)
    ensures ReachedBy(env, cursor)(row) <==> (cursor.Cursor? ==> Outranks(env, cursor.key, row))
  {
  }

  // ----- a response -----------------------------------------------------------------------

  predicate Asked(request: Request, group: Group)
  {
    match request.group
    case Some(one) => group == one
    case None => group != BestMatch
  }

  lemma {:induction false} RequestedExactly(request: Request, group: Group)
    requires request.group != Some(BestMatch)
    ensures group in Requested(request) <==> Asked(request, group)
  {
    if group != BestMatch {
      assert Searchable[Position(group)] == group;
    }
  }

  /** The groups of a response, Best Match first. */
  ghost predicate InGroupOrder(groups: seq<ResultGroup>)
  {
    && |groups| == 8
    && groups[0].group == BestMatch && groups[1].group == Entities && groups[2].group == OfficialRegulations
    && groups[3].group == OfficialDocuments && groups[4].group == Amendments && groups[5].group == Consultations
    && groups[6].group == Deadlines && groups[7].group == PreviousResearch
  }

  /** The page of one group: its rows in order as items, with a cursor exactly when
      more are left. */
  ghost predicate ShowsRows(r: ResultGroup, group: Group, rows: seq<Row>, more: bool)
  {
    && r.group == group && (r.status == Complete <==> |rows| > 0) && (r.status == NoMatch <==> |rows| == 0)
    && |r.items| == |rows|
    && (forall i :: 0 <= i < |rows| ==>
          && r.items[i].group == group && r.items[i].stableId == rows[i].stableId
          && r.items[i].relevance == rows[i].relevance)
    && (r.next.Some? <==> more && |rows| > 0)
  }

  lemma {:induction false} AnsweredExactly(
    env: Collation, criteria: Criteria, group: Group, rows: seq<Row>, more: bool)
    ensures ShowsRows(Answered(env, criteria, group, rows, more), group, rows, more)
  {
    hide Encode;
  }

  /** Every group but Best Match answers for itself: not asked, failed, or with the
      rows of its own query; only the paged group uses the cursor. */
  lemma {:induction false} GroupExactly(
    env: Collation, ids: (Item, Item) -> bool, store: Store, request: Request, group: Group)
    requires ValidRequest(request) && group != BestMatch && Search(env, ids, store, request).Found?
    ensures 1 + Position(group) < |Search(env, ids, store, request).groups|
    ensures AnswersFor(env, store, request, group, Search(env, ids, store, request).groups[1 + Position(group)])
  {
    FoundEntry(env, ids, store, request, group);
    EntryExactly(env, store, request, group);
    hide Search, ResultFor, AnswersFor, Decode;
  }

  lemma {:induction false} NamedEntry(
    env: Collation, ids: (Item, Item) -> bool, store: Store, request: Request, group: Group)
    requires group != BestMatch && Search(env, ids, store, request).Found?
    ensures 1 + Position(group) < |Search(env, ids, store, request).groups|
    ensures Search(env, ids, store, request).groups[1 + Position(group)].group == group
  {
    FoundEntry(env, ids, store, request, group);
    EntryGroup(env, store, request, Decode(env, request.cursor, request.group, request.criteria), group);
    hide Search, ResultFor, Decode;
  }

  /** A response has all groups, in their order. */
  lemma {:induction false} GroupsInOrder(env: Collation, ids: (Item, Item) -> bool, store: Store, request: Request)
    requires Search(env, ids, store, request).Found?
    ensures InGroupOrder(Search(env, ids, store, request).groups)
  {
    BestIsFirst(env, ids, store, request);
    forall g: Group | g != BestMatch
      ensures Search(env, ids, store, request).groups[1 + Position(g)].group == g
    {
      NamedEntry(env, ids, store, request, g);
    }
    hide Search;
    Named(Search(env, ids, store, request).groups);
  }

  lemma {:induction false} Named(groups: seq<ResultGroup>)
    requires |groups| == 8 && groups[0].group == BestMatch
    requires forall g: Group :: g != BestMatch ==> groups[1 + Position(g)].group == g
    ensures InGroupOrder(groups)
  {
    assert Position(Entities) == 0 && Position(OfficialRegulations) == 1 && Position(OfficialDocuments) == 2;
    assert Position(Amendments) == 3 && Position(Consultations) == 4 && Position(Deadlines) == 5;
    assert Position(PreviousResearch) == 6;
  }

  lemma {:induction false} BestIsFirst(env: Collation, ids: (Item, Item) -> bool, store: Store, request: Request)
    requires Search(env, ids, store, request).Found?
    ensures |Search(env, ids, store, request).groups| == 8
    ensures Search(env, ids, store, request).groups[0].group == BestMatch
  {
    hide Decode, ResultFor, AllFail, SomeFail, AllItems, Best, AllValid;
  }

  lemma {:induction false} EntryGroup(env: Collation, store: Store, request: Request, cursor: Decoded, group: Group)
    ensures ResultFor(env, store, request, cursor, group).group == group
  {
    hide FetchFor, Requested, Encode;
  }

  /** The next rows of a group's query from a position, as far as the limit. */
  ghost predicate AnswersFrom(
    env: Collation, criteria: Criteria, group: Group, rows: seq<Row>, cursor: Decoded, limit: nat, r: ResultGroup)
  {
    var page := Query(env, rows, cursor, limit + 1);
    var (shown, more) := (if |page| > limit then page[..limit] else page, |page| > limit);
    && ShowsRows(r, group, shown, more)
    && r.next == if more && |shown| > 0 then Some(Encode(env, group, criteria, shown[|shown| - 1])) else None
  }

  /** What the entry of one group says. */
  ghost predicate AnswersFor(env: Collation, store: Store, request: Request, group: Group, r: ResultGroup)
  {
    var cursor := Decode(env, request.cursor, request.group, request.criteria);
    var rows := Rows(store, request.criteria, group);
    if !Asked(request, group) then r == ResultGroup(group, NotRequested, [], None)
    else if rows.None? then r == ResultGroup(group, Unavailable, [], None)
    else
      AnswersFrom(env, request.criteria, group, rows.value, if request.group == Some(group) then cursor else Absent,
                  request.limit, r)
  }

  lemma {:induction false} EntryExactly(env: Collation, store: Store, request: Request, group: Group)
    requires ValidRequest(request)
    ensures var cursor := Decode(env, request.cursor, request.group, request.criteria);
            AnswersFor(env, store, request, group, ResultFor(env, store, request, cursor, group))
  {
    RequestedExactly(request, group);
    var cursor := Decode(env, request.cursor, request.group, request.criteria);
    var used := if request.group == Some(group) then cursor else Absent;
    hide Decode, Rows, Requested, Asked, Answered, FetchGroup, AnswersFrom;
    FetchAnswers(env, store, request.criteria, group, used, request.limit);
  }

  lemma {:induction false} FetchAnswers(
    env: Collation, store: Store, criteria: Criteria, group: Group, cursor: Decoded, limit: nat)
    ensures var found := Rows(store, criteria, group);
            var fetched := FetchGroup(env, store, criteria, group, cursor, limit);
            && (fetched.Failed? <==> found.None?)
            && (fetched.Rest? ==>
                  AnswersFrom(env, criteria, group, found.value, cursor, limit,
                              Answered(env, criteria, group, fetched.rows, fetched.more)))
  {
    var found := Rows(store, criteria, group);
    if found.Some? {
      var page := Query(env, found.value, cursor, limit + 1);
      var shown := if |page| > limit then page[..limit] else page;
      FetchExactly(env, store, criteria, group, cursor, limit, found.value);
      AnsweredExactly(env, criteria, group, shown, |page| > limit);
      NextExactly(env, criteria, group, shown, |page| > limit);
    }
    hide Rows, Query, Encode, ShowsRows, Answered;
  }

  lemma {:induction false} NextExactly(
    env: Collation, criteria: Criteria, group: Group, rows: seq<Row>, more: bool)
    ensures Answered(env, criteria, group, rows, more).next
         == if more && |rows| > 0 then Some(Encode(env, group, criteria, rows[|rows| - 1])) else None
  {
    hide Encode;
  }

  lemma {:induction false} FetchExactly(
    env: Collation, store: Store, criteria: Criteria, group: Group, cursor: Decoded, limit: nat, rows: seq<Row>)
    requires Rows(store, criteria, group) == Some(rows)
    ensures var page := Query(env, rows, cursor, limit + 1);
            FetchGroup(env, store, criteria, group, cursor, limit)
            == Rest(if |page| > limit then page[..limit] else page, |page| > limit)
  {
    hide Query, Rows;
    var page := Query(env, rows, cursor, limit + 1);
    assert page[..Smaller(limit, |page|)] == if |page| > limit then page[..limit] else page;
  }

  // ----- the best match ----------------------------------------------------------------------

  /** One item ranks above another by relevance, and at equal relevance by name. */
  lemma {:induction false} BetterExactly(ids: (Item, Item) -> bool, a: Item, b: Item)
    ensures Better(ids, a, b) <==> if a.relevance == b.relevance then ids(b, a) else a.relevance > b.relevance
  {
  }

  /** Without any item, Best Match says whether some query failed. */
  lemma {:induction false} EmptyBestExactly(
    env: Collation, ids: (Item, Item) -> bool, store: Store, request: Request)
    requires ValidRequest(request) && Search(env, ids, store, request).Found?
    ensures var r := Search(env, ids, store, request).groups[0];
            && r.next == None
            && (r.items == [] ==>
                  r.status == if exists g :: Asked(request, g) && Rows(store, request.criteria, g).None?
                              then Unavailable else NoMatch)
  {
    var cursor := Decode(env, request.cursor, request.group, request.criteria);
    FailsExactly(env, store, request, cursor);
    hide Decode, ResultFor, AllFail, SomeFail, AllItems, Best, AllValid, Asked, Rows;
  }

  lemma {:induction false} FailsExactly(env: Collation, store: Store, request: Request, cursor: Decoded)
    requires ValidRequest(request)
    ensures SomeFail(env, store, request, cursor)
            <==> exists g :: Asked(request, g) && Rows(store, request.criteria, g).None?
    ensures AllFail(env, store, request, cursor)
            <==> forall g :: Asked(request, g) ==> Rows(store, request.criteria, g).None?
  {
    forall g
      ensures g in Requested(request) <==> Asked(request, g)
      ensures FetchFor(env, store, request, cursor, g).Failed? <==> Rows(store, request.criteria, g).None?
    {
      RequestedExactly(request, g);
      hide Rows, Query;
    }
    hide Requested, Asked, FetchFor, Rows;
  }

  /** The search as a whole: a bad cursor is refused, and it is unavailable when the
      store is closed or every query that is asked fails. */
  lemma {:induction false} OutcomeExactly(env: Collation, ids: (Item, Item) -> bool, store: Store, request: Request)
    requires ValidRequest(request)
    ensures var r := Search(env, ids, store, request);
            var bad := request.cursor.Some?
                       && !Accepted(env, request.cursor.value, request.group, request.criteria);
            && (r == CursorInvalid <==> bad)
            && (r == SearchUnavailable
                <==> !bad && (!store.open || forall g :: Asked(request, g) ==> Rows(store, request.criteria, g).None?))
  {
    var cursor := Decode(env, request.cursor, request.group, request.criteria);
    CursorExactly(env, request.cursor, request.group, request.criteria);
    FailsExactly(env, store, request, cursor);
    hide Decode, ResultsFor, AllFail, SomeFail, AllItems, Best, BestGroup, AllValid, Asked, Rows, Accepted;
  }

  // ----- the contract of a group ---------------------------------------------------------------

  /** A group is complete exactly with items, only a complete one offers a cursor, and
      its items are of the group, different, and ordered by relevance; Best Match has
      at most one item and no cursor. */
  lemma {:induction false} ContractExactly(r: ResultGroup)
    ensures ValidGroup(r)
            <==> && (r.status == Complete <==> |r.items| > 0) && (r.next.Some? ==> r.status == Complete)
                 && (if r.group == BestMatch then |r.items| < 2 && r.next.None?
                     else forall x :: x in r.items ==> x.group == r.group)
                 && (forall i, j :: 0 <= i < j < |r.items| ==> r.items[i].relevance >= r.items[j].relevance)
                 && (forall i, j :: 0 <= i < j < |r.items| ==>
                       !(r.items[i].group == r.items[j].group && r.items[i].stableId == r.items[j].stableId))
  {
    if r.group != BestMatch && forall i :: 0 <= i < |r.items| ==> r.items[i].group == r.group {
      assert forall x :: x in r.items ==> x.group == r.group;
    }
    assert forall i :: 0 <= i < |r.items| ==> r.items[i] in r.items;
  }

  /** The groups of a response before they are checked. */
  function Built(env: Collation, ids: (Item, Item) -> bool, store: Store, request: Request): seq<ResultGroup>
  {
    var cursor := Decode(env, request.cursor, request.group, request.criteria);
    var others := ResultsFor(env, store, request, cursor, Searchable);
    [BestGroup(Best(ids, AllItems(others)), SomeFail(env, store, request, cursor))] + others
  }

  /** Whatever the store holds, what is built is answered exactly when each of its
      groups meets its contract, and rejected otherwise. */
  lemma {:induction false} RejectedExactly(env: Collation, ids: (Item, Item) -> bool, store: Store, request: Request)
    ensures var (r, groups) := (Search(env, ids, store, request), Built(env, ids, store, request));
            && (r.Found? ==> r.groups == groups && forall g :: g in groups ==> ValidGroup(g))
            && (r == ResponseRejected ==> exists g :: g in groups && !ValidGroup(g))
  {
    hide Decode, ResultsFor, AllFail, SomeFail, AllItems, Best, BestGroup, ValidGroup;
    var groups := Built(env, ids, store, request);
    assert forall i :: 0 <= i < |groups| ==> groups[i] in groups;
  }
}
