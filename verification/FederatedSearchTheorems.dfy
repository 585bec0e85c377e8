/** Paging within a group and the best match
    (apps/api/backend/ask/federated_search.py). */
module FederatedSearchTheorems {
  import opened Foundations
  import opened Ordering
  import opened Keyset
  import opened FederatedSearch

  // ----- rows --------------------------------------------------------------------------------

  predicate Differ(a: Row, b: Row)
  {
    a.stableId != b.stableId
  }

  ghost predicate DistinctRows(rows: seq<Row>)
  {
    && (forall row :: row in rows ==> 0 <= row.relevance <= 1000 && row.stableId != "")
    && Pairwise(rows, Differ)
  }

  /** Within a group, rows have different identities. */
  ghost predicate WellFormed(env: Collation, store: Store)
  {
    StrictTextOrder(env) &&
    forall group, criteria :: Rows(store, criteria, group).Some? ==> DistinctRows(Rows(store, criteria, group).value)
  }

  lemma {:induction false} OrderIsTotal(env: Collation)
    requires StrictTextOrder(env)
    ensures TotalPreorder(NotBelow(env)) && Apart(Differ)
  {
  }

  lemma {:induction false} DistinctRowsDoNotTie(env: Collation, rows: seq<Row>)
    requires StrictTextOrder(env) && DistinctRows(rows)
    ensures Tieless(rows, NotBelow(env))
  {
    assert forall i, j :: 0 <= i < j < |rows| ==> Differ(rows[i], rows[j]);
  }

  function Listed(env: Collation, rows: seq<Row>): seq<Row>
  {
    Sort(rows, NotBelow(env))
  }

  ghost predicate StrictlyDescending(env: Collation, rows: seq<Row>)
  {
    forall i, j :: 0 <= i < j < |rows| ==> Below(env, rows[j], rows[i])
  }

  /** A group's listing holds each matching row exactly once, strictly
      descending. */
  lemma {:induction false} GroupListingIsExact(env: Collation, rows: seq<Row>)
    requires StrictTextOrder(env) && DistinctRows(rows)
    ensures StrictlyDescending(env, Listed(env, rows)) && DistinctRows(Listed(env, rows))
    ensures multiset(Listed(env, rows)) == multiset(rows)
    ensures forall row :: multiset(rows)[row] <= 1
  {
    hide Sort, Below;
    OrderIsTotal(env);
    DistinctRowsDoNotTie(env, rows);
    SortStrictly(rows, NotBelow(env));
    SortPermutes(rows, NotBelow(env));
    PairwisePermuted(rows, Listed(env, rows), Differ);
    forall row
      ensures multiset(rows)[row] <= 1
    {
      OnceAtMost(rows, Differ, row);
    }
    hide StrictTextOrder, Pairwise;
  }

  // ----- one page ------------------------------------------------------------------------------

  function RowCursor(listed: seq<Row>, k: nat): Decoded
    requires k <= |listed|
  {
    if k == 0 then Absent else Cursor(listed[k - 1])
  }

  lemma {:induction false} QueryIsSlice(env: Collation, rows: seq<Row>, k: nat, limit: nat)
    requires StrictTextOrder(env) && DistinctRows(rows) && k <= |Listed(env, rows)|
    ensures var listed := Listed(env, rows);
            Query(env, rows, RowCursor(listed, k), limit) == listed[k..][..Smaller(limit, |listed| - k)]
  {
    hide Below, Sort, DistinctRows, Filter;
    OrderIsTotal(env);
    DistinctRowsDoNotTie(env, rows);
    hide StrictTextOrder;
    RestOfListing(rows, ReachedBy(env, RowCursor(Listed(env, rows), k)), NotBelow(env), k);
  }

  lemma {:induction false} FetchIsSlice(env: Collation, rows: seq<Row>, k: nat, limit: nat)
    requires StrictTextOrder(env) && DistinctRows(rows) && k <= |Listed(env, rows)|
    ensures var listed := Listed(env, rows);
            var page := Query(env, rows, RowCursor(listed, k), limit + 1);
            && page[..Smaller(limit, |page|)] == listed[k..Smaller(k + limit, |listed|)]
            && (|page| > limit <==> k + limit < |listed|)
  {
    hide *;
    QueryIsSlice(env, rows, k, limit + 1);
    LookAhead(Listed(env, rows), k, limit);
  }

  /** Any rows in descending order with different identities make a valid
      group. */
  lemma {:induction false} AnsweredIsValid(
    env: Collation, criteria: Criteria, group: Group, listed: seq<Row>, lo: nat, hi: nat, more: bool)
    requires group != BestMatch && lo <= hi <= |listed|
    requires StrictlyDescending(env, listed) && DistinctRows(listed)
    ensures ValidGroup(Answered(env, criteria, group, listed[lo..hi], more))
  {
    var rows := listed[lo..hi];
    forall i, j | 0 <= i < j < |rows|
      ensures rows[i].relevance >= rows[j].relevance && rows[i].stableId != rows[j].stableId
    {
      assert Differ(listed[lo + i], listed[lo + j]) && Below(env, listed[lo + j], listed[lo + i]);
    }
    hide StrictlyDescending, DistinctRows, Encode;
  }

  // ----- every response -------------------------------------------------------------------------

  lemma {:induction false} ResultIsValid(env: Collation, store: Store, request: Request, cursor: Decoded, group: Group)
    requires WellFormed(env, store) && group != BestMatch
    ensures ValidGroup(ResultFor(env, store, request, cursor, group))
  {
    var found := Rows(store, request.criteria, group);
    if group in Requested(request) && found.Some? {
      assert DistinctRows(found.value);
      hide *;
      ResultAnswers(env, store, request, cursor, group);
      PageIsValid(env, request.criteria, group, found.value, OwnCursor(request, cursor, group), request.limit);
    }
  }

  function OwnCursor(request: Request, cursor: Decoded, group: Group): Decoded
  {
    if request.group == Some(group) then cursor else Absent
  }

  lemma {:induction false} ResultAnswers(env: Collation, store: Store, request: Request, cursor: Decoded, group: Group)
    requires group in Requested(request) && Rows(store, request.criteria, group).Some?
    ensures var rows := Rows(store, request.criteria, group).value;
            var page := Query(env, rows, OwnCursor(request, cursor, group), request.limit + 1);
            && ResultFor(env, store, request, cursor, group)
               == Answered(env, request.criteria, group, page[..Smaller(request.limit, |page|)], |page| > request.limit)
            && !FetchFor(env, store, request, cursor, group).Failed?
  {
    hide Query, Answered, Rows, Requested;
  }

  lemma {:induction false} PageIsValid(
    env: Collation, criteria: Criteria, group: Group, rows: seq<Row>, cursor: Decoded, limit: nat)
    requires StrictTextOrder(env) && DistinctRows(rows) && group != BestMatch
    ensures var page := Query(env, rows, cursor, limit + 1);
            ValidGroup(Answered(env, criteria, group, page[..Smaller(limit, |page|)], |page| > limit))
  {
    var kept := Filter(rows, ReachedBy(env, cursor));
    FilterMembers(rows, ReachedBy(env, cursor));
    PairwiseFiltered(rows, ReachedBy(env, cursor), Differ);
    assert DistinctRows(kept);
    var listed := Listed(env, kept);
    var page := Query(env, rows, cursor, limit + 1);
    var end := Smaller(limit, |listed|);
    assert page[..Smaller(limit, |page|)] == listed[0..end] by {
      hide DistinctRows, Sort, Filter, StrictTextOrder;
    }
    hide *;
    GroupListingIsExact(env, kept);
    AnsweredIsValid(env, criteria, group, listed, 0, end, |page| > limit);
  }

  lemma {:induction false} AllResultsValid(
    env: Collation, store: Store, request: Request, cursor: Decoded, best: ResultGroup)
    requires WellFormed(env, store) && ValidGroup(best)
    ensures AllValid([best] + ResultsFor(env, store, request, cursor, Searchable))
  {
    var groups := ResultsFor(env, store, request, cursor, Searchable);
    forall i | 0 <= i < |Searchable|
      ensures ValidGroup(groups[i])
    {
      ResultIsValid(env, store, request, cursor, Searchable[i]);
    }
    hide ValidGroup, ResultFor, WellFormed;
  }

  /** The response contract never rejects, whatever cursor a client sends. */
  lemma {:induction false} ResponsesNeverRejected(
    env: Collation, ids: (Item, Item) -> bool, store: Store, request: Request)
    requires WellFormed(env, store)
    ensures !Search(env, ids, store, request).ResponseRejected?
  {
    var cursor := Decode(env, request.cursor, request.group, request.criteria);
    var groups := ResultsFor(env, store, request, cursor, Searchable);
    var best := BestGroup(Best(ids, AllItems(groups)), SomeFail(env, store, request, cursor));
    AllResultsValid(env, store, request, cursor, best);
    hide AllValid, ResultsFor, Decode, AllFail, SomeFail, AllItems, Best;
  }

  /** Every group answers for itself: another group's rows or failure never change
      its entry. */
  lemma {:induction false} FailuresStayInTheirGroup(
    env: Collation, ids: (Item, Item) -> bool, a: Store, b: Store, request: Request, group: Group)
    requires group != BestMatch && Rows(a, request.criteria, group) == Rows(b, request.criteria, group)
    requires Search(env, ids, a, request).Found? && Search(env, ids, b, request).Found?
    ensures |Search(env, ids, a, request).groups| == |Search(env, ids, b, request).groups| == 1 + |Searchable|
    ensures Search(env, ids, a, request).groups[1 + Position(group)]
         == Search(env, ids, b, request).groups[1 + Position(group)]
  {
    var cursor := Decode(env, request.cursor, request.group, request.criteria);
    FoundEntry(env, ids, a, request, group);
    FoundEntry(env, ids, b, request, group);
    hide Search, Decode, Requested, Query, Answered, Rows;
    assert ResultFor(env, a, request, cursor, group) == ResultFor(env, b, request, cursor, group);
  }

  lemma {:induction false} FoundEntry(
    env: Collation, ids: (Item, Item) -> bool, store: Store, request: Request, group: Group)
    requires group != BestMatch && Search(env, ids, store, request).Found?
    ensures var groups := Search(env, ids, store, request).groups;
            && |groups| == 1 + |Searchable|
            && groups[1 + Position(group)]
               == ResultFor(env, store, request, Decode(env, request.cursor, request.group, request.criteria), group)
  {
    hide Decode, ResultFor, AllFail, SomeFail, AllItems, Best, BestGroup, AllValid;
  }

  /** The status of a group's entry, read off the store: unavailable exactly when
      it was asked for and its query failed, and so on; the whole search is
      unavailable exactly when every query that was asked for failed. */
  lemma {:induction false} StatusExactly(
    env: Collation, ids: (Item, Item) -> bool, store: Store, request: Request, group: Group)
    requires group != BestMatch && Search(env, ids, store, request).Found?
    ensures |Search(env, ids, store, request).groups| == 1 + |Searchable|
    ensures var r := Search(env, ids, store, request).groups[1 + Position(group)];
            var asked, rows := group in Requested(request), Rows(store, request.criteria, group);
            && r.group == group
            && (r.status == NotRequested <==> !asked)
            && (r.status == Unavailable <==> asked && rows.None?)
            && (r.status == Complete <==> r.items != [])
            && (r.items != [] ==> asked && rows.Some?)
  {
    FoundEntry(env, ids, store, request, group);
    hide Search, Decode, Requested, Query, Rows;
  }

  lemma {:induction false} UnavailableExactly(env: Collation, ids: (Item, Item) -> bool, store: Store, request: Request)
    requires WellFormed(env, store)
    ensures Search(env, ids, store, request).SearchUnavailable?
            <==> !Decode(env, request.cursor, request.group, request.criteria).Bad?
                 && (!store.open || forall g :: g in Requested(request) ==> Rows(store, request.criteria, g).None?)
  {
    hide Decode, Rows, ResultsFor, SomeFail, AllItems, Best, BestGroup, AllValid, Query, WellFormed, Requested;
  }

  // ----- the best match ---------------------------------------------------------------------------

  ghost predicate StrictIds(ids: (Item, Item) -> bool)
  {
    && (forall x :: !ids(x, x))
    && (forall x, y, z :: ids(x, y) && ids(y, z) ==> ids(x, z))
    && (forall x, y, z :: ids(x, y) ==> ids(x, z) || ids(z, y))
  }

  /** The best match is an item of the groups that none of them ranks above, and
      there is one exactly when there is any item. */
  lemma {:induction false} BestIsTop(ids: (Item, Item) -> bool, items: seq<Item>)
    requires StrictIds(ids)
    ensures Best(ids, items).None? <==> items == []
    ensures Best(ids, items).Some? ==>
      Best(ids, items).value in items && forall x :: x in items ==> !Better(ids, x, Best(ids, items).value)
  {
    if items != [] {
      var init, last := items[..|items| - 1], items[|items| - 1];
      BestIsTop(ids, init);
      assert forall x :: x in items <==> x in init || x == last;
    }
  }

  lemma {:induction false} ItemsOfGroups(groups: seq<ResultGroup>)
    ensures forall x :: x in AllItems(groups) <==> exists i :: 0 <= i < |groups| && x in groups[i].items
  {
    if groups != [] {
      var init := groups[..|groups| - 1];
      ItemsOfGroups(init);
      hide AllItems;
      assert AllItems(groups) == AllItems(init) + groups[|groups| - 1].items by { LastItems(groups); }
      assert forall i :: 0 <= i < |init| ==> init[i] == groups[i];
    }
  }

  lemma {:induction false} LastItems(groups: seq<ResultGroup>)
    requires groups != []
    ensures AllItems(groups) == AllItems(groups[..|groups| - 1]) + groups[|groups| - 1].items
  {
  }

  /** An item is shown by some group of a response other than Best Match. */
  predicate Shown(groups: seq<ResultGroup>, x: Item)
  {
    exists i :: 1 <= i < |groups| && x in groups[i].items
  }

  /** The Best Match entry of every response: it holds an item of the other groups
      that none of theirs ranks above, or nothing when they are all empty. */
  lemma {:induction false} BestMatchIsTop(env: Collation, ids: (Item, Item) -> bool, store: Store, request: Request)
    requires StrictIds(ids) && Search(env, ids, store, request).Found?
    ensures var groups := Search(env, ids, store, request).groups;
            && |groups| == 1 + |Searchable| && groups[0].group == BestMatch && |groups[0].items| <= 1
            && (groups[0].status == Complete <==> groups[0].items != [])
            && (groups[0].items == [] <==> forall x :: !Shown(groups, x))
            && (groups[0].items != [] ==>
                  Shown(groups, groups[0].items[0]) &&
                  forall x :: Shown(groups, x) ==> !Better(ids, x, groups[0].items[0]))
  {
    var cursor := Decode(env, request.cursor, request.group, request.criteria);
    var others := ResultsFor(env, store, request, cursor, Searchable);
    var groups := Search(env, ids, store, request).groups;
    var items := AllItems(others);
    BestIsTop(ids, items);
    ItemsOfGroups(others);
    assert groups == [BestGroup(Best(ids, items), SomeFail(env, store, request, cursor))] + others by {
      hide AllItems, Best, ResultsFor, SomeFail, BestGroup, AllValid, Decode;
    }
    hide Search, AllItems, Best, ResultsFor, SomeFail, Decode, Better, StrictIds;
    forall x
      ensures x in items <==> Shown(groups, x)
    {
      ShownByOthers(groups[0], others, x);
      assert groups == [groups[0]] + others;
    }
    assert items != [] ==> items[0] in items;
  }

  lemma {:induction false} ShownByOthers(first: ResultGroup, others: seq<ResultGroup>, x: Item)
    ensures Shown([first] + others, x) <==> exists i :: 0 <= i < |others| && x in others[i].items
  {
    var groups := [first] + others;
    if i :| 0 <= i < |others| && x in others[i].items {
      assert groups[i + 1] == others[i];
    }
    if i :| 1 <= i < |groups| && x in groups[i].items {
      assert groups[i] == others[i - 1];
    }
  }

  // ----- following cursors ----------------------------------------------------------------------------

  function Position(group: Group): nat
    requires group != BestMatch
    ensures Position(group) < |Searchable| && Searchable[Position(group)] == group
  {
    match group
    case Entities => 0
    case OfficialRegulations => 1
    case OfficialDocuments => 2
    case Amendments => 3
    case Consultations => 4
    case Deadlines => 5
    case PreviousResearch => 6
  }

  /** A client's page request for one group: it reads that group's entry. */
  function FetchFrom(
    env: Collation, ids: (Item, Item) -> bool, store: Store, criteria: Criteria, group: Group): Fetch<Item, Token>
    requires group != BestMatch
  {
    (cursor: Option<Token>, limit: nat, now: int) =>
      match Search(env, ids, store, Request(criteria, Some(group), cursor, limit))
      case Found(groups) =>
        if |groups| == 1 + |Searchable| then
          Some(Page(groups[1 + Position(group)].items, groups[1 + Position(group)].next))
        else None
      case _ => None
  }

  function PositionToken(env: Collation, criteria: Criteria, group: Group, rows: seq<Row>): nat -> Token
  {
    (k: nat) =>
      if 0 < k <= |Listed(env, rows)| then Encode(env, group, criteria, Listed(env, rows)[k - 1]) else Undecodable
  }

  function Listing(env: Collation, group: Group, rows: seq<Row>): seq<Item>
  {
    ItemsOf(group, Listed(env, rows))
  }

  /** A cursor decodes to the row it was made for, under its own group and under
      criteria with the same digest: those that differ at most in the case of the
      query. */
  lemma {:induction false} CursorRoundTrip(
    env: Collation, group: Group, criteria: Criteria, row: Row, others: Criteria, elsewhere: Option<Group>)
    requires 0 <= row.relevance <= 1000 && row.stableId != ""
    ensures Decode(env, Some(Encode(env, group, criteria, row)), Some(group), criteria) == Cursor(row)
    ensures Decode(env, Some(Encode(env, group, criteria, row)), elsewhere, others).Cursor?
            <==> elsewhere == Some(group) && env.fold(others.query) == env.fold(criteria.query)
                 && others.(query := criteria.query) == criteria
  {
  }

  lemma {:induction false} GroupServesSlice(
    env: Collation, store: Store, criteria: Criteria, group: Group, token: Option<Token>, k: nat, limit: nat)
    requires WellFormed(env, store) && store.open && group != BestMatch && limit >= 1
    requires Rows(store, criteria, group).Some?
    requires k <= |Listed(env, Rows(store, criteria, group).value)|
    ensures var rows := Rows(store, criteria, group).value;
            var request := Request(criteria, Some(group), token, limit);
            var r := ResultFor(env, store, request, RowCursor(Listed(env, rows), k), group);
            && !FetchFor(env, store, request, RowCursor(Listed(env, rows), k), group).Failed?
            && Page(r.items, r.next) ==
               Slice(Listing(env, group, rows), PositionToken(env, criteria, group, rows), k, limit)
  {
    var rows := Rows(store, criteria, group).value;
    var request := Request(criteria, Some(group), token, limit);
    var listed := Listed(env, rows);
    assert DistinctRows(rows) && group in Requested(request);
    assert OwnCursor(request, RowCursor(listed, k), group) == RowCursor(listed, k);
    hide *;
    ResultAnswers(env, store, request, RowCursor(listed, k), group);
    FetchIsSlice(env, rows, k, limit);
    AnsweredSlice(env, criteria, group, rows, k, limit);
  }

  lemma {:induction false} AnsweredSlice(
    env: Collation, criteria: Criteria, group: Group, rows: seq<Row>, k: nat, limit: nat)
    requires k <= |Listed(env, rows)| && limit >= 1
    ensures var listed := Listed(env, rows);
            var end := Smaller(k + limit, |listed|);
            var r := Answered(env, criteria, group, listed[k..end], k + limit < |listed|);
            Page(r.items, r.next) ==
            Slice(Listing(env, group, rows), PositionToken(env, criteria, group, rows), k, limit)
  {
    hide Listed, Encode;
    var listed := Listed(env, rows);
    var end := Smaller(k + limit, |listed|);
    assert ItemsOf(group, listed[k..end]) == Listing(env, group, rows)[k..end];
  }

  /** Asked for one group at a position, the service answers with that slice. */
  lemma {:induction false} SearchServesSlice(
    env: Collation, ids: (Item, Item) -> bool, store: Store, criteria: Criteria, group: Group, token: Option<Token>,
    k: nat, limit: nat, now: int)
    requires WellFormed(env, store) && store.open && group != BestMatch && limit >= 1
    requires Rows(store, criteria, group).Some?
    requires k <= |Listed(env, Rows(store, criteria, group).value)|
    requires Decode(env, token, Some(group), criteria) == RowCursor(Listed(env, Rows(store, criteria, group).value), k)
    ensures var rows := Rows(store, criteria, group).value;
            FetchFrom(env, ids, store, criteria, group)(token, limit, now)
            == Some(Slice(Listing(env, group, rows), PositionToken(env, criteria, group, rows), k, limit))
  {
    var rows := Rows(store, criteria, group).value;
    var request := Request(criteria, Some(group), token, limit);
    var cursor := RowCursor(Listed(env, rows), k);
    GroupServesSlice(env, store, criteria, group, token, k, limit);
    SearchFinds(env, ids, store, request, cursor, group);
    hide Search, WellFormed, Rows, Listed, Decode, RowCursor, ResultFor, FetchFor, Listing, PositionToken, Slice;
  }

  lemma {:induction false} SearchFinds(
    env: Collation, ids: (Item, Item) -> bool, store: Store, request: Request, cursor: Decoded, group: Group)
    requires WellFormed(env, store) && store.open && group != BestMatch && request.group == Some(group)
    requires cursor == Decode(env, request.cursor, request.group, request.criteria) && !cursor.Bad?
    requires !FetchFor(env, store, request, cursor, group).Failed?
    ensures var outcome := Search(env, ids, store, request);
            && outcome.Found? && |outcome.groups| == 1 + |Searchable|
            && outcome.groups[1 + Position(group)] == ResultFor(env, store, request, cursor, group)
  {
    ResponsesNeverRejected(env, ids, store, request);
    assert group in Requested(request);
    hide WellFormed, Decode, FetchFor, ResultFor, SomeFail, AllItems, Best, BestGroup, AllValid;
  }

  lemma {:induction false} FetchesServe(
    env: Collation, ids: (Item, Item) -> bool, store: Store, criteria: Criteria, group: Group, start: int)
    requires WellFormed(env, store) && store.open && group != BestMatch && Rows(store, criteria, group).Some?
    ensures var rows := Rows(store, criteria, group).value;
            Serves(FetchFrom(env, ids, store, criteria, group), Listing(env, group, rows),
                   PositionToken(env, criteria, group, rows), MaxLimit, start)
  {
    var rows := Rows(store, criteria, group).value;
    var listed := Listed(env, rows);
    var listing, at := Listing(env, group, rows), PositionToken(env, criteria, group, rows);
    var fetch := FetchFrom(env, ids, store, criteria, group);
    assert |listing| == |listed|;
    assert DistinctRows(rows);
    GroupListingIsExact(env, rows);
    hide WellFormed, Listed, Listing, FetchFrom, Rows, Encode;
    forall limit: nat | 1 <= limit <= MaxLimit
      ensures fetch(None, limit, start) == Some(Slice(listing, at, 0, limit))
    {
      SearchServesSlice(env, ids, store, criteria, group, None, 0, limit, start);
    }
    forall k: nat, limit: nat, now: int | 0 < k < |listing| && 1 <= limit <= MaxLimit
      ensures ServesFrom(fetch, listing, at, k, limit, now)
    {
      assert listed[k - 1] in listed;
      CursorRoundTrip(env, group, criteria, listed[k - 1], criteria, Some(group));
      SearchServesSlice(env, ids, store, criteria, group, Some(at(k)), k, limit, now);
    }
  }

  /** Following a group's `next` with any page sizes reads a prefix of its
      listing, reaches its end exactly when no cursor is left, takes at most one
      page per row, and can always be carried on to that end. */
  lemma {:induction false} FollowingGroupCursors(
    env: Collation, ids: (Item, Item) -> bool, store: Store, criteria: Criteria, group: Group,
    limits: nat -> nat, times: nat -> int, pages: seq<Page<Item, Token>>)
    returns (whole: seq<Page<Item, Token>>)
    requires WellFormed(env, store) && store.open && group != BestMatch && Rows(store, criteria, group).Some?
    requires GoodLimits(limits, 20) && Session(FetchFrom(env, ids, store, criteria, group), limits, times, pages)
    ensures var listing := Listing(env, group, Rows(store, criteria, group).value);
            && |Items(pages)| <= |listing| && Items(pages) == listing[..|Items(pages)|]
            && (pages[|pages| - 1].next == None <==> Items(pages) == listing)
            && |pages| <= (if listing == [] then 1 else |listing|)
            && Session(FetchFrom(env, ids, store, criteria, group), limits, times, whole) && pages <= whole
            && whole[|whole| - 1].next == None && Items(whole) == listing
  {
    FetchesServe(env, ids, store, criteria, group, times(0));
    var rows := Rows(store, criteria, group).value;
    var listing, at := Listing(env, group, rows), PositionToken(env, criteria, group, rows);
    var fetch := FetchFrom(env, ids, store, criteria, group);
    hide Session, Serves, Listing, PositionToken, FetchFrom, WellFormed, GoodLimits, Rows;
    SessionPrefix(fetch, listing, at, MaxLimit, limits, times, pages);
    EndedSessionReadsAll(fetch, listing, at, MaxLimit, limits, times, pages);
    whole := SessionEnds(fetch, listing, at, MaxLimit, limits, times, pages);
  }
}
