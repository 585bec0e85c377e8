/** Keyset paging: a sorted listing read page by page through cursors. */
module Keyset {
  import opened Foundations
  import opened Ordering

  // ----- filtering a sorted listing -------------------------------------------------------

  lemma {:induction false} FilterSorted<T(!new)>(s: seq<T>, p: T -> bool, le: (T, T) -> bool)
    requires Sorted(s, le)
    ensures Sorted(Filter(s, p), le)
  {
    if s != [] {
      var init, last := s[..|s| - 1], s[|s| - 1];
      FilterSorted(init, p, le);
      FilterMembers(init, p);
      forall x | x in init
        ensures le(x, last)
      {
        var i :| 0 <= i < |init| && init[i] == x;
        assert le(s[i], s[|s| - 1]);
      }
      var f := Filter(init, p);
      assert forall i :: 0 <= i < |f| ==> f[i] in init;
    }
  }

  /** Filtering before or after sorting gives the same listing. */
  lemma {:induction false} SortOfFilter<T(!new)>(s: seq<T>, p: T -> bool, le: (T, T) -> bool)
    requires TotalPreorder(le) && NoTies(s, le)
    ensures Sort(Filter(s, p), le) == Filter(Sort(s, le), p)
  {
    SortPermutes(s, le);
    SortSorts(s, le);
    SortPermutes(Filter(s, p), le);
    SortSorts(Filter(s, p), le);
    FilterSorted(Sort(s, le), p, le);
    FilterMembers(s, p);
    var a, b := Sort(Filter(s, p), le), Filter(Sort(s, le), p);
    forall x
      ensures multiset(a)[x] == multiset(b)[x]
    {
      FilterCounts(s, p, x);
      FilterCounts(Sort(s, le), p, x);
    }
    assert multiset(a) == multiset(b);
    hide Sort, Filter;
    assert NoTies(a, le);
    SortedUnique(a, b, le);
  }

  /** A predicate that starts to hold at a position selects the rest. */
  lemma {:induction false} FilterSuffix<T>(s: seq<T>, p: T -> bool, k: nat)
    requires k <= |s| && forall i :: 0 <= i < |s| ==> (p(s[i]) <==> k <= i)
    ensures Filter(s, p) == s[k..]
  {
    if s != [] {
      var init := s[..|s| - 1];
      if k < |s| {
        FilterSuffix(init, p, k);
        assert s[k..] == init[k..] + [s[|s| - 1]];
      } else {
        FilterSuffix(init, p, |init|);
        assert init[|init|..] == [];
      }
    }
  }

  // ----- a listing without ties ----------------------------------------------------------------

  /** Rows at different positions never tie. */
  ghost predicate Tieless<T(!new)>(s: seq<T>, le: (T, T) -> bool)
  {
    forall i, j :: 0 <= i < j < |s| ==> !(le(s[i], s[j]) && le(s[j], s[i]))
  }

  ghost predicate Strictly<T(!new)>(s: seq<T>, le: (T, T) -> bool)
  {
    forall i, j :: 0 <= i < j < |s| ==> le(s[i], s[j]) && !le(s[j], s[i])
  }

  lemma {:induction false} TielessNoTies<T(!new)>(s: seq<T>, le: (T, T) -> bool)
    requires Tieless(s, le)
    ensures NoTies(s, le)
  {
    forall x, y | x in s && y in s && le(x, y) && le(y, x)
      ensures x == y
    {
      var i :| 0 <= i < |s| && s[i] == x;
      var j :| 0 <= j < |s| && s[j] == y;
      assert i == j;
    }
  }

  /** Sorting rows that never tie puts them in strict order. */
  lemma {:induction false} SortStrictly<T(!new)>(s: seq<T>, le: (T, T) -> bool)
    requires TotalPreorder(le) && Tieless(s, le)
    ensures Strictly(Sort(s, le), le) && multiset(Sort(s, le)) == multiset(s)
  {
    SortSorts(s, le);
    SortPermutes(s, le);
    var differ := (x: T, y: T) => !(le(x, y) && le(y, x));
    hide Sort;
    PairwisePermuted(s, Sort(s, le), differ);
    var r := Sort(s, le);
    forall i, j | 0 <= i < j < |r|
      ensures le(r[i], r[j]) && !le(r[j], r[i])
    {
      assert differ(r[i], r[j]);
    }
  }

  /** Selecting what lies strictly behind a listed row, then sorting, gives the
      rest of the listing. */
  lemma {:induction false} RestOfListing<T(!new)>(s: seq<T>, p: T -> bool, le: (T, T) -> bool, k: nat)
    requires TotalPreorder(le) && Tieless(s, le) && k <= |Sort(s, le)|
    requires k == 0 ==> forall x :: p(x)
    requires k > 0 ==> forall x :: p(x) <==> !le(x, Sort(s, le)[k - 1])
    ensures Sort(Filter(s, p), le) == Sort(s, le)[k..]
  {
    hide *;
    var listed := Sort(s, le);
    SortStrictly(s, le);
    TielessNoTies(s, le);
    SortOfFilter(s, p, le);
    forall i | 0 <= i < |listed|
      ensures p(listed[i]) <==> k <= i
    {
      BehindExactly(listed, le, k, i);
    }
    FilterSuffix(listed, p, k);
  }

  lemma {:induction false} BehindExactly<T(!new)>(listed: seq<T>, le: (T, T) -> bool, k: nat, i: nat)
    requires TotalPreorder(le) && Strictly(listed, le) && k <= |listed| && i < |listed|
    ensures k > 0 ==> (!le(listed[i], listed[k - 1]) <==> k <= i)
  {
  }

  // ----- following cursors ------------------------------------------------------------------

  datatype Page<T, C> = Page(items: seq<T>, next: Option<C>)

  /** A request for a page: cursor, page size and the time it is made. */
  type Fetch<!T, !C> = (Option<C>, nat, int) -> Option<Page<T, C>>

  function Smaller(a: nat, b: nat): nat
  {
    if a <= b then a else b
  }

  /** The page of a listing from a position. */
  function Slice<T, C>(listing: seq<T>, at: nat -> C, k: nat, limit: nat): Page<T, C>
    requires k <= |listing|
  {
    var end := Smaller(k + limit, |listing|);
    Page(listing[k..end], if end < |listing| then Some(at(end)) else None)
  }

  /** One element beyond the limit tells whether anything is left. */
  lemma {:induction false} LookAhead<T>(listing: seq<T>, k: nat, limit: nat)
    requires k <= |listing|
    ensures var rows := listing[k..][..Smaller(limit + 1, |listing| - k)];
            && rows[..Smaller(limit, |rows|)] == listing[k..Smaller(k + limit, |listing|)]
            && (|rows| > limit <==> k + limit < |listing|)
  {
    var rows := listing[k..][..Smaller(limit + 1, |listing| - k)];
    var end := Smaller(k + limit, |listing|);
    assert Smaller(limit, |rows|) == end - k;
    assert forall i :: 0 <= i < end - k ==> rows[i] == listing[k + i];
  }

  ghost predicate ServesFrom<T(!new), C(!new)>(
    fetch: Fetch<T, C>, listing: seq<T>, at: nat -> C, k: nat, limit: nat, now: int)
    requires k < |listing|
  {
    fetch(Some(at(k)), limit, now) == Some(Slice(listing, at, k, limit))
  }

  /** Every fetch serves the listing: the first one made at `start`, and any later
      one, whenever made, from the position its cursor stands for. */
  ghost predicate Serves<T(!new), C(!new)>(fetch: Fetch<T, C>, listing: seq<T>, at: nat -> C, maxLimit: nat, start: int)
  {
    && (forall limit: nat :: 1 <= limit <= maxLimit ==>
          fetch(None, limit, start) == Some(Slice(listing, at, 0, limit)))
    && (forall k: nat, limit: nat, now: int :: 0 < k < |listing| && 1 <= limit <= maxLimit ==>
          ServesFrom(fetch, listing, at, k, limit, now))
  }

  ghost predicate GoodLimits(limits: nat -> nat, maxLimit: nat)
  {
    forall i: nat :: 1 <= limits(i) <= maxLimit
  }

  /** Pages obtained by following `next`, with any sizes at any times. */
  ghost predicate Session<T(!new), C(!new)>(
    fetch: Fetch<T, C>, limits: nat -> nat, times: nat -> int, pages: seq<Page<T, C>>)
  {
    && pages != []
    && fetch(None, limits(0), times(0)) == Some(pages[0])
    && (forall i :: 0 <= i < |pages| - 1 ==>
          pages[i].next.Some? && fetch(pages[i].next, limits(i + 1), times(i + 1)) == Some(pages[i + 1]))
  }

  function Items<T, C>(pages: seq<Page<T, C>>): seq<T>
  {
    if pages == [] then [] else Items(pages[..|pages| - 1]) + pages[|pages| - 1].items
  }

  /** The pages so far are a prefix of the listing, and `next` stands for the
      position they reach. */
  ghost predicate Reads<T(!new), C(!new)>(listing: seq<T>, at: nat -> C, pages: seq<Page<T, C>>)
    requires pages != []
  {
    && |Items(pages)| <= |listing| && Items(pages) == listing[..|Items(pages)|]
    && pages[|pages| - 1].next == (if |Items(pages)| < |listing| then Some(at(|Items(pages)|)) else None)
    && (|listing| > 0 ==> |Items(pages)| >= |pages|)
    && (listing == [] ==> |pages| == 1)
  }

  lemma {:induction false} ReadsFirst<T(!new), C(!new)>(listing: seq<T>, at: nat -> C, limit: nat)
    requires limit >= 1
    ensures Reads(listing, at, [Slice(listing, at, 0, limit)])
  {
    var page := Slice(listing, at, 0, limit);
    assert [page][..0] == [];
    assert Items([page]) == [] + page.items == page.items;
  }

  lemma {:induction false} ReadsMore<T(!new), C(!new)>(
    listing: seq<T>, at: nat -> C, pages: seq<Page<T, C>>, limit: nat)
    requires pages != [] && Reads(listing, at, pages) && limit >= 1 && |Items(pages)| < |listing|
    ensures Reads(listing, at, pages + [Slice(listing, at, |Items(pages)|, limit)])
  {
    var k := |Items(pages)|;
    var page := Slice(listing, at, k, limit);
    assert (pages + [page])[..|pages|] == pages;
    var all := Items(pages + [page]);
    assert all == Items(pages) + page.items;
    hide Items;
    assert listing[..k] + page.items == listing[..k + |page.items|];
  }

  lemma {:induction false} SessionPrefix<T(!new), C(!new)>(
    fetch: Fetch<T, C>, listing: seq<T>, at: nat -> C, maxLimit: nat, limits: nat -> nat, times: nat -> int,
    pages: seq<Page<T, C>>)
    requires Serves(fetch, listing, at, maxLimit, times(0)) && GoodLimits(limits, maxLimit)
    requires Session(fetch, limits, times, pages)
    ensures Reads(listing, at, pages)
  {
    var n := |pages|;
    assert 1 <= limits(n - 1) <= maxLimit;
    hide Items, Slice;
    if n == 1 {
      ReadsFirst(listing, at, limits(0));
      assert pages == [pages[0]];
    } else {
      var init, last := pages[..n - 1], pages[n - 1];
      assert forall i :: 0 <= i < n - 1 ==> init[i] == pages[i];
      SessionPrefix(fetch, listing, at, maxLimit, limits, times, init);
      var k := |Items(init)|;
      assert pages[n - 2].next.Some? && fetch(pages[n - 2].next, limits(n - 1), times(n - 1)) == Some(last);
      assert 0 < k < |listing|;
      assert ServesFrom(fetch, listing, at, k, limits(n - 1), times(n - 1));
      ReadsMore(listing, at, init, limits(n - 1));
      assert pages == init + [last];
    }
  }

  /** A session that came to its end has read the whole listing, each element
      once and in order, in at most one page per element. */
  lemma {:induction false} EndedSessionReadsAll<T(!new), C(!new)>(
    fetch: Fetch<T, C>, listing: seq<T>, at: nat -> C, maxLimit: nat, limits: nat -> nat, times: nat -> int,
    pages: seq<Page<T, C>>)
    requires Serves(fetch, listing, at, maxLimit, times(0)) && GoodLimits(limits, maxLimit)
    requires Session(fetch, limits, times, pages)
    ensures pages[|pages| - 1].next == None <==> Items(pages) == listing
    ensures |pages| <= if listing == [] then 1 else |listing|
  {
    hide Items, Serves, Session, GoodLimits;
    SessionPrefix(fetch, listing, at, maxLimit, limits, times, pages);
    assert listing[..|listing|] == listing;
  }

  /** A session that has not ended goes on: the next fetch succeeds. */
  lemma {:induction false} SessionGoesOn<T(!new), C(!new)>(
    fetch: Fetch<T, C>, listing: seq<T>, at: nat -> C, maxLimit: nat, limits: nat -> nat, times: nat -> int,
    pages: seq<Page<T, C>>)
    requires Serves(fetch, listing, at, maxLimit, times(0)) && GoodLimits(limits, maxLimit)
    requires Session(fetch, limits, times, pages) && pages[|pages| - 1].next.Some?
    ensures var more := fetch(pages[|pages| - 1].next, limits(|pages|), times(|pages|));
            more.Some? && Session(fetch, limits, times, pages + [more.value])
  {
    SessionPrefix(fetch, listing, at, maxLimit, limits, times, pages);
    var k := |Items(pages)|;
    assert 1 <= limits(|pages|) <= maxLimit;
    assert 0 < k < |listing|;
    assert ServesFrom(fetch, listing, at, k, limits(|pages|), times(|pages|));
  }

  /** Following cursors always comes to an end. */
  lemma {:induction false} SessionEnds<T(!new), C(!new)>(
    fetch: Fetch<T, C>, listing: seq<T>, at: nat -> C, maxLimit: nat, limits: nat -> nat, times: nat -> int,
    pages: seq<Page<T, C>>)
    returns (whole: seq<Page<T, C>>)
    requires Serves(fetch, listing, at, maxLimit, times(0)) && GoodLimits(limits, maxLimit)
    requires Session(fetch, limits, times, pages)
    ensures Session(fetch, limits, times, whole) && pages <= whole
    ensures whole[|whole| - 1].next == None && Items(whole) == listing
    decreases |listing| + 1 - |pages|
  {
    EndedSessionReadsAll(fetch, listing, at, maxLimit, limits, times, pages);
    if pages[|pages| - 1].next == None {
      whole := pages;
    } else {
      SessionGoesOn(fetch, listing, at, maxLimit, limits, times, pages);
      var more := fetch(pages[|pages| - 1].next, limits(|pages|), times(|pages|));
      whole := SessionEnds(fetch, listing, at, maxLimit, limits, times, pages + [more.value]);
    }
  }
}
