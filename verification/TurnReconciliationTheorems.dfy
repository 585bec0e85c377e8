/** What the reconciler keeps: pages, records and the merged view agree over
    every sequence of operations. */
module TurnReconciliationTheorems {
  import opened Foundations
  import opened Ordering
  import opened TurnReconciliation

  // ----- upserting a persisted turn ---------------------------------------

  function WithId(items: seq<Turn>, id: Id): seq<Turn>
  {
    if items == [] then []
    else WithId(items[..|items| - 1], id) + if items[|items| - 1].id == id then [items[|items| - 1]] else []
  }

  function Others(items: seq<Turn>, id: Id): seq<Turn>
  {
    if items == [] then []
    else Others(items[..|items| - 1], id) + if items[|items| - 1].id == id then [] else [items[|items| - 1]]
  }

  lemma {:induction false} FiltersSplit(a: seq<Turn>, b: seq<Turn>, id: Id)
    ensures WithId(a + b, id) == WithId(a, id) + WithId(b, id)
    ensures Others(a + b, id) == Others(a, id) + Others(b, id)
  {
    if b == [] {
      assert a + b == a;
    } else {
      assert (a + b)[..|a + b| - 1] == a + b[..|b| - 1];
      FiltersSplit(a, b[..|b| - 1], id);
    }
  }

  lemma {:induction false} HasIdIsWithId(items: seq<Turn>, id: Id)
    ensures HasId(items, id) <==> WithId(items, id) != []
    ensures forall t :: t in WithId(items, id) <==> t in items && t.id == id
  {
    if items != [] {
      var init, last := items[..|items| - 1], items[|items| - 1];
      HasIdIsWithId(init, id);
      assert items == init + [last];
      forall t
        ensures t in WithId(items, id) <==> t in items && t.id == id
      {
        assert t in items <==> t in init || t == last;
      }
      if WithId(items, id) != [] {
        assert WithId(items, id)[0] in WithId(items, id);
      }
    }
  }

  /** One occurrence per list at most, and none when it was already replaced. */
  lemma {:induction false} ReplaceInEffect(items: seq<Turn>, p: Turn, replaced: bool)
    ensures var (r, b) := ReplaceIn(items, p, replaced);
            && b == (replaced || WithId(items, p.id) != [])
            && WithId(r, p.id) == (if !replaced && b then [p] else [])
            && Others(r, p.id) == Others(items, p.id)
  {
    if items != [] {
      var init, t := items[..|items| - 1], items[|items| - 1];
      ReplaceInEffect(init, p, replaced);
      var (done, r) := ReplaceIn(init, p, replaced);
      FiltersSplit(done, [t], p.id);
      FiltersSplit(done, [p], p.id);
      Singletons(t, p.id);
      Singletons(p, p.id);
    }
  }

  lemma {:induction false} Singletons(t: Turn, id: Id)
    ensures WithId([t], id) == (if t.id == id then [t] else [])
    ensures Others([t], id) == (if t.id == id then [] else [t])
  {
    assert [t][..0] == [];
    assert WithId([t][..0], id) == [] && Others([t][..0], id) == [];
  }

  ghost predicate SameElsewhere(a: seq<Page>, b: seq<Page>, id: Id)
  {
    && |a| == |b|
    && forall i :: 0 <= i < |a| ==> a[i].next == b[i].next && Others(a[i].items, id) == Others(b[i].items, id)
  }

  lemma {:induction false} ReplacePagesEffect(pages: seq<Page>, p: Turn)
    ensures var (r, b) := ReplacePages(pages, p);
            && b == (WithId(FlatItems(pages), p.id) != [])
            && WithId(FlatItems(r), p.id) == (if b then [p] else [])
            && Others(FlatItems(r), p.id) == Others(FlatItems(pages), p.id)
  {
    if pages != [] {
      var init, last := pages[..|pages| - 1], pages[|pages| - 1];
      ReplacePagesEffect(init, p);
      var (done, b) := ReplacePages(init, p);
      ReplaceInEffect(last.items, p, b);
      var (items, b') := ReplaceIn(last.items, p, b);
      AppendPage(done, last.(items := items));
      hide ReplaceIn, WithId, Others;
      FiltersSplit(FlatItems(init), last.items, p.id);
      FiltersSplit(FlatItems(done), items, p.id);
    }
  }

  lemma {:induction false} ReplacePagesElsewhere(pages: seq<Page>, p: Turn)
    ensures SameElsewhere(ReplacePages(pages, p).0, pages, p.id)
  {
    if pages != [] {
      var init, last := pages[..|pages| - 1], pages[|pages| - 1];
      ReplacePagesElsewhere(init, p);
      ReplaceInEffect(last.items, p, ReplacePages(init, p).1);
      hide ReplaceIn, WithId, Others;
    }
  }

  /** Completing the last page with the persisted turn. */
  lemma {:induction false} CompletedPages(pages: seq<Page>, p: Turn)
    requires pages != [] && WithId(FlatItems(pages), p.id) == []
    ensures var last := pages[|pages| - 1];
            var r := pages[..|pages| - 1] + [last.(items := last.items + [p])];
            && WithId(FlatItems(r), p.id) == [p]
            && Others(FlatItems(r), p.id) == Others(FlatItems(pages), p.id)
  {
    hide *;
    var init, last := pages[..|pages| - 1], pages[|pages| - 1];
    Singletons(p, p.id);
    assert pages == init + [last];
    AppendPage(init, last.(items := last.items + [p]));
    AppendPage(init, last);
    FiltersSplit(FlatItems(pages), [p], p.id);
    assert FlatItems(init) + (last.items + [p]) == FlatItems(init) + last.items + [p];
    assert Others(FlatItems(pages), p.id) + [] == Others(FlatItems(pages), p.id);
    assert [] + [p] == [p];
  }

  lemma {:induction false} NewPage(p: Turn)
    ensures WithId(FlatItems([Page([p], None)]), p.id) == [p] && Others(FlatItems([Page([p], None)]), p.id) == []
    ensures Others([], p.id) == [] && FlatItems([]) == []
  {
    Singletons(p, p.id);
    AppendPage([], Page([p], None));
    assert [] + [Page([p], None)] == [Page([p], None)];
    assert [] + [p] == [p];
  }

  /** The contract of `upsertPersistedTurn`: exactly one occurrence when it is
      retained and none otherwise, every other turn kept in order and number. */
  lemma {:induction false} UpsertEffect(data: Option<Pages>, p: Turn)
    ensures var (r, retained) := Upsert(data, p);
            && WithId(FlatItems(r.pages), p.id) == (if retained then [p] else [])
            && Others(FlatItems(r.pages), p.id) == Others(ItemsOf(data), p.id)
  {
    hide WithId, Others, ReplacePages, FlatItems;
    if data.None? || data.value.pages == [] {
      NewPage(p);
    } else {
      var pages := data.value.pages;
      ReplacePagesEffect(pages, p);
      ReplacedPages(pages, p);
      var (done, replaced) := ReplacePages(pages, p);
      if !replaced {
        CompletedPages(done, p);
      }
    }
  }

  lemma {:induction false} CompletionElsewhere(done: seq<Page>, pages: seq<Page>, p: Turn)
    requires done != [] && SameElsewhere(done, pages, p.id)
    ensures var last := done[|done| - 1];
            SameElsewhere(done[..|done| - 1] + [last.(items := last.items + [p])], pages, p.id)
  {
    var last := done[|done| - 1];
    Singletons(p, p.id);
    FiltersSplit(last.items, [p], p.id);
    hide Others, WithId;
    assert Others(last.items, p.id) + [] == Others(last.items, p.id);
  }

  /** For a non-empty page set, page count, cursors and page parameters stay,
      and every page keeps its other turns in order. */
  lemma {:induction false} UpsertKeepsPages(data: Pages, p: Turn)
    requires data.pages != []
    ensures var r := Upsert(Some(data), p).0;
            r.params == data.params && SameElsewhere(r.pages, data.pages, p.id)
  {
    ReplacePagesElsewhere(data.pages, p);
    ReplacedPages(data.pages, p);
    var (done, replaced) := ReplacePages(data.pages, p);
    hide ReplacePages, Others, WithId, FlatItems;
    if !replaced {
      CompletionElsewhere(done, data.pages, p);
    }
  }

  lemma {:induction false} AppendPage(pages: seq<Page>, page: Page)
    ensures FlatItems(pages + [page]) == FlatItems(pages) + page.items
  {
    assert (pages + [page])[..|pages + [page]| - 1] == pages;
  }

  lemma {:induction false} ReplaceInSettled(items: seq<Turn>, p: Turn, replaced: bool)
    requires WithId(items, p.id) == [] || (!replaced && WithId(items, p.id) == [p])
    ensures ReplaceIn(items, p, replaced) == (items, replaced || WithId(items, p.id) != [])
  {
    if items != [] {
      var init, t := items[..|items| - 1], items[|items| - 1];
      assert items == init + [t];
      FiltersSplit(init, [t], p.id);
      Singletons(t, p.id);
      if t.id == p.id {
        assert WithId(items, p.id)[|WithId(items, p.id)| - 1] == t;
        assert |WithId(init, p.id)| == 0;
      } else {
        assert WithId(init, p.id) == WithId(items, p.id);
      }
      ReplaceInSettled(init, p, replaced);
    }
  }

  lemma {:induction false} ReplacePagesSettled(pages: seq<Page>, p: Turn)
    requires WithId(FlatItems(pages), p.id) == [] || WithId(FlatItems(pages), p.id) == [p]
    ensures ReplacePages(pages, p) == (pages, WithId(FlatItems(pages), p.id) != [])
  {
    if pages != [] {
      var init, last := pages[..|pages| - 1], pages[|pages| - 1];
      assert pages == init + [last];
      FiltersSplit(FlatItems(init), last.items, p.id);
      var a, b := WithId(FlatItems(init), p.id), WithId(last.items, p.id);
      assert WithId(FlatItems(pages), p.id) == a + b;
      assert (a == [] && (b == [] || b == [p])) || (a == [p] && b == []) by {
        if a != [] {
          assert (a + b)[0] == a[0];
        }
      }
      ReplacePagesSettled(init, p);
      ReplaceInSettled(last.items, p, a != []);
      assert last.(items := last.items) == last;
    }
  }

  /** Upserting the same turn again changes nothing. */
  lemma {:induction false} UpsertIdempotent(data: Option<Pages>, p: Turn)
    ensures Upsert(Some(Upsert(data, p).0), p) == Upsert(data, p)
  {
    var (r, retained) := Upsert(data, p);
    UpsertEffect(data, p);
    ReplacePagesSettled(r.pages, p);
    if data.Some? && data.value.pages != [] {
      ReplacedPages(data.value.pages, p);
    }
  }

  // ----- the merged view -------------------------------------------------------

  ghost predicate DistinctIds(turns: seq<Turn>)
  {
    forall i, j :: 0 <= i < j < |turns| ==> turns[i].id != turns[j].id
  }

  ghost predicate ShownOnce(view: seq<Turn>, id: Id)
  {
    HasId(view, id) && DistinctIds(view)
  }

  lemma {:induction false} PutEffect(entries: seq<Turn>, t: Turn)
    requires DistinctIds(entries)
    ensures DistinctIds(Put(entries, t))
    ensures forall u :: u in Put(entries, t) <==> u == t || (u in entries && u.id != t.id)
  {
    if entries != [] {
      var head, tail := entries[0], entries[1..];
      assert entries == [head] + tail;
      assert DistinctIds(tail);
      PutEffect(tail, t);
      var r := Put(entries, t);
      if head.id == t.id {
        forall u | u in tail
          ensures u.id != t.id
        {
          var i :| 0 <= i < |tail| && tail[i] == u;
          assert entries[i + 1] == u;
        }
      } else {
        assert r == [head] + Put(tail, t);
        forall i | 0 < i < |r|
          ensures r[0].id != r[i].id
        {
          assert r[i] in Put(tail, t);
          if r[i] != t {
            var k :| 0 <= k < |tail| && tail[k] == r[i];
            assert entries[0].id != entries[k + 1].id;
          }
        }
      }
    }
  }

  /** The map of page turns holds the last value of every id. */
  lemma {:induction false} ByIdEffect(turns: seq<Turn>)
    ensures DistinctIds(ById(turns))
    ensures forall id :: HasId(ById(turns), id) <==> HasId(turns, id)
    ensures forall u :: u in ById(turns) ==> u in turns
  {
    if turns != [] {
      var init, t := turns[..|turns| - 1], turns[|turns| - 1];
      ByIdEffect(init);
      PutEffect(ById(init), t);
      assert turns == init + [t];
      forall id
        ensures HasId(ById(turns), id) <==> HasId(turns, id)
      {
        if HasId(ById(init), id) && id != t.id {
          var u :| u in ById(init) && u.id == id;
          assert u in ById(turns);
        }
        if HasId(turns, id) {
          var u :| u in turns && u.id == id;
          assert u == t || u in init;
          assert t in ById(turns);
        }
        if HasId(ById(turns), id) {
          var u :| u in ById(turns) && u.id == id;
          assert u in turns;
        }
      }
    }
  }

  ghost predicate Overlaid(records: seq<Record>, id: Id)
  {
    exists r :: r in records && Overlay(r).Some? && Overlay(r).value.id == id
  }

  lemma {:induction false} OverlaysEffect(entries: seq<Turn>, records: seq<Record>)
    requires DistinctIds(entries)
    ensures DistinctIds(WithOverlays(entries, records))
    ensures entries <= WithOverlays(entries, records)
    ensures forall id :: HasId(WithOverlays(entries, records), id) <==> HasId(entries, id) || Overlaid(records, id)
  {
    if records != [] {
      var init, r := records[..|records| - 1], records[|records| - 1];
      OverlaysEffect(entries, init);
      assert records == init + [r];
      var done, all := WithOverlays(entries, init), WithOverlays(entries, records);
      forall id
        ensures HasId(all, id) <==> HasId(entries, id) || Overlaid(records, id)
      {
        OverlaidSplit(init, r, id);
        if all != done {
          var t := Overlay(r).value;
          assert all == done + [t];
          assert HasId(all, id) <==> HasId(done, id) || t.id == id by {
            assert forall u :: u in all <==> u in done || u == t;
            assert t in all;
          }
        }
      }
      if all != done {
        forall i | 0 <= i < |done|
          ensures done[i].id != Overlay(r).value.id
        {
          assert done[i] in done;
        }
      }
    }
  }

  lemma {:induction false} OverlaidSplit(records: seq<Record>, r: Record, id: Id)
    ensures Overlaid(records + [r], id)
            <==> Overlaid(records, id) || (Overlay(r).Some? && Overlay(r).value.id == id)
  {
    assert forall x :: x in records + [r] <==> x in records || x == r;
  }

  lemma {:induction false} DistinctAfterPermutation(a: seq<Turn>, b: seq<Turn>)
    requires multiset(a) == multiset(b) && DistinctIds(a)
    ensures DistinctIds(b)
  {
    PairwisePermuted(a, b, (x: Turn, y: Turn) => x.id != y.id);
  }

  lemma {:induction false} PairOrderIsPreorder(collate: Collation)
    requires TotalPreorder(collate)
    ensures TotalPreorder(TurnOrder(collate)) && TotalPreorder(RecordOrder(collate))
  {
  }

  /** Every merged view is sorted, has no duplicate id, and shows exactly the
      ids of the pages and of the overlays. */
  lemma {:induction false} MergedViewEffect(data: Option<Pages>, records: seq<Record>, collate: Collation)
    requires TotalPreorder(collate)
    ensures var view := MergedView(data, records, collate);
            && Sorted(view, TurnOrder(collate))
            && DistinctIds(view)
            && forall id :: HasId(view, id) <==> HasId(ItemsOf(data), id) || Overlaid(records, id)
  {
    var entries := ById(ItemsOf(data));
    var merged := WithOverlays(entries, records);
    ByIdEffect(ItemsOf(data));
    OverlaysEffect(entries, records);
    PairOrderIsPreorder(collate);
    SortSorts(merged, TurnOrder(collate));
    SortPermutes(merged, TurnOrder(collate));
    hide WithOverlays, ById, Sort, Put;
    DistinctAfterPermutation(merged, MergedView(data, records, collate));
    forall id
      ensures HasId(MergedView(data, records, collate), id) <==> HasId(merged, id)
    {
    }
  }

  lemma {:induction false} MergedViewKeepsPageTurn(
    data: Option<Pages>, records: seq<Record>, collate: Collation, p: Turn)
    requires TotalPreorder(collate)
    requires WithId(ItemsOf(data), p.id) == [p]
    ensures p in MergedView(data, records, collate)
  {
    var items := ItemsOf(data);
    var entries := ById(items);
    ByIdEffect(items);
    OverlaysEffect(entries, records);
    HasIdIsWithId(items, p.id);
    SortPermutes(WithOverlays(entries, records), TurnOrder(collate));
    hide ById, WithOverlays, WithId, Sort;
    assert HasId(entries, p.id);
    var u :| u in entries && u.id == p.id;
    assert u in items;
    assert u in [p];
    assert u in WithOverlays(entries, records);
  }
}
