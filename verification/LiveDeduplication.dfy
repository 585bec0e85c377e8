/** Deduplication of admitted live evidence
    (apps/api/backend/ask/live_intelligence.py, `_deduplicate`): an index from
    identity keys to retained items, in which a later item may touch several
    retained items and re-point their keys. */
module LiveDeduplication {
  import opened Foundations
  import opened LiveContracts

  datatype Key = UrlKey(url: string) | HashKey(hash: string) | HeadlineKey(headline: string)

  /** `fold` is case folding; `squash` also collapses white space. */
  datatype Text = Text(fold: string -> string, squash: string -> string)

  function Keys(env: Text, e: Evidence): seq<Key>
  {
    [UrlKey(env.fold(e.url)), HashKey(e.hash), HeadlineKey(env.squash(e.publisher) + "|" + env.squash(e.title))]
  }

  predicate ShareKey(env: Text, a: Evidence, b: Evidence)
  {
    exists k :: k in Keys(env, a) && k in Keys(env, b)
  }

  function Headline(env: Text, e: Evidence): string
  {
    env.squash(e.publisher) + "|" + env.squash(e.title)
  }

  /** Two items pass for the same when their addresses agree up to case, or their
      digests, or their publishers and titles up to case and white space. */
  predicate PassForSame(env: Text, a: Evidence, b: Evidence)
  {
    || env.fold(a.url) == env.fold(b.url)
    || a.hash == b.hash
    || Headline(env, a) == Headline(env, b)
  }

  /** What it is to carry a key. */
  predicate Carries(env: Text, e: Evidence, k: Key)
  {
    match k
    case UrlKey(url) => url == env.fold(e.url)
    case HashKey(hash) => hash == e.hash
    case HeadlineKey(headline) => headline == Headline(env, e)
  }

  lemma {:induction false} KeysExactly(env: Text, e: Evidence, k: Key)
    ensures k in Keys(env, e) <==> Carries(env, e, k)
  {
    var keys := Keys(env, e);
    assert keys[0] in keys && keys[1] in keys && keys[2] in keys;
  }

  lemma {:induction false} ShareKeyExactly(env: Text, a: Evidence, b: Evidence)
    ensures ShareKey(env, a, b) <==> PassForSame(env, a, b)
  {
    forall e, k
      ensures k in Keys(env, e) <==> Carries(env, e, k)
    {
      KeysExactly(env, e, k);
    }
    hide Keys;
    if PassForSame(env, a, b) {
      var k := if env.fold(a.url) == env.fold(b.url) then UrlKey(env.fold(a.url))
               else if a.hash == b.hash then HashKey(a.hash) else HeadlineKey(Headline(env, a));
      assert Carries(env, a, k) && Carries(env, b, k);
    }
  }

  /** The loop variables. */
  datatype State = State(retained: seq<Evidence>, rejected: seq<Rejected>, identities: map<Key, nat>)

  function Matching(env: Text, st: State, e: Evidence): set<nat>
  {
    set k | k in Keys(env, e) && k in st.identities :: st.identities[k]
  }

  /** The retained index that takes the item: the least match, or a new one. */
  function Target(env: Text, st: State, e: Evidence): nat
  {
    var matches := Matching(env, st, e);
    if matches == {} then |st.retained|
    else
      var asInts: set<int> := matches;
      Least(asInts)
  }

  function Repoint(identities: map<Key, nat>, keys: seq<Key>, index: nat): map<Key, nat>
  {
    if keys == [] then identities else Repoint(identities, keys[..|keys| - 1], index)[keys[|keys| - 1] := index]
  }

  function Merge(head: Evidence, e: Evidence): Evidence
  {
    head.(sources := head.sources + e.sources, duplicateIds := head.duplicateIds + [e.id])
  }

  ghost predicate Valid(st: State)
  {
    forall k :: k in st.identities ==> st.identities[k] < |st.retained|
  }

  function Step(env: Text, st: State, e: Evidence): State
    requires Valid(st)
  {
    var index := Target(env, st, e);
    var identities := Repoint(st.identities, Keys(env, e), index);
    if index == |st.retained| then State(st.retained + [e], st.rejected, identities)
    else
      TargetInRange(env, st, e);
      State(st.retained[index := Merge(st.retained[index], e)],
            st.rejected + [Rejected(e.provider, Some(e.id), Duplicate)], identities)
  }

  lemma {:induction false} TargetInRange(env: Text, st: State, e: Evidence)
    requires Valid(st)
    ensures Target(env, st, e) <= |st.retained|
    ensures Target(env, st, e) == |st.retained| <==> forall k :: k in Keys(env, e) ==> k !in st.identities
    ensures Target(env, st, e) < |st.retained| ==>
      exists k :: k in Keys(env, e) && k in st.identities && st.identities[k] == Target(env, st, e)
  {
    var matches := Matching(env, st, e);
    hide Keys;
    assert forall k :: k in Keys(env, e) && k in st.identities ==> st.identities[k] in matches;
    if matches != {} {
      var asInts: set<int> := matches;
      assert Least(asInts) in matches;
      var k :| k in Keys(env, e) && k in st.identities && st.identities[k] == Target(env, st, e);
    }
  }

  lemma {:induction false} RepointEffect(identities: map<Key, nat>, keys: seq<Key>, index: nat)
    ensures forall k :: k in Repoint(identities, keys, index) <==> k in identities || k in keys
    ensures forall k :: k in Repoint(identities, keys, index) ==>
      Repoint(identities, keys, index)[k] == if k in keys then index else identities[k]
  {
    if keys != [] {
      RepointEffect(identities, keys[..|keys| - 1], index);
      assert keys == keys[..|keys| - 1] + [keys[|keys| - 1]];
    }
  }

  lemma {:induction false} StepValid(env: Text, st: State, e: Evidence)
    requires Valid(st)
    ensures Valid(Step(env, st, e))
  {
    TargetInRange(env, st, e);
    RepointEffect(st.identities, Keys(env, e), Target(env, st, e));
    hide Keys, Target;
  }

  function Deduplicated(env: Text, items: seq<Evidence>): (st: State)
    ensures Valid(st)
  {
    if items == [] then State([], [], map[])
    else
      var before := Deduplicated(env, items[..|items| - 1]);
      StepValid(env, before, items[|items| - 1]);
      Step(env, before, items[|items| - 1])
  }

  /** For every item, the retained index that took it. */
  function Assignment(env: Text, items: seq<Evidence>): seq<nat>
  {
    if items == [] then []
    else
      var init := items[..|items| - 1];
      Assignment(env, init) + [Target(env, Deduplicated(env, init), items[|items| - 1])]
  }

  // ----- the loop ------------------------------------------------------------------

  method Deduplicate(env: Text, items: seq<Evidence>) returns (retained: seq<Evidence>, rejected: seq<Rejected>)
    ensures retained == Deduplicated(env, items).retained && rejected == Deduplicated(env, items).rejected
  {
    retained, rejected := [], [];
    var identities: map<Key, nat> := map[];
    for i := 0 to |items|
      invariant State(retained, rejected, identities) == Deduplicated(env, items[..i])
    {
      var e := items[i];
      assert items[..i + 1][..i] == items[..i];
      ghost var st := State(retained, rejected, identities);
      TargetInRange(env, st, e);
      hide Keys;
      var keys := Keys(env, e);
      var matches := set k | k in keys && k in identities :: identities[k];
      assert matches == Matching(env, st, e);
      var index := |retained|;
      if matches == {} {
        retained := retained + [e];
      } else {
        var asInts: set<int> := matches;
        index := Least(asInts);
        retained := retained[index := Merge(retained[index], e)];
        rejected := rejected + [Rejected(e.provider, Some(e.id), Duplicate)];
      }
      identities := Repoint(identities, keys, index);
    }
    assert items[..|items|] == items;
  }

  // ----- who holds what ----------------------------------------------------------

  /** The first item assigned to an index. */
  ghost predicate IsHead(assignment: seq<nat>, n: nat)
    requires n < |assignment|
  {
    forall m :: 0 <= m < n ==> assignment[m] != assignment[n]
  }

  /** The items assigned to an index, folded into the first of them. */
  function Group(items: seq<Evidence>, assignment: seq<nat>, index: nat): seq<Evidence>
    requires |items| == |assignment|
  {
    if items == [] then []
    else
      Group(items[..|items| - 1], assignment[..|items| - 1], index)
      + if assignment[|items| - 1] == index then [items[|items| - 1]] else []
  }

  function MergeAll(group: seq<Evidence>): Evidence
    requires group != []
  {
    if |group| == 1 then group[0] else Merge(MergeAll(group[..|group| - 1]), group[|group| - 1])
  }

  /** One rejection for every item that is not the head of its group, in input order. */
  ghost function Absorbed(items: seq<Evidence>, assignment: seq<nat>): seq<Rejected>
    requires |items| == |assignment|
  {
    if items == [] then []
    else
      var n := |items| - 1;
      Absorbed(items[..n], assignment[..n])
      + if IsHead(assignment, n) then [] else [Rejected(items[n].provider, Some(items[n].id), Duplicate)]
  }

  lemma {:induction false} AssignmentLength(env: Text, items: seq<Evidence>)
    ensures |Assignment(env, items)| == |items|
  {
    if items != [] {
      AssignmentLength(env, items[..|items| - 1]);
    }
  }

  /** The state after one more item, in terms of its target. */
  lemma {:induction false} OneMore(env: Text, items: seq<Evidence>, e: Evidence)
    ensures var st := Deduplicated(env, items);
            var t := Target(env, st, e);
            && t <= |st.retained|
            && Deduplicated(env, items + [e]) == Step(env, st, e)
            && Assignment(env, items + [e]) == Assignment(env, items) + [t]
            && (t < |st.retained| ==> Step(env, st, e).retained == st.retained[t := Merge(st.retained[t], e)]
                                      && Step(env, st, e).rejected ==
                                         st.rejected + [Rejected(e.provider, Some(e.id), Duplicate)])
            && (t == |st.retained| ==> Step(env, st, e).retained == st.retained + [e]
                                       && Step(env, st, e).rejected == st.rejected)
  {
    assert (items + [e])[..|items + [e]| - 1] == items;
    TargetInRange(env, Deduplicated(env, items), e);
    hide Target, Keys;
  }

  lemma {:induction false} GroupOneMore(items: seq<Evidence>, assignment: seq<nat>, e: Evidence, t: nat, index: nat)
    requires |items| == |assignment|
    ensures Group(items + [e], assignment + [t], index)
            == Group(items, assignment, index) + if t == index then [e] else []
  {
    assert (items + [e])[..|items|] == items && (assignment + [t])[..|items|] == assignment;
  }

  lemma {:induction false} MergeOneMore(group: seq<Evidence>, e: Evidence)
    ensures MergeAll(group + [e]) == if group == [] then e else Merge(MergeAll(group), e)
  {
    assert (group + [e])[..|group|] == group;
  }

  lemma {:induction false} AbsorbedOneMore(items: seq<Evidence>, assignment: seq<nat>, e: Evidence, t: nat)
    requires |items| == |assignment|
    ensures Absorbed(items + [e], assignment + [t])
            == Absorbed(items, assignment)
               + if t !in assignment then [] else [Rejected(e.provider, Some(e.id), Duplicate)]
  {
    assert (items + [e])[..|items|] == items && (assignment + [t])[..|items|] == assignment;
    assert IsHead(assignment + [t], |items|) <==> t !in assignment;
  }

  /** Every item is assigned to a retained index, every retained item is the fold
      of its group, and exactly the items that are not heads are rejected. */
  ghost predicate Held(env: Text, items: seq<Evidence>)
  {
    var st, a := Deduplicated(env, items), Assignment(env, items);
    && |a| == |items|
    && (forall n :: 0 <= n < |items| ==> a[n] < |st.retained|)
    && (forall h :: 0 <= h < |st.retained| ==>
          Group(items, a, h) != [] && st.retained[h] == MergeAll(Group(items, a, h)))
    && st.rejected == Absorbed(items, a)
    && |st.retained| + |st.rejected| == |items|
  }

  /** Conservation: every item is assigned to exactly one retained index; the
      retained item there is the fold of its items, the first being the head. */
  lemma {:induction false} RetainedIsMergedGroup(env: Text, items: seq<Evidence>)
    ensures Held(env, items)
  {
    hide *;
    if items == [] {
      NothingRetained(env);
    } else {
      var init, e := items[..|items| - 1], items[|items| - 1];
      RetainedIsMergedGroup(env, init);
      OneMore(env, init, e);
      assert items == init + [e];
      GroupsAfterOne(env, init, e);
    }
  }

  lemma {:induction false} NothingRetained(env: Text)
    ensures Held(env, [])
  {
  }

  lemma {:induction false} GroupsAfterOne(env: Text, init: seq<Evidence>, e: Evidence)
    requires Held(env, init)
    ensures Held(env, init + [e])
  {
    OneMore(env, init, e);
    var st, st' := Deduplicated(env, init), Deduplicated(env, init + [e]);
    var a, t := Assignment(env, init), Target(env, st, e);
    hide Deduplicated, Assignment, Target, Step, Group, MergeAll, Merge;
    NoItemsYet(init, a, |st.retained|);
    AbsorbedOneMore(init, a, e, t);
    if t < |st.retained| {
      SomeMember(init, a, t);
    }
    hide Absorbed;
    forall h | 0 <= h < |st'.retained|
      ensures Group(init + [e], a + [t], h) != [] && st'.retained[h] == MergeAll(Group(init + [e], a + [t], h))
    {
      GroupOneMore(init, a, e, t, h);
      MergeOneMore(Group(init, a, h), e);
      assert Group(init, a, h) + [] == Group(init, a, h);
    }
  }

  lemma {:induction false} NoItemsYet(items: seq<Evidence>, assignment: seq<nat>, index: nat)
    requires |items| == |assignment| && forall n :: 0 <= n < |items| ==> assignment[n] < index
    ensures Group(items, assignment, index) == []
  {
    if items != [] {
      NoItemsYet(items[..|items| - 1], assignment[..|items| - 1], index);
    }
  }

  // ----- identity keys -------------------------------------------------------------

  ghost predicate Recorded(env: Text, items: seq<Evidence>, assignment: seq<nat>, identities: map<Key, nat>, n: nat)
    requires |items| == |assignment| && n < |items|
  {
    forall k :: k in Keys(env, items[n]) ==> k in identities
  }

  /** The last of the items that carries the key. */
  ghost predicate LastHolder(env: Text, items: seq<Evidence>, k: Key, n: int)
  {
    0 <= n < |items| && k in Keys(env, items[n]) && forall m :: n < m < |items| ==> k !in Keys(env, items[m])
  }

  /** A key of the index points to the group of the last item that carries it. */
  ghost predicate Witnessed(env: Text, items: seq<Evidence>, assignment: seq<nat>, k: Key, index: nat)
    requires |items| == |assignment|
  {
    exists n :: LastHolder(env, items, k, n) && assignment[n] == index
  }

  ghost predicate IndexAgrees(env: Text, items: seq<Evidence>, assignment: seq<nat>, ids: map<Key, nat>)
    requires |items| == |assignment|
  {
    && (forall n :: 0 <= n < |items| ==> Recorded(env, items, assignment, ids, n))
    && (forall k :: k in ids ==> Witnessed(env, items, assignment, k, ids[k]))
  }

  lemma {:induction false} IndexAgreesAfter(
    env: Text, items: seq<Evidence>, a: seq<nat>, ids: map<Key, nat>, e: Evidence, t: nat)
    requires |items| == |a| && IndexAgrees(env, items, a, ids)
    ensures IndexAgrees(env, items + [e], a + [t], Repoint(ids, Keys(env, e), t))
  {
    RepointEffect(ids, Keys(env, e), t);
    var ids' := Repoint(ids, Keys(env, e), t);
    hide Keys, Repoint;
    forall n | 0 <= n < |items + [e]|
      ensures Recorded(env, items + [e], a + [t], ids', n)
    {
      if n < |items| {
        assert Recorded(env, items, a, ids, n);
      }
    }
    forall k | k in ids'
      ensures Witnessed(env, items + [e], a + [t], k, ids'[k])
    {
      if k in Keys(env, e) {
        assert (a + [t])[|items|] == t && LastHolder(env, items + [e], k, |items|);
      } else {
        assert Witnessed(env, items, a, k, ids[k]);
        var n :| LastHolder(env, items, k, n) && a[n] == ids[k];
        assert LastHolder(env, items + [e], k, n) && (a + [t])[n] == a[n];
      }
    }
  }

  lemma {:induction false} IdentitiesEffect(env: Text, items: seq<Evidence>)
    requires |Assignment(env, items)| == |items|
    ensures IndexAgrees(env, items, Assignment(env, items), Deduplicated(env, items).identities)
  {
    hide *;
    if items == [] {
      NothingIndexed(env);
    } else {
      var init, e := items[..|items| - 1], items[|items| - 1];
      AssignmentLength(env, init);
      IdentitiesEffect(env, init);
      OneMore(env, init, e);
      assert items == init + [e];
      var st := Deduplicated(env, init);
      StepIndex(env, st, e);
      IndexAgreesAfter(env, init, Assignment(env, init), st.identities, e, Target(env, st, e));
    }
  }

  lemma {:induction false} NothingIndexed(env: Text)
    ensures Assignment(env, []) == [] && IndexAgrees(env, [], [], Deduplicated(env, []).identities)
  {
  }

  lemma {:induction false} StepIndex(env: Text, st: State, e: Evidence)
    requires Valid(st)
    ensures Step(env, st, e).identities == Repoint(st.identities, Keys(env, e), Target(env, st, e))
  {
    hide Target, Keys;
  }

  /** A head passes for no earlier item. An absorbed item passes for an earlier item
      of its own group. */
  lemma {:induction false} HeadsAndLinks(env: Text, items: seq<Evidence>, n: nat)
    requires n < |items| && |Assignment(env, items)| == |items|
    ensures IsHead(Assignment(env, items), n) ==>
      forall m :: 0 <= m < n ==> !PassForSame(env, items[m], items[n])
    ensures !IsHead(Assignment(env, items), n) ==>
      exists m :: 0 <= m < n && Assignment(env, items)[m] == Assignment(env, items)[n]
                  && PassForSame(env, items[m], items[n])
  {
    KeysLink(env, items, n);
    hide Assignment, ShareKey, PassForSame;
    forall m | 0 <= m < n
      ensures ShareKey(env, items[m], items[n]) <==> PassForSame(env, items[m], items[n])
    {
      ShareKeyExactly(env, items[m], items[n]);
    }
  }

  lemma {:induction false} KeysLink(env: Text, items: seq<Evidence>, n: nat)
    requires n < |items| && |Assignment(env, items)| == |items|
    ensures IsHead(Assignment(env, items), n) ==>
      forall m :: 0 <= m < n ==> !ShareKey(env, items[m], items[n])
    ensures !IsHead(Assignment(env, items), n) ==>
      exists m :: 0 <= m < n && Assignment(env, items)[m] == Assignment(env, items)[n]
                  && ShareKey(env, items[m], items[n])
  {
    var init, e := items[..|items| - 1], items[|items| - 1];
    AssignmentLength(env, init);
    OneMore(env, init, e);
    assert items == init + [e];
    if n < |init| {
      KeysLink(env, init, n);
      PrefixHead(Assignment(env, init), Target(env, Deduplicated(env, init), e), n);
      hide Deduplicated, Target, Assignment, ShareKey;
      assert forall m :: 0 <= m <= n ==> items[m] == init[m];
      assert forall m :: 0 <= m <= n ==> Assignment(env, items)[m] == Assignment(env, init)[m];
    } else {
      LastHeadOrLink(env, init, e);
      hide Deduplicated, Target, Assignment, ShareKey;
      assert forall m :: 0 <= m < n ==> items[m] == init[m];
      assert forall m :: 0 <= m < n ==> Assignment(env, items)[m] == Assignment(env, init)[m];
    }
  }

  lemma {:induction false} PrefixHead(assignment: seq<nat>, t: nat, n: nat)
    requires n < |assignment|
    ensures IsHead(assignment + [t], n) <==> IsHead(assignment, n)
  {
    assert forall m :: 0 <= m <= n ==> (assignment + [t])[m] == assignment[m];
  }

  lemma {:induction false} LastHeadOrLink(env: Text, items: seq<Evidence>, e: Evidence)
    requires |Assignment(env, items)| == |items|
    ensures var st := Deduplicated(env, items);
            var t := Target(env, st, e);
            && (IsHead(Assignment(env, items) + [t], |items|) ==>
                  forall m :: 0 <= m < |items| ==> !ShareKey(env, items[m], e))
            && (!IsHead(Assignment(env, items) + [t], |items|) ==>
                  exists m :: 0 <= m < |items| && Assignment(env, items)[m] == t && ShareKey(env, items[m], e))
  {
    var (st, a) := (Deduplicated(env, items), Assignment(env, items));
    var t := Target(env, st, e);
    TargetInRange(env, st, e);
    RetainedIsMergedGroup(env, items);
    HeldIndices(env, items);
    IdentitiesEffect(env, items);
    hide *;
    if t == |st.retained| {
      NothingShared(env, items, a, st.identities, e);
    } else {
      var k :| k in Keys(env, e) && k in st.identities && st.identities[k] == t;
      SharedWithHolder(env, items, a, st.identities, e, k);
    }
    LastIsHead(a, t);
  }

  lemma {:induction false} LastIsHead(assignment: seq<nat>, t: nat)
    ensures IsHead(assignment + [t], |assignment|) <==> t !in assignment
  {
    var all := assignment + [t];
    assert all[|assignment|] == t && forall m :: 0 <= m < |assignment| ==> all[m] == assignment[m];
  }

  lemma {:induction false} NothingShared(
    env: Text, items: seq<Evidence>, a: seq<nat>, ids: map<Key, nat>, e: Evidence)
    requires |items| == |a| && IndexAgrees(env, items, a, ids) && forall k :: k in Keys(env, e) ==> k !in ids
    ensures forall m :: 0 <= m < |items| ==> !ShareKey(env, items[m], e)
  {
    hide Keys;
    forall m | 0 <= m < |items|
      ensures !ShareKey(env, items[m], e)
    {
      assert Recorded(env, items, a, ids, m);
    }
  }

  lemma {:induction false} SharedWithHolder(
    env: Text, items: seq<Evidence>, a: seq<nat>, ids: map<Key, nat>, e: Evidence, k: Key)
    requires |items| == |a| && IndexAgrees(env, items, a, ids) && k in Keys(env, e) && k in ids
    ensures exists m :: 0 <= m < |items| && a[m] == ids[k] && ShareKey(env, items[m], e)
    ensures ids[k] in a
  {
    hide Keys;
    assert Witnessed(env, items, a, k, ids[k]);
    var m :| LastHolder(env, items, k, m) && a[m] == ids[k];
    assert ShareKey(env, items[m], e) && a[m] in a;
  }

  /** A chain of items that pass for one another inside one group, from an item down to its head. */
  ghost predicate Chain(env: Text, items: seq<Evidence>, assignment: seq<nat>, path: seq<nat>)
    requires |items| == |assignment|
  {
    && path != [] && (forall i :: 0 <= i < |path| ==> path[i] < |items|)
    && (forall i :: 0 <= i < |path| - 1 ==>
          path[i + 1] < path[i] && assignment[path[i]] == assignment[path[i + 1]]
          && PassForSame(env, items[path[i + 1]], items[path[i]]))
    && IsHead(assignment, path[|path| - 1])
  }

  /** Every item is linked to the head of its group by such a chain. */
  lemma {:induction false} ChainToHead(env: Text, items: seq<Evidence>, n: nat) returns (path: seq<nat>)
    requires n < |items| && |Assignment(env, items)| == |items|
    ensures Chain(env, items, Assignment(env, items), path) && path[0] == n
  {
    var a := Assignment(env, items);
    HeadsAndLinks(env, items, n);
    hide Assignment, PassForSame, IsHead, Keys;
    if IsHead(a, n) {
      path := [n];
    } else {
      var m :| 0 <= m < n && a[m] == a[n] && PassForSame(env, items[m], items[n]);
      var rest := ChainToHead(env, items, m);
      path := [n] + rest;
    }
  }

  // ----- the choice of a group ----------------------------------------------------

  lemma {:induction false} AssignmentPrefix(env: Text, items: seq<Evidence>, n: nat)
    requires n <= |items| == |Assignment(env, items)|
    ensures Assignment(env, items[..n]) == Assignment(env, items)[..n]
  {
    if n < |items| {
      var init := items[..|items| - 1];
      AssignmentLength(env, init);
      AssignmentPrefix(env, init, n);
      assert init[..n] == items[..n];
    } else {
      assert items[..n] == items;
    }
  }

  /** The item before it carries, last, the key `k` of item `n`. */
  ghost predicate Offers(env: Text, items: seq<Evidence>, n: nat, k: Key, m: int)
    requires n < |items|
  {
    k in Keys(env, items[n]) && LastHolder(env, items[..n], k, m)
  }

  lemma {:induction false} LastHolderUnique(env: Text, items: seq<Evidence>, k: Key, m: int, n: int)
    requires LastHolder(env, items, k, m) && LastHolder(env, items, k, n)
    ensures m == n
  {
    hide Keys;
  }

  lemma {:induction false} IndexIsLastHolder(env: Text, items: seq<Evidence>, k: Key, m: int)
    requires |Assignment(env, items)| == |items| && LastHolder(env, items, k, m)
    ensures var ids := Deduplicated(env, items).identities; k in ids && ids[k] == Assignment(env, items)[m]
  {
    IdentitiesEffect(env, items);
    var a, ids := Assignment(env, items), Deduplicated(env, items).identities;
    hide Deduplicated, Assignment, Keys;
    assert Recorded(env, items, a, ids, m);
    assert Witnessed(env, items, a, k, ids[k]);
    var n :| LastHolder(env, items, k, n) && a[n] == ids[k];
    LastHolderUnique(env, items, k, m, n);
  }

  lemma {:induction false} TargetIsLeast(env: Text, st: State, e: Evidence, k: Key)
    requires k in Keys(env, e) && k in st.identities
    ensures Target(env, st, e) <= st.identities[k]
  {
    assert st.identities[k] in Matching(env, st, e);
    hide Keys;
  }

  /** The choice of a group for one more item. */
  lemma {:induction false} LeastOffer(env: Text, items: seq<Evidence>, e: Evidence)
    requires |Assignment(env, items)| == |items|
    ensures var (a, t) := (Assignment(env, items), Target(env, Deduplicated(env, items), e));
            && (forall k, m :: k in Keys(env, e) && LastHolder(env, items, k, m) ==> t <= a[m])
            && (t in a ==> exists k, m :: k in Keys(env, e) && LastHolder(env, items, k, m) && a[m] == t)
            && (t !in a ==> forall k, m :: k in Keys(env, e) ==> !LastHolder(env, items, k, m))
  {
    var (a, st) := (Assignment(env, items), Deduplicated(env, items));
    var t := Target(env, st, e);
    RetainedIsMergedGroup(env, items);
    HeldIndices(env, items);
    IdentitiesEffect(env, items);
    TargetInRange(env, st, e);
    hide Deduplicated, Target, Assignment, Keys, Held;
    forall k, m | k in Keys(env, e) && LastHolder(env, items, k, m)
      ensures t < |st.retained| && t <= a[m]
    {
      IndexIsLastHolder(env, items, k, m);
      TargetIsLeast(env, st, e, k);
    }
    if t < |st.retained| {
      var k :| k in Keys(env, e) && k in st.identities && st.identities[k] == t;
      assert Witnessed(env, items, a, k, t);
      var m :| LastHolder(env, items, k, m) && a[m] == t;
      assert a[m] in a;
    }
  }

  lemma {:induction false} HeldIndices(env: Text, items: seq<Evidence>)
    requires Held(env, items)
    ensures forall t :: t in Assignment(env, items) ==> t < |Deduplicated(env, items).retained|
  {
    hide Deduplicated, Assignment, Group, MergeAll;
  }

  /** An item starts a group exactly when nothing before it carries one of its keys.
      Otherwise it goes to the least of the groups that last took its keys. */
  lemma {:induction false} LeastGroupTakesItem(env: Text, items: seq<Evidence>, n: nat)
    requires n < |items| == |Assignment(env, items)|
    ensures IsHead(Assignment(env, items), n) <==> forall k, m :: !Offers(env, items, n, k, m)
    ensures forall k, m :: Offers(env, items, n, k, m) ==> Assignment(env, items)[n] <= Assignment(env, items)[m]
    ensures !IsHead(Assignment(env, items), n) ==>
      exists k, m :: Offers(env, items, n, k, m) && Assignment(env, items)[n] == Assignment(env, items)[m]
  {
    var a, before := Assignment(env, items), items[..n];
    TargetOf(env, items, n);
    LeastOffer(env, before, items[n]);
    hide Deduplicated, Target, Assignment, Keys, LastHolder;
    assert IsHead(a, n) <==> a[n] !in a[..n];
    OffersInRange(env, items, n);
    assert forall m :: 0 <= m < n ==> a[..n][m] == a[m];
    if a[n] in a[..n] {
      var k, m :| k in Keys(env, items[n]) && LastHolder(env, before, k, m) && a[..n][m] == a[n];
      assert Offers(env, items, n, k, m);
    }
  }

  lemma {:induction false} OffersInRange(env: Text, items: seq<Evidence>, n: nat)
    requires n < |items|
    ensures forall k, m :: Offers(env, items, n, k, m) ==> 0 <= m < n
  {
    hide Keys;
  }

  lemma {:induction false} TargetOf(env: Text, items: seq<Evidence>, n: nat)
    requires n < |items| == |Assignment(env, items)|
    ensures Assignment(env, items[..n]) == Assignment(env, items)[..n]
    ensures Assignment(env, items)[n] == Target(env, Deduplicated(env, items[..n]), items[n])
  {
    hide *;
    AssignmentPrefix(env, items, n);
    AssignmentPrefix(env, items, n + 1);
    assert items[..n + 1] == items[..n] + [items[n]];
    OneMore(env, items[..n], items[n]);
    assert Assignment(env, items)[n] == Assignment(env, items)[..n + 1][n];
  }

  /** Text without case folding or white space to squash. */
  const Plain := Text(s => s, s => s)

  /** The third item carries the address of the first and the digest of the second. */
  const Bridged := [
    Evidence("a", "p", "r", "u1", "h1", "x", "t1", [], []),
    Evidence("b", "p", "r", "u2", "h2", "x", "t2", [], []),
    Evidence("c", "p", "r", "u1", "h2", "x", "t3", [], [])]

  /** Sharing a key does not mean sharing a group: an item that bridges two groups
      joins the first, and the two stay apart. */
  lemma {:induction false} BridgedGroupsStayApart()
    ensures var a := Assignment(Plain, Bridged);
            && |a| == |Bridged| == 3 && a[0] == a[2] != a[1] && IsHead(a, 0) && IsHead(a, 1)
            && PassForSame(Plain, Bridged[1], Bridged[2])
  {
    var (a, url, hash) := (Assignment(Plain, Bridged), UrlKey("u1"), HashKey("h2"));
    AssignmentLength(Plain, Bridged);
    BridgedKeys();
    hide Assignment, Keys, Bridged, Plain;
    assert Offers(Plain, Bridged, 2, url, 0) && Offers(Plain, Bridged, 2, hash, 1);
    LeastGroupTakesItem(Plain, Bridged, 2);
    HeadsAndLinks(Plain, Bridged, 1);
    HeadsInInputOrder(Plain, Bridged, 0, 1);
  }

  lemma {:induction false} BridgedKeys()
    ensures var (url, hash) := (UrlKey("u1"), HashKey("h2"));
            && |Bridged| == 3
            && url in Keys(Plain, Bridged[0]) && url !in Keys(Plain, Bridged[1]) && url in Keys(Plain, Bridged[2])
            && hash in Keys(Plain, Bridged[1]) && hash in Keys(Plain, Bridged[2])
            && !PassForSame(Plain, Bridged[0], Bridged[1]) && PassForSame(Plain, Bridged[1], Bridged[2])
  {
    var (a, b, c) := (Bridged[0], Bridged[1], Bridged[2]);
    assert Keys(Plain, a) == [UrlKey("u1"), HashKey("h1"), HeadlineKey("x" + "|" + "t1")];
    assert Keys(Plain, b) == [UrlKey("u2"), HashKey("h2"), HeadlineKey("x" + "|" + "t2")];
    assert Keys(Plain, c) == [UrlKey("u1"), HashKey("h2"), HeadlineKey("x" + "|" + "t3")];
    assert "u1"[1] == '1' && "u2"[1] == '2' && "h1"[1] == '1' && "h2"[1] == '2';
    assert ("x" + "|" + "t1")[3] == '1' && ("x" + "|" + "t2")[3] == '2';
    assert UrlKey("u1") in Keys(Plain, a) && UrlKey("u1") in Keys(Plain, c);
    assert Keys(Plain, b)[1] == HashKey("h2") && Keys(Plain, c)[1] == HashKey("h2");
    hide Keys;
  }

  /** One headline of two publishers. */
  const TwoPublishers := [
    Evidence("a", "p", "r", "u1", "h1", "x", "t", [], []),
    Evidence("b", "p", "r", "u2", "h2", "y", "t", [], [])]

  /** A headline that two publishers share is no identity: both are retained. */
  lemma {:induction false} TwoPublishersStayApart()
    ensures var st := Deduplicated(Plain, TwoPublishers);
            |st.retained| == |TwoPublishers| == 2 && st.rejected == []
  {
    var a := Assignment(Plain, TwoPublishers);
    AssignmentLength(Plain, TwoPublishers);
    assert !PassForSame(Plain, TwoPublishers[0], TwoPublishers[1]) by {
      assert ("x" + "|" + "t")[0] == 'x' && ("y" + "|" + "t")[0] == 'y';
      assert "u1"[1] == '1' && "u2"[1] == '2' && "h1"[1] == '1' && "h2"[1] == '2';
    }
    RetainedIsMergedGroup(Plain, TwoPublishers);
    HeadsAndLinks(Plain, TwoPublishers, 1);
    hide PassForSame, Assignment, Deduplicated;
    assert IsHead(a, 0) && IsHead(a, 1);
    AllHeads(TwoPublishers, a);
  }

  lemma {:induction false} AllHeads(items: seq<Evidence>, assignment: seq<nat>)
    requires |items| == |assignment| && forall n :: 0 <= n < |items| ==> IsHead(assignment, n)
    ensures Absorbed(items, assignment) == []
  {
    if items != [] {
      var n := |items| - 1;
      forall k | 0 <= k < n
        ensures IsHead(assignment[..n], k)
      {
        PrefixHead(assignment[..n], assignment[n], k);
        assert assignment[..n] + [assignment[n]] == assignment;
      }
      AllHeads(items[..n], assignment[..n]);
    }
  }

  // ----- what a retained item holds -------------------------------------------------

  function SourceList(es: seq<Evidence>): seq<string>
  {
    if es == [] then [] else SourceList(es[..|es| - 1]) + es[|es| - 1].sources
  }

  /** The head of its group, with the sources of the whole group one after another
      and the identifiers of those it absorbed. */
  ghost predicate HoldsGroup(e: Evidence, group: seq<Evidence>)
    requires group != []
  {
    var head := group[0];
    && e.id == head.id && e.provider == head.provider && e.entry == head.entry && e.url == head.url
    && e.hash == head.hash && e.publisher == head.publisher && e.title == head.title
    && e.sources == SourceList(group)
    && |e.duplicateIds| == |head.duplicateIds| + |group| - 1
    && e.duplicateIds[..|head.duplicateIds|] == head.duplicateIds
    && forall i :: 1 <= i < |group| ==> e.duplicateIds[|head.duplicateIds| + i - 1] == group[i].id
  }

  lemma {:induction false} MergedHoldsGroup(group: seq<Evidence>)
    requires group != []
    ensures HoldsGroup(MergeAll(group), group)
  {
    var init := group[..|group| - 1];
    if init == [] {
      assert SourceList(init) == [] && [] + group[0].sources == group[0].sources;
    } else {
      MergedHoldsGroup(init);
    }
  }

  /** Every retained item holds the group that was assigned to it. */
  lemma {:induction false} RetainedHoldsGroup(env: Text, items: seq<Evidence>, h: nat)
    requires h < |Deduplicated(env, items).retained| && |Assignment(env, items)| == |items|
    ensures Group(items, Assignment(env, items), h) != []
    ensures HoldsGroup(Deduplicated(env, items).retained[h], Group(items, Assignment(env, items), h))
  {
    RetainedIsMergedGroup(env, items);
    hide Deduplicated, Assignment, Group, HoldsGroup, MergeAll;
    MergedHoldsGroup(Group(items, Assignment(env, items), h));
  }

  // ----- sources -------------------------------------------------------------------

  function SourcesIn(e: Evidence): multiset<string>
  {
    multiset(e.sources)
  }

  function AllSources(es: seq<Evidence>): multiset<string>
  {
    if es == [] then multiset{} else AllSources(es[..|es| - 1]) + SourcesIn(es[|es| - 1])
  }

  lemma {:induction false} SourcesOfUpdate(es: seq<Evidence>, i: nat, e: Evidence)
    requires i < |es| && SourcesIn(es[i]) <= SourcesIn(e)
    ensures AllSources(es[i := e]) == AllSources(es) + (SourcesIn(e) - SourcesIn(es[i]))
  {
    if i == |es| - 1 {
      assert es[i := e][..|es| - 1] == es[..|es| - 1];
    } else {
      SourcesOfUpdate(es[..|es| - 1], i, e);
      assert es[i := e][..|es| - 1] == es[..|es| - 1][i := e];
    }
  }

  lemma {:induction false} SourcesOfMerge(es: seq<Evidence>, i: nat, e: Evidence)
    requires i < |es|
    ensures AllSources(es[i := Merge(es[i], e)]) == AllSources(es) + SourcesIn(e)
  {
    assert multiset(es[i].sources + e.sources) == multiset(es[i].sources) + multiset(e.sources);
    SourcesOfUpdate(es, i, Merge(es[i], e));
    hide AllSources;
  }

  lemma {:induction false} SourcesOfAppend(es: seq<Evidence>, e: Evidence)
    ensures AllSources(es + [e]) == AllSources(es) + SourcesIn(e)
  {
    assert (es + [e])[..|es|] == es;
  }

  /** The multiset of sources is preserved: nothing is lost or invented. */
  lemma {:induction false} SourcesConserved(env: Text, items: seq<Evidence>)
    ensures AllSources(Deduplicated(env, items).retained) == AllSources(items)
  {
    if items != [] {
      var init, e := items[..|items| - 1], items[|items| - 1];
      SourcesConserved(env, init);
      OneMore(env, init, e);
      assert items == init + [e];
      var st := Deduplicated(env, init);
      var t := Target(env, st, e);
      SourcesOfAppend(init, e);
      hide Target, Deduplicated, AllSources, Step;
      if t == |st.retained| {
        SourcesOfAppend(st.retained, e);
      } else {
        SourcesOfMerge(st.retained, t, e);
      }
    }
  }

  /** Heads keep the input order: retained indices are numbered by first use. */
  lemma {:induction false} HeadsInInputOrder(env: Text, items: seq<Evidence>, m: nat, n: nat)
    requires m < n < |items| && |Assignment(env, items)| == |items|
    requires IsHead(Assignment(env, items), m) && IsHead(Assignment(env, items), n)
    ensures Assignment(env, items)[m] < Assignment(env, items)[n]
  {
    var init, e := items[..|items| - 1], items[|items| - 1];
    AssignmentLength(env, init);
    OneMore(env, init, e);
    assert items == init + [e];
    var st := Deduplicated(env, init);
    var a, t := Assignment(env, init), Target(env, st, e);
    PrefixHead(a, t, m);
    if n < |init| {
      PrefixHead(a, t, n);
      HeadsInInputOrder(env, init, m, n);
    } else {
      RetainedIsMergedGroup(env, init);
      TakenIndex(env, init, t);
      hide Target, Deduplicated, Assignment, Keys;
      assert forall i :: 0 <= i < |init| ==> (a + [t])[i] == a[i];
    }
  }

  lemma {:induction false} SomeMember(items: seq<Evidence>, assignment: seq<nat>, index: nat)
    requires |items| == |assignment| && Group(items, assignment, index) != []
    ensures exists n :: 0 <= n < |items| && assignment[n] == index
  {
    if assignment[|items| - 1] != index {
      SomeMember(items[..|items| - 1], assignment[..|items| - 1], index);
      var n :| 0 <= n < |items| - 1 && assignment[..|items| - 1][n] == index;
      assert assignment[n] == index;
    }
  }

  lemma {:induction false} TakenIndex(env: Text, items: seq<Evidence>, h: nat)
    requires |Assignment(env, items)| == |items|
    ensures h < |Deduplicated(env, items).retained| ==>
      exists n :: 0 <= n < |items| && Assignment(env, items)[n] == h
  {
    if h < |Deduplicated(env, items).retained| {
      RetainedIsMergedGroup(env, items);
      SomeMember(items, Assignment(env, items), h);
    }
  }
}
