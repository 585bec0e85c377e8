/** What the counts, the terminal state and the sources of a live result say
    (apps/api/backend/ask/live_intelligence.py). */
module LiveAccounting {
  import opened Foundations
  import opened LiveContracts
  import opened LiveConnector
  import opened LiveDeduplication
  import opened LiveIntelligence

  predicate Executes(request: Request)
  {
    ValidRequest(request) && !RateLimited(request)
  }

  /** The three lists of a result. */
  lemma {:induction false} ResultShape(world: World, request: Request, connectors: map<string, Connector>)
    requires Executes(request)
    ensures var r := Execution(world, request, connectors);
            var shares := Shares(world, request, connectors);
            && r == Conclude(r.evidence, r.rejected, r.outcomes)
            && r.evidence == Deduplicated(world.text, Admitted(shares)).retained
            && r.rejected == Rejections(shares) + Deduplicated(world.text, Admitted(shares)).rejected
            && r.outcomes == Outcomes(shares)
  {
    hide Shares, Outcomes, Admitted, Rejections, Deduplicated, Degraded, AllIn, SomeIn;
  }

  // ----- counting -------------------------------------------------------------------------

  function Count<T>(s: seq<T>, p: T -> bool): nat
  {
    if s == [] then 0 else Count(s[..|s| - 1], p) + if p(s[|s| - 1]) then 1 else 0
  }

  function SumAdmitted(outcomes: seq<Outcome>): nat
  {
    if outcomes == [] then 0 else SumAdmitted(outcomes[..|outcomes| - 1]) + outcomes[|outcomes| - 1].admitted
  }

  function SumRejected(outcomes: seq<Outcome>): nat
  {
    if outcomes == [] then 0 else SumRejected(outcomes[..|outcomes| - 1]) + outcomes[|outcomes| - 1].rejected
  }

  const IsDuplicate: Rejected -> bool := (r: Rejected) => r.reason == Duplicate
  const IsAnonymous: Rejected -> bool := (r: Rejected) => r.id == None
  /** Stopped by screening with a recorded rejection: every screening failure
      but a disabled provider. */
  const IsScreenedOut: Outcome -> bool := (o: Outcome) => o.attempts == 0 && o.code != Some("LIVE_PROVIDER_DISABLED")

  lemma {:induction false} CountAppend<T>(a: seq<T>, b: seq<T>, p: T -> bool)
    ensures Count(a + b, p) == Count(a, p) + Count(b, p)
  {
    if b == [] {
      assert a + b == a;
    } else {
      CountAppend(a, b[..|b| - 1], p);
      assert (a + b)[..|a + b| - 1] == a + b[..|b| - 1];
    }
  }

  lemma {:induction false} CountBounds<T>(s: seq<T>, p: T -> bool)
    ensures Count(s, p) <= |s|
    ensures (forall x :: x in s ==> p(x)) ==> Count(s, p) == |s|
    ensures (forall x :: x in s ==> !p(x)) ==> Count(s, p) == 0
  {
    if s != [] {
      CountBounds(s[..|s| - 1], p);
    }
  }

  // ----- one share --------------------------------------------------------------------------

  ghost predicate Accounted(share: Share)
  {
    var o := share.outcome;
    && o.attempts <= Attempts
    && o.admitted == |share.admitted|
    && (o.state == Satisfied <==> o.admitted > 0)
    && (o.state == Satisfied || o.state == NoMatch <==> o.code == None)
    && Count(share.rejected, IsDuplicate) == 0
    && Count(share.rejected, IsAnonymous) == (if IsScreenedOut(o) then 1 else 0)
    && |share.rejected| == Count(share.rejected, IsAnonymous) + o.rejected
    && (forall e :: e in share.admitted ==> e.provider == o.provider)
  }

  lemma {:induction false} BlockedAccounted(request: Request, connectors: map<string, Connector>, id: string)
    requires ApprovalOf(request.approvals, id).Some?
    ensures var s := Screen(request, connectors, id);
            s.Blocked? ==> Accounted(BlockedShare(id, s.code, s.reason))
  {
    var s := Screen(request, connectors, id);
    if s.Blocked? {
      var share := BlockedShare(id, s.code, s.reason);
      assert |share.rejected| == 1 ==> share.rejected[..0] == [];
      assert "LIVE_PROVIDER_DISABLED"[5] == 'P';
      assert "LIVE_ENTITLEMENT_INACTIVE"[5] == 'E';
      assert "LIVE_CONNECTOR_SECURITY_INVALID"[5] == 'C';
      assert "LIVE_PROVIDER_IDENTITY_INVALID"[14] == 'I';
      assert "LIVE_PROVIDER_DISABLED"[14] == 'D';
    }
  }

  lemma {:induction false} ItemsSplit(world: World, request: Request, approval: Approval, items: seq<Item>)
    ensures forall e :: e in AdmittedItems(world, request, approval, items) ==> e.provider == approval.provider
    ensures forall r :: r in RejectedItems(world, request, approval, items) ==>
      r.provider == approval.provider && r.id.Some? && r.reason != Duplicate
    ensures |AdmittedItems(world, request, approval, items)|
            + |RejectedItems(world, request, approval, items)| == |items|
  {
    if items != [] {
      ItemsSplit(world, request, approval, items[..|items| - 1]);
      NeverDuplicate(world, request, approval, items[|items| - 1]);
      hide AdmissionFailure;
    }
  }

  lemma {:induction false} NeverDuplicate(world: World, request: Request, approval: Approval, item: Item)
    ensures AdmissionFailure(world, request, approval, item) != Some(Duplicate)
  {
    hide InsideWindow, EntryOf;
  }

  lemma {:induction false} RunAccounted(world: World, request: Request, approval: Approval, run: Run)
    requires ValidPayload(run.payload) && 1 <= run.attempts <= Attempts
    ensures Accounted(ShareOfRun(world, request, approval, run))
  {
    var share := ShareOfRun(world, request, approval, run);
    ItemsSplit(world, request, approval, run.payload.items);
    hide AdmittedItems, RejectedItems;
    CountBounds(share.rejected, IsDuplicate);
    CountBounds(share.rejected, IsAnonymous);
  }

  // ----- all shares ---------------------------------------------------------------------------

  ghost predicate ContractReplies(connectors: map<string, Connector>)
  {
    forall id :: id in connectors ==> forall i :: Parses(connectors[id].replies(i))
  }

  ghost predicate AllAccounted(shares: seq<Share>)
  {
    forall s :: s in shares ==> Accounted(s)
  }

  lemma {:induction false} BlockedSharesAccounted(
    request: Request, connectors: map<string, Connector>, ids: seq<string>)
    requires AllApproved(request, ids)
    ensures AllAccounted(BlockedShares(request, connectors, ids))
  {
    if ids != [] {
      BlockedSharesAccounted(request, connectors, ids[..|ids| - 1]);
      BlockedAccounted(request, connectors, ids[|ids| - 1]);
      hide Screen, Accounted, BlockedShare;
    }
  }

  lemma {:induction false} RunSharesAccounted(world: World, request: Request, ready: seq<(Approval, Connector)>)
    requires forall p :: p in ready ==> forall i :: Parses(p.1.replies(i))
    ensures AllAccounted(RunShares(world, request, ready))
  {
    if ready != [] {
      RunSharesAccounted(world, request, ready[..|ready| - 1]);
      var (approval, connector) := ready[|ready| - 1];
      assert (approval, connector) in ready;
      var run := RunOf(approval.provider, connector.replies);
      RunPayloadIsValid(approval.provider, connector.replies);
      RunStopsExactly(approval.provider, connector.replies, run);
      RunAccounted(world, request, approval, run);
      hide Accounted, RunOf, ShareOfRun, Parses;
    }
  }

  lemma {:induction false} ReadyConnectors(request: Request, connectors: map<string, Connector>, ids: seq<string>)
    requires AllApproved(request, ids)
    ensures forall p :: p in ReadyOnes(request, connectors, ids) ==>
      p.0.provider in ids && Screen(request, connectors, p.0.provider) == Ready(p.0, p.1)
    ensures forall id :: id in ids && Screen(request, connectors, id).Ready? ==>
      (Screen(request, connectors, id).approval, Screen(request, connectors, id).connector)
      in ReadyOnes(request, connectors, ids)
  {
    if ids != [] {
      ReadyConnectors(request, connectors, ids[..|ids| - 1]);
      ScreenNames(request, connectors, ids[|ids| - 1]);
      hide Screen;
    }
  }

  lemma {:induction false} ScreenNames(request: Request, connectors: map<string, Connector>, id: string)
    requires ApprovalOf(request.approvals, id).Some?
    ensures var s := Screen(request, connectors, id);
            s.Ready? ==> s.approval.provider == id && s.approval.enabled && s.approval.entitled
                         && id in connectors && s.connector == connectors[id]
  {
  }

  lemma {:induction false} SharesAccounted(world: World, request: Request, connectors: map<string, Connector>)
    requires ValidRequest(request) && ContractReplies(connectors)
    ensures AllAccounted(Shares(world, request, connectors))
  {
    var ids := request.selected;
    BlockedSharesAccounted(request, connectors, ids);
    ReadyConnectors(request, connectors, ids);
    var ready := ReadyOnes(request, connectors, ids);
    forall p | p in ready
      ensures forall i :: Parses(p.1.replies(i))
    {
      ScreenNames(request, connectors, p.0.provider);
    }
    RunSharesAccounted(world, request, ready);
    hide Accounted;
  }

  lemma {:induction false} Totals(shares: seq<Share>)
    requires AllAccounted(shares)
    ensures |Outcomes(shares)| == |shares|
    ensures SumAdmitted(Outcomes(shares)) == |Admitted(shares)|
    ensures Count(Rejections(shares), IsDuplicate) == 0
    ensures Count(Rejections(shares), IsAnonymous) == Count(Outcomes(shares), IsScreenedOut)
    ensures |Rejections(shares)| == Count(Outcomes(shares), IsScreenedOut) + SumRejected(Outcomes(shares))
  {
    if shares != [] {
      var init, last := shares[..|shares| - 1], shares[|shares| - 1];
      Totals(init);
      assert Accounted(last);
      CountAppend(Rejections(init), last.rejected, IsDuplicate);
      CountAppend(Rejections(init), last.rejected, IsAnonymous);
    }
  }

  lemma {:induction false} DuplicatesAreNamed(text: LiveDeduplication.Text, items: seq<Evidence>)
    ensures forall r :: r in Deduplicated(text, items).rejected ==> r.reason == Duplicate && r.id.Some?
  {
    if items != [] {
      var init, e := items[..|items| - 1], items[|items| - 1];
      DuplicatesAreNamed(text, init);
      OneMore(text, init, e);
      assert items == init + [e];
      hide Deduplicated, Target, Step;
    }
  }

  /** The counts of a result agree with its lists: admitted counts sum to the
      evidence plus the duplicate rejections, and the rejections are the
      screening ones, the per-provider ones and the duplicates. */
  lemma {:induction false} CountsBalance(world: World, request: Request, connectors: map<string, Connector>)
    requires Executes(request) && ContractReplies(connectors)
    ensures var r := Execution(world, request, connectors);
            var duplicates := Count(r.rejected, IsDuplicate);
            && SumAdmitted(r.outcomes) == |r.evidence| + duplicates
            && |r.rejected| == Count(r.outcomes, IsScreenedOut) + SumRejected(r.outcomes) + duplicates
            && Count(r.rejected, IsAnonymous) == Count(r.outcomes, IsScreenedOut)
  {
    ResultShape(world, request, connectors);
    hide *;
    hide Execution;
    var shares := Shares(world, request, connectors);
    SharesAccounted(world, request, connectors);
    Totals(shares);
    var items := Admitted(shares);
    var d := Deduplicated(world.text, items);
    RetainedIsMergedGroup(world.text, items);
    DuplicatesAreNamed(world.text, items);
    DuplicateCounts(d.rejected);
    CountAppend(Rejections(shares), d.rejected, IsDuplicate);
    CountAppend(Rejections(shares), d.rejected, IsAnonymous);
  }

  lemma {:induction false} DuplicateCounts(rejected: seq<Rejected>)
    requires forall r :: r in rejected ==> r.reason == Duplicate && r.id.Some?
    ensures Count(rejected, IsDuplicate) == |rejected| && Count(rejected, IsAnonymous) == 0
  {
    CountBounds(rejected, IsDuplicate);
    CountBounds(rejected, IsAnonymous);
  }

  // ----- one outcome each ------------------------------------------------------------------------

  function Providers(outcomes: seq<Outcome>): seq<string>
  {
    if outcomes == [] then []
    else Providers(outcomes[..|outcomes| - 1]) + [outcomes[|outcomes| - 1].provider]
  }

  lemma {:induction false} ProvidersAppend(a: seq<Outcome>, b: seq<Outcome>)
    ensures Providers(a + b) == Providers(a) + Providers(b)
  {
    if b == [] {
      assert a + b == a;
    } else {
      ProvidersAppend(a, b[..|b| - 1]);
      assert (a + b)[..|a + b| - 1] == a + b[..|b| - 1];
    }
  }

  function Reported(shares: seq<Share>): multiset<string>
  {
    multiset(Providers(Outcomes(shares)))
  }

  lemma {:induction false} ReportedOneMore(shares: seq<Share>, share: Share)
    ensures Reported(shares + [share]) == Reported(shares) + multiset{share.outcome.provider}
  {
    assert (shares + [share])[..|shares|] == shares;
    var o := Outcomes(shares);
    assert (o + [share.outcome])[..|o|] == o;
    assert Providers(o + [share.outcome]) == Providers(o) + [share.outcome.provider];
  }

  /** The providers reported for the ids screened out and for those that ran. */
  function AllReported(
    world: World, request: Request, connectors: map<string, Connector>, ids: seq<string>): multiset<string>
    requires AllApproved(request, ids)
  {
    Reported(BlockedShares(request, connectors, ids))
    + Reported(RunShares(world, request, ReadyOnes(request, connectors, ids)))
  }

  lemma {:induction false} OneMoreReported(
    world: World, request: Request, connectors: map<string, Connector>, ids: seq<string>, id: string)
    requires AllApproved(request, ids) && AllApproved(request, ids + [id])
    ensures AllReported(world, request, connectors, ids + [id])
         == AllReported(world, request, connectors, ids) + multiset{id}
  {
    hide Reported, Screen, RunOf, Outcomes, Providers;
    ScreenNames(request, connectors, id);
    var s := Screen(request, connectors, id);
    var ready := ReadyOnes(request, connectors, ids);
    assert (ids + [id])[..|ids|] == ids;
    if s.Blocked? {
      ReportedOneMore(BlockedShares(request, connectors, ids), BlockedShare(id, s.code, s.reason));
    } else {
      var share := ShareOfRun(world, request, s.approval, RunOf(s.approval.provider, s.connector.replies));
      assert (ready + [(s.approval, s.connector)])[..|ready|] == ready;
      ReportedOneMore(RunShares(world, request, ready), share);
    }
  }

  lemma {:induction false} NoneReported()
    ensures Reported([]) == multiset{}
  {
  }

  lemma {:induction false} ScreeningPartitions(
    world: World, request: Request, connectors: map<string, Connector>, ids: seq<string>)
    requires AllApproved(request, ids)
    ensures AllReported(world, request, connectors, ids) == multiset(ids)
  {
    hide Reported, Screen, ApprovalOf;
    if ids == [] {
      NoneReported();
    } else {
      var init, id := ids[..|ids| - 1], ids[|ids| - 1];
      ScreeningPartitions(world, request, connectors, init);
      assert ids == init + [id];
      OneMoreReported(world, request, connectors, init, id);
      hide AllReported;
    }
  }

  lemma {:induction false} OccursOnce(ids: seq<string>, id: string)
    requires Distinct(ids) && id in ids
    ensures multiset(ids)[id] == 1
  {
    var init, last := ids[..|ids| - 1], ids[|ids| - 1];
    assert ids == init + [last];
    if id in init {
      OccursOnce(init, id);
    }
  }

  /** Past the request and rate checks, each selected provider has exactly one
      outcome and nobody else has any. */
  lemma {:induction false} EveryProviderReportedOnce(world: World, request: Request, connectors: map<string, Connector>)
    requires Executes(request)
    ensures var reported := Providers(Execution(world, request, connectors).outcomes);
            && multiset(reported) == multiset(request.selected)
            && forall id :: id in request.selected ==> multiset(reported)[id] == 1
  {
    ResultShape(world, request, connectors);
    ReportedIsSelected(world, request, connectors);
    hide *;
    forall id | id in request.selected
      ensures multiset(request.selected)[id] == 1
    {
      SelectedOnce(request, id);
    }
  }

  lemma {:induction false} SelectedOnce(request: Request, id: string)
    requires ValidRequest(request) && id in request.selected
    ensures multiset(request.selected)[id] == 1
  {
    OccursOnce(request.selected, id);
  }

  lemma {:induction false} ReportedIsSelected(world: World, request: Request, connectors: map<string, Connector>)
    requires ValidRequest(request)
    ensures multiset(Providers(Outcomes(Shares(world, request, connectors)))) == multiset(request.selected)
  {
    var ids := request.selected;
    assert AllApproved(request, ids);
    ScreeningPartitions(world, request, connectors, ids);
    hide BlockedShares, RunShares, ReadyOnes, Outcomes, Providers, ValidRequest;
    var blocked := BlockedShares(request, connectors, ids);
    var ran := RunShares(world, request, ReadyOnes(request, connectors, ids));
    AppendOutcomes(blocked, ran);
    ProvidersAppend(Outcomes(blocked), Outcomes(ran));
  }

  // ----- terminal states ---------------------------------------------------------------------------

  lemma {:induction false} OutcomeOfShare(shares: seq<Share>)
    ensures |Outcomes(shares)| == |shares|
    ensures forall i :: 0 <= i < |shares| ==> Outcomes(shares)[i] == shares[i].outcome
  {
    if shares != [] {
      var init := shares[..|shares| - 1];
      OutcomeOfShare(init);
      assert forall i :: 0 <= i < |init| ==> init[i] == shares[i];
    }
  }

  ghost predicate SomeAdmitted(shares: seq<Share>)
  {
    exists i :: 0 <= i < |shares| && shares[i].admitted != []
  }

  lemma {:induction false} AdmittedBySome(shares: seq<Share>)
    ensures Admitted(shares) != [] <==> SomeAdmitted(shares)
  {
    if shares != [] {
      var init := shares[..|shares| - 1];
      AdmittedBySome(init);
      hide Admitted;
      assert Admitted(shares) == Admitted(init) + shares[|shares| - 1].admitted by { AdmittedLast(shares); }
      if SomeAdmitted(init) {
        var i :| 0 <= i < |init| && init[i].admitted != [];
        assert shares[i].admitted != [];
      }
      if SomeAdmitted(shares) && shares[|shares| - 1].admitted == [] {
        var i :| 0 <= i < |shares| && shares[i].admitted != [];
        assert init[i].admitted != [];
      }
    }
  }

  lemma {:induction false} AdmittedLast(shares: seq<Share>)
    requires shares != []
    ensures Admitted(shares) == Admitted(shares[..|shares| - 1]) + shares[|shares| - 1].admitted
  {
  }

  lemma {:induction false} SomeOutcome(world: World, request: Request, connectors: map<string, Connector>)
    requires Executes(request)
    ensures Execution(world, request, connectors).outcomes != []
  {
    EveryProviderReportedOnce(world, request, connectors);
    var r := Execution(world, request, connectors);
    assert request.selected[0] in request.selected;
    hide Execution;
    assert r.outcomes == [] ==> multiset(Providers(r.outcomes)) == multiset{};
  }

  lemma {:induction false} EvidenceExactlyWhenSatisfied(
    world: World, request: Request, connectors: map<string, Connector>)
    requires Executes(request) && ContractReplies(connectors)
    ensures var r := Execution(world, request, connectors);
            && (r.evidence != [] <==> SomeIn(r.outcomes, Satisfied))
            && r == Conclude(r.evidence, r.rejected, r.outcomes)
  {
    ResultShape(world, request, connectors);
    hide *;
    hide Execution;
    var shares := Shares(world, request, connectors);
    SharesAccounted(world, request, connectors);
    SatisfiedIffAdmitted(shares);
    RetainedIsMergedGroup(world.text, Admitted(shares));
  }

  lemma {:induction false} SatisfiedIffAdmitted(shares: seq<Share>)
    requires AllAccounted(shares)
    ensures SomeIn(Outcomes(shares), Satisfied) <==> Admitted(shares) != []
  {
    OutcomeOfShare(shares);
    AdmittedBySome(shares);
    hide Outcomes, Admitted;
    forall i | 0 <= i < |shares|
      ensures shares[i].outcome.state == Satisfied <==> shares[i].admitted != []
    {
      assert Accounted(shares[i]);
    }
  }

  /** The terminal state, read off the provider outcomes alone. */
  lemma {:induction false} TerminalStateExactly(world: World, request: Request, connectors: map<string, Connector>)
    requires Executes(request) && ContractReplies(connectors)
    ensures var r := Execution(world, request, connectors);
            && (r.state == ResultNoMatch <==> AllIn(r.outcomes, NoMatch))
            && (r.state == ResultTimedOut <==> AllIn(r.outcomes, TimedOut))
            && (r.state == ResultSatisfied <==> SomeIn(r.outcomes, Satisfied) && !Degraded(r.outcomes))
            && (r.state == ResultPartial <==> SomeIn(r.outcomes, Satisfied) && Degraded(r.outcomes))
            && (r.state == ResultInvalid <==> !SomeIn(r.outcomes, Satisfied) && SomeIn(r.outcomes, InvalidOutput))
            && (r.evidence != [] <==> r.state == ResultSatisfied || r.state == ResultPartial)
  {
    SomeOutcome(world, request, connectors);
    EvidenceExactlyWhenSatisfied(world, request, connectors);
    var r := Execution(world, request, connectors);
    hide Execution, Degraded;
    assert AllIn(r.outcomes, NoMatch) || AllIn(r.outcomes, TimedOut) ==>
        !SomeIn(r.outcomes, Satisfied) && !SomeIn(r.outcomes, InvalidOutput);
    assert AllIn(r.outcomes, NoMatch) ==> r.outcomes[0].state == NoMatch;
  }

  /** The result contract never rejects what an execution builds. */
  lemma {:induction false} ResultAlwaysValid(world: World, request: Request, connectors: map<string, Connector>)
    ensures ValidResult(Execution(world, request, connectors))
  {
    hide Shares, Outcomes, Admitted, Rejections, Deduplicated, Degraded;
  }

  // ----- where evidence comes from -------------------------------------------------------------------

  lemma {:induction false} AdmittedExactlyWhenAdmissible(world: World, request: Request, approval: Approval, item: Item)
    requires ValidRequest(request)
    ensures AdmissionFailure(world, request, approval, item) == None <==> Admissible(world, request, approval, item)
  {
    EntryIsUnique(request.entries, item.entry);
    hide InsideWindow, EntryOf;
  }

  lemma {:induction false} EntryIsUnique(entries: seq<RegistryEntry>, id: string)
    requires Distinct(seq(|entries|, i requires 0 <= i < |entries| => entries[i].id))
    ensures forall e :: e in entries && e.id == id ==> EntryOf(entries, id) == Some(e)
  {
    var ids := seq(|entries|, i requires 0 <= i < |entries| => entries[i].id);
    forall e | e in entries && e.id == id
      ensures EntryOf(entries, id) == Some(e)
    {
      var found := EntryOf(entries, id);
      var i :| 0 <= i < |entries| && entries[i] == e;
      var j :| 0 <= j < |entries| && entries[j] == found.value;
      assert ids[i] == ids[j];
    }
  }

  /** An item that a ready provider's final payload carries. */
  ghost predicate Delivered(request: Request, connectors: map<string, Connector>, id: string, item: Item)
    requires ValidRequest(request)
  {
    id in request.selected &&
    var s := Screen(request, connectors, id);
    s.Ready? &&
    var p := RunOf(id, s.connector.replies).payload;
    p.state == Satisfied && item in p.items
  }

  ghost predicate Backed(world: World, request: Request, connectors: map<string, Connector>, source: string)
    requires ValidRequest(request)
  {
    exists id, item :: Delivered(request, connectors, id, item) && item.id == source
      && Admissible(world, request, ApprovalOf(request.approvals, id).value, item)
  }

  ghost predicate SomeAdmissible(world: World, request: Request, approval: Approval, items: seq<Item>, source: string)
  {
    exists item :: item in items && item.id == source && Admissible(world, request, approval, item)
  }

  lemma {:induction false} SomeAdmissibleOneMore(
    world: World, request: Request, approval: Approval, init: seq<Item>, item: Item, source: string)
    ensures SomeAdmissible(world, request, approval, init + [item], source)
            <==> SomeAdmissible(world, request, approval, init, source)
                 || (item.id == source && Admissible(world, request, approval, item))
  {
    hide Admissible;
    assert item in init + [item];
    assert forall i :: i in init ==> i in init + [item];
  }

  lemma {:induction false} AdmittedItemsExactly(
    world: World, request: Request, approval: Approval, items: seq<Item>, source: string)
    requires ValidRequest(request)
    ensures source in AllSources(AdmittedItems(world, request, approval, items))
            <==> SomeAdmissible(world, request, approval, items, source)
  {
    hide AdmissionFailure, Admissible, AllSources, ValidRequest;
    if items == [] {
      NoSources();
    } else {
      var init, item := items[..|items| - 1], items[|items| - 1];
      AdmittedItemsExactly(world, request, approval, init, source);
      hide SomeAdmissible;
      AdmittedExactlyWhenAdmissible(world, request, approval, item);
      SourcesOfAppend(AdmittedItems(world, request, approval, init), Admit(approval, item));
      assert items == init + [item];
      SomeAdmissibleOneMore(world, request, approval, init, item, source);
    }
  }

  lemma {:induction false} SourcesOfConcat(a: seq<Evidence>, b: seq<Evidence>)
    ensures AllSources(a + b) == AllSources(a) + AllSources(b)
  {
    hide *;
    if b == [] {
      NoSources();
      assert a + b == a;
    } else {
      var init, last := b[..|b| - 1], b[|b| - 1];
      SourcesOfConcat(a, init);
      SourcesOfAppend(a + init, last);
      SourcesOfAppend(init, last);
      assert b == init + [last] && a + b == (a + init) + [last];
    }
  }

  ghost predicate RunBacked(world: World, request: Request, ready: (Approval, Connector), source: string)
  {
    var p := RunOf(ready.0.provider, ready.1.replies).payload;
    p.state == Satisfied &&
    exists item :: item in p.items && item.id == source && Admissible(world, request, ready.0, item)
  }

  ghost predicate SomeBacked(world: World, request: Request, ready: seq<(Approval, Connector)>, source: string)
  {
    exists p :: p in ready && RunBacked(world, request, p, source)
  }

  lemma {:induction false} SomeBackedOneMore(
    world: World, request: Request, init: seq<(Approval, Connector)>, last: (Approval, Connector), source: string)
    ensures SomeBacked(world, request, init + [last], source)
            <==> SomeBacked(world, request, init, source) || RunBacked(world, request, last, source)
  {
    hide RunBacked;
    assert last in init + [last];
    assert forall p :: p in init ==> p in init + [last];
  }

  lemma {:induction false} RunSourcesExactly(
    world: World, request: Request, ready: seq<(Approval, Connector)>, source: string)
    requires ValidRequest(request)
    ensures source in AllSources(Admitted(RunShares(world, request, ready)))
            <==> SomeBacked(world, request, ready, source)
  {
    hide Admissible, Admitted, ValidRequest, RunOf, AllSources, ShareOfRun, RunBacked;
    if ready == [] {
      assert Admitted([]) == [] by { AdmittedBySome([]); }
      NoSources();
    } else {
      var init, last := ready[..|ready| - 1], ready[|ready| - 1];
      RunSourcesExactly(world, request, init, source);
      hide SomeBacked;
      var shares := RunShares(world, request, init);
      var share := ShareOfRun(world, request, last.0, RunOf(last.0.provider, last.1.replies));
      OneRunSources(world, request, last, source);
      AppendAdmitted(shares, [share]);
      OneShare(share);
      SourcesOfConcat(Admitted(shares), share.admitted);
      assert ready == init + [last];
      SomeBackedOneMore(world, request, init, last, source);
    }
  }

  lemma {:induction false} NoSources()
    ensures AllSources([]) == multiset{}
  {
  }

  lemma {:induction false} OneRunSources(world: World, request: Request, ready: (Approval, Connector), source: string)
    requires ValidRequest(request)
    ensures source in AllSources(ShareOfRun(world, request, ready.0, RunOf(ready.0.provider, ready.1.replies)).admitted)
            <==> RunBacked(world, request, ready, source)
  {
    hide Admissible, ValidRequest, RunOf, AdmittedItems;
    var payload := RunOf(ready.0.provider, ready.1.replies).payload;
    AdmittedItemsExactly(world, request, ready.0, payload.items, source);
  }

  /** The sources behind the returned evidence are exactly those of the
      admissible items that ready providers delivered: merging loses none and
      screening, retrying and admission let nothing else through. */
  lemma {:induction false} SourcesAreExactlyAdmissibleItems(
    world: World, request: Request, connectors: map<string, Connector>, source: string)
    requires Executes(request)
    ensures source in AllSources(Execution(world, request, connectors).evidence)
            <==> Backed(world, request, connectors, source)
  {
    ResultShape(world, request, connectors);
    hide Execution, Deduplicated, AllSources, Backed, ValidRequest;
    SourcesConserved(world.text, Admitted(Shares(world, request, connectors)));
    AdmittedOfShares(world, request, connectors);
    RunSourcesExactly(world, request, ReadyOnes(request, connectors, request.selected), source);
    hide *;
    ReadyBacking(world, request, connectors, source);
  }

  lemma {:induction false} AdmittedOfShares(world: World, request: Request, connectors: map<string, Connector>)
    requires ValidRequest(request)
    ensures Admitted(Shares(world, request, connectors))
         == Admitted(RunShares(world, request, ReadyOnes(request, connectors, request.selected)))
  {
    var ids := request.selected;
    assert AllApproved(request, ids);
    NothingAdmittedWhenBlocked(request, connectors, ids);
    hide BlockedShares, RunShares, ReadyOnes, Admitted, ValidRequest;
    var blocked := BlockedShares(request, connectors, ids);
    var ran := RunShares(world, request, ReadyOnes(request, connectors, ids));
    AppendAdmitted(blocked, ran);
    assert [] + Admitted(ran) == Admitted(ran);
  }

  lemma {:induction false} ReadyBacking(
    world: World, request: Request, connectors: map<string, Connector>, source: string)
    requires ValidRequest(request)
    ensures SomeBacked(world, request, ReadyOnes(request, connectors, request.selected), source)
            <==> Backed(world, request, connectors, source)
  {
    ReadyConnectors(request, connectors, request.selected);
    var ready := ReadyOnes(request, connectors, request.selected);
    hide ReadyOnes;
    if Backed(world, request, connectors, source) {
      BackedByReady(world, request, connectors, source);
    }
    if p :| p in ready && RunBacked(world, request, p, source) {
      ReadyBacks(world, request, connectors, p, source);
    }
  }

  lemma {:induction false} BackedByReady(
    world: World, request: Request, connectors: map<string, Connector>, source: string)
    requires ValidRequest(request) && Backed(world, request, connectors, source)
    ensures exists p :: p in ReadyOnes(request, connectors, request.selected) && RunBacked(world, request, p, source)
  {
    hide Admissible, RunOf, ReadyOnes;
    var id, item :| Delivered(request, connectors, id, item) && item.id == source
      && Admissible(world, request, ApprovalOf(request.approvals, id).value, item);
    ScreenNames(request, connectors, id);
    ReadyConnectors(request, connectors, request.selected);
    hide ValidRequest, ApprovalOf;
    var s := Screen(request, connectors, id);
    assert RunBacked(world, request, (s.approval, s.connector), source);
  }

  lemma {:induction false} ReadyBacks(
    world: World, request: Request, connectors: map<string, Connector>, p: (Approval, Connector), source: string)
    requires ValidRequest(request) && p.0.provider in request.selected
    requires Screen(request, connectors, p.0.provider) == Ready(p.0, p.1)
    requires RunBacked(world, request, p, source)
    ensures Backed(world, request, connectors, source)
  {
    hide Admissible, RunOf, ReadyOnes;
    var id := p.0.provider;
    assert p.0 == ApprovalOf(request.approvals, id).value;
    hide ValidRequest, ApprovalOf, Screen;
    var item :| item in RunOf(id, p.1.replies).payload.items && item.id == source
      && Admissible(world, request, p.0, item);
    assert Delivered(request, connectors, id, item);
  }
}
