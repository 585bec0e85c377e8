/** One live retrieval over the selected providers
    (apps/api/backend/ask/live_intelligence.py, `execute_live_intelligence`,
    `_admission_failure`, `_inside_window`, `_admit`). */
module LiveIntelligence {
  import opened Foundations
  import opened LiveContracts
  import opened LiveConnector
  import opened LiveDeduplication

  // ----- requests ----------------------------------------------------------------------

  const Hour: int := 3_600_000_000
  const Day: int := 24 * Hour

  datatype Window =
    | Today | Breaking | News | Recent | Bounded(from: int, until: int)
    | OpenConsultation | RecentlyClosedConsultation

  datatype Request = Request(
    wellFormed: bool, entries: seq<RegistryEntry>, approvals: seq<Approval>, selected: seq<string>,
    window: Window, now: int, searchesLastMinute: nat, burstInFlight: nat)

  /** `identity` is absent when reading it raises. */
  datatype Connector = Connector(identity: Option<(string, Family)>, secure: bool, replies: nat -> Reply)

  /** Text, digest, URL and calendar primitives. `today` gives the first
      instant of the user's local day and of the next one. */
  datatype World = World(
    text: LiveDeduplication.Text, digest: string -> string, blank: string -> bool,
    admissibleHost: string -> Option<string>, today: int -> (int, int))

  datatype TerminalState =
    | ResultSatisfied | ResultPartial | ResultNoMatch | ResultTimedOut | ResultUnavailable | ResultInvalid

  const Disclosure: string :=
    "Live sources provide current context and do not by themselves establish legal force or applicability."

  datatype Result = Result(
    state: TerminalState, evidence: seq<Evidence>, rejected: seq<Rejected>, outcomes: seq<Outcome>,
    disclosure: Option<string>, code: Option<string>)

  function ApprovalOf(approvals: seq<Approval>, provider: string): (r: Option<Approval>)
    ensures r.Some? ==> r.value in approvals && r.value.provider == provider
    ensures r.None? ==> forall a :: a in approvals ==> a.provider != provider
  {
    if approvals == [] then None
    else if approvals[0].provider == provider then Some(approvals[0])
    else ApprovalOf(approvals[1..], provider)
  }

  function EntryOf(entries: seq<RegistryEntry>, id: string): (r: Option<RegistryEntry>)
    ensures r.Some? ==> r.value in entries && r.value.id == id
    ensures r.None? ==> forall e :: e in entries ==> e.id != id
  {
    if entries == [] then None
    else if entries[0].id == id then Some(entries[0])
    else EntryOf(entries[1..], id)
  }

  predicate Distinct(ids: seq<string>)
  {
    forall i, j :: 0 <= i < j < |ids| ==> ids[i] != ids[j]
  }

  predicate ValidPolicy(entries: seq<RegistryEntry>, approvals: seq<Approval>)
  {
    && Distinct(seq(|entries|, i requires 0 <= i < |entries| => entries[i].id))
    && Distinct(seq(|approvals|, i requires 0 <= i < |approvals| => approvals[i].provider))
    && (forall a :: a in approvals ==> Distinct(a.entries))
    && (forall a, id :: a in approvals && id in a.entries ==>
          EntryOf(entries, id).Some? && a.family in EntryOf(entries, id).value.families)
  }

  /** The contract that the request is checked against again on entry;
      `wellFormed` stands for the field formats. */
  predicate ValidRequest(request: Request)
  {
    && request.wellFormed
    && ValidPolicy(request.entries, request.approvals)
    && 1 <= |request.selected| <= 8
    && Distinct(request.selected)
    && forall id :: id in request.selected ==> ApprovalOf(request.approvals, id).Some?
  }

  predicate RateLimited(request: Request)
  {
    request.searchesLastMinute >= 10 || request.burstInFlight >= 3
  }

  // ----- admission -----------------------------------------------------------------------

  predicate InsideWindow(world: World, item: Item, window: Window, now: int)
  {
    item.publishedAt.Some? &&
    var published := item.publishedAt.value;
    match window
    case Today => world.today(now).0 <= published < world.today(now).1
    case Breaking => now - 72 * Hour <= published <= now
    case News => now - 30 * Day <= published <= now
    case Recent => now - 90 * Day <= published <= now
    case Bounded(from, until) => from <= published < until
    case OpenConsultation =>
      item.closesAt.Some? && item.sourceType == OfficialDraftOrConsultation && item.closesAt.value > now
    case RecentlyClosedConsultation =>
      item.closesAt.Some? && item.sourceType == OfficialDraftOrConsultation
      && now - 90 * Day <= item.closesAt.value <= now
  }

  function AdmissionFailure(world: World, request: Request, approval: Approval, item: Item): Option<Reason>
  {
    var found := EntryOf(request.entries, item.entry);
    if found.None? || item.entry !in approval.entries then Some(SourceNotApproved)
    else
      var entry := found.value;
      if !entry.active then Some(RegistryEntryInactive)
      else if item.sourceType !in entry.sourceTypes then Some(SourceTypeNotApproved)
      else if item.license != entry.license then Some(LicenseMismatch)
      else if world.text.fold(item.publisher) != world.text.fold(entry.publisher) then Some(PublisherMismatch)
      else if world.admissibleHost(item.originalUrl) != Some(entry.host)
           || world.admissibleHost(item.canonicalUrl) != Some(entry.host) then Some(UrlNotAdmissible)
      else if item.publishedAt.None? then Some(PublicationTimeMissing)
      else if item.publishedAt.value > request.now then Some(PublicationTimeInFuture)
      else if item.retrievedAt > request.now || item.retrievedAt < item.publishedAt.value then
        Some(RetrievalTimeInvalid)
      else if world.digest(item.excerpt) != item.hash then Some(ContentHashMismatch)
      else if approval.retention == MetadataOnly && !world.blank(item.excerpt) then Some(RetentionNotPermitted)
      else if !InsideWindow(world, item, request.window, request.now) then Some(OutsideTimeWindow)
      else None
  }

  /** What it takes to be admitted. */
  predicate Admissible(world: World, request: Request, approval: Approval, item: Item)
  {
    && item.entry in approval.entries
    && (exists entry :: entry in request.entries && entry.id == item.entry && entry.active
          && item.sourceType in entry.sourceTypes && item.license == entry.license
          && world.text.fold(item.publisher) == world.text.fold(entry.publisher)
          && world.admissibleHost(item.originalUrl) == world.admissibleHost(item.canonicalUrl) == Some(entry.host))
    && item.publishedAt.Some? && item.publishedAt.value <= item.retrievedAt <= request.now
    && world.digest(item.excerpt) == item.hash
    && (approval.retention == MetadataOnly ==> world.blank(item.excerpt))
    && InsideWindow(world, item, request.window, request.now)
  }

  function Admit(approval: Approval, item: Item): Evidence
  {
    Evidence(item.id, approval.provider, item.entry, item.canonicalUrl, item.hash, item.publisher, item.title,
             [item.id], [])
  }

  // ----- one provider ----------------------------------------------------------------------

  datatype Screening = Ready(approval: Approval, connector: Connector) | Blocked(code: string, reason: Option<Reason>)

  function Screen(request: Request, connectors: map<string, Connector>, id: string): Screening
    requires ApprovalOf(request.approvals, id).Some?
  {
    var approval := ApprovalOf(request.approvals, id).value;
    if id !in connectors || !approval.enabled then Blocked("LIVE_PROVIDER_DISABLED", None)
    else if !approval.entitled then Blocked("LIVE_ENTITLEMENT_INACTIVE", Some(EntitlementInactive))
    else if connectors[id].identity != Some((id, approval.family)) then
      Blocked("LIVE_PROVIDER_IDENTITY_INVALID", Some(ProviderIdentityMismatch))
    else if !connectors[id].secure then
      Blocked("LIVE_CONNECTOR_SECURITY_INVALID", Some(ConnectorSecurityInvalid))
    else Ready(approval, connectors[id])
  }

  /** What one selected provider adds to the result. */
  datatype Share = Share(outcome: Outcome, admitted: seq<Evidence>, rejected: seq<Rejected>)

  function BlockedShare(id: string, code: string, reason: Option<Reason>): Share
  {
    Share(Outcome(id, Unavailable, 0, 0, 0, Some(code)), [],
          if reason.Some? then [Rejected(id, None, reason.value)] else [])
  }

  function AdmittedItems(world: World, request: Request, approval: Approval, items: seq<Item>): seq<Evidence>
  {
    if items == [] then []
    else
      var item := items[|items| - 1];
      var init := AdmittedItems(world, request, approval, items[..|items| - 1]);
      if AdmissionFailure(world, request, approval, item).None? then init + [Admit(approval, item)] else init
  }

  function RejectedItems(world: World, request: Request, approval: Approval, items: seq<Item>): seq<Rejected>
  {
    if items == [] then []
    else
      var item := items[|items| - 1];
      var failure := AdmissionFailure(world, request, approval, item);
      var init := RejectedItems(world, request, approval, items[..|items| - 1]);
      if failure.Some? then init + [Rejected(approval.provider, Some(item.id), failure.value)] else init
  }

  function ShareOfRun(world: World, request: Request, approval: Approval, run: Run): Share
  {
    var p := run.payload;
    if p.state != Satisfied then
      Share(Outcome(approval.provider, p.state, run.attempts, 0, 0, p.code), [], [])
    else
      var admitted := AdmittedItems(world, request, approval, p.items);
      var rejected := RejectedItems(world, request, approval, p.items);
      Share(Outcome(approval.provider, if admitted != [] then Satisfied else InvalidOutput, run.attempts,
                    |admitted|, |rejected|, if admitted != [] then None else Some("LIVE_ITEMS_REJECTED")),
            admitted, rejected)
  }

  // ----- all providers ------------------------------------------------------------------------

  predicate AllApproved(request: Request, ids: seq<string>)
  {
    forall id :: id in ids ==> ApprovalOf(request.approvals, id).Some?
  }

  function BlockedShares(request: Request, connectors: map<string, Connector>, ids: seq<string>): seq<Share>
    requires AllApproved(request, ids)
  {
    if ids == [] then []
    else
      var id := ids[|ids| - 1];
      var screening := Screen(request, connectors, id);
      var init := BlockedShares(request, connectors, ids[..|ids| - 1]);
      if screening.Blocked? then init + [BlockedShare(id, screening.code, screening.reason)] else init
  }

  function ReadyOnes(request: Request, connectors: map<string, Connector>, ids: seq<string>): seq<(Approval, Connector)>
    requires AllApproved(request, ids)
  {
    if ids == [] then []
    else
      var id := ids[|ids| - 1];
      var screening := Screen(request, connectors, id);
      var init := ReadyOnes(request, connectors, ids[..|ids| - 1]);
      if screening.Ready? then init + [(screening.approval, screening.connector)] else init
  }

  function RunShares(world: World, request: Request, ready: seq<(Approval, Connector)>): seq<Share>
  {
    if ready == [] then []
    else
      var (approval, connector) := ready[|ready| - 1];
      RunShares(world, request, ready[..|ready| - 1])
      + [ShareOfRun(world, request, approval, RunOf(approval.provider, connector.replies))]
  }

  /** Blocked providers first, then the ones that ran, each in selection order. */
  function Shares(world: World, request: Request, connectors: map<string, Connector>): seq<Share>
    requires ValidRequest(request)
  {
    BlockedShares(request, connectors, request.selected)
    + RunShares(world, request, ReadyOnes(request, connectors, request.selected))
  }

  function Outcomes(shares: seq<Share>): seq<Outcome>
  {
    if shares == [] then [] else Outcomes(shares[..|shares| - 1]) + [shares[|shares| - 1].outcome]
  }

  function Admitted(shares: seq<Share>): seq<Evidence>
  {
    if shares == [] then [] else Admitted(shares[..|shares| - 1]) + shares[|shares| - 1].admitted
  }

  function Rejections(shares: seq<Share>): seq<Rejected>
  {
    if shares == [] then [] else Rejections(shares[..|shares| - 1]) + shares[|shares| - 1].rejected
  }

  // ----- the result ------------------------------------------------------------------------------

  predicate AllIn(outcomes: seq<Outcome>, state: ProviderState)
  {
    outcomes != [] && forall i :: 0 <= i < |outcomes| ==> outcomes[i].state == state
  }

  predicate SomeIn(outcomes: seq<Outcome>, state: ProviderState)
  {
    exists i :: 0 <= i < |outcomes| && outcomes[i].state == state
  }

  predicate Degraded(outcomes: seq<Outcome>)
  {
    exists i :: 0 <= i < |outcomes| &&
      ((outcomes[i].state != Satisfied && outcomes[i].state != NoMatch) || outcomes[i].rejected > 0)
  }

  function Conclude(evidence: seq<Evidence>, rejected: seq<Rejected>, outcomes: seq<Outcome>): Result
  {
    if evidence != [] then
      Result(if Degraded(outcomes) then ResultPartial else ResultSatisfied, evidence, rejected, outcomes,
             Some(Disclosure), None)
    else if AllIn(outcomes, NoMatch) then Result(ResultNoMatch, [], rejected, outcomes, None, None)
    else if AllIn(outcomes, TimedOut) then
      Result(ResultTimedOut, [], rejected, outcomes, None, Some("LIVE_ALL_PROVIDERS_TIMED_OUT"))
    else if SomeIn(outcomes, InvalidOutput) then
      Result(ResultInvalid, [], rejected, outcomes, None, Some("LIVE_OUTPUT_INVALID"))
    else Result(ResultUnavailable, [], rejected, outcomes, None, Some("LIVE_PROVIDERS_UNAVAILABLE"))
  }

  function Refusal(state: TerminalState, code: string): Result
  {
    Result(state, [], [], [], None, Some(code))
  }

  function ResultOf(world: World, shares: seq<Share>): Result
  {
    var deduplicated := Deduplicated(world.text, Admitted(shares));
    Conclude(deduplicated.retained, Rejections(shares) + deduplicated.rejected, Outcomes(shares))
  }

  function Execution(world: World, request: Request, connectors: map<string, Connector>): Result
  {
    if !ValidRequest(request) then Refusal(ResultInvalid, "LIVE_REQUEST_INVALID")
    else if RateLimited(request) then Refusal(ResultUnavailable, "LIVE_RATE_LIMITED")
    else ResultOf(world, Shares(world, request, connectors))
  }

  /** The contract of a result. */
  predicate ValidResult(r: Result)
  {
    if r.evidence != [] then
      (r.state == ResultSatisfied || r.state == ResultPartial) && r.disclosure == Some(Disclosure) && r.code == None
    else
      r.state != ResultSatisfied && r.state != ResultPartial && r.disclosure == None
      && (r.state == ResultNoMatch <==> r.code == None)
  }

  // ----- the loops -------------------------------------------------------------------------------

  lemma {:induction false} ShareOneMore(shares: seq<Share>, share: Share)
    ensures Outcomes(shares + [share]) == Outcomes(shares) + [share.outcome]
    ensures Admitted(shares + [share]) == Admitted(shares) + share.admitted
    ensures Rejections(shares + [share]) == Rejections(shares) + share.rejected
  {
    assert (shares + [share])[..|shares|] == shares;
  }

  lemma {:induction false} AppendOutcomes(shares: seq<Share>, more: seq<Share>)
    ensures Outcomes(shares + more) == Outcomes(shares) + Outcomes(more)
  {
    if more == [] {
      assert shares + more == shares;
    } else {
      hide *;
      var init, last := more[..|more| - 1], more[|more| - 1];
      AppendOutcomes(shares, init);
      ShareOneMore(shares + init, last);
      ShareOneMore(init, last);
      assert more == init + [last] && shares + more == (shares + init) + [last];
    }
  }

  lemma {:induction false} AppendAdmitted(shares: seq<Share>, more: seq<Share>)
    ensures Admitted(shares + more) == Admitted(shares) + Admitted(more)
  {
    if more == [] {
      assert shares + more == shares;
    } else {
      hide *;
      var init, last := more[..|more| - 1], more[|more| - 1];
      AppendAdmitted(shares, init);
      ShareOneMore(shares + init, last);
      ShareOneMore(init, last);
      assert more == init + [last] && shares + more == (shares + init) + [last];
    }
  }

  lemma {:induction false} AppendRejections(shares: seq<Share>, more: seq<Share>)
    ensures Rejections(shares + more) == Rejections(shares) + Rejections(more)
  {
    if more == [] {
      assert shares + more == shares;
    } else {
      hide *;
      var init, last := more[..|more| - 1], more[|more| - 1];
      AppendRejections(shares, init);
      ShareOneMore(shares + init, last);
      ShareOneMore(init, last);
      assert more == init + [last] && shares + more == (shares + init) + [last];
    }
  }

  lemma {:induction false} AppendShares(shares: seq<Share>, more: seq<Share>)
    ensures Outcomes(shares + more) == Outcomes(shares) + Outcomes(more)
    ensures Admitted(shares + more) == Admitted(shares) + Admitted(more)
    ensures Rejections(shares + more) == Rejections(shares) + Rejections(more)
  {
    AppendOutcomes(shares, more);
    AppendAdmitted(shares, more);
    AppendRejections(shares, more);
  }

  lemma {:induction false} OneShare(share: Share)
    ensures Outcomes([share]) == [share.outcome] && Admitted([share]) == share.admitted
    ensures Rejections([share]) == share.rejected
  {
    assert [share][..0] == [];
  }

  lemma {:induction false} ScreenOneMore(
    request: Request, connectors: map<string, Connector>, ids: seq<string>, id: string)
    requires AllApproved(request, ids) && AllApproved(request, ids + [id])
    ensures var s := Screen(request, connectors, id);
            var before, after :=
              BlockedShares(request, connectors, ids), BlockedShares(request, connectors, ids + [id]);
            var ready := ReadyOnes(request, connectors, ids);
            && (s.Blocked? ==>
                  var share := BlockedShare(id, s.code, s.reason);
                  && Outcomes(after) == Outcomes(before) + [share.outcome]
                  && Rejections(after) == Rejections(before) + share.rejected
                  && ReadyOnes(request, connectors, ids + [id]) == ready)
            && (s.Ready? ==>
                  after == before && ReadyOnes(request, connectors, ids + [id]) == ready + [(s.approval, s.connector)])
  {
    hide Screen, Outcomes, Rejections, Admitted, BlockedShare;
    assert (ids + [id])[..|ids|] == ids;
    var s := Screen(request, connectors, id);
    if s.Blocked? {
      var share := BlockedShare(id, s.code, s.reason);
      AppendShares(BlockedShares(request, connectors, ids), [share]);
      OneShare(share);
    }
  }

  /** The screening loop. */
  method Preflight(request: Request, connectors: map<string, Connector>)
    returns (outcomes: seq<Outcome>, rejected: seq<Rejected>, ready: seq<(Approval, Connector)>)
    requires ValidRequest(request)
    ensures outcomes == Outcomes(BlockedShares(request, connectors, request.selected))
    ensures rejected == Rejections(BlockedShares(request, connectors, request.selected))
    ensures ready == ReadyOnes(request, connectors, request.selected)
  {
    outcomes, rejected, ready := [], [], [];
    var ids := request.selected;
    for n := 0 to |ids|
      invariant outcomes == Outcomes(BlockedShares(request, connectors, ids[..n]))
      invariant rejected == Rejections(BlockedShares(request, connectors, ids[..n]))
      invariant ready == ReadyOnes(request, connectors, ids[..n])
    {
      hide *;
      var screening := Screen(request, connectors, ids[n]);
      assert ids[..n + 1] == ids[..n] + [ids[n]];
      ScreenOneMore(request, connectors, ids[..n], ids[n]);
      match screening {
        case Blocked(code, reason) =>
          var share := BlockedShare(ids[n], code, reason);
          outcomes := outcomes + [share.outcome];
          rejected := rejected + share.rejected;
        case Ready(approval, connector) =>
          ready := ready + [(approval, connector)];
      }
    }
    assert ids[..|ids|] == ids;
  }

  /** The inner loop over one payload's items. */
  method JudgeItems(world: World, request: Request, approval: Approval, items: seq<Item>)
    returns (admitted: seq<Evidence>, rejected: seq<Rejected>)
    ensures admitted == AdmittedItems(world, request, approval, items)
    ensures rejected == RejectedItems(world, request, approval, items)
  {
    admitted, rejected := [], [];
    for n := 0 to |items|
      invariant admitted == AdmittedItems(world, request, approval, items[..n])
      invariant rejected == RejectedItems(world, request, approval, items[..n])
    {
      hide AdmissionFailure;
      assert items[..n + 1][..n] == items[..n];
      match AdmissionFailure(world, request, approval, items[n]) {
        case Some(reason) =>
          rejected := rejected + [Rejected(approval.provider, Some(items[n].id), reason)];
        case None =>
          admitted := admitted + [Admit(approval, items[n])];
      }
    }
    assert items[..|items|] == items;
  }

  /** The loop over the finished runs. */
  method CollectRuns(world: World, request: Request, ready: seq<(Approval, Connector)>)
    returns (outcomes: seq<Outcome>, admitted: seq<Evidence>, rejected: seq<Rejected>)
    ensures outcomes == Outcomes(RunShares(world, request, ready))
    ensures admitted == Admitted(RunShares(world, request, ready))
    ensures rejected == Rejections(RunShares(world, request, ready))
  {
    outcomes, admitted, rejected := [], [], [];
    for n := 0 to |ready|
      invariant outcomes == Outcomes(RunShares(world, request, ready[..n]))
      invariant admitted == Admitted(RunShares(world, request, ready[..n]))
      invariant rejected == Rejections(RunShares(world, request, ready[..n]))
    {
      hide RunOf, AdmittedItems, RejectedItems, Outcomes, Admitted, Rejections;
      var (approval, connector) := ready[n];
      assert ready[..n + 1][..n] == ready[..n];
      var run := RunConnector(approval.provider, connector.replies);
      var p := run.payload;
      ghost var share := ShareOfRun(world, request, approval, run);
      AppendShares(RunShares(world, request, ready[..n]), [share]);
      OneShare(share);
      if p.state != Satisfied {
        outcomes := outcomes + [Outcome(approval.provider, p.state, run.attempts, 0, 0, p.code)];
      } else {
        var taken, refused := JudgeItems(world, request, approval, p.items);
        admitted := admitted + taken;
        rejected := rejected + refused;
        var state := if |taken| > 0 then Satisfied else InvalidOutput;
        var code := if |taken| > 0 then None else Some("LIVE_ITEMS_REJECTED");
        outcomes := outcomes + [Outcome(approval.provider, state, run.attempts, |taken|, |refused|, code)];
      }
    }
    assert ready[..|ready|] == ready;
  }

  method ExecuteLiveIntelligence(world: World, request: Request, connectors: map<string, Connector>)
    returns (result: Result)
    ensures result == Execution(world, request, connectors)
  {
    if !ValidRequest(request) {
      return Refusal(ResultInvalid, "LIVE_REQUEST_INVALID");
    }
    if request.searchesLastMinute >= 10 || request.burstInFlight >= 3 {
      return Refusal(ResultUnavailable, "LIVE_RATE_LIMITED");
    }
    hide ValidRequest, Outcomes, Admitted, Rejections, BlockedShares, ReadyOnes, RunShares, Conclude;
    var blockedOutcomes, blockedRejections, ready := Preflight(request, connectors);
    var runOutcomes, admitted, runRejections := CollectRuns(world, request, ready);
    ghost var blocked := BlockedShares(request, connectors, request.selected);
    ghost var ran := RunShares(world, request, ready);
    AppendShares(blocked, ran);
    NothingAdmittedWhenBlocked(request, connectors, request.selected);
    assert [] + admitted == admitted;
    var retained, duplicates := Deduplicate(world.text, admitted);
    result := Conclude(retained, blockedRejections + runRejections + duplicates, blockedOutcomes + runOutcomes);
  }

  lemma {:induction false} NothingAdmittedWhenBlocked(
    request: Request, connectors: map<string, Connector>, ids: seq<string>)
    requires AllApproved(request, ids)
    ensures Admitted(BlockedShares(request, connectors, ids)) == []
  {
    if ids != [] {
      hide Screen;
      var id := ids[|ids| - 1];
      NothingAdmittedWhenBlocked(request, connectors, ids[..|ids| - 1]);
      var screening := Screen(request, connectors, id);
      if screening.Blocked? {
        var share := BlockedShare(id, screening.code, screening.reason);
        AppendShares(BlockedShares(request, connectors, ids[..|ids| - 1]), [share]);
        OneShare(share);
      }
    }
  }
}
