/** What a live execution decides about requests, providers and items, in numbers
    and field by field (apps/api/backend/ask/live_intelligence.py). */
module LiveDecisions {
  import opened Foundations
  import opened LiveContracts
  import opened LiveConnector
  import opened LiveDeduplication
  import opened LiveIntelligence
  import opened LiveAccounting

  // ----- one connector --------------------------------------------------------------

  /** A reply that carries a usable payload of this provider. */
  predicate Usable(provider: string, reply: Reply)
  {
    reply.Text? && reply.length <= 1_000_000 && reply.parsed.Some? && reply.parsed.value.provider == provider
  }

  const FinalCodes: seq<string> :=
    ["LIVE_PROVIDER_AUTH_FAILED", "LIVE_PROVIDER_ENTITLEMENT_FAILED", "LIVE_PROVIDER_ROBOTS_DENIED",
     "LIVE_PROVIDER_PERMANENT_FAILURE", "LIVE_PROVIDER_RATE_LIMITED"]

  /** A failure that may pass: a timeout, an exception, or a payload that reports
      either without a code that rules out another attempt. */
  predicate FailsInPassing(provider: string, reply: Reply)
  {
    || reply == DeadlinePassed
    || reply == Raised
    || (Usable(provider, reply) && reply.parsed.value.state in {TimedOut, Unavailable}
        && (reply.parsed.value.code.Some? ==> reply.parsed.value.code.value !in FinalCodes))
  }

  /** What a provider is credited with after a reply. */
  ghost predicate Stands(provider: string, reply: Reply, p: Payload)
  {
    match reply
    case DeadlinePassed => p == Payload(provider, TimedOut, [], Some("LIVE_PROVIDER_TIMED_OUT"))
    case Raised => p == Payload(provider, Unavailable, [], Some("LIVE_PROVIDER_UNAVAILABLE"))
    case NotText => p == Payload(provider, InvalidOutput, [], Some("LIVE_PROVIDER_OUTPUT_INVALID"))
    case Text(length, parsed) =>
      if length > 1_000_000 || parsed.None? then
        p == Payload(provider, InvalidOutput, [], Some("LIVE_PROVIDER_OUTPUT_INVALID"))
      else if parsed.value.provider != provider then
        p == Payload(provider, InvalidOutput, [], Some("LIVE_PROVIDER_IDENTITY_INVALID"))
      else p == parsed.value
  }

  lemma {:induction false} ReadExactly(provider: string, reply: Reply)
    ensures Stands(provider, reply, Read(provider, reply))
    ensures Transient(Read(provider, reply)) <==> FailsInPassing(provider, reply)
  {
    FailuresAreTransient(provider);
    FinalCodesExactly(Read(provider, reply).code);
    hide NonRetryable, FinalCodes;
    if reply.Text? || reply.NotText? {
      assert Read(provider, reply).state == InvalidOutput || Usable(provider, reply);
    }
  }

  lemma {:induction false} FinalCodesExactly(code: Option<string>)
    ensures NonRetryable(code) <==> code.Some? && code.value in FinalCodes
  {
  }

  /** A run ends at the first reply that is no passing failure, or at the third, and
      pauses 50 and then 100 milliseconds before it tries again. */
  lemma {:induction false} RunExactly(provider: string, replies: nat -> Reply)
    ensures var run := RunOf(provider, replies);
            && Stands(provider, replies(run.attempts), run.payload)
            && (run.attempts == 1 <==> !FailsInPassing(provider, replies(1)))
            && (run.attempts == 2 <==> FailsInPassing(provider, replies(1)) && !FailsInPassing(provider, replies(2)))
            && (run.attempts == 3 <==> FailsInPassing(provider, replies(1)) && FailsInPassing(provider, replies(2)))
            && run.sleepsMs == if run.attempts == 1 then [] else if run.attempts == 2 then [50] else [50, 100]
  {
    var run := RunOf(provider, replies);
    RunStopsExactly(provider, replies, run);
    ReadExactly(provider, replies(1));
    ReadExactly(provider, replies(2));
    ReadExactly(provider, replies(run.attempts));
    assert PauseMs(1) == 50 && PauseMs(2) == 100;
    hide Read, Transient, FailsInPassing, RunOf, PauseMs, Stands;
    assert run.attempts == 1 || run.attempts == 2 || run.attempts == 3;
  }

  // ----- the request ------------------------------------------------------------------

  ghost predicate NoneTwice(ids: seq<string>)
  {
    forall i, j :: 0 <= i < j < |ids| ==> ids[i] != ids[j]
  }

  /** An entry of that name is open to the family of the provider. */
  ghost predicate Approved(entries: seq<RegistryEntry>, a: Approval, id: string)
  {
    exists e :: e in entries && e.id == id && a.family in e.families
  }

  /** Approvals refer to entries of their own family; one to eight different
      providers are selected, all of them approved. */
  ghost predicate GoodRequest(request: Request)
  {
    && request.wellFormed
    && (forall i, j :: 0 <= i < j < |request.entries| ==> request.entries[i].id != request.entries[j].id)
    && (forall i, j :: 0 <= i < j < |request.approvals| ==>
          request.approvals[i].provider != request.approvals[j].provider)
    && (forall a :: a in request.approvals ==> NoneTwice(a.entries))
    && (forall a, id :: a in request.approvals && id in a.entries ==>
          Approved(request.entries, a, id))
    && 1 <= |request.selected| <= 8 && NoneTwice(request.selected)
    && (forall id :: id in request.selected ==> exists a :: a in request.approvals && a.provider == id)
  }

  lemma {:induction false} DistinctExactly<T>(ids: seq<string>, rows: seq<T>, name: T -> string)
    requires |ids| == |rows| && forall i :: 0 <= i < |rows| ==> ids[i] == name(rows[i])
    ensures Distinct(ids) <==> forall i, j :: 0 <= i < j < |rows| ==> name(rows[i]) != name(rows[j])
  {
    if Distinct(ids) {
      forall i, j | 0 <= i < j < |rows|
        ensures name(rows[i]) != name(rows[j])
      {
        assert ids[i] != ids[j];
      }
    }
  }

  lemma {:induction false} PolicyExactly(entries: seq<RegistryEntry>, approvals: seq<Approval>)
    ensures ValidPolicy(entries, approvals)
            <==> && (forall i, j :: 0 <= i < j < |entries| ==> entries[i].id != entries[j].id)
                 && (forall i, j :: 0 <= i < j < |approvals| ==> approvals[i].provider != approvals[j].provider)
                 && (forall a :: a in approvals ==> NoneTwice(a.entries))
                 && (forall a, id :: a in approvals && id in a.entries ==> Approved(entries, a, id))
  {
    var ids := seq(|entries|, i requires 0 <= i < |entries| => entries[i].id);
    var providers := seq(|approvals|, i requires 0 <= i < |approvals| => approvals[i].provider);
    DistinctExactly(ids, entries, (e: RegistryEntry) => e.id);
    DistinctExactly(providers, approvals, (a: Approval) => a.provider);
    assert Distinct(ids) <==> forall i, j :: 0 <= i < j < |entries| ==> entries[i].id != entries[j].id;
    assert forall a: Approval :: Distinct(a.entries) <==> NoneTwice(a.entries);
    if Distinct(ids) {
      forall a: Approval, id | id in a.entries
        ensures EntryOf(entries, id).Some? && a.family in EntryOf(entries, id).value.families
                <==> Approved(entries, a, id)
      {
        EntryIsUnique(entries, id);
      }
    }
    hide EntryOf, Distinct, NoneTwice, Approved;
  }

  lemma {:induction false} RequestExactly(request: Request)
    ensures ValidRequest(request) <==> GoodRequest(request)
  {
    PolicyExactly(request.entries, request.approvals);
    hide ValidPolicy;
    forall id
      ensures ApprovalOf(request.approvals, id).Some? <==> exists a :: a in request.approvals && a.provider == id
    {
    }
    hide ApprovalOf;
  }

  /** The requests that are not executed, and how they are answered. */
  lemma {:induction false} RefusalsExactly(world: World, request: Request, connectors: map<string, Connector>)
    ensures var r := Execution(world, request, connectors);
            && (!GoodRequest(request) ==> r == Result(ResultInvalid, [], [], [], None, Some("LIVE_REQUEST_INVALID")))
            && (GoodRequest(request) && (request.searchesLastMinute >= 10 || request.burstInFlight >= 3) ==>
                  r == Result(ResultUnavailable, [], [], [], None, Some("LIVE_RATE_LIMITED")))
            && (Executes(request)
                <==> GoodRequest(request) && request.searchesLastMinute < 10 && request.burstInFlight < 3)
  {
    RequestExactly(request);
    hide ValidRequest, GoodRequest, ResultOf;
  }

  // ----- screening ---------------------------------------------------------------------

  /** The approval of a provider, and whether its connector names it truly. */
  predicate NamesItself(a: Approval, c: Connector)
  {
    c.identity.Some? && c.identity.value.0 == a.provider && c.identity.value.1 == a.family
  }

  /** A selected provider runs when it is connected, enabled, entitled, truly named
      and secure; the first of these that fails decides the code and the reason. */
  lemma {:induction false} ScreenExactly(request: Request, connectors: map<string, Connector>, a: Approval)
    requires ValidRequest(request) && a in request.approvals
    ensures ApprovalOf(request.approvals, a.provider) == Some(a)
    ensures var (s, id) := (Screen(request, connectors, a.provider), a.provider);
            && (s.Ready? <==> && id in connectors && a.enabled && a.entitled
                              && NamesItself(a, connectors[id]) && connectors[id].secure)
            && (s.Ready? ==> s.approval == a && s.connector == connectors[id])
            && (s == Blocked("LIVE_PROVIDER_DISABLED", None) <==> id !in connectors || !a.enabled)
            && (id in connectors && a.enabled ==>
                  && (s == Blocked("LIVE_ENTITLEMENT_INACTIVE", Some(EntitlementInactive)) <==> !a.entitled)
                  && (s == Blocked("LIVE_PROVIDER_IDENTITY_INVALID", Some(ProviderIdentityMismatch))
                      <==> a.entitled && !NamesItself(a, connectors[id]))
                  && (s == Blocked("LIVE_CONNECTOR_SECURITY_INVALID", Some(ConnectorSecurityInvalid))
                      <==> a.entitled && NamesItself(a, connectors[id]) && !connectors[id].secure))
  {
    ApprovalIsUnique(request.approvals, a);
    hide ApprovalOf, ValidRequest;
  }

  lemma {:induction false} ApprovalIsUnique(approvals: seq<Approval>, a: Approval)
    requires a in approvals
    requires Distinct(seq(|approvals|, i requires 0 <= i < |approvals| => approvals[i].provider))
    ensures ApprovalOf(approvals, a.provider) == Some(a)
  {
    var ids := seq(|approvals|, i requires 0 <= i < |approvals| => approvals[i].provider);
    var found := ApprovalOf(approvals, a.provider);
    var i :| 0 <= i < |approvals| && approvals[i] == a;
    var j :| 0 <= j < |approvals| && approvals[j] == found.value;
    assert ids[i] == ids[j];
  }

  // ----- admission ------------------------------------------------------------------------

  /** Microseconds of 72 hours, 30 days and 90 days. */
  const Hours72: int := 259_200_000_000
  const Days30: int := 2_592_000_000_000
  const Days90: int := 7_776_000_000_000

  /** The time windows, in microseconds: today, 72 hours, 30 and 90 days, from a
      start up to an end, and consultations open or closed within 90 days. */
  lemma {:induction false} WindowExactly(world: World, item: Item, window: Window, now: int)
    ensures item.publishedAt.None? ==> !InsideWindow(world, item, window, now)
    ensures item.publishedAt.Some? ==>
      var (inside, at) := (InsideWindow(world, item, window, now), item.publishedAt.value);
      var draft := item.closesAt.Some? && item.sourceType == OfficialDraftOrConsultation;
      && (window == Today ==> (inside <==> world.today(now).0 <= at && at < world.today(now).1))
      && (window == Breaking ==> (inside <==> 0 <= now - at <= Hours72))
      && (window == News ==> (inside <==> 0 <= now - at <= Days30))
      && (window == Recent ==> (inside <==> 0 <= now - at <= Days90))
      && (window.Bounded? ==> (inside <==> window.from <= at && at < window.until))
      && (window == OpenConsultation ==> (inside <==> draft && now < item.closesAt.value))
      && (window == RecentlyClosedConsultation ==> (inside <==> draft && 0 <= now - item.closesAt.value <= Days90))
  {
  }

  /** What each reason says is wrong with an item. */
  ghost predicate Wrong(world: World, request: Request, a: Approval, item: Item, reason: Reason)
  {
    match reason
    case SourceNotApproved =>
      item.entry !in a.entries || forall e :: e in request.entries ==> e.id != item.entry
    case RegistryEntryInactive => exists e :: Registered(request, item, e) && !e.active
    case SourceTypeNotApproved => exists e :: Registered(request, item, e) && item.sourceType !in e.sourceTypes
    case LicenseMismatch => exists e :: Registered(request, item, e) && item.license != e.license
    case PublisherMismatch =>
      exists e :: Registered(request, item, e) && world.text.fold(item.publisher) != world.text.fold(e.publisher)
    case UrlNotAdmissible =>
      exists e :: Registered(request, item, e)
        && !(world.admissibleHost(item.originalUrl) == Some(e.host)
             && world.admissibleHost(item.canonicalUrl) == Some(e.host))
    case PublicationTimeMissing => item.publishedAt.None?
    case PublicationTimeInFuture => item.publishedAt.Some? && item.publishedAt.value > request.now
    case RetrievalTimeInvalid =>
      item.publishedAt.Some? && !(item.publishedAt.value <= item.retrievedAt <= request.now)
    case ContentHashMismatch => world.digest(item.excerpt) != item.hash
    case RetentionNotPermitted => a.retention == MetadataOnly && !world.blank(item.excerpt)
    case OutsideTimeWindow => !InsideWindow(world, item, request.window, request.now)
    case _ => false
  }

  predicate Registered(request: Request, item: Item, e: RegistryEntry)
  {
    e in request.entries && e.id == item.entry
  }

  /** The order in which the reasons are checked. */
  function Turn(reason: Reason): nat
  {
    match reason
    case SourceNotApproved => 0
    case RegistryEntryInactive => 1
    case SourceTypeNotApproved => 2
    case LicenseMismatch => 3
    case PublisherMismatch => 4
    case UrlNotAdmissible => 5
    case PublicationTimeMissing => 6
    case PublicationTimeInFuture => 7
    case RetrievalTimeInvalid => 8
    case ContentHashMismatch => 9
    case RetentionNotPermitted => 10
    case OutsideTimeWindow => 11
    case _ => 12
  }

  /** An item is rejected for the first thing that is wrong with it, and admitted
      when nothing is. */
  lemma {:induction false} RejectionExactly(world: World, request: Request, a: Approval, item: Item, reason: Reason)
    requires ValidRequest(request)
    ensures AdmissionFailure(world, request, a, item) == Some(reason)
            <==> && Wrong(world, request, a, item, reason)
                 && forall q :: Turn(q) < Turn(reason) ==> !Wrong(world, request, a, item, q)
    ensures AdmissionFailure(world, request, a, item) == None <==> forall q :: !Wrong(world, request, a, item, q)
  {
    var failure := AdmissionFailure(world, request, a, item);
    EntryIsUnique(request.entries, item.entry);
    FirstWrong(world, request, a, item);
    hide AdmissionFailure, Wrong, ValidRequest, EntryOf;
    if failure.Some? {
      assert Wrong(world, request, a, item, failure.value);
      OneTurn(failure.value, reason);
    }
  }

  lemma {:induction false} OneTurn(r: Reason, q: Reason)
    ensures Turn(r) < 12 && Turn(q) == Turn(r) ==> q == r
  {
  }

  lemma {:induction false} FirstWrong(world: World, request: Request, a: Approval, item: Item)
    requires forall e :: e in request.entries && e.id == item.entry ==> EntryOf(request.entries, item.entry) == Some(e)
    ensures var failure := AdmissionFailure(world, request, a, item);
            && (failure.Some? ==>
                  && Turn(failure.value) < 12 && Wrong(world, request, a, item, failure.value)
                  && forall q :: Turn(q) < Turn(failure.value) ==> !Wrong(world, request, a, item, q))
            && (failure.None? ==> forall q :: !Wrong(world, request, a, item, q))
  {
    var found := EntryOf(request.entries, item.entry);
    assert found.Some? ==> Registered(request, item, found.value);
    assert forall e :: Registered(request, item, e) ==> found == Some(e);
    hide EntryOf, InsideWindow;
  }

  // ----- what is handed on --------------------------------------------------------------------

  /** The evidence describes the item: its address, digest, publisher and title, and
      itself as the only source. */
  predicate Describes(e: Evidence, a: Approval, item: Item)
  {
    && e.id == item.id && e.provider == a.provider && e.entry == item.entry && e.url == item.canonicalUrl
    && e.hash == item.hash && e.publisher == item.publisher && e.title == item.title
    && e.sources == [item.id] && e.duplicateIds == []
  }

  ghost predicate Verdicts(
    world: World, request: Request, a: Approval, items: seq<Item>, admitted: seq<Evidence>, rejected: seq<Rejected>,
    kept: seq<nat>, dropped: seq<nat>)
  {
    && |kept| == |admitted| && |dropped| == |rejected| && |kept| + |dropped| == |items|
    && (forall i, j :: 0 <= i < j < |kept| ==> kept[i] < kept[j])
    && (forall i, j :: 0 <= i < j < |dropped| ==> dropped[i] < dropped[j])
    && (forall k :: 0 <= k < |kept| ==>
          && kept[k] < |items| && AdmissionFailure(world, request, a, items[kept[k]]).None?
          && Describes(admitted[k], a, items[kept[k]]))
    && (forall k :: 0 <= k < |dropped| ==>
          && dropped[k] < |items|
          && var failure := AdmissionFailure(world, request, a, items[dropped[k]]);
             failure.Some? && rejected[k] == Rejected(a.provider, Some(items[dropped[k]].id), failure.value))
  }

  /** Every item is either handed on as it is or rejected by name, in order. */
  lemma {:induction false} ItemsExactly(world: World, request: Request, a: Approval, items: seq<Item>)
    returns (kept: seq<nat>, dropped: seq<nat>)
    ensures Verdicts(world, request, a, items, AdmittedItems(world, request, a, items),
                     RejectedItems(world, request, a, items), kept, dropped)
  {
    hide AdmissionFailure;
    if items == [] {
      kept, dropped := [], [];
    } else {
      var init, item := items[..|items| - 1], items[|items| - 1];
      kept, dropped := ItemsExactly(world, request, a, init);
      if AdmissionFailure(world, request, a, item).None? {
        kept := kept + [|init|];
      } else {
        dropped := dropped + [|init|];
      }
      assert forall i :: 0 <= i < |init| ==> init[i] == items[i];
    }
  }

  /** The outcome of a provider: blocked without an attempt, as its run ended, or
      with the counts of its items, in the second case with none of them. */
  lemma {:induction false} OutcomesExactly(world: World, request: Request, a: Approval, id: string, code: string,
                                           reason: Option<Reason>, run: Run)
    ensures var b := BlockedShare(id, code, reason);
            && b.outcome == Outcome(id, Unavailable, 0, 0, 0, Some(code)) && b.admitted == []
            && b.rejected == if reason.None? then [] else [Rejected(id, None, reason.value)]
    ensures var (s, items) := (ShareOfRun(world, request, a, run), run.payload.items);
            && s.outcome.provider == a.provider && s.outcome.attempts == run.attempts
            && s.outcome.admitted == |s.admitted| && s.outcome.rejected == |s.rejected|
            && (run.payload.state != Satisfied ==>
                  && s.outcome.state == run.payload.state && s.outcome.code == run.payload.code
                  && s.admitted == [] && s.rejected == [])
            && (run.payload.state == Satisfied ==>
                  && s.admitted == AdmittedItems(world, request, a, items)
                  && s.rejected == RejectedItems(world, request, a, items)
                  && (s.admitted != [] ==> s.outcome.state == Satisfied && s.outcome.code == None)
                  && (s.admitted == [] ==>
                        s.outcome.state == InvalidOutput && s.outcome.code == Some("LIVE_ITEMS_REJECTED")))
  {
    hide AdmittedItems, RejectedItems;
  }

  const Notice: string :=
    "Live sources provide current context and do not by themselves establish legal force or applicability."

  /** The code and the disclosure of an executed request. */
  lemma {:induction false} CodesExactly(world: World, request: Request, connectors: map<string, Connector>)
    requires Executes(request)
    ensures var r := Execution(world, request, connectors);
            && (r.evidence != [] ==>
                  && r.code == None
                  && r.disclosure == Some(Notice))
            && (r.evidence == [] ==> r.disclosure == None)
            && (r.state == ResultNoMatch ==> r.code == None)
            && (r.state == ResultTimedOut ==> r.code == Some("LIVE_ALL_PROVIDERS_TIMED_OUT"))
            && (r.state == ResultInvalid ==> r.code == Some("LIVE_OUTPUT_INVALID"))
            && (r.state == ResultUnavailable ==> r.code == Some("LIVE_PROVIDERS_UNAVAILABLE"))
            && (r.state == ResultPartial ==>
                  exists o :: o in r.outcomes && (o.state !in {Satisfied, NoMatch} || o.rejected > 0))
            && (r.state == ResultSatisfied ==>
                  forall o :: o in r.outcomes ==> o.state in {Satisfied, NoMatch} && o.rejected == 0)
  {
    ResultShape(world, request, connectors);
    DisclosureText();
    var r := Execution(world, request, connectors);
    hide Execution, Shares, Outcomes, Admitted, Rejections, Deduplicated, AllIn, SomeIn, ValidRequest;
    hide Disclosure, Notice;
    assert Degraded(r.outcomes) ==> exists o :: o in r.outcomes && (o.state !in {Satisfied, NoMatch} || o.rejected > 0);
  }

  lemma {:induction false} DisclosureText()
    ensures Disclosure == Notice
  {
  }

  /** Each terminal state, read off the outcomes of the providers. */
  lemma {:induction false} StatesExactly(world: World, request: Request, connectors: map<string, Connector>)
    requires Executes(request) && ContractReplies(connectors)
    ensures var r := Execution(world, request, connectors);
            var some := exists o :: o in r.outcomes && o.state == Satisfied;
            && |r.outcomes| > 0
            && (r.evidence != [] <==> some)
            && (r.state == ResultNoMatch <==> forall o :: o in r.outcomes ==> o.state == NoMatch)
            && (r.state == ResultTimedOut <==> forall o :: o in r.outcomes ==> o.state == TimedOut)
            && (r.state == ResultInvalid <==> !some && exists o :: o in r.outcomes && o.state == InvalidOutput)
            && (r.state == ResultSatisfied || r.state == ResultPartial <==> some)
  {
    TerminalStateExactly(world, request, connectors);
    SomeOutcome(world, request, connectors);
    var outcomes := Execution(world, request, connectors).outcomes;
    hide Execution, ValidRequest, ContractReplies, Degraded;
    forall state
      ensures AllIn(outcomes, state) <==> forall o :: o in outcomes ==> o.state == state
      ensures SomeIn(outcomes, state) <==> exists o :: o in outcomes && o.state == state
    {
      assert forall i :: 0 <= i < |outcomes| ==> outcomes[i] in outcomes;
    }
    hide AllIn, SomeIn;
  }

  /** What a payload may say: at most 100 different items, some exactly when satisfied,
      and a code exactly with a failure. */
  lemma {:induction false} PayloadExactly(p: Payload)
    ensures ValidPayload(p)
            <==> && |p.items| <= 100 && (p.state == Satisfied <==> |p.items| > 0)
                 && (p.code == None <==> p.state in {Satisfied, NoMatch})
                 && (forall i, j :: 0 <= i < j < |p.items| ==> p.items[i].id != p.items[j].id)
  {
  }

  /** What a result may say: with evidence it is satisfied or partial, carries the
      notice and no code; without, it is neither, and only no match needs no code. */
  lemma {:induction false} ContractExactly(r: Result)
    ensures ValidResult(r)
            <==> && (|r.evidence| > 0 <==> r.state == ResultSatisfied || r.state == ResultPartial)
                 && r.disclosure == (if |r.evidence| > 0 then Some(Notice) else None)
                 && (r.code == None <==> r.state in {ResultSatisfied, ResultPartial, ResultNoMatch})
  {
    DisclosureText();
    hide Disclosure, Notice;
  }
}
