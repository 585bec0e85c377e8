/** Two-pass claim verification
    (apps/api/backend/ask/claim_verification.py). Every provider call is an
    arbitrary reply; request and evidence admission are given. */
module ClaimVerification {
  import opened Foundations
  import opened ClaimTokens

  datatype Risk = MaterialRisk | HighRisk

  datatype Support = Supported | PartialSupport | Contradiction | Unknown

  datatype ClaimSpan = ClaimSpan(start: nat, end: nat, text: string)

  datatype EvidenceSpan = EvidenceSpan(evidenceId: string, start: nat, end: nat, text: string)

  datatype Proposition = Proposition(
    number: nat, span: ClaimSpan, outcome: Support, confidence: real, evidenceIds: seq<string>,
    support: seq<EvidenceSpan>, unsupported: seq<ClaimSpan>, contradictions: seq<EvidenceSpan>)

  datatype Correction = Correction(text: string, evidenceIds: seq<string>)

  datatype Payload = Payload(claimId: string, propositions: seq<Proposition>, correction: Option<Correction>)

  datatype Reply = DeadlinePassed | Raised | NotText | Text(length: nat, parsed: Option<Payload>)

  datatype Identity = Identity(provider: string, verifier: string, model: string, prompt: string)

  /** The text and the evidence offered to one pass. */
  datatype Subject = Subject(text: string, evidenceIds: seq<string>)

  datatype Request = Request(claimId: string, claim: Subject, risk: Risk, release: Option<Identity>)

  /** What admission makes of the request: it refuses it, or yields the excerpts
      of exactly the evidence the claim names. */
  datatype Intake = InputInvalid | EvidenceInvalid | Admitted(evidence: map<string, string>)

  /** `identity` is absent when the provider cannot be built or named. */
  datatype Provider = Provider(identity: Option<Identity>, replies: nat -> Reply)

  datatype Attempt = Attempt(
    number: nat, subject: Subject, propositions: seq<Proposition>, outcome: Support, confidence: real)

  datatype Lineage = Lineage(original: string, corrected: string, evidenceIds: seq<string>)

  datatype State = Satisfied | TimedOut | Unavailable | InvalidOutput

  datatype Publication = GroundedProse | EvidenceOnly

  datatype Result = Result(
    finalText: string, state: State, outcome: Support, confidence: Option<real>, publication: Publication,
    snapshots: seq<string>, attempts: seq<Attempt>, correction: Option<Lineage>,
    identity: Option<Identity>, latencyMs: nat, reason: string)

  const MaxOutputChars: nat := 100_000
  const BudgetMs: nat := 2_200

  // ----- contracts of provider output --------------------------------------------------------

  predicate Distinct(ids: seq<string>)
  {
    forall i, j :: 0 <= i < j < |ids| ==> ids[i] != ids[j]
  }

  predicate ValidClaimSpan(s: ClaimSpan)
  {
    s.start < s.end && s.text != ""
  }

  predicate ValidEvidenceSpan(s: EvidenceSpan)
  {
    s.start < s.end && s.text != "" && s.evidenceId != ""
  }

  function UsedIds(p: Proposition): set<string>
  {
    set s | s in p.support + p.contradictions :: s.evidenceId
  }

  predicate ValidProposition(p: Proposition)
  {
    && ValidClaimSpan(p.span) && 0.0 <= p.confidence <= 1.0
    && (forall s :: s in p.unsupported ==> ValidClaimSpan(s))
    && (forall s :: s in p.support ==> ValidEvidenceSpan(s))
    && (forall s :: s in p.contradictions ==> ValidEvidenceSpan(s))
    && p.evidenceIds != [] && Distinct(p.evidenceIds)
    && (match p.outcome
        case Supported => p.support != [] && p.unsupported == [] && p.contradictions == []
        case PartialSupport => p.support != [] && p.unsupported != [] && p.contradictions == []
        case Contradiction => p.contradictions != []
        case Unknown => p.support == [] && p.contradictions == [])
    && (p.outcome != Unknown ==> UsedIds(p) == set id | id in p.evidenceIds)
  }

  predicate ValidCorrectionShape(c: Correction)
  {
    1 <= |c.text| <= 20_000 && c.evidenceIds != [] && Distinct(c.evidenceIds)
  }

  /** The payload contract that parsing enforces. */
  predicate ValidPayload(p: Payload)
  {
    && p.claimId != "" && 1 <= |p.propositions| <= 32
    && (forall i :: 0 <= i < |p.propositions| ==> p.propositions[i].number == i + 1)
    && (forall i :: 0 <= i < |p.propositions| ==> ValidProposition(p.propositions[i]))
    && (p.correction.Some? ==> ValidCorrectionShape(p.correction.value))
    && (p.correction.Some? ==> exists i :: 0 <= i < |p.propositions| && p.propositions[i].outcome != Supported)
  }

  /** Text parses only to payloads that satisfy the contract. */
  predicate Parses(reply: Reply)
  {
    reply.Text? && reply.parsed.Some? ==> ValidPayload(reply.parsed.value)
  }

  // ----- propositions against the claim ----------------------------------------------------------

  predicate ExactClaimSpan(s: ClaimSpan, text: string)
  {
    s.start <= s.end <= |text| && text[s.start..s.end] == s.text
  }

  predicate Inside(inner: ClaimSpan, outer: ClaimSpan)
  {
    outer.start <= inner.start && inner.end <= outer.end
  }

  predicate ExactEvidenceSpan(s: EvidenceSpan, evidence: map<string, string>)
  {
    s.evidenceId in evidence &&
    var excerpt := evidence[s.evidenceId];
    s.start <= s.end <= |excerpt| && excerpt[s.start..s.end] == s.text
  }

  /** The proposition's span is an exact substring of the claim, its unsupported
      spans are exact substrings inside it, and it cites allowed evidence only,
      quoting cited evidence exactly. */
  predicate PropositionHolds(p: Proposition, subject: Subject, evidence: map<string, string>)
  {
    && ExactClaimSpan(p.span, subject.text)
    && (forall id :: id in p.evidenceIds ==> id in subject.evidenceIds)
    && (forall u :: u in p.unsupported ==> UnsupportedHolds(u, p, subject))
    && (forall s :: s in p.support + p.contradictions ==> QuoteHolds(s, p, evidence))
  }

  predicate OrderedAndDisjoint(ps: seq<Proposition>)
  {
    forall i, j :: 0 <= i < j < |ps| ==> ps[i].span.end <= ps[j].span.start
  }

  function SpanTexts(ps: seq<Proposition>): seq<string>
  {
    if ps == [] then [] else SpanTexts(ps[..|ps| - 1]) + [ps[|ps| - 1].span.text]
  }

  predicate CoversTokens(env: Alphabet, texts: seq<string>, claim: string)
  {
    multiset(Tokens(env, claim)) <= multiset(Tokens(env, Joined(texts)))
  }

  predicate PropositionsHold(env: Alphabet, ps: seq<Proposition>, subject: Subject, evidence: map<string, string>)
  {
    && (forall i :: 0 <= i < |ps| ==> PropositionHolds(ps[i], subject, evidence))
    && OrderedAndDisjoint(ps)
    && CoversTokens(env, SpanTexts(ps), subject.text)
  }

  ghost predicate Covered(evidence: map<string, string>, ids: seq<string>)
  {
    forall id :: id in ids ==> id in evidence
  }

  predicate UnsupportedHolds(u: ClaimSpan, p: Proposition, subject: Subject)
  {
    Inside(u, p.span) && ExactClaimSpan(u, subject.text)
  }

  predicate QuoteHolds(s: EvidenceSpan, p: Proposition, evidence: map<string, string>)
  {
    s.evidenceId in p.evidenceIds && ExactEvidenceSpan(s, evidence)
  }

  method ValidUnsupported(p: Proposition, subject: Subject) returns (ok: bool)
    requires ValidProposition(p) && ExactClaimSpan(p.span, subject.text)
    ensures ok <==> forall u :: u in p.unsupported ==> UnsupportedHolds(u, p, subject)
  {
    var text := subject.text;
    assert forall u :: u in p.unsupported ==> ValidClaimSpan(u);
    hide ValidProposition;
    for i := 0 to |p.unsupported|
      invariant forall k :: 0 <= k < i ==> UnsupportedHolds(p.unsupported[k], p, subject)
    {
      var u := p.unsupported[i];
      assert u in p.unsupported;
      if u.start < p.span.start || u.end > p.span.end || text[u.start..u.end] != u.text {
        return false;
      }
    }
    return true;
  }

  method ValidQuotes(p: Proposition, evidence: map<string, string>) returns (ok: bool)
    requires ValidProposition(p) && Covered(evidence, p.evidenceIds)
    ensures ok <==> forall s :: s in p.support + p.contradictions ==> QuoteHolds(s, p, evidence)
  {
    var spans := p.support + p.contradictions;
    assert forall s :: s in spans ==> ValidEvidenceSpan(s);
    hide ValidProposition;
    for i := 0 to |spans|
      invariant forall k :: 0 <= k < i ==> QuoteHolds(spans[k], p, evidence)
    {
      var s := spans[i];
      assert s in spans;
      if s.evidenceId !in p.evidenceIds {
        return false;
      }
      var excerpt := evidence[s.evidenceId];
      if s.end > |excerpt| || excerpt[s.start..s.end] != s.text {
        return false;
      }
    }
    return true;
  }

  /** The span checks of one proposition. */
  method ValidSpans(p: Proposition, subject: Subject, evidence: map<string, string>) returns (ok: bool)
    requires ValidProposition(p) && ExactClaimSpan(p.span, subject.text)
    requires Covered(evidence, subject.evidenceIds) && forall id :: id in p.evidenceIds ==> id in subject.evidenceIds
    ensures ok <==> PropositionHolds(p, subject, evidence)
  {
    hide ValidProposition, UnsupportedHolds, QuoteHolds;
    ok := ValidUnsupported(p, subject);
    if ok {
      ok := ValidQuotes(p, evidence);
    }
  }

  lemma {:induction false} OneMoreText(ps: seq<Proposition>, n: nat)
    requires n < |ps|
    ensures SpanTexts(ps[..n + 1]) == SpanTexts(ps[..n]) + [ps[n].span.text]
  {
    assert ps[..n + 1][..n] == ps[..n];
  }

  ghost predicate PrefixHolds(
    ps: seq<Proposition>, n: nat, subject: Subject, evidence: map<string, string>, previousEnd: nat)
    requires n <= |ps|
  {
    && (forall i :: 0 <= i < n ==> PropositionHolds(ps[i], subject, evidence))
    && (forall i, j :: 0 <= i < j < n ==> ps[i].span.end <= ps[j].span.start)
    && (forall i :: 0 <= i < n ==> ps[i].span.end <= previousEnd)
    && previousEnd == if n == 0 then 0 else ps[n - 1].span.end
  }

  lemma {:induction false} PrefixOneMore(
    ps: seq<Proposition>, n: nat, subject: Subject, evidence: map<string, string>, previousEnd: nat)
    requires n < |ps| && PrefixHolds(ps, n, subject, evidence, previousEnd) && ValidProposition(ps[n])
    requires previousEnd <= ps[n].span.start && PropositionHolds(ps[n], subject, evidence)
    ensures PrefixHolds(ps, n + 1, subject, evidence, ps[n].span.end)
  {
    hide PropositionHolds;
  }

  lemma {:induction false} LateStart(
    env: Alphabet, ps: seq<Proposition>, n: nat, subject: Subject, evidence: map<string, string>, previousEnd: nat)
    requires n < |ps| && PrefixHolds(ps, n, subject, evidence, previousEnd) && ps[n].span.start < previousEnd
    ensures !PropositionsHold(env, ps, subject, evidence)
  {
    assert ps[n].span.start < ps[n - 1].span.end;
    hide PropositionHolds, CoversTokens;
  }

  lemma {:induction false} WholeHolds(
    env: Alphabet, ps: seq<Proposition>, subject: Subject, evidence: map<string, string>, previousEnd: nat)
    requires PrefixHolds(ps, |ps|, subject, evidence, previousEnd)
    ensures PropositionsHold(env, ps, subject, evidence) <==> CoversTokens(env, SpanTexts(ps), subject.text)
  {
    hide PropositionHolds, CoversTokens;
  }

  lemma {:induction false} OneFails(
    env: Alphabet, ps: seq<Proposition>, n: nat, subject: Subject, evidence: map<string, string>)
    requires n < |ps| && !PropositionHolds(ps[n], subject, evidence)
    ensures !PropositionsHold(env, ps, subject, evidence)
  {
  }

  /** Accepts exactly when every proposition holds, the spans are in order and
      disjoint, and together they cover every material token of the claim. */
  method ValidPropositions(env: Alphabet, ps: seq<Proposition>, subject: Subject, evidence: map<string, string>)
    returns (ok: bool)
    requires forall i :: 0 <= i < |ps| ==> ValidProposition(ps[i])
    requires Covered(evidence, subject.evidenceIds)
    ensures ok <==> PropositionsHold(env, ps, subject, evidence)
  {
    hide PrefixHolds, PropositionsHold, PropositionHolds, CoversTokens, ValidProposition;
    var previousEnd := 0;
    var covered: seq<string> := [];
    assert PrefixHolds(ps, 0, subject, evidence, previousEnd) by { NothingYet(ps, subject, evidence); }
    assert ps[..0] == [];
    for n := 0 to |ps|
      invariant PrefixHolds(ps, n, subject, evidence, previousEnd)
      invariant covered == SpanTexts(ps[..n])
    {
      var p := ps[n];
      if p.span.start < previousEnd {
        LateStart(env, ps, n, subject, evidence, previousEnd);
        return false;
      }
      var exact := StartsWell(p, subject);
      if !exact {
        OneFails(env, ps, n, subject, evidence);
        return false;
      }
      var spans := ValidSpans(p, subject, evidence);
      if !spans {
        OneFails(env, ps, n, subject, evidence);
        return false;
      }
      PrefixOneMore(ps, n, subject, evidence, previousEnd);
      OneMoreText(ps, n);
      previousEnd := p.span.end;
      covered := covered + [p.span.text];
    }
    WholeHolds(env, ps, subject, evidence, previousEnd);
    assert ps[..|ps|] == ps;
    return CoversTokens(env, covered, subject.text);
  }

  lemma {:induction false} NothingYet(ps: seq<Proposition>, subject: Subject, evidence: map<string, string>)
    ensures PrefixHolds(ps, 0, subject, evidence, 0)
  {
  }

  /** The checks on the claim span and the cited identities. */
  method StartsWell(p: Proposition, subject: Subject) returns (ok: bool)
    requires ValidProposition(p)
    ensures ok <==>
      ExactClaimSpan(p.span, subject.text) && forall id :: id in p.evidenceIds ==> id in subject.evidenceIds
    ensures !ok ==> forall evidence :: !PropositionHolds(p, subject, evidence)
  {
    if p.span.end > |subject.text| || subject.text[p.span.start..p.span.end] != p.span.text {
      return false;
    }
    return forall id :: id in p.evidenceIds ==> id in subject.evidenceIds;
  }

  // ----- outcomes --------------------------------------------------------------------------------------

  function Threshold(outcome: Support, risk: Risk): real
  {
    match outcome
    case Supported => if risk == HighRisk then 0.95 else 0.90
    case PartialSupport => 0.80
    case Contradiction => 0.90
    case Unknown => 0.0
  }

  function NormalizedOutcome(p: Proposition, risk: Risk): Support
  {
    if p.confidence < Threshold(p.outcome, risk) then Unknown else p.outcome
  }

  function NormalizedOutcomes(ps: seq<Proposition>, risk: Risk): seq<Support>
  {
    seq(|ps|, i requires 0 <= i < |ps| => NormalizedOutcome(ps[i], risk))
  }

  function WeakestOutcome(outcomes: seq<Support>): Support
    requires outcomes != []
  {
    if Contradiction in outcomes then Contradiction
    else if Unknown in outcomes then Unknown
    else if PartialSupport in outcomes then PartialSupport
    else Supported
  }

  function LowestConfidence(ps: seq<Proposition>): (c: real)
    requires ps != []
  {
    if |ps| == 1 then ps[0].confidence
    else
      var rest := LowestConfidence(ps[..|ps| - 1]);
      if ps[|ps| - 1].confidence < rest then ps[|ps| - 1].confidence else rest
  }

  /** A correction narrows: another text, no new evidence, and some material
      tokens, all of them the original's, counted with multiplicity. */
  predicate ValidCorrection(env: Alphabet, subject: Subject, c: Correction)
  {
    && c.text != subject.text
    && (forall id :: id in c.evidenceIds ==> id in subject.evidenceIds)
    && Tokens(env, c.text) != []
    && multiset(Tokens(env, c.text)) <= multiset(Tokens(env, subject.text))
  }

  /** One reply as an attempt, or nothing when it cannot be used. */
  function ParsedOutput(
    env: Alphabet, request: Request, evidence: map<string, string>, subject: Subject, reply: Reply,
    number: nat): Option<(Attempt, Option<Correction>)>
  {
    if !reply.Text? || reply.length > MaxOutputChars || reply.parsed.None? then None
    else
      var output := reply.parsed.value;
      if !ValidPayload(output) || output.claimId != request.claimId
         || !PropositionsHold(env, output.propositions, subject, evidence) then None
      else
        var outcome := WeakestOutcome(NormalizedOutcomes(output.propositions, request.risk));
        Some((Attempt(number, subject, output.propositions, outcome, LowestConfidence(output.propositions)),
              output.correction))
  }

  ghost predicate LeastConfident(ps: seq<Proposition>, confidence: real)
  {
    && (forall i :: 0 <= i < |ps| ==> confidence <= ps[i].confidence)
    && exists i :: 0 <= i < |ps| && confidence == ps[i].confidence
  }

  lemma {:induction false} ConfidenceIsLowest(ps: seq<Proposition>)
    requires ps != []
    ensures LeastConfident(ps, LowestConfidence(ps))
  {
    if |ps| > 1 {
      var init := ps[..|ps| - 1];
      ConfidenceIsLowest(init);
      assert forall i :: 0 <= i < |init| ==> init[i] == ps[i];
      var j :| 0 <= j < |init| && LowestConfidence(init) == init[j].confidence;
      var k := if LowestConfidence(ps) == ps[|ps| - 1].confidence then |ps| - 1 else j;
      assert LowestConfidence(ps) == ps[k].confidence;
    } else {
      assert LowestConfidence(ps) == ps[0].confidence;
    }
  }

  /** An attempt carries the least of its propositions' confidences. */
  method ParseProviderOutput(env: Alphabet, request: Request, evidence: map<string, string>, subject: Subject,
                             reply: Reply, number: nat)
    returns (r: Option<(Attempt, Option<Correction>)>)
    requires Covered(evidence, subject.evidenceIds)
    ensures r == ParsedOutput(env, request, evidence, subject, reply, number)
    ensures r.Some? ==> LeastConfident(r.value.0.propositions, r.value.0.confidence)
  {
    if !reply.Text? || reply.length > MaxOutputChars || reply.parsed.None? {
      return None;
    }
    var output := reply.parsed.value;
    if !ValidPayload(output) || output.claimId != request.claimId {
      return None;
    }
    assert forall i :: 0 <= i < |output.propositions| ==> ValidProposition(output.propositions[i]);
    assert output.propositions != [];
    hide PropositionsHold, ValidProposition, Covered;
    var ok := ValidPropositions(env, output.propositions, subject, evidence);
    if !ok {
      return None;
    }
    var outcome := WeakestOutcome(NormalizedOutcomes(output.propositions, request.risk));
    var confidence := LowestConfidence(output.propositions);
    ConfidenceIsLowest(output.propositions);
    r := Some((Attempt(number, subject, output.propositions, outcome, confidence), output.correction));
  }

  // ----- results -------------------------------------------------------------------------------------------

  /** The contract of a result; breaking it raises instead of returning. */
  predicate ValidResult(r: Result)
  {
    && (r.publication == GroundedProse ==>
          r.state == Satisfied && r.outcome == Supported && r.confidence.Some? && r.identity.Some?)
    && |r.attempts| <= 2
    && (|r.attempts| == 2 <==> r.correction.Some?)
  }

  /** Absent when construction raises. */
  function Constructed(r: Result): Option<Result>
  {
    if ValidResult(r) then Some(r) else None
  }

  /** The loop variables, and what stays fixed during a run. */
  datatype Progress = Progress(subject: Subject, attempts: seq<Attempt>, correction: Option<Lineage>)

  datatype Setting = Setting(
    env: Alphabet, request: Request, evidence: map<string, string>, identity: Identity, latencyMs: nat)

  function ReleaseMatches(approval: Option<Identity>, identity: Identity): bool
  {
    approval == Some(identity)
  }

  function Failure(request: Request, state: State, reason: string, snapshots: seq<string>, identity: Option<Identity>,
    attempts: seq<Attempt>, correction: Option<Lineage>, latencyMs: nat): Option<Result>
  {
    Constructed(Result(request.claim.text, state, Unknown, None, EvidenceOnly, snapshots, attempts, correction,
                       identity, latencyMs, reason))
  }

  function PassFailure(s: Setting, state: State, reason: string, p: Progress): Option<Result>
  {
    Failure(s.request, state, reason, s.request.claim.evidenceIds, Some(s.identity), p.attempts, p.correction,
            s.latencyMs)
  }

  function Success(s: Setting, p: Progress): Option<Result>
    requires p.attempts != []
  {
    var matches := ReleaseMatches(s.request.release, s.identity);
    var publishable := matches && s.latencyMs <= BudgetMs;
    Constructed(Result(p.subject.text, Satisfied, Supported, Some(p.attempts[|p.attempts| - 1].confidence),
                       if publishable then GroundedProse else EvidenceOnly,
                       s.request.claim.evidenceIds, p.attempts, p.correction, Some(s.identity), s.latencyMs,
                       if !matches then "CLAIM_VERIFIER_RELEASE_NOT_APPROVED"
                       else if !publishable then "CLAIM_VERIFIER_BUDGET_EXCEEDED"
                       else "CLAIM_VERIFIER_SUPPORTED"))
  }

  function NotPublishable(s: Setting, p: Progress): Option<Result>
    requires p.attempts != []
  {
    var last := p.attempts[|p.attempts| - 1];
    Constructed(Result(p.subject.text, Satisfied, last.outcome, Some(last.confidence), EvidenceOnly,
                       s.request.claim.evidenceIds, p.attempts, p.correction, Some(s.identity), s.latencyMs,
                       "CLAIM_VERIFIER_NOT_PUBLISHABLE"))
  }

  /** The progress after a valid correction. */
  function Narrowed(p: Progress, attempt: Attempt, c: Correction): Progress
  {
    Progress(Subject(c.text, c.evidenceIds), p.attempts + [attempt],
             Some(Lineage(p.subject.text, c.text, c.evidenceIds)))
  }

  /** What one pass does: return, or go on with a narrowed subject. */
  datatype PassEnd = Ends(result: Option<Result>) | Continues(progress: Progress)

  function Pass(s: Setting, reply: Reply, number: nat, p: Progress): PassEnd
  {
    if reply == DeadlinePassed then Ends(PassFailure(s, TimedOut, "CLAIM_VERIFIER_TIMED_OUT", p))
    else if reply == Raised then Ends(PassFailure(s, Unavailable, "CLAIM_VERIFIER_UNAVAILABLE", p))
    else
      var parsed := ParsedOutput(s.env, s.request, s.evidence, p.subject, reply, number);
      if parsed.None? then Ends(PassFailure(s, InvalidOutput, "CLAIM_VERIFIER_OUTPUT_INVALID", p))
      else
        var (attempt, proposed) := parsed.value;
        var done := p.(attempts := p.attempts + [attempt]);
        if attempt.outcome == Supported then Ends(Success(s, done))
        else if number == 1 || proposed.None? then Ends(NotPublishable(s, done))
        else if !ValidCorrection(s.env, p.subject, proposed.value) then
          Ends(PassFailure(s, InvalidOutput, "CLAIM_VERIFIER_CORRECTION_INVALID", done.(correction := None)))
        else Continues(Narrowed(p, attempt, proposed.value))
  }

  function Start(request: Request): Progress
  {
    Progress(request.claim, [], None)
  }

  function Verification(
    env: Alphabet, request: Request, intake: Intake, provider: Provider, latencyMs: nat): Option<Result>
  {
    match intake
    case InputInvalid =>
      Failure(request, InvalidOutput, "CLAIM_VERIFIER_INPUT_INVALID", [], None, [], None, latencyMs)
    case EvidenceInvalid =>
      Failure(request, InvalidOutput, "CLAIM_VERIFIER_EVIDENCE_IDENTITY_INVALID", [], None, [], None, latencyMs)
    case Admitted(evidence) =>
      if provider.identity.None? then
        Failure(request, Unavailable, "CLAIM_VERIFIER_UNAVAILABLE", request.claim.evidenceIds, None, [], None,
                latencyMs)
      else
        Passes(Setting(env, request, evidence, provider.identity.value, latencyMs), provider.replies)
  }

  function Passes(s: Setting, replies: nat -> Reply): Option<Result>
  {
    match Pass(s, replies(0), 0, Start(s.request))
    case Ends(result) => result
    case Continues(next) =>
      match Pass(s, replies(1), 1, next)
      case Ends(result) => result
      case Continues(_) => None
  }

  // ----- the loop ----------------------------------------------------------------------------------------------

  /** The evidence is that of exactly the identities the claim names. */
  ghost predicate ExactEvidence(request: Request, evidence: map<string, string>)
  {
    evidence.Keys == set id | id in request.claim.evidenceIds
  }

  lemma {:induction false} SecondPassEnds(s: Setting, reply: Reply, p: Progress)
    ensures Pass(s, reply, 1, p).Ends?
  {
    hide ParsedOutput, PassFailure, Success, NotPublishable, ValidCorrection;
  }

  lemma {:induction false} NarrowedStaysCovered(
    env: Alphabet, evidence: map<string, string>, p: Progress, attempt: Attempt, c: Correction)
    requires Covered(evidence, p.subject.evidenceIds) && ValidCorrection(env, p.subject, c)
    ensures Covered(evidence, Narrowed(p, attempt, c).subject.evidenceIds)
  {
    hide Tokens;
  }

  method ExecuteClaimVerification(env: Alphabet, request: Request, intake: Intake, provider: Provider, latencyMs: nat)
    returns (result: Option<Result>)
    requires intake.Admitted? ==> ExactEvidence(request, intake.evidence)
    ensures result == Verification(env, request, intake, provider, latencyMs)
  {
    match intake {
      case InputInvalid =>
        return Failure(request, InvalidOutput, "CLAIM_VERIFIER_INPUT_INVALID", [], None, [], None, latencyMs);
      case EvidenceInvalid =>
        return Failure(request, InvalidOutput, "CLAIM_VERIFIER_EVIDENCE_IDENTITY_INVALID", [], None, [], None,
                       latencyMs);
      case Admitted(evidence) =>
        if provider.identity.None? {
          return Failure(request, Unavailable, "CLAIM_VERIFIER_UNAVAILABLE", request.claim.evidenceIds, None, [], None,
                         latencyMs);
        }
        var s := Setting(env, request, evidence, provider.identity.value, latencyMs);
        result := RunPasses(s, provider.replies);
    }
  }

  /** The two-pass loop. */
  method RunPasses(s: Setting, replies: nat -> Reply) returns (result: Option<Result>)
    requires ExactEvidence(s.request, s.evidence)
    ensures result == Passes(s, replies)
  {
    hide ParsedOutput, PassFailure, Success, NotPublishable, ValidCorrection;
    var currentText := s.request.claim.text;
    var currentIds := s.request.claim.evidenceIds;
    var attempts: seq<Attempt> := [];
    var correction: Option<Lineage> := None;
    for number := 0 to 2
      invariant Covered(s.evidence, currentIds)
      invariant number == 0 ==> Progress(Subject(currentText, currentIds), attempts, correction) == Start(s.request)
      invariant number == 1 ==>
        Pass(s, replies(0), 0, Start(s.request)) ==
          Continues(Progress(Subject(currentText, currentIds), attempts, correction))
      invariant number < 2
    {
      var subject := Subject(currentText, currentIds);
      ghost var p := Progress(subject, attempts, correction);
      if number == 1 {
        SecondPassEnds(s, replies(1), p);
      }
      var reply := replies(number);
      if reply == DeadlinePassed {
        return PassFailure(s, TimedOut, "CLAIM_VERIFIER_TIMED_OUT", Progress(subject, attempts, correction));
      }
      if reply == Raised {
        return PassFailure(s, Unavailable, "CLAIM_VERIFIER_UNAVAILABLE", Progress(subject, attempts, correction));
      }
      var parsed := ParseProviderOutput(s.env, s.request, s.evidence, subject, reply, number);
      if parsed.None? {
        return PassFailure(s, InvalidOutput, "CLAIM_VERIFIER_OUTPUT_INVALID", Progress(subject, attempts, correction));
      }
      var (attempt, proposed) := parsed.value;
      attempts := attempts + [attempt];
      if attempt.outcome == Supported {
        return Success(s, Progress(subject, attempts, correction));
      }
      if number == 1 || proposed.None? {
        break;
      }
      if !ValidCorrection(s.env, subject, proposed.value) {
        return PassFailure(s, InvalidOutput, "CLAIM_VERIFIER_CORRECTION_INVALID", Progress(subject, attempts, None));
      }
      NarrowedStaysCovered(s.env, s.evidence, p, attempt, proposed.value);
      correction := Some(Lineage(currentText, proposed.value.text, proposed.value.evidenceIds));
      currentText := proposed.value.text;
      currentIds := proposed.value.evidenceIds;
    }
    result := NotPublishable(s, Progress(Subject(currentText, currentIds), attempts, correction));
  }
}
