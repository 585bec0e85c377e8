/** The confidence calculus (apps/api/backend/ask/confidence.py). Scores are
    reals. */
module Confidence {
  import opened Foundations
  import opened ConfidenceArithmetic

  datatype Label = Unknown | Low | Medium | High

  datatype Mode = GroundedRegulatory | GeneralAi | LiveIntelligence

  datatype Penalty =
    | UnresolvedMaterialContradiction | StaleForCurrentQuery | RequiredEvidenceCapabilityUnavailable
    | InferredLegalApplicability | SingleSourceHighImpactClaim | InferredMaterialDateType

  datatype HardUnknown =
    | DocumentNotInspectable | JurisdictionMateriallyUnresolved | CurrentStatusEvidenceUnavailable
    | CentralCredibleSourceConflict | DeadlineOrObligationWithoutInspectableBasis

  datatype GateFailure =
    | AuthoritativeEvidenceRequired | CoverageBelow85 | ScopeResolutionBelow85
    | UnresolvedContradiction | FreshnessNotFit

  datatype StrictReason = Compliance | Deadline | CurrentStatus | VersionComparison

  datatype Dimensions = Dimensions(
    authority: real, relevance: real, coverage: real, agreement: real, freshness: real, scope: real)

  datatype Claim = Claim(
    id: string, section: string, mode: Mode, policyCeiling: Label, dimensions: Dimensions,
    penalties: seq<Penalty>, hardUnknowns: seq<HardUnknown>, authoritative: bool,
    freshEnough: bool, inputCeiling: Label)

  datatype Section = Section(key: string, claimIds: seq<string>, importance: real, critical: bool)

  datatype Request = Request(claims: seq<Claim>, sections: seq<Section>, strict: seq<StrictReason>)

  datatype ClaimResult = ClaimResult(
    id: string, section: string, mode: Mode, baseScore: real, penaltyPoints: int, finalScore: real,
    numericLabel: Label, finalLabel: Label, ceiling: Label, gateFailures: seq<GateFailure>)

  datatype SectionResult = SectionResult(
    key: string, mode: Mode, claimIds: seq<string>, mean: real, lowest: real, score: real,
    finalLabel: Label, importance: real, critical: bool)

  datatype Overall = Overall(mean: real, lowestCritical: real, score: real, finalLabel: Label)

  datatype Result = Result(claims: seq<ClaimResult>, sections: seq<SectionResult>, overall: Overall)

  // ----- labels -------------------------------------------------------------------------------

  function Rank(l: Label): nat
  {
    match l
    case Unknown => 0
    case Low => 1
    case Medium => 2
    case High => 3
  }

  function MinLabel(a: Label, b: Label): Label
  {
    if Rank(b) < Rank(a) then b else a
  }

  function WeakestLabel(labels: seq<Label>): Label
    requires labels != []
  {
    if |labels| == 1 then labels[0] else MinLabel(labels[0], WeakestLabel(labels[1..]))
  }

  function LabelForScore(score: real): Label
  {
    if score >= 80.0 then High else if score >= 60.0 then Medium else if score >= 35.0 then Low else Unknown
  }

  // ----- request contracts -----------------------------------------------------------------------

  predicate InRange(x: real)
  {
    0.0 <= x <= 100.0
  }

  predicate ValidDimensions(d: Dimensions)
  {
    && InRange(d.authority) && InRange(d.relevance) && InRange(d.coverage)
    && InRange(d.agreement) && InRange(d.freshness) && InRange(d.scope)
  }

  predicate Distinct<T(==)>(s: seq<T>)
  {
    forall i, j :: 0 <= i < j < |s| ==> s[i] != s[j]
  }

  /** A General AI policy never allows High. */
  predicate ValidPolicy(mode: Mode, ceiling: Label)
  {
    mode == GeneralAi ==> ceiling != High
  }

  predicate ValidClaim(c: Claim)
  {
    && c.id != "" && ValidPolicy(c.mode, c.policyCeiling) && ValidDimensions(c.dimensions)
    && Distinct(c.penalties) && Distinct(c.hardUnknowns)
  }

  predicate ValidSection(s: Section)
  {
    s.key != "" && s.claimIds != [] && Distinct(s.claimIds) && 0.0 < s.importance <= 100.0
  }

  function ClaimIds(claims: seq<Claim>): seq<string>
  {
    seq(|claims|, i requires 0 <= i < |claims| => claims[i].id)
  }

  function Keys(sections: seq<Section>): seq<string>
  {
    seq(|sections|, i requires 0 <= i < |sections| => sections[i].key)
  }

  function Referenced(sections: seq<Section>): seq<string>
  {
    if sections == [] then [] else sections[0].claimIds + Referenced(sections[1..])
  }

  /** The dictionary from claim id to claim. */
  function Indexed(claims: seq<Claim>): map<string, Claim>
  {
    if claims == [] then map[] else Indexed(claims[..|claims| - 1])[claims[|claims| - 1].id := claims[|claims| - 1]]
  }

  predicate SectionAgrees(s: Section, inputs: map<string, Claim>)
    requires s.claimIds != [] && forall id :: id in s.claimIds ==> id in inputs
  {
    forall id :: id in s.claimIds ==>
      inputs[id].section == s.key && inputs[id].mode == inputs[s.claimIds[0]].mode
  }

  predicate ValidRequest(request: Request)
  {
    && request.claims != [] && request.sections != []
    && (forall c :: c in request.claims ==> ValidClaim(c))
    && (forall s :: s in request.sections ==> ValidSection(s))
    && Distinct(ClaimIds(request.claims))
    && Distinct(Keys(request.sections))
    && Distinct(request.strict)
    && (exists s :: s in request.sections && s.critical)
    && Distinct(Referenced(request.sections))
    && (forall id :: id in Referenced(request.sections) ==> id in Indexed(request.claims))
    && (forall id :: id in Indexed(request.claims) ==> id in Referenced(request.sections))
    && (forall s, id :: s in request.sections && id in s.claimIds ==> id in Indexed(request.claims))
    && (forall s :: s in request.sections ==> SectionAgrees(s, Indexed(request.claims)))
  }

  // ----- one claim ----------------------------------------------------------------------------------

  function BaseScore(d: Dimensions): real
  {
    0.25 * d.authority + 0.15 * d.relevance + 0.20 * d.coverage + 0.15 * d.agreement
    + 0.15 * d.freshness + 0.10 * d.scope
  }

  function Points(p: Penalty): int
  {
    match p
    case UnresolvedMaterialContradiction => 25
    case StaleForCurrentQuery => 20
    case RequiredEvidenceCapabilityUnavailable => 15
    case InferredLegalApplicability => 10
    case SingleSourceHighImpactClaim => 10
    case InferredMaterialDateType => 5
  }

  function PenaltyPoints(penalties: seq<Penalty>): int
  {
    if penalties == [] then 0 else Points(penalties[0]) + PenaltyPoints(penalties[1..])
  }

  function ClaimScore(c: Claim): real
  {
    Min(100.0, Max(0.0, BaseScore(c.dimensions) - PenaltyPoints(c.penalties) as real))
  }

  /** What each High gate asks for. */
  predicate GateFails(c: Claim, f: GateFailure)
  {
    match f
    case AuthoritativeEvidenceRequired => !c.authoritative
    case CoverageBelow85 => c.dimensions.coverage < 85.0
    case ScopeResolutionBelow85 => c.dimensions.scope < 85.0
    case UnresolvedContradiction => UnresolvedMaterialContradiction in c.penalties
    case FreshnessNotFit => !c.freshEnough || StaleForCurrentQuery in c.penalties
  }

  const AllGates: seq<GateFailure> :=
    [AuthoritativeEvidenceRequired, CoverageBelow85, ScopeResolutionBelow85, UnresolvedContradiction, FreshnessNotFit]

  function FailingOf(c: Claim, gates: seq<GateFailure>): seq<GateFailure>
  {
    if gates == [] then []
    else if GateFails(c, gates[0]) then [gates[0]] + FailingOf(c, gates[1..])
    else FailingOf(c, gates[1..])
  }

  /** The failed gates, in the order of the gates. */
  function GateFailures(c: Claim): seq<GateFailure>
  {
    FailingOf(c, AllGates)
  }

  predicate GatesPass(c: Claim)
  {
    && c.authoritative && c.freshEnough
    && c.dimensions.coverage >= 85.0 && c.dimensions.scope >= 85.0
    && UnresolvedMaterialContradiction !in c.penalties && StaleForCurrentQuery !in c.penalties
  }

  lemma {:induction false} FailingOfMembers(c: Claim, gates: seq<GateFailure>)
    ensures forall f :: f in FailingOf(c, gates) <==> f in gates && GateFails(c, f)
  {
    if gates != [] {
      FailingOfMembers(c, gates[1..]);
      hide GateFails;
      assert forall f :: f in gates <==> f == gates[0] || f in gates[1..];
    }
  }

  lemma {:induction false} GateListed(f: GateFailure)
    ensures f in AllGates
  {
    match f {
      case AuthoritativeEvidenceRequired => assert AllGates[0] == f;
      case CoverageBelow85 => assert AllGates[1] == f;
      case ScopeResolutionBelow85 => assert AllGates[2] == f;
      case UnresolvedContradiction => assert AllGates[3] == f;
      case FreshnessNotFit => assert AllGates[4] == f;
    }
  }

  /** The list holds exactly the gates that fail, and it is empty exactly when
      the claim passes them all. */
  lemma {:induction false} GatesPassExactly(c: Claim)
    ensures forall f :: f in GateFailures(c) <==> GateFails(c, f)
    ensures GateFailures(c) == [] <==> GatesPass(c)
  {
    FailingOfMembers(c, AllGates);
    forall f: GateFailure
      ensures f in AllGates
    {
      GateListed(f);
    }
    hide FailingOf;
    var failures := GateFailures(c);
    assert failures == [] <==> forall f :: f !in failures by {
      if failures != [] {
        assert failures[0] in failures;
      }
    }
    assert GatesPass(c) <==> forall f :: !GateFails(c, f) by {
      EveryGate(c);
    }
  }

  lemma {:induction false} EveryGate(c: Claim)
    ensures GatesPass(c) <==> forall f :: !GateFails(c, f)
  {
    if forall f :: !GateFails(c, f) {
      assert !GateFails(c, AuthoritativeEvidenceRequired) && !GateFails(c, CoverageBelow85);
      assert !GateFails(c, ScopeResolutionBelow85) && !GateFails(c, UnresolvedContradiction);
      assert !GateFails(c, FreshnessNotFit);
    }
  }

  function Ceiling(c: Claim): Label
  {
    MinLabel(c.policyCeiling, c.inputCeiling)
  }

  function ClaimLabel(c: Claim): Label
  {
    var numeric := LabelForScore(ClaimScore(c));
    var capped := MinLabel(numeric, Ceiling(c));
    if c.hardUnknowns != [] then Unknown
    else if numeric == High && GateFailures(c) != [] then MinLabel(capped, Medium)
    else capped
  }

  function ClaimResultOf(c: Claim): ClaimResult
  {
    ClaimResult(c.id, c.section, c.mode, BaseScore(c.dimensions), PenaltyPoints(c.penalties), ClaimScore(c),
                LabelForScore(ClaimScore(c)), ClaimLabel(c), Ceiling(c), GateFailures(c))
  }

  // ----- sections and the whole ---------------------------------------------------------------------------

  /** The claims a section names, in its order. */
  function Members(ids: seq<string>, inputs: map<string, Claim>): seq<Claim>
    requires forall id :: id in ids ==> id in inputs
  {
    seq(|ids|, i requires 0 <= i < |ids| => inputs[ids[i]])
  }

  function ByCoverage(members: seq<Claim>): seq<Weighted>
  {
    seq(|members|, i requires 0 <= i < |members| => Weighted(ClaimScore(members[i]), members[i].dimensions.coverage))
  }

  function Scores(members: seq<Claim>): seq<real>
  {
    seq(|members|, i requires 0 <= i < |members| => ClaimScore(members[i]))
  }

  function Labels(members: seq<Claim>): seq<Label>
  {
    seq(|members|, i requires 0 <= i < |members| => ClaimLabel(members[i]))
  }

  function SectionScore(members: seq<Claim>): real
    requires members != []
  {
    Blend(Mean(ByCoverage(members)), Lowest(Scores(members)))
  }

  function SectionLabel(members: seq<Claim>): Label
    requires members != []
  {
    MinLabel(LabelForScore(SectionScore(members)), WeakestLabel(Labels(members)))
  }

  function SectionResultOf(s: Section, members: seq<Claim>): SectionResult
    requires members != []
  {
    SectionResult(s.key, members[0].mode, s.claimIds, Mean(ByCoverage(members)), Lowest(Scores(members)),
                  SectionScore(members), SectionLabel(members), s.importance, s.critical)
  }

  function ByImportance(sections: seq<SectionResult>): seq<Weighted>
  {
    seq(|sections|, i requires 0 <= i < |sections| => Weighted(sections[i].score, sections[i].importance))
  }

  function Critical(sections: seq<SectionResult>): seq<SectionResult>
  {
    if sections == [] then []
    else if sections[0].critical then [sections[0]] + Critical(sections[1..])
    else Critical(sections[1..])
  }

  function SectionScores(sections: seq<SectionResult>): seq<real>
  {
    seq(|sections|, i requires 0 <= i < |sections| => sections[i].score)
  }

  function SectionLabels(sections: seq<SectionResult>): seq<Label>
  {
    seq(|sections|, i requires 0 <= i < |sections| => sections[i].finalLabel)
  }

  function FinalLabels(claims: seq<ClaimResult>): seq<Label>
  {
    seq(|claims|, i requires 0 <= i < |claims| => claims[i].finalLabel)
  }

  function OverallOf(claims: seq<ClaimResult>, sections: seq<SectionResult>, strict: seq<StrictReason>): Overall
    requires claims != [] && Critical(sections) != []
  {
    var critical := Critical(sections);
    var mean := Mean(ByImportance(sections));
    var lowest := Lowest(SectionScores(critical));
    var score := Blend(mean, lowest);
    var capped := MinLabel(LabelForScore(score), WeakestLabel(SectionLabels(critical)));
    Overall(mean, lowest, score,
            if strict != [] then MinLabel(capped, WeakestLabel(FinalLabels(claims))) else capped)
  }

  function MembersOf(request: Request, s: Section): seq<Claim>
    requires ValidRequest(request) && s in request.sections
  {
    Members(s.claimIds, Indexed(request.claims))
  }

  function ClaimResults(request: Request): seq<ClaimResult>
  {
    seq(|request.claims|, i requires 0 <= i < |request.claims| => ClaimResultOf(request.claims[i]))
  }

  function SectionResults(request: Request): seq<SectionResult>
    requires ValidRequest(request)
  {
    seq(|request.sections|, i requires 0 <= i < |request.sections| =>
      SectionResultOf(request.sections[i], MembersOf(request, request.sections[i])))
  }

  lemma {:induction false} CriticalExactly(sections: seq<SectionResult>)
    ensures forall r :: r in Critical(sections) <==> r in sections && r.critical
  {
    if sections != [] {
      CriticalExactly(sections[1..]);
      hide Critical;
      assert forall r :: r in sections <==> r == sections[0] || r in sections[1..];
    }
  }

  lemma {:induction false} SomeCritical(request: Request)
    requires ValidRequest(request)
    ensures Critical(SectionResults(request)) != []
  {
    var results := SectionResults(request);
    CriticalExactly(results);
    var i :| 0 <= i < |request.sections| && request.sections[i].critical;
    assert results[i].critical && results[i] in results;
  }

  function Confidences(request: Request): Result
    requires ValidRequest(request)
  {
    SomeCritical(request);
    Result(ClaimResults(request), SectionResults(request),
           OverallOf(ClaimResults(request), SectionResults(request), request.strict))
  }

  // ----- the loops ------------------------------------------------------------------------------------------

  function Place(f: GateFailure): nat
  {
    match f
    case AuthoritativeEvidenceRequired => 0
    case CoverageBelow85 => 1
    case ScopeResolutionBelow85 => 2
    case UnresolvedContradiction => 3
    case FreshnessNotFit => 4
  }

  /** `failures` is right for the first gates, the rest being still ahead. */
  ghost predicate JudgedTo(c: Claim, failures: seq<GateFailure>, k: nat)
  {
    k <= |AllGates| && failures + FailingOf(c, AllGates[k..]) == GateFailures(c)
  }

  lemma {:induction false} NextGate(c: Claim, failures: seq<GateFailure>, f: GateFailure)
    requires JudgedTo(c, failures, Place(f))
    ensures JudgedTo(c, if GateFails(c, f) then failures + [f] else failures, Place(f) + 1)
  {
    hide GateFails, GateFailures;
    var k := Place(f);
    var rest := FailingOf(c, AllGates[k + 1..]);
    assert AllGates[k] == f && AllGates[k..][1..] == AllGates[k + 1..];
    assert failures + ([f] + rest) == (failures + [f]) + rest;
  }

  lemma {:induction false} GatesStart(c: Claim)
    ensures JudgedTo(c, [], 0)
    ensures forall failures :: JudgedTo(c, failures, 5) ==> failures == GateFailures(c)
  {
    assert AllGates[0..] == AllGates && AllGates[5..] == [];
    assert FailingOf(c, []) == [];
    hide FailingOf, GateFails;
    assert [] + FailingOf(c, AllGates) == FailingOf(c, AllGates);
    assert forall failures: seq<GateFailure> :: failures + [] == failures;
  }

  /** Exactly the failed gates, in the order of the gates. */
  method HighGateFailures(c: Claim) returns (failures: seq<GateFailure>)
    ensures forall f :: f in failures <==> GateFails(c, f)
    ensures failures == [] <==> GatesPass(c)
    ensures failures == GateFailures(c)
  {
    hide JudgedTo, GateFailures, GatesPass, AllGates;
    GatesStart(c);
    failures := [];
    NextGate(c, failures, AuthoritativeEvidenceRequired);
    if !c.authoritative {
      failures := failures + [AuthoritativeEvidenceRequired];
    }
    NextGate(c, failures, CoverageBelow85);
    if c.dimensions.coverage < 85.0 {
      failures := failures + [CoverageBelow85];
    }
    NextGate(c, failures, ScopeResolutionBelow85);
    if c.dimensions.scope < 85.0 {
      failures := failures + [ScopeResolutionBelow85];
    }
    NextGate(c, failures, UnresolvedContradiction);
    if UnresolvedMaterialContradiction in c.penalties {
      failures := failures + [UnresolvedContradiction];
    }
    NextGate(c, failures, FreshnessNotFit);
    if !c.freshEnough || StaleForCurrentQuery in c.penalties {
      failures := failures + [FreshnessNotFit];
    }
    GatesPassExactly(c);
  }

  /** The least score that a label asks for. */
  function LeastScore(l: Label): real
  {
    match l
    case Unknown => 0.0
    case Low => 35.0
    case Medium => 60.0
    case High => 80.0
  }

  /** Whether a claim with this score may carry the label. */
  predicate Allowed(c: Claim, score: real, l: Label)
  {
    l == Unknown ||
      (&& c.hardUnknowns == [] && score >= LeastScore(l)
       && Rank(l) <= Rank(c.policyCeiling) && Rank(l) <= Rank(c.inputCeiling)
       && (l == High ==> GatesPass(c)))
  }

  function Distance(x: real, y: real): real
  {
    if x <= y then y - x else x - y
  }

  /** The nearest score in range to the base score less the penalties. */
  ghost predicate NearestInRange(score: real, raw: real)
  {
    InRange(score) && forall y :: InRange(y) ==> Distance(score, raw) <= Distance(y, raw)
  }

  /** The label is the best that score, ceilings, gates and hard unknowns allow. */
  ghost predicate BestAllowed(c: Claim, score: real, l: Label)
  {
    Allowed(c, score, l) && forall k :: Allowed(c, score, k) ==> Rank(k) <= Rank(l)
  }

  lemma {:induction false} ClaimMeaning(c: Claim)
    ensures NearestInRange(ClaimScore(c), BaseScore(c.dimensions) - PenaltyPoints(c.penalties) as real)
    ensures BestAllowed(c, ClaimScore(c), ClaimLabel(c))
  {
    GatesPassExactly(c);
    hide GateFailures, GatesPass, BaseScore, PenaltyPoints, GateFails;
  }

  /** The final score is the nearest one in 0..100 and the final label the best
      one allowed. */
  method CalculateClaim(c: Claim) returns (r: ClaimResult)
    ensures NearestInRange(r.finalScore, r.baseScore - r.penaltyPoints as real)
    ensures BestAllowed(c, r.finalScore, r.finalLabel)
    ensures forall f :: f in r.gateFailures <==> GateFails(c, f)
    ensures r == ClaimResultOf(c)
  {
    ClaimMeaning(c);
    hide GateFailures, BaseScore, PenaltyPoints, GateFails, BestAllowed, NearestInRange;
    var base := BaseScore(c.dimensions);
    var points := PenaltyPoints(c.penalties);
    var score := Min(100.0, Max(0.0, base - points as real));
    var numeric := LabelForScore(score);
    var failures := HighGateFailures(c);
    var ceiling := MinLabel(c.policyCeiling, c.inputCeiling);
    var capped := MinLabel(numeric, ceiling);
    if numeric == High && failures != [] {
      capped := MinLabel(capped, Medium);
    }
    if c.hardUnknowns != [] {
      capped := Unknown;
    }
    r := ClaimResult(c.id, c.section, c.mode, base, points, score, numeric, capped, ceiling, failures);
  }

  /** The section comprehensions read results through the dictionary. */
  function CalculateSection(s: Section, inputs: map<string, Claim>, results: map<string, ClaimResult>): SectionResult
    requires s.claimIds != [] && forall id :: id in s.claimIds ==> id in inputs && id in results
  {
    var n := |s.claimIds|;
    var weighted := seq(n, i requires 0 <= i < n =>
      Weighted(results[s.claimIds[i]].finalScore, inputs[s.claimIds[i]].dimensions.coverage));
    var lowest := Lowest(seq(n, i requires 0 <= i < n => results[s.claimIds[i]].finalScore));
    var weakest := WeakestLabel(seq(n, i requires 0 <= i < n => results[s.claimIds[i]].finalLabel));
    var score := Blend(Mean(weighted), lowest);
    SectionResult(s.key, inputs[s.claimIds[0]].mode, s.claimIds, Mean(weighted), lowest, score,
                  MinLabel(LabelForScore(score), weakest), s.importance, s.critical)
  }

  lemma {:induction false} CalculateSectionMeaning(
    s: Section, inputs: map<string, Claim>, results: map<string, ClaimResult>)
    requires s.claimIds != [] && forall id :: id in s.claimIds ==> id in inputs && id in results
    requires forall id :: id in s.claimIds ==> results[id] == ClaimResultOf(inputs[id])
    ensures CalculateSection(s, inputs, results) == SectionResultOf(s, Members(s.claimIds, inputs))
  {
    hide ClaimScore, ClaimLabel, Mean, Lowest, WeakestLabel, GateFailures, Ceiling;
    var members, n := Members(s.claimIds, inputs), |s.claimIds|;
    assert ByCoverage(members) == seq(n, i requires 0 <= i < n =>
      Weighted(results[s.claimIds[i]].finalScore, inputs[s.claimIds[i]].dimensions.coverage));
    assert Scores(members) == seq(n, i requires 0 <= i < n => results[s.claimIds[i]].finalScore);
    assert Labels(members) == seq(n, i requires 0 <= i < n => results[s.claimIds[i]].finalLabel);
  }

  lemma {:induction false} IndexedCovers(claims: seq<Claim>)
    ensures forall id :: id in Indexed(claims) <==> exists i :: 0 <= i < |claims| && claims[i].id == id
    ensures forall id :: id in Indexed(claims) ==> Indexed(claims)[id] in claims && Indexed(claims)[id].id == id
  {
    if claims != [] {
      IndexedCovers(claims[..|claims| - 1]);
      var init, last := claims[..|claims| - 1], claims[|claims| - 1];
      hide Indexed;
      assert forall i :: 0 <= i < |init| ==> init[i] == claims[i];
    }
  }

  method CalculateClaims(claims: seq<Claim>)
    returns (claimResults: seq<ClaimResult>, inputs: map<string, Claim>, results: map<string, ClaimResult>)
    ensures claimResults == seq(|claims|, i requires 0 <= i < |claims| => ClaimResultOf(claims[i]))
    ensures inputs == Indexed(claims) && results.Keys == inputs.Keys
    ensures forall id :: id in inputs ==> results[id] == ClaimResultOf(inputs[id])
  {
    hide ClaimResultOf;
    claimResults, inputs, results := [], map[], map[];
    for n := 0 to |claims|
      invariant claimResults == seq(n, i requires 0 <= i < n => ClaimResultOf(claims[i]))
      invariant inputs == Indexed(claims[..n]) && results.Keys == inputs.Keys
      invariant forall id :: id in inputs ==> results[id] == ClaimResultOf(inputs[id])
    {
      var c := claims[n];
      var r := CalculateClaim(c);
      assert claims[..n + 1][..n] == claims[..n];
      claimResults := claimResults + [r];
      inputs := inputs[c.id := c];
      results := results[c.id := r];
    }
    assert claims[..|claims|] == claims;
  }

  lemma {:induction false} SectionCount(request: Request)
    requires ValidRequest(request)
    ensures |SectionResults(request)| == |request.sections|
  {
  }

  lemma {:induction false} SectionResultAt(
    request: Request, inputs: map<string, Claim>, results: map<string, ClaimResult>, n: nat)
    requires ValidRequest(request) && n < |request.sections|
    requires inputs == Indexed(request.claims) && results.Keys == inputs.Keys
    requires forall id :: id in inputs ==> results[id] == ClaimResultOf(inputs[id])
    ensures n < |SectionResults(request)|
    ensures request.sections[n].claimIds != []
    ensures forall id :: id in request.sections[n].claimIds ==> id in inputs && id in results
    ensures CalculateSection(request.sections[n], inputs, results) == SectionResults(request)[n]
  {
    SectionsIndexed(request);
    hide ValidRequest, SectionResultOf, CalculateSection, ClaimResultOf, Indexed;
    CalculateSectionMeaning(request.sections[n], inputs, results);
  }

  method CalculateSections(request: Request, inputs: map<string, Claim>, results: map<string, ClaimResult>)
    returns (sectionResults: seq<SectionResult>)
    requires ValidRequest(request) && inputs == Indexed(request.claims) && results.Keys == inputs.Keys
    requires forall id :: id in inputs ==> results[id] == ClaimResultOf(inputs[id])
    ensures sectionResults == SectionResults(request)
  {
    hide *;
    ghost var all := SectionResults(request);
    sectionResults := [];
    SectionCount(request);
    for n := 0 to |request.sections|
      invariant sectionResults == all[..n]
    {
      SectionResultAt(request, inputs, results, n);
      sectionResults := sectionResults + [CalculateSection(request.sections[n], inputs, results)];
    }
  }

  /** Absent when the request breaks its contract. */
  method CalculateConfidence(request: Request) returns (result: Option<Result>)
    ensures ValidRequest(request) ==> result == Some(Confidences(request))
    ensures !ValidRequest(request) ==> result == None
  {
    if !ValidRequest(request) {
      return None;
    }
    assert request.claims != [];
    SomeCritical(request);
    hide ValidRequest, SectionResults, OverallOf, Critical;
    var claimResults, inputs, results := CalculateClaims(request.claims);
    assert claimResults == ClaimResults(request);
    var sectionResults := CalculateSections(request, inputs, results);
    result := Some(Result(claimResults, sectionResults, OverallOf(claimResults, sectionResults, request.strict)));
  }

  lemma {:induction false} SectionsIndexed(request: Request)
    requires ValidRequest(request)
    ensures forall s :: s in request.sections ==>
      s.claimIds != [] && forall id :: id in s.claimIds ==> id in Indexed(request.claims)
  {
    forall s | s in request.sections
      ensures s.claimIds != []
    {
      assert ValidSection(s);
    }
  }
}
