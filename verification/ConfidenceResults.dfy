/** Every column of a confidence result, in numbers
    (apps/api/backend/ask/confidence.py). */
module ConfidenceResults {
  import opened ConfidenceArithmetic
  import opened Confidence
  import opened ConfidenceTheorems
  import opened ConfidenceCoverage

  // ----- requests --------------------------------------------------------------------

  /** The claims of a section are those of its names, in its order. */
  lemma {:induction false} MembersExactly(request: Request, s: Section)
    requires ValidRequest(request) && s in request.sections
    ensures var members := MembersOf(request, s);
            && |members| == |s.claimIds| > 0
            && forall i :: 0 <= i < |members| ==> members[i] in request.claims && members[i].id == s.claimIds[i]
  {
    MembersValid(request, s);
    IndexedCovers(request.claims);
    hide Indexed, ValidClaim;
  }

  predicate Share(x: real)
  {
    0.0 <= x && x <= 100.0
  }

  /** Six dimensions between 0 and 100, nothing listed twice, and no General AI claim
      may reach High. */
  lemma {:induction false} ClaimContractExactly(c: Claim)
    ensures ValidClaim(c)
            <==> && |c.id| > 0 && !(c.mode == GeneralAi && c.policyCeiling == High)
                 && Share(c.dimensions.authority) && Share(c.dimensions.relevance) && Share(c.dimensions.coverage)
                 && Share(c.dimensions.agreement) && Share(c.dimensions.freshness) && Share(c.dimensions.scope)
                 && (forall i, j :: 0 <= i < j < |c.penalties| ==> c.penalties[i] != c.penalties[j])
                 && (forall i, j :: 0 <= i < j < |c.hardUnknowns| ==> c.hardUnknowns[i] != c.hardUnknowns[j])
  {
  }

  predicate SectionShape(s: Section)
  {
    && |s.key| > 0 && |s.claimIds| > 0 && 0.0 < s.importance && s.importance <= 100.0
    && forall i, j :: 0 <= i < j < |s.claimIds| ==> s.claimIds[i] != s.claimIds[j]
  }

  /** The claim of that name belongs to the section. */
  ghost predicate NamesClaim(request: Request, s: Section, id: string)
  {
    exists c :: c in request.claims && c.id == id && c.section == s.key
  }

  ghost predicate OneMode(request: Request, s: Section)
  {
    forall a, b :: a in request.claims && b in request.claims && a.id in s.claimIds && b.id in s.claimIds ==>
      a.mode == b.mode
  }

  ghost predicate InSection(request: Request, c: Claim)
  {
    exists k :: 0 <= k < |request.sections| && c.id in request.sections[k].claimIds
  }

  /** No name twice, a critical section, every name in one section only, of a claim of
      that section, every claim in a section, and one mode in each. */
  ghost predicate GoodGraph(request: Request)
  {
    && (forall i, j :: 0 <= i < j < |request.claims| ==> request.claims[i].id != request.claims[j].id)
    && (forall i, j :: 0 <= i < j < |request.sections| ==> request.sections[i].key != request.sections[j].key)
    && (forall i, j :: 0 <= i < j < |request.strict| ==> request.strict[i] != request.strict[j])
    && (exists s :: s in request.sections && s.critical)
    && (forall j, k, id ::
          (&& 0 <= j < |request.sections| && 0 <= k < |request.sections|
           && id in request.sections[j].claimIds && id in request.sections[k].claimIds) ==> j == k)
    && (forall s, id :: s in request.sections && id in s.claimIds ==> NamesClaim(request, s, id))
    && (forall c :: c in request.claims ==> InSection(request, c))
    && (forall s :: s in request.sections ==> OneMode(request, s))
  }

  lemma {:induction false} ClaimIndexed(claims: seq<Claim>, c: Claim)
    requires Distinct(ClaimIds(claims)) && c in claims
    ensures c.id in Indexed(claims) && Indexed(claims)[c.id] == c
  {
    var n :| 0 <= n < |claims| && claims[n] == c;
    IndexedAt(claims, n);
  }

  lemma {:induction false} ReferencedExactly(sections: seq<Section>, id: string)
    ensures id in Referenced(sections) <==> exists k :: 0 <= k < |sections| && id in sections[k].claimIds
  {
    if sections != [] {
      ReferencedExactly(sections[1..], id);
      if k :| 0 <= k < |sections| && id in sections[k].claimIds {
        assert k > 0 ==> sections[k] == sections[1..][k - 1];
      }
    }
  }

  /** The names of different sections together are distinct exactly when each section's
      are and no name is in two. */
  lemma {:induction false} ReferencedDistinct(sections: seq<Section>)
    requires forall s :: s in sections ==> SectionShape(s)
    requires forall j, k, id ::
      (&& 0 <= j < |sections| && 0 <= k < |sections| && id in sections[j].claimIds && id in sections[k].claimIds) ==>
        j == k
    ensures Distinct(Referenced(sections))
  {
    if sections != [] {
      var (first, rest) := (sections[0].claimIds, sections[1..]);
      forall j, k, id | 0 <= j < |rest| && 0 <= k < |rest| && id in rest[j].claimIds && id in rest[k].claimIds
        ensures j == k
      {
        assert rest[j] == sections[j + 1] && rest[k] == sections[k + 1];
      }
      ReferencedDistinct(rest);
      forall id | id in first
        ensures id !in Referenced(rest)
      {
        ReferencedExactly(rest, id);
        assert forall k :: 0 <= k < |rest| ==> rest[k] == sections[k + 1];
      }
      assert SectionShape(sections[0]);
      Apart(first, Referenced(rest));
    }
  }

  lemma {:induction false} Apart(a: seq<string>, b: seq<string>)
    requires Distinct(a) && Distinct(b) && forall id :: id in a ==> id !in b
    ensures Distinct(a + b)
  {
    var all := a + b;
    forall i, j | 0 <= i < j < |all|
      ensures all[i] != all[j]
    {
      assert i < |a| ==> all[i] in a;
      assert j >= |a| ==> all[j] in b;
    }
  }

  lemma {:induction false} SectionExactly(request: Request, s: Section)
    requires Distinct(ClaimIds(request.claims)) && s.claimIds != []
    requires forall id :: id in s.claimIds ==> id in Indexed(request.claims)
    ensures SectionAgrees(s, Indexed(request.claims))
            <==> OneMode(request, s) && forall id :: id in s.claimIds ==> NamesClaim(request, s, id)
  {
    var claims := request.claims;
    IndexedCovers(claims);
    forall c | c in claims
      ensures c.id in Indexed(claims) && Indexed(claims)[c.id] == c
    {
      ClaimIndexed(claims, c);
    }
    hide Indexed, Distinct;
    assert s.claimIds[0] in s.claimIds;
  }

  lemma {:induction false} NamesAreIndexed(request: Request)
    ensures forall id :: id in Indexed(request.claims) <==> exists c :: c in request.claims && c.id == id
  {
    var claims := request.claims;
    IndexedCovers(claims);
    hide Indexed;
    forall id
      ensures id in Indexed(claims) <==> exists c :: c in claims && c.id == id
    {
      if c :| c in claims && c.id == id {
        var i :| 0 <= i < |claims| && claims[i] == c;
      }
    }
  }

  lemma {:induction false} DistinctNames(request: Request)
    ensures Distinct(ClaimIds(request.claims))
            <==> forall i, j :: 0 <= i < j < |request.claims| ==> request.claims[i].id != request.claims[j].id
    ensures Distinct(Keys(request.sections))
            <==> forall i, j :: 0 <= i < j < |request.sections| ==> request.sections[i].key != request.sections[j].key
  {
    var (ids, keys) := (ClaimIds(request.claims), Keys(request.sections));
    assert forall i :: 0 <= i < |request.claims| ==> ids[i] == request.claims[i].id;
    assert forall i :: 0 <= i < |request.sections| ==> keys[i] == request.sections[i].key;
    if Distinct(ids) {
      forall i, j | 0 <= i < j < |request.claims|
        ensures request.claims[i].id != request.claims[j].id
      {
        assert ids[i] != ids[j];
      }
    }
    if Distinct(keys) {
      forall i, j | 0 <= i < j < |request.sections|
        ensures request.sections[i].key != request.sections[j].key
      {
        assert keys[i] != keys[j];
      }
    }
  }

  lemma {:induction false} GraphHolds(request: Request)
    requires ValidRequest(request)
    ensures GoodGraph(request)
  {
    DistinctNames(request);
    NamesAreIndexed(request);
    forall id
      ensures id in Referenced(request.sections)
              <==> exists k :: 0 <= k < |request.sections| && id in request.sections[k].claimIds
    {
      ReferencedExactly(request.sections, id);
    }
    forall j, k, id | 0 <= j < |request.sections| && 0 <= k < |request.sections|
                      && id in request.sections[j].claimIds && id in request.sections[k].claimIds
      ensures j == k
    {
      ReferencedApart(request.sections, j, k, id);
    }
    hide Indexed, Referenced, ValidClaim;
    forall s | s in request.sections
      ensures OneMode(request, s) && forall id :: id in s.claimIds ==> NamesClaim(request, s, id)
    {
      assert ValidSection(s) && SectionAgrees(s, Indexed(request.claims));
      SectionExactly(request, s);
    }
    hide OneMode, NamesClaim, ValidSection, SectionAgrees;
    StrictDistinct(request.strict);
    hide Distinct;
    forall c | c in request.claims
      ensures InSection(request, c)
    {
      assert c.id in Indexed(request.claims);
    }
  }

  lemma {:induction false} GraphSuffices(request: Request)
    requires request.claims != [] && request.sections != []
    requires forall c :: c in request.claims ==> ValidClaim(c)
    requires forall s :: s in request.sections ==> SectionShape(s)
    requires GoodGraph(request)
    ensures ValidRequest(request)
  {
    DistinctNames(request);
    NamesAreIndexed(request);
    ReferencedDistinct(request.sections);
    forall id
      ensures id in Referenced(request.sections)
              <==> exists k :: 0 <= k < |request.sections| && id in request.sections[k].claimIds
    {
      ReferencedExactly(request.sections, id);
    }
    hide Indexed, Referenced, ValidClaim, Distinct, ClaimIds, Keys;
    forall s | s in request.sections
      ensures ValidSection(s) && (forall id :: id in s.claimIds ==> id in Indexed(request.claims))
      ensures SectionAgrees(s, Indexed(request.claims))
    {
      ShapeIsValid(s);
      forall id | id in s.claimIds
        ensures id in Indexed(request.claims)
      {
        assert NamesClaim(request, s, id);
      }
      SectionExactly(request, s);
    }
    StrictDistinct(request.strict);
    hide OneMode, SectionAgrees, SectionShape, ValidSection;
    forall id | id in Referenced(request.sections)
      ensures id in Indexed(request.claims)
    {
      var k :| 0 <= k < |request.sections| && id in request.sections[k].claimIds;
      assert NamesClaim(request, request.sections[k], id);
    }
    forall id | id in Indexed(request.claims)
      ensures id in Referenced(request.sections)
    {
      var c :| c in request.claims && c.id == id;
      assert InSection(request, c);
    }
  }

  lemma {:induction false} ShapeIsValid(s: Section)
    ensures ValidSection(s) <==> SectionShape(s)
  {
  }

  lemma {:induction false} StrictDistinct(strict: seq<StrictReason>)
    ensures Distinct(strict) <==> forall i, j :: 0 <= i < j < |strict| ==> strict[i] != strict[j]
  {
  }

  /** The requests that are accepted. */
  lemma {:induction false} RequestExactly(request: Request)
    ensures ValidRequest(request)
            <==> && |request.claims| > 0 && |request.sections| > 0
                 && (forall c :: c in request.claims ==> ValidClaim(c))
                 && (forall s :: s in request.sections ==> SectionShape(s))
                 && GoodGraph(request)
  {
    if ValidRequest(request) {
      GraphHolds(request);
    }
    if request.claims != [] && request.sections != [] && (forall c :: c in request.claims ==> ValidClaim(c))
       && (forall s :: s in request.sections ==> SectionShape(s)) && GoodGraph(request) {
      GraphSuffices(request);
    }
    forall s
      ensures ValidSection(s) <==> SectionShape(s)
    {
      ShapeIsValid(s);
    }
    hide GoodGraph, SectionShape, ValidClaim, ValidSection, Indexed, Referenced, Distinct, SectionAgrees;
  }

  // ----- claims ------------------------------------------------------------------------

  function Charge(penalties: seq<Penalty>, p: Penalty, points: int): int
  {
    if p in penalties then points else 0
  }

  /** The points of each penalty. */
  lemma {:induction false} PointsExactly(penalties: seq<Penalty>)
    requires forall i, j :: 0 <= i < j < |penalties| ==> penalties[i] != penalties[j]
    ensures PenaltyPoints(penalties)
         == Charge(penalties, UnresolvedMaterialContradiction, 25) + Charge(penalties, StaleForCurrentQuery, 20)
          + Charge(penalties, RequiredEvidenceCapabilityUnavailable, 15)
          + Charge(penalties, InferredLegalApplicability, 10) + Charge(penalties, SingleSourceHighImpactClaim, 10)
          + Charge(penalties, InferredMaterialDateType, 5)
  {
    PointsByPresence(penalties);
    hide PenaltyPoints;
  }

  /** What a claim has to show for High. */
  predicate Lacks(c: Claim, f: GateFailure)
  {
    match f
    case AuthoritativeEvidenceRequired => !c.authoritative
    case CoverageBelow85 => c.dimensions.coverage < 85.0
    case ScopeResolutionBelow85 => c.dimensions.scope < 85.0
    case UnresolvedContradiction => UnresolvedMaterialContradiction in c.penalties
    case FreshnessNotFit => StaleForCurrentQuery in c.penalties || !c.freshEnough
  }

  predicate AtMost(a: Label, b: Label)
  {
    match a
    case Unknown => true
    case Low => b != Unknown
    case Medium => b == Medium || b == High
    case High => b == High
  }

  lemma {:induction false} AtMostIsRank(a: Label, b: Label)
    ensures AtMost(a, b) <==> Rank(a) <= Rank(b)
  {
  }

  /** The least score of each label. */
  predicate Reaches(score: real, l: Label)
  {
    score >= match l case Unknown => 0.0 case Low => 35.0 case Medium => 60.0 case High => 80.0
  }

  lemma {:induction false} LabelExactly(score: real, l: Label)
    requires score >= 0.0
    ensures AtMost(l, LabelForScore(score)) <==> Reaches(score, l)
  {
  }

  /** Every column of a claim's result. */
  lemma {:induction false} ClaimColumns(c: Claim)
    requires ValidClaim(c)
    ensures var (r, d) := (ClaimResultOf(c), c.dimensions);
            && r.id == c.id && r.section == c.section && r.mode == c.mode
            && r.baseScore == 0.25 * d.authority + 0.15 * d.relevance + 0.20 * d.coverage + 0.15 * d.agreement
                              + 0.15 * d.freshness + 0.10 * d.scope
            && r.penaltyPoints == PenaltyPoints(c.penalties)
            && (var raw := r.baseScore - r.penaltyPoints as real;
                r.finalScore == if raw < 0.0 then 0.0 else if raw > 100.0 then 100.0 else raw)
            && (forall f :: f in r.gateFailures <==> Lacks(c, f))
    ensures var r := ClaimResultOf(c);
            && (forall l :: AtMost(l, r.ceiling) <==> AtMost(l, c.policyCeiling) && AtMost(l, c.inputCeiling))
            && (forall l :: AtMost(l, r.numericLabel) <==> Reaches(r.finalScore, l))
            && (forall l :: l != Unknown ==>
                  (AtMost(l, r.finalLabel)
                   <==> && Reaches(r.finalScore, l) && AtMost(l, c.policyCeiling) && AtMost(l, c.inputCeiling)
                        && c.hardUnknowns == [] && (l == High ==> forall f :: !Lacks(c, f))))
  {
    ClaimInRange(c);
    forall f
      ensures f in GateFailures(c) <==> Lacks(c, f)
    {
      GatesPassExactly(c);
      LackExactly(c, f);
    }
    ClaimLabelExactly(c);
    hide GateFailures, ClaimLabel, PenaltyPoints, Lacks, LabelForScore, Reaches;
    forall l
      ensures AtMost(l, LabelForScore(ClaimScore(c))) <==> Reaches(ClaimScore(c), l)
    {
      LabelExactly(ClaimScore(c), l);
    }
  }

  lemma {:induction false} LackExactly(c: Claim, f: GateFailure)
    ensures GateFails(c, f) <==> Lacks(c, f)
  {
  }

  lemma {:induction false} ClaimLabelExactly(c: Claim)
    requires ClaimScore(c) >= 0.0
    ensures forall l :: l != Unknown ==>
      (AtMost(l, ClaimLabel(c))
       <==> && Reaches(ClaimScore(c), l) && AtMost(l, c.policyCeiling) && AtMost(l, c.inputCeiling)
            && c.hardUnknowns == [] && (l == High ==> forall f :: !Lacks(c, f)))
  {
    GatesPassExactly(c);
    EveryGate(c);
    forall f
      ensures GateFails(c, f) <==> Lacks(c, f)
    {
      LackExactly(c, f);
    }
    hide GateFailures, GatesPass, ClaimScore, Lacks, GateFails;
  }

  // ----- sections ------------------------------------------------------------------------

  /** The lowest of some scores. */
  ghost predicate IsLowest(lowest: real, scores: seq<real>)
  {
    && (forall i :: 0 <= i < |scores| ==> lowest <= scores[i])
    && exists i :: 0 <= i < |scores| && lowest == scores[i]
  }

  lemma {:induction false} SumsExactly(ws: seq<Weighted>, more: seq<Weighted>, w: Weighted)
    ensures Total([]) == 0.0 && WeightedSum([]) == 0.0
    ensures Total([w]) == w.weight && WeightedSum([w]) == w.value * w.weight
    ensures Total(ws + more) == Total(ws) + Total(more) && WeightedSum(ws + more) == WeightedSum(ws) + WeightedSum(more)
  {
    SumsAppend(ws, more);
    SumsOfOne(w);
  }

  /** Every column of a section's result: the mean weighted by coverage, the lowest
      claim score, seven parts of one and three of the other, and the label of the
      weakest claim, provided that something carries coverage. */
  lemma {:induction false} SectionColumns(request: Request, k: nat)
    requires ValidRequest(request) && k < |request.sections|
    ensures k < |Confidences(request).sections|
    ensures var (r, s) := (Confidences(request).sections[k], request.sections[k]);
            var members := MembersOf(request, s);
            && r.key == s.key && r.claimIds == s.claimIds && r.importance == s.importance && r.critical == s.critical
            && members != [] && r.mode == members[0].mode
            && (CoverageTotal(members) > 0.0 ==> r.mean == CoverageSum(members) / CoverageTotal(members))
            && (CoverageTotal(members) == 0.0 ==> r.mean == 0.0)
            && |Scores(members)| == |members| && IsLowest(r.lowest, Scores(members))
            && r.score == 0.7 * r.mean + 0.3 * r.lowest
            && (forall l :: l != Unknown ==>
                  (AtMost(l, r.finalLabel)
                   <==> Covered(members) && forall i :: 0 <= i < |members| ==> AtMost(l, ClaimLabel(members[i]))))
  {
    Sizes(request);
    MembersValid(request, request.sections[k]);
    var members := MembersOf(request, request.sections[k]);
    LowestIsLeast(Scores(members));
    SectionScoreIs(members);
    forall l: Label | l != Unknown
      ensures AtMost(l, SectionLabel(members))
              <==> Covered(members) && forall i :: 0 <= i < |members| ==> AtMost(l, ClaimLabel(members[i]))
    {
      SectionAllowsExactly(members, l);
      forall a, b
        ensures AtMost(a, b) <==> Rank(a) <= Rank(b)
      {
        AtMostIsRank(a, b);
      }
      hide AtMost, Rank, SectionLabel, ClaimLabel;
    }
    hide ValidRequest, MembersOf, Lowest, Total, WeightedSum, SectionLabel, ClaimLabel, ClaimScore, Covered, AtMost;
    hide OverallOf, ClaimResults;
  }

  // ----- the whole --------------------------------------------------------------------------

  /** Every column of the overall result: the mean of the section scores weighted by
      importance, the lowest score of a critical section, seven parts of one and
      three of the other, and the best label that the score and the claims allow. */
  lemma {:induction false} OverallColumns(request: Request)
    requires ValidRequest(request)
    ensures var (o, sections) := (Confidences(request).overall, Confidences(request).sections);
            && ImportanceTotal(request) > 0.0 && o.mean == ImportanceSum(request) / ImportanceTotal(request)
            && (forall k :: 0 <= k < |sections| && sections[k].critical ==> o.lowestCritical <= sections[k].score)
            && (exists k :: 0 <= k < |sections| && sections[k].critical && o.lowestCritical == sections[k].score)
            && o.score == 0.7 * o.mean + 0.3 * o.lowestCritical
            && (forall l :: l != Unknown ==>
                  (AtMost(l, o.finalLabel) <==> Reaches(o.score, l) && ClaimsAllow(request, l)))
  {
    LowestCritical(request);
    ResultsInRange(request);
    OverallIsCapped(request);
    var o := Confidences(request).overall;
    forall l: Label | l != Unknown
      ensures AtMost(l, o.finalLabel) <==> Reaches(o.score, l) && ClaimsAllow(request, l)
    {
      CapsExactly(request, l);
      LabelExactly(o.score, l);
      AtMostIsRank(l, Caps(request));
      hide Caps, ClaimsAllow, Confidences, ValidRequest;
    }
    Averaged(request);
    hide ValidRequest, SectionResults, ClaimResults, WeakestLabel, Lowest, ClaimsAllow, ImportanceTotal, ImportanceSum;
    hide Critical, Caps, AtMost, Reaches, Mean;
  }

  lemma {:induction false} Averaged(request: Request)
    requires ValidRequest(request)
    ensures var o := Confidences(request).overall;
            ImportanceTotal(request) > 0.0 && o.mean == ImportanceSum(request) / ImportanceTotal(request)
  {
    Reflexive(request);
    ImportancesAgree(request, request);
    hide ValidRequest, SectionResults, ClaimResults, WeakestLabel, Lowest, Critical, Total, WeightedSum;
  }

  lemma {:induction false} Reflexive(request: Request)
    ensures NoBetter(request, request)
  {
  }

  lemma {:induction false} LowestCritical(request: Request)
    requires ValidRequest(request)
    ensures var (o, sections) := (Confidences(request).overall, Confidences(request).sections);
            && (forall k :: 0 <= k < |sections| && sections[k].critical ==> o.lowestCritical <= sections[k].score)
            && (exists k :: 0 <= k < |sections| && sections[k].critical && o.lowestCritical == sections[k].score)
  {
    LowestCriticals(request);
    SectionsOf(request);
    var results := SectionResults(request);
    var critical := Critical(results);
    CriticalExactly(results);
    var scores := SectionScores(critical);
    LowestIsLeast(scores);
    hide Confidences, SectionResults, Critical, Lowest, ValidRequest;
    forall k | 0 <= k < |results| && results[k].critical
      ensures Lowest(scores) <= results[k].score
    {
      assert results[k] in critical;
      var i :| 0 <= i < |critical| && critical[i] == results[k];
      assert scores[i] == results[k].score;
    }
    var i :| 0 <= i < |scores| && Lowest(scores) == scores[i];
    assert critical[i] in critical;
    var k :| 0 <= k < |results| && results[k] == critical[i];
  }
}
