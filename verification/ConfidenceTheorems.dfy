/** Bounds, monotonicity and the meaning of an overall High
    (apps/api/backend/ask/confidence.py). */
module ConfidenceTheorems {
  import opened Foundations
  import opened ConfidenceArithmetic
  import opened Confidence

  // ----- ranges --------------------------------------------------------------------------------

  predicate ValidClaimResult(r: ClaimResult)
  {
    InRange(r.baseScore) && r.penaltyPoints >= 0 && InRange(r.finalScore)
  }

  predicate ValidSectionResult(r: SectionResult)
  {
    InRange(r.mean) && InRange(r.lowest) && InRange(r.score) && 0.0 < r.importance <= 100.0
  }

  predicate ValidOverall(r: Overall)
  {
    InRange(r.mean) && InRange(r.lowestCritical) && InRange(r.score)
  }

  /** The contract of a result. */
  ghost predicate ValidResult(r: Result)
  {
    && (forall c :: c in r.claims ==> ValidClaimResult(c))
    && (forall s :: s in r.sections ==> ValidSectionResult(s))
    && ValidOverall(r.overall)
  }

  lemma {:induction false} PenaltiesNonNegative(penalties: seq<Penalty>)
    ensures PenaltyPoints(penalties) >= 0
  {
    if penalties != [] {
      PenaltiesNonNegative(penalties[1..]);
    }
  }

  lemma {:induction false} ClaimInRange(c: Claim)
    requires ValidClaim(c)
    ensures ValidClaimResult(ClaimResultOf(c)) && InRange(ClaimScore(c))
  {
    PenaltiesNonNegative(c.penalties);
    hide GateFailures, ClaimLabel;
  }

  ghost predicate ValidMembers(members: seq<Claim>)
  {
    members != [] && forall i :: 0 <= i < |members| ==> ValidClaim(members[i])
  }

  lemma {:induction false} MemberScores(members: seq<Claim>)
    requires ValidMembers(members)
    ensures NonNegative(ByCoverage(members)) && Values(ByCoverage(members)) == Scores(members)
    ensures Between(Scores(members), 0.0, 100.0)
  {
    LengthOfValues(ByCoverage(members));
    forall i | 0 <= i < |members|
      ensures InRange(ClaimScore(members[i])) && InRange(members[i].dimensions.coverage)
    {
      ClaimInRange(members[i]);
    }
    hide ClaimScore, Values;
  }

  lemma {:induction false} MembersValid(request: Request, s: Section)
    requires ValidRequest(request) && s in request.sections
    ensures ValidMembers(MembersOf(request, s)) && ValidSection(s)
  {
    IndexedCovers(request.claims);
    assert ValidSection(s);
    hide Indexed, ValidClaim;
  }

  lemma {:induction false} SectionInRange(s: Section, members: seq<Claim>)
    requires ValidSection(s) && ValidMembers(members)
    ensures ValidSectionResult(SectionResultOf(s, members))
  {
    MemberScores(members);
    BlendInRange(ByCoverage(members), Scores(members));
    hide ByCoverage, Scores, SectionLabel, Mean, Lowest, Blend, ValidClaim;
    assert SectionScore(members) == Blend(Mean(ByCoverage(members)), Lowest(Scores(members)));
  }

  lemma {:induction false} OverallInRange(
    claims: seq<ClaimResult>, sections: seq<SectionResult>, strict: seq<StrictReason>)
    requires claims != [] && Critical(sections) != []
    requires forall s :: s in sections ==> ValidSectionResult(s)
    ensures ValidOverall(OverallOf(claims, sections, strict))
  {
    CriticalExactly(sections);
    var ws, critical := ByImportance(sections), Critical(sections);
    LengthOfValues(ws);
    hide Critical, Values;
    forall i | 0 <= i < |sections|
      ensures InRange(ws[i].value) && ws[i].weight > 0.0
    {
      assert ValidSectionResult(sections[i]);
    }
    var scores := SectionScores(critical);
    forall i | 0 <= i < |critical|
      ensures InRange(scores[i])
    {
      assert ValidSectionResult(critical[i]);
    }
    BlendInRange(ws, scores);
    hide Mean, Lowest, Blend, WeakestLabel;
  }

  /** Every score of every valid request lies in 0..100, so the result contracts
      never reject. */
  lemma {:induction false} ResultsInRange(request: Request)
    requires ValidRequest(request)
    ensures ValidResult(Confidences(request))
  {
    forall c | c in ClaimResults(request)
      ensures ValidClaimResult(c)
    {
      var i :| 0 <= i < |request.claims| && c == ClaimResultOf(request.claims[i]);
      assert ValidClaim(request.claims[i]);
      ClaimInRange(request.claims[i]);
    }
    forall r | r in SectionResults(request)
      ensures ValidSectionResult(r)
    {
      var i :| 0 <= i < |request.sections| && r == SectionResults(request)[i];
      var s := request.sections[i];
      MembersValid(request, s);
      SectionInRange(s, MembersOf(request, s));
    }
    SomeCritical(request);
    hide ValidRequest, ClaimResultOf, SectionResultOf, OverallOf, ValidSectionResult, ValidClaimResult;
    assert ClaimResults(request) != [];
    OverallInRange(ClaimResults(request), SectionResults(request), request.strict);
  }

  /** A section score lies between its lowest and highest claim score exactly
      when some claim carries coverage or the lowest score is zero. */
  lemma {:induction false} SectionScoreBetweenExactly(members: seq<Claim>)
    requires ValidMembers(members)
    ensures var lo, hi := Lowest(Scores(members)), Highest(Scores(members));
            lo <= SectionScore(members) <= hi
            <==> (exists i :: 0 <= i < |members| && members[i].dimensions.coverage > 0.0) || lo == 0.0
  {
    MemberScores(members);
    var ws := ByCoverage(members);
    BlendBetweenExactly(ws);
    TotalNonNegative(ws);
    forall i | 0 <= i < |members|
      ensures ws[i].weight == members[i].dimensions.coverage >= 0.0
    {
      assert ValidClaim(members[i]);
    }
    hide ClaimScore, Mean, Lowest, Highest, Total, Blend, ValidClaim;
    if exists i :: 0 <= i < |members| && members[i].dimensions.coverage > 0.0 {
      var i :| 0 <= i < |members| && members[i].dimensions.coverage > 0.0;
      assert ws[i].weight != 0.0;
    }
  }

  /** A section without any coverage is Unknown. */
  lemma {:induction false} NoCoverageIsUnknown(members: seq<Claim>)
    requires ValidMembers(members) && forall i :: 0 <= i < |members| ==> members[i].dimensions.coverage == 0.0
    ensures SectionLabel(members) == Unknown && SectionScore(members) <= 30.0
  {
    MemberScores(members);
    TotalNonNegative(ByCoverage(members));
    LowestIsLeast(Scores(members));
    hide ClaimScore, Lowest, WeakestLabel, Total, WeightedSum;
    assert Mean(ByCoverage(members)) == 0.0;
  }

  lemma {:induction false} ClaimLabelCapped(c: Claim)
    ensures Rank(ClaimLabel(c)) <= Rank(LabelForScore(ClaimScore(c)))
  {
    hide ClaimScore, GateFailures;
  }

  /** Some claim carries coverage. */
  predicate Covered(members: seq<Claim>)
  {
    exists i :: 0 <= i < |members| && members[i].dimensions.coverage > 0.0
  }

  /** With some coverage a section's label is that of its weakest claim, because
      its score never falls below the lowest; without any it is Unknown. */
  lemma {:induction false} SectionLabelExactly(members: seq<Claim>)
    requires ValidMembers(members)
    ensures SectionLabel(members) == if Covered(members) then WeakestLabel(Labels(members)) else Unknown
  {
    if Covered(members) {
      SectionScoreBetweenExactly(members);
      CappedByLowest(members);
      hide ClaimScore, ClaimLabel, Mean, Lowest, Highest, WeakestLabel, Blend, SectionScore, Labels, Scores, ByCoverage;
    } else {
      assert forall i :: 0 <= i < |members| ==> ValidClaim(members[i]) && members[i].dimensions.coverage == 0.0;
      NoCoverageIsUnknown(members);
      hide SectionLabel;
    }
  }

  lemma {:induction false} CappedByLowest(members: seq<Claim>)
    requires members != []
    ensures Rank(WeakestLabel(Labels(members))) <= Rank(LabelForScore(Lowest(Scores(members))))
  {
    var scores, labels := Scores(members), Labels(members);
    LowestIsLeast(scores);
    WeakestIsLeast(labels);
    hide Lowest, WeakestLabel, ClaimScore, ClaimLabel, LabelForScore, Rank;
    var i :| 0 <= i < |scores| && Lowest(scores) == scores[i];
    ClaimLabelCapped(members[i]);
    assert labels[i] == ClaimLabel(members[i]);
  }

  // ----- order on requests --------------------------------------------------------------------------

  /** The second claim is no better than the first: more penalties, hard unknown
      conditions kept, weaker evidence, coverage and ceilings. */
  predicate NoBetterClaim(c: Claim, d: Claim)
  {
    && d.id == c.id && d.section == c.section && d.mode == c.mode
    && d.dimensions.coverage <= c.dimensions.coverage
    && d.dimensions.authority <= c.dimensions.authority && d.dimensions.relevance <= c.dimensions.relevance
    && d.dimensions.agreement <= c.dimensions.agreement && d.dimensions.freshness <= c.dimensions.freshness
    && d.dimensions.scope <= c.dimensions.scope
    && (forall p :: p in c.penalties ==> p in d.penalties)
    && (c.hardUnknowns != [] ==> d.hardUnknowns != [])
    && (d.authoritative ==> c.authoritative) && (d.freshEnough ==> c.freshEnough)
    && Rank(d.policyCeiling) <= Rank(c.policyCeiling) && Rank(d.inputCeiling) <= Rank(c.inputCeiling)
  }

  predicate NoBetterSection(s: Section, t: Section)
  {
    t.key == s.key && t.claimIds == s.claimIds && t.importance == s.importance && (s.critical ==> t.critical)
  }

  predicate NoBetterClaims(cs: seq<Claim>, ds: seq<Claim>)
  {
    |ds| == |cs| && forall i :: 0 <= i < |cs| ==> NoBetterClaim(cs[i], ds[i])
  }

  predicate SameCoverage(cs: seq<Claim>, ds: seq<Claim>)
  {
    |ds| == |cs| && forall i :: 0 <= i < |cs| ==> ds[i].dimensions.coverage == cs[i].dimensions.coverage
  }

  predicate NoBetter(a: Request, b: Request)
  {
    && NoBetterClaims(a.claims, b.claims)
    && |b.sections| == |a.sections|
    && (forall i :: 0 <= i < |a.sections| ==> NoBetterSection(a.sections[i], b.sections[i]))
    && (a.strict != [] ==> b.strict != [])
  }

  // ----- penalties --------------------------------------------------------------------------------------

  function Present(p: Penalty, penalties: seq<Penalty>): int
  {
    if p in penalties then Points(p) else 0
  }

  lemma {:induction false} PointsByPresence(ps: seq<Penalty>)
    requires Distinct(ps)
    ensures PenaltyPoints(ps)
         == Present(UnresolvedMaterialContradiction, ps) + Present(StaleForCurrentQuery, ps)
          + Present(RequiredEvidenceCapabilityUnavailable, ps) + Present(InferredLegalApplicability, ps)
          + Present(SingleSourceHighImpactClaim, ps) + Present(InferredMaterialDateType, ps)
  {
    if ps != [] {
      PointsByPresence(ps[1..]);
      assert forall p :: Present(p, ps) == if p == ps[0] then Points(p) else Present(p, ps[1..]);
      assert ps[0] !in ps[1..];
    }
  }

  lemma {:induction false} MorePenaltiesCostMore(ps: seq<Penalty>, qs: seq<Penalty>)
    requires Distinct(ps) && Distinct(qs) && forall p :: p in ps ==> p in qs
    ensures PenaltyPoints(ps) <= PenaltyPoints(qs)
  {
    PointsByPresence(ps);
    PointsByPresence(qs);
    hide PenaltyPoints;
  }

  /** Points do not depend on the order in which penalties are listed, and one
      more penalty costs exactly its own points. */
  lemma {:induction false} PenaltiesAddUp(ps: seq<Penalty>, qs: seq<Penalty>, extra: Penalty)
    requires Distinct(ps) && Distinct(qs)
    ensures (forall p :: p in qs <==> p in ps) ==> PenaltyPoints(qs) == PenaltyPoints(ps)
    ensures extra !in ps && (forall p :: p in qs <==> p in ps || p == extra) ==>
      PenaltyPoints(qs) == PenaltyPoints(ps) + Points(extra)
  {
    PointsByPresence(ps);
    PointsByPresence(qs);
    hide PenaltyPoints, Distinct;
  }

  predicate DimensionsBetween(d: Dimensions, lo: real, hi: real)
  {
    && lo <= d.authority <= hi && lo <= d.relevance <= hi && lo <= d.coverage <= hi
    && lo <= d.agreement <= hi && lo <= d.freshness <= hi && lo <= d.scope <= hi
  }

  /** The base score lies between any bounds of the dimensions, and each
      dimension moves it by exactly its own weight. */
  lemma {:induction false} WeightsApplyExactly(d: Dimensions, x: real, lo: real, hi: real)
    ensures DimensionsBetween(d, lo, hi) ==> lo <= BaseScore(d) <= hi
    ensures BaseScore(d.(authority := d.authority + x)) == BaseScore(d) + 0.25 * x
    ensures BaseScore(d.(relevance := d.relevance + x)) == BaseScore(d) + 0.15 * x
    ensures BaseScore(d.(coverage := d.coverage + x)) == BaseScore(d) + 0.20 * x
    ensures BaseScore(d.(agreement := d.agreement + x)) == BaseScore(d) + 0.15 * x
    ensures BaseScore(d.(freshness := d.freshness + x)) == BaseScore(d) + 0.15 * x
    ensures BaseScore(d.(scope := d.scope + x)) == BaseScore(d) + 0.10 * x
  {
  }

  // ----- labels ----------------------------------------------------------------------------------------------

  lemma {:induction false} WeakestIsLeast(labels: seq<Label>)
    requires labels != []
    ensures forall i :: 0 <= i < |labels| ==> Rank(WeakestLabel(labels)) <= Rank(labels[i])
    ensures exists i :: 0 <= i < |labels| && WeakestLabel(labels) == labels[i]
  {
    if |labels| > 1 {
      var rest := labels[1..];
      WeakestIsLeast(rest);
      assert forall i :: 1 <= i < |labels| ==> labels[i] == rest[i - 1];
      var j :| 0 <= j < |rest| && WeakestLabel(rest) == rest[j];
      var k := if WeakestLabel(labels) == labels[0] then 0 else j + 1;
      assert WeakestLabel(labels) == labels[k];
    } else {
      assert WeakestLabel(labels) == labels[0];
    }
  }

  ghost predicate SomeNoHigher(labels: seq<Label>, bound: Label)
  {
    exists j :: 0 <= j < |labels| && Rank(labels[j]) <= Rank(bound)
  }

  lemma {:induction false} WeakestBelow(a: seq<Label>, b: seq<Label>)
    requires a != [] && b != []
    requires forall i :: 0 <= i < |b| ==> SomeNoHigher(a, b[i])
    ensures Rank(WeakestLabel(a)) <= Rank(WeakestLabel(b))
  {
    WeakestIsLeast(a);
    WeakestIsLeast(b);
    var i :| 0 <= i < |b| && WeakestLabel(b) == b[i];
    assert SomeNoHigher(a, b[i]);
  }

  lemma {:induction false} WeakestHighExactly(labels: seq<Label>)
    requires labels != []
    ensures WeakestLabel(labels) == High <==> forall i :: 0 <= i < |labels| ==> labels[i] == High
  {
    WeakestIsLeast(labels);
  }

  // ----- monotonicity --------------------------------------------------------------------------------------------

  lemma {:induction false} ClaimScoreFalls(c: Claim, d: Claim)
    requires ValidClaim(c) && ValidClaim(d) && NoBetterClaim(c, d)
    ensures ClaimScore(d) <= ClaimScore(c)
  {
    MorePenaltiesCostMore(c.penalties, d.penalties);
    hide PenaltyPoints, Distinct;
  }

  lemma {:induction false} GatesKeepFailing(c: Claim, d: Claim)
    requires NoBetterClaim(c, d)
    ensures GateFailures(c) != [] ==> GateFailures(d) != []
  {
    GatesPassExactly(c);
    GatesPassExactly(d);
    hide GateFailures;
  }

  lemma {:induction false} ClaimFalls(c: Claim, d: Claim)
    requires ValidClaim(c) && ValidClaim(d) && NoBetterClaim(c, d)
    ensures ClaimScore(d) <= ClaimScore(c) && Rank(ClaimLabel(d)) <= Rank(ClaimLabel(c))
    ensures Rank(LabelForScore(ClaimScore(d))) <= Rank(LabelForScore(ClaimScore(c)))
  {
    hide ClaimScore, GateFailures, Distinct;
    ClaimScoreFalls(c, d);
    GatesKeepFailing(c, d);
  }

  lemma {:induction false} IndexedFalls(cs: seq<Claim>, ds: seq<Claim>)
    requires NoBetterClaims(cs, ds)
    ensures Indexed(cs).Keys == Indexed(ds).Keys
    ensures forall id :: id in Indexed(cs) ==> NoBetterClaim(Indexed(cs)[id], Indexed(ds)[id])
    ensures SameCoverage(cs, ds) ==> forall id :: id in Indexed(cs) ==>
      Indexed(ds)[id].dimensions.coverage == Indexed(cs)[id].dimensions.coverage
  {
    if cs != [] {
      IndexedFalls(cs[..|cs| - 1], ds[..|ds| - 1]);
      assert NoBetterClaim(cs[|cs| - 1], ds[|ds| - 1]);
      hide NoBetterClaim;
      assert cs[|cs| - 1].id == ds[|ds| - 1].id by { SameIds(cs[|cs| - 1], ds[|ds| - 1]); }
    }
  }

  lemma {:induction false} SameIds(c: Claim, d: Claim)
    requires NoBetterClaim(c, d)
    ensures c.id == d.id
  {
  }

  lemma {:induction false} OneMemberFalls(cs: seq<Claim>, ds: seq<Claim>, i: nat)
    requires ValidMembers(cs) && ValidMembers(ds) && NoBetterClaims(cs, ds) && i < |cs|
    ensures ClaimScore(ds[i]) <= ClaimScore(cs[i]) && Rank(ClaimLabel(ds[i])) <= Rank(ClaimLabel(cs[i]))
    ensures ds[i].dimensions.coverage <= cs[i].dimensions.coverage
  {
    assert ValidClaim(cs[i]) && ValidClaim(ds[i]) && NoBetterClaim(cs[i], ds[i]);
    hide ValidClaim, ClaimScore, ClaimLabel;
    ClaimFalls(cs[i], ds[i]);
  }

  /** The lowest score and the weakest label fall with the claims, whatever
      happens to the coverage. */
  lemma {:induction false} LowestAndWeakestFall(cs: seq<Claim>, ds: seq<Claim>)
    requires ValidMembers(cs) && ValidMembers(ds) && NoBetterClaims(cs, ds)
    ensures Lowest(Scores(ds)) <= Lowest(Scores(cs))
    ensures Rank(WeakestLabel(Labels(ds))) <= Rank(WeakestLabel(Labels(cs)))
  {
    hide ClaimScore, ClaimLabel, NoBetterClaim, Lowest, WeakestLabel, Rank;
    var low, low', labels, labels' := Scores(cs), Scores(ds), Labels(cs), Labels(ds);
    forall i | 0 <= i < |cs|
      ensures SomeAtMost(low', low[i]) && SomeNoHigher(labels', labels[i])
    {
      OneMemberFalls(cs, ds, i);
      assert low'[i] <= low[i];
      assert Rank(labels'[i]) <= Rank(labels[i]);
    }
    LowestBelow(low', low);
    WeakestBelow(labels', labels);
  }

  /** The label of a section falls with its claims, whatever happens to the
      coverage. */
  lemma {:induction false} SectionLabelFalls(cs: seq<Claim>, ds: seq<Claim>)
    requires ValidMembers(cs) && ValidMembers(ds) && NoBetterClaims(cs, ds)
    ensures Rank(SectionLabel(ds)) <= Rank(SectionLabel(cs))
  {
    SectionLabelExactly(cs);
    SectionLabelExactly(ds);
    LowestAndWeakestFall(cs, ds);
    hide SectionLabel, ClaimScore, ClaimLabel, Labels, Lowest, WeakestLabel;
    if Covered(ds) {
      var i :| 0 <= i < |ds| && ds[i].dimensions.coverage > 0.0;
      OneMemberFalls(cs, ds, i);
      assert cs[i].dimensions.coverage > 0.0;
    }
  }

  /** With the coverage kept, its score falls too. */
  lemma {:induction false} SectionScoreFalls(cs: seq<Claim>, ds: seq<Claim>)
    requires ValidMembers(cs) && ValidMembers(ds) && NoBetterClaims(cs, ds) && SameCoverage(cs, ds)
    ensures SectionScore(ds) <= SectionScore(cs)
  {
    hide ClaimScore, ClaimLabel, NoBetterClaim, Mean, Lowest;
    forall i | 0 <= i < |cs|
      ensures ClaimScore(ds[i]) <= ClaimScore(cs[i])
    {
      OneMemberFalls(cs, ds, i);
    }
    MemberScores(ds);
    MeanMonotone(ByCoverage(ds), ByCoverage(cs));
    LowestAndWeakestFall(cs, ds);
  }

  predicate NoBetterResult(r: SectionResult, q: SectionResult)
  {
    && q.score <= r.score && Rank(q.finalLabel) <= Rank(r.finalLabel)
    && q.importance == r.importance && (r.critical ==> q.critical)
  }

  lemma {:induction false} OverallFalls(
    claims: seq<ClaimResult>, sections: seq<SectionResult>, strict: seq<StrictReason>,
    claims': seq<ClaimResult>, sections': seq<SectionResult>, strict': seq<StrictReason>)
    requires claims != [] && |claims'| == |claims| && |sections'| == |sections|
    requires Critical(sections) != [] && Critical(sections') != [] && (strict != [] ==> strict' != [])
    requires forall i :: 0 <= i < |sections| ==>
      sections[i].importance > 0.0 && NoBetterResult(sections[i], sections'[i])
    requires forall i :: 0 <= i < |claims| ==> Rank(claims'[i].finalLabel) <= Rank(claims[i].finalLabel)
    ensures var before, after := OverallOf(claims, sections, strict), OverallOf(claims', sections', strict');
            && after.mean <= before.mean && after.lowestCritical <= before.lowestCritical
            && after.score <= before.score && Rank(after.finalLabel) <= Rank(before.finalLabel)
  {
    CriticalExactly(sections);
    CriticalExactly(sections');
    var critical, critical' := Critical(sections), Critical(sections');
    MeanMonotone(ByImportance(sections'), ByImportance(sections));
    hide Critical, Mean, Lowest, WeakestLabel, Rank;
    var low, low' := SectionScores(critical), SectionScores(critical');
    var labels, labels' := SectionLabels(critical), SectionLabels(critical');
    forall i | 0 <= i < |critical|
      ensures SomeAtMost(low', low[i]) && SomeNoHigher(labels', labels[i])
    {
      assert critical[i] in critical;
      var k :| 0 <= k < |sections| && sections[k] == critical[i];
      assert NoBetterResult(sections[k], sections'[k]);
      assert sections'[k] in critical';
      var j :| 0 <= j < |critical'| && critical'[j] == sections'[k];
      assert low'[j] <= low[i];
      assert Rank(labels'[j]) <= Rank(labels[i]);
    }
    LowestBelow(low', low);
    WeakestBelow(labels', labels);
    FinalsFall(claims, claims');
    var before, after := OverallOf(claims, sections, strict), OverallOf(claims', sections', strict');
    hide SectionScores, SectionLabels, FinalLabels, ByImportance;
    LabelsFall(before.score, after.score, WeakestLabel(SectionLabels(critical)), WeakestLabel(SectionLabels(critical')),
               WeakestLabel(FinalLabels(claims)), WeakestLabel(FinalLabels(claims')), strict, strict');
  }

  lemma {:induction false} FinalsFall(claims: seq<ClaimResult>, claims': seq<ClaimResult>)
    requires claims != [] && |claims'| == |claims|
    requires forall i :: 0 <= i < |claims| ==> Rank(claims'[i].finalLabel) <= Rank(claims[i].finalLabel)
    ensures Rank(WeakestLabel(FinalLabels(claims'))) <= Rank(WeakestLabel(FinalLabels(claims)))
  {
    hide Rank;
    var labels, labels' := FinalLabels(claims), FinalLabels(claims');
    forall i | 0 <= i < |claims|
      ensures SomeNoHigher(labels', labels[i])
    {
      assert Rank(labels'[i]) <= Rank(labels[i]);
    }
    WeakestBelow(labels', labels);
  }

  function Combine(score: real, weakest: Label, weakestClaim: Label, strict: seq<StrictReason>): Label
  {
    var capped := MinLabel(LabelForScore(score), weakest);
    if strict != [] then MinLabel(capped, weakestClaim) else capped
  }

  lemma {:induction false} LabelsFall(
    score: real, score': real, weakest: Label, weakest': Label, claim: Label, claim': Label,
    strict: seq<StrictReason>, strict': seq<StrictReason>)
    requires score' <= score && Rank(weakest') <= Rank(weakest) && Rank(claim') <= Rank(claim)
    requires strict != [] ==> strict' != []
    ensures Rank(Combine(score', weakest', claim', strict')) <= Rank(Combine(score, weakest, claim, strict))
  {
  }

  ghost predicate ClaimsFall(a: Result, b: Result)
  {
    |b.claims| == |a.claims| && forall i :: 0 <= i < |a.claims| ==>
      b.claims[i].finalScore <= a.claims[i].finalScore
      && Rank(b.claims[i].finalLabel) <= Rank(a.claims[i].finalLabel)
  }

  ghost predicate SectionLabelsFall(a: Result, b: Result)
  {
    |b.sections| == |a.sections| && forall i :: 0 <= i < |a.sections| ==>
      Rank(b.sections[i].finalLabel) <= Rank(a.sections[i].finalLabel)
  }

  ghost predicate SectionScoresFall(a: Result, b: Result)
  {
    |b.sections| == |a.sections| && forall i :: 0 <= i < |a.sections| ==>
      b.sections[i].score <= a.sections[i].score
  }

  lemma {:induction false} OneSectionFalls(a: Request, b: Request, i: nat)
    requires ValidRequest(a) && ValidRequest(b) && NoBetter(a, b) && i < |a.sections|
    ensures i < |SectionResults(a)| == |a.sections| && |SectionResults(b)| == |a.sections|
    ensures SectionResults(a)[i].importance == SectionResults(b)[i].importance > 0.0
    ensures SectionResults(a)[i].critical ==> SectionResults(b)[i].critical
    ensures Rank(SectionResults(b)[i].finalLabel) <= Rank(SectionResults(a)[i].finalLabel)
    ensures SameCoverage(a.claims, b.claims) ==> NoBetterResult(SectionResults(a)[i], SectionResults(b)[i])
  {
    var s, t := a.sections[i], b.sections[i];
    assert NoBetterSection(s, t);
    MembersValid(a, s);
    MembersValid(b, t);
    MembersFall(a, b, i);
    hide ValidRequest, NoBetterClaim, MembersOf, SectionScore, SectionLabel, SameCoverage;
    SectionLabelFalls(MembersOf(a, s), MembersOf(b, t));
    if SameCoverage(a.claims, b.claims) {
      SectionScoreFalls(MembersOf(a, s), MembersOf(b, t));
    }
  }

  lemma {:induction false} MembersFall(a: Request, b: Request, i: nat)
    requires ValidRequest(a) && ValidRequest(b) && NoBetter(a, b) && i < |a.sections|
    ensures NoBetterClaims(MembersOf(a, a.sections[i]), MembersOf(b, b.sections[i]))
    ensures SameCoverage(a.claims, b.claims) ==>
      SameCoverage(MembersOf(a, a.sections[i]), MembersOf(b, b.sections[i]))
  {
    assert NoBetterSection(a.sections[i], b.sections[i]);
    IndexedFalls(a.claims, b.claims);
    hide NoBetterClaim, Indexed;
  }

  predicate AllCritical(request: Request)
  {
    forall i :: 0 <= i < |request.sections| ==> request.sections[i].critical
  }

  /** Adding penalties or hard unknown conditions, weakening evidence, coverage or
      ceilings, marking more sections critical or adding strict reasons never
      raises a claim's score or label or a section's label, nor the overall label
      when every section is critical. With the coverage kept, no section or
      overall score or label rises either. */
  lemma {:induction false} WorseInputsNeverRaise(a: Request, b: Request)
    requires ValidRequest(a) && ValidRequest(b) && NoBetter(a, b)
    ensures ClaimsFall(Confidences(a), Confidences(b)) && SectionLabelsFall(Confidences(a), Confidences(b))
    ensures AllCritical(a) ==>
      Rank(Confidences(b).overall.finalLabel) <= Rank(Confidences(a).overall.finalLabel)
    ensures SameCoverage(a.claims, b.claims) ==>
      && SectionScoresFall(Confidences(a), Confidences(b))
      && Confidences(b).overall.score <= Confidences(a).overall.score
      && Rank(Confidences(b).overall.finalLabel) <= Rank(Confidences(a).overall.finalLabel)
  {
    ResultsFall(a, b);
    CapsFall(a, b);
    if SameCoverage(a.claims, b.claims) {
      OverallFallsTogether(a, b);
    }
    if AllCritical(a) {
      AllCriticalIsCapped(a);
    }
    hide Confidences, ClaimsFall, SectionLabelsFall, SectionScoresFall, SameCoverage, AllCritical;
    hide Caps, NoBetter, ValidRequest;
    OverallIsCapped(b);
  }

  lemma {:induction false} ResultsFall(a: Request, b: Request)
    requires ValidRequest(a) && ValidRequest(b) && NoBetter(a, b)
    ensures ClaimsFall(Confidences(a), Confidences(b)) && SectionLabelsFall(Confidences(a), Confidences(b))
    ensures SameCoverage(a.claims, b.claims) ==> SectionScoresFall(Confidences(a), Confidences(b))
  {
    SomeCritical(a);
    SomeCritical(b);
    Sizes(a);
    Sizes(b);
    hide ValidRequest, ClaimResults, SectionResults, OverallOf, Rank, NoBetterClaims, Critical, SameCoverage;
    forall i | 0 <= i < |a.claims|
      ensures ClaimResults(b)[i].finalScore <= ClaimResults(a)[i].finalScore
      ensures Rank(ClaimResults(b)[i].finalLabel) <= Rank(ClaimResults(a)[i].finalLabel)
    {
      OneClaimFalls(a, b, i);
    }
    forall i | 0 <= i < |a.sections|
      ensures Rank(SectionResults(b)[i].finalLabel) <= Rank(SectionResults(a)[i].finalLabel)
      ensures SameCoverage(a.claims, b.claims) ==> SectionResults(b)[i].score <= SectionResults(a)[i].score
    {
      OneSectionFalls(a, b, i);
    }
  }

  /** Nothing lifts the whole but a section whose score rises. */
  lemma {:induction false} OverallFallsTogether(a: Request, b: Request)
    requires ValidRequest(a) && ValidRequest(b) && NoBetter(a, b)
    requires SectionScoresFall(Confidences(a), Confidences(b))
    ensures Confidences(b).overall.score <= Confidences(a).overall.score
    ensures Rank(Confidences(b).overall.finalLabel) <= Rank(Confidences(a).overall.finalLabel)
  {
    assert a.claims != [];
    SomeCritical(a);
    SomeCritical(b);
    Sizes(a);
    Sizes(b);
    hide ValidRequest, ClaimResults, SectionResults, OverallOf, Rank, NoBetterClaims, Critical, SameCoverage;
    forall i | 0 <= i < |a.claims|
      ensures Rank(ClaimResults(b)[i].finalLabel) <= Rank(ClaimResults(a)[i].finalLabel)
    {
      OneClaimFalls(a, b, i);
    }
    forall i | 0 <= i < |a.sections|
      ensures SectionResults(a)[i].importance > 0.0
      ensures NoBetterResult(SectionResults(a)[i], SectionResults(b)[i])
    {
      OneSectionFalls(a, b, i);
    }
    OverallFalls(ClaimResults(a), SectionResults(a), a.strict, ClaimResults(b), SectionResults(b), b.strict);
  }

  /** What caps the overall label besides the overall score: the weakest critical
      section and, under strict reasons, the weakest claim. */
  function Caps(request: Request): Label
    requires ValidRequest(request)
  {
    SomeCritical(request);
    var weakest := WeakestLabel(SectionLabels(Critical(SectionResults(request))));
    if request.strict != [] then MinLabel(weakest, WeakestLabel(FinalLabels(ClaimResults(request)))) else weakest
  }

  lemma {:induction false} OverallIsCapped(request: Request)
    requires ValidRequest(request)
    ensures var o := Confidences(request).overall;
            o.finalLabel == MinLabel(LabelForScore(o.score), Caps(request))
  {
    SomeCritical(request);
    assert request.claims != [];
    hide ValidRequest, SectionResults, ClaimResults, Critical, WeakestLabel, SectionLabels, FinalLabels, Mean, Lowest;
  }

  lemma {:induction false} CapsFall(a: Request, b: Request)
    requires ValidRequest(a) && ValidRequest(b) && NoBetter(a, b)
    ensures Rank(Caps(b)) <= Rank(Caps(a))
  {
    assert a.claims != [] && (a.strict != [] ==> b.strict != []);
    SomeCritical(a);
    SomeCritical(b);
    Sizes(a);
    Sizes(b);
    CriticalExactly(SectionResults(a));
    CriticalExactly(SectionResults(b));
    hide ValidRequest, ClaimResults, SectionResults, WeakestLabel, Critical, Rank, NoBetterClaims;
    forall i | 0 <= i < |a.claims|
      ensures Rank(ClaimResults(b)[i].finalLabel) <= Rank(ClaimResults(a)[i].finalLabel)
    {
      OneClaimFalls(a, b, i);
    }
    FinalsFall(ClaimResults(a), ClaimResults(b));
    forall i | 0 <= i < |a.sections|
      ensures SectionResults(a)[i].critical ==> SectionResults(b)[i].critical
      ensures Rank(SectionResults(b)[i].finalLabel) <= Rank(SectionResults(a)[i].finalLabel)
    {
      OneSectionFalls(a, b, i);
    }
    CriticalWeakestFalls(SectionResults(a), SectionResults(b));
    hide SectionLabels, FinalLabels, NoBetter;
    MinFalls(WeakestLabel(SectionLabels(Critical(SectionResults(a)))),
             WeakestLabel(SectionLabels(Critical(SectionResults(b)))),
             WeakestLabel(FinalLabels(ClaimResults(a))), WeakestLabel(FinalLabels(ClaimResults(b))));
  }

  lemma {:induction false} MinFalls(x: Label, x': Label, y: Label, y': Label)
    requires Rank(x') <= Rank(x) && Rank(y') <= Rank(y)
    ensures Rank(MinLabel(x', y')) <= Rank(MinLabel(x, y)) && Rank(MinLabel(x', y')) <= Rank(x)
  {
  }

  lemma {:induction false} CriticalWeakestFalls(sections: seq<SectionResult>, sections': seq<SectionResult>)
    requires |sections'| == |sections| && Critical(sections) != [] && Critical(sections') != []
    requires forall i :: 0 <= i < |sections| ==> sections[i].critical ==> sections'[i].critical
    requires forall i :: 0 <= i < |sections| ==> Rank(sections'[i].finalLabel) <= Rank(sections[i].finalLabel)
    ensures Rank(WeakestLabel(SectionLabels(Critical(sections'))))
            <= Rank(WeakestLabel(SectionLabels(Critical(sections))))
  {
    CriticalExactly(sections);
    CriticalExactly(sections');
    var critical, critical' := Critical(sections), Critical(sections');
    hide Critical, WeakestLabel, Rank;
    var labels, labels' := SectionLabels(critical), SectionLabels(critical');
    forall i | 0 <= i < |critical|
      ensures SomeNoHigher(labels', labels[i])
    {
      assert critical[i] in critical;
      var k :| 0 <= k < |sections| && sections[k] == critical[i];
      assert sections'[k] in critical';
      var j :| 0 <= j < |critical'| && critical'[j] == sections'[k];
      assert Rank(labels'[j]) <= Rank(labels[i]);
    }
    WeakestBelow(labels', labels);
  }

  /** When every section is critical, the overall score never caps the label. */
  lemma {:induction false} AllCriticalIsCapped(request: Request)
    requires ValidRequest(request) && AllCritical(request)
    ensures Confidences(request).overall.finalLabel == Caps(request)
  {
    OverallIsCapped(request);
    SomeCritical(request);
    Sizes(request);
    var results := SectionResults(request);
    forall i | 0 <= i < |results|
      ensures results[i].critical && results[i].importance > 0.0
      ensures Rank(results[i].finalLabel) <= Rank(LabelForScore(results[i].score))
    {
      assert ValidSection(request.sections[i]);
    }
    hide ValidRequest, SectionResults, ClaimResults, Rank, LabelForScore, MinLabel;
    AllCriticalScore(results);
    hide Critical, SectionLabels, SectionScores, WeakestLabel, Lowest, FinalLabels, ByImportance, Mean, Blend;
    CappedChain(Confidences(request).overall.score, Lowest(SectionScores(results)),
                WeakestLabel(SectionLabels(results)),
                WeakestLabel(FinalLabels(ClaimResults(request))));
  }

  lemma {:induction false} AllCriticalScore(results: seq<SectionResult>)
    requires results != [] && forall i :: 0 <= i < |results| ==> results[i].critical && results[i].importance > 0.0
    requires forall i :: 0 <= i < |results| ==> Rank(results[i].finalLabel) <= Rank(LabelForScore(results[i].score))
    ensures Critical(results) == results
    ensures var lowest := Lowest(SectionScores(results));
            && Blend(Mean(ByImportance(results)), lowest) >= lowest
            && Rank(WeakestLabel(SectionLabels(results))) <= Rank(LabelForScore(lowest))
  {
    hide *;
    CriticalOfAll(results);
    MeanAboveLowest(results);
    WeakestBelowLowest(results);
  }

  lemma {:induction false} MeanAboveLowest(results: seq<SectionResult>)
    requires results != [] && forall i :: 0 <= i < |results| ==> results[i].importance > 0.0
    ensures var lowest := Lowest(SectionScores(results)); Blend(Mean(ByImportance(results)), lowest) >= lowest
  {
    var ws, scores := ByImportance(results), SectionScores(results);
    LengthOfValues(ws);
    LowestIsLeast(scores);
    HighestIsGreatest(scores);
    TotalNonNegative(ws);
    hide Lowest, Highest, Total, Mean, Values;
    assert ws[0].weight > 0.0;
    assert forall i :: 0 <= i < |scores| ==> Values(ws)[i] == scores[i];
    MeanBetween(ws, Lowest(scores), Highest(scores));
  }

  lemma {:induction false} WeakestBelowLowest(results: seq<SectionResult>)
    requires results != []
    requires forall i :: 0 <= i < |results| ==> Rank(results[i].finalLabel) <= Rank(LabelForScore(results[i].score))
    ensures Rank(WeakestLabel(SectionLabels(results))) <= Rank(LabelForScore(Lowest(SectionScores(results))))
  {
    hide LabelForScore, Rank, Lowest, WeakestLabel;
    var scores, labels := SectionScores(results), SectionLabels(results);
    LowestIsLeast(scores);
    WeakestIsLeast(labels);
    var i :| 0 <= i < |scores| && Lowest(scores) == scores[i];
    assert labels[i] == results[i].finalLabel && scores[i] == results[i].score;
  }

  lemma {:induction false} CriticalOfAll(results: seq<SectionResult>)
    requires forall i :: 0 <= i < |results| ==> results[i].critical
    ensures Critical(results) == results
  {
    if results != [] {
      CriticalOfAll(results[1..]);
    }
  }

  lemma {:induction false} CappedChain(score: real, lowest: real, weakest: Label, weakestClaim: Label)
    requires score >= lowest && Rank(weakest) <= Rank(LabelForScore(lowest))
    ensures MinLabel(LabelForScore(score), weakest) == weakest
    ensures MinLabel(LabelForScore(score), MinLabel(weakest, weakestClaim)) == MinLabel(weakest, weakestClaim)
  {
  }

  lemma {:induction false} Sizes(request: Request)
    requires ValidRequest(request)
    ensures |ClaimResults(request)| == |request.claims| && |SectionResults(request)| == |request.sections|
  {
  }

  lemma {:induction false} OneClaimFalls(a: Request, b: Request, i: nat)
    requires ValidRequest(a) && ValidRequest(b) && NoBetter(a, b) && i < |a.claims|
    ensures i < |ClaimResults(a)| == |a.claims| && |ClaimResults(b)| == |a.claims|
    ensures ClaimResults(b)[i].finalScore <= ClaimResults(a)[i].finalScore
    ensures Rank(ClaimResults(b)[i].finalLabel) <= Rank(ClaimResults(a)[i].finalLabel)
  {
    assert ValidClaim(a.claims[i]) && ValidClaim(b.claims[i]) && NoBetterClaim(a.claims[i], b.claims[i]);
    ClaimFalls(a.claims[i], b.claims[i]);
    hide ValidRequest, ClaimScore, ClaimLabel, GateFailures, Rank;
  }

  // ----- what High means ------------------------------------------------------------------------------------------

  predicate FullyHigh(c: Claim)
  {
    && ClaimScore(c) >= 80.0 && GatesPass(c) && c.hardUnknowns == []
    && c.policyCeiling == High && c.inputCeiling == High
  }

  lemma {:induction false} ClaimHighExactly(c: Claim)
    ensures ClaimLabel(c) == High <==> FullyHigh(c)
  {
    GatesPassExactly(c);
    hide ClaimScore, GateFailures, GatesPass;
  }

  /** A section is High exactly when all of its claims are: its score needs no
      condition of its own. */
  lemma {:induction false} SectionHighExactly(members: seq<Claim>)
    requires ValidMembers(members)
    ensures SectionLabel(members) == High <==> forall i :: 0 <= i < |members| ==> FullyHigh(members[i])
  {
    SectionLabelExactly(members);
    var labels := Labels(members);
    WeakestHighExactly(labels);
    forall i | 0 <= i < |members|
      ensures labels[i] == High <==> FullyHigh(members[i])
      ensures FullyHigh(members[i]) ==> members[i].dimensions.coverage > 0.0
    {
      ClaimHighExactly(members[i]);
    }
    hide FullyHigh, ClaimLabel, SectionLabel, WeakestLabel, ValidClaim;
    if forall i :: 0 <= i < |members| ==> FullyHigh(members[i]) {
      assert members[0].dimensions.coverage > 0.0;
    }
  }

  ghost predicate SectionFullyHigh(request: Request, s: Section)
    requires ValidRequest(request) && s in request.sections
  {
    forall i :: 0 <= i < |MembersOf(request, s)| ==> FullyHigh(MembersOf(request, s)[i])
  }

  ghost predicate CriticalAllHigh(sections: seq<SectionResult>)
  {
    forall k :: 0 <= k < |sections| && sections[k].critical ==> sections[k].finalLabel == High
  }

  lemma {:induction false} CriticalAllHighExactly(sections: seq<SectionResult>)
    requires Critical(sections) != []
    ensures WeakestLabel(SectionLabels(Critical(sections))) == High <==> CriticalAllHigh(sections)
  {
    var critical := Critical(sections);
    CriticalExactly(sections);
    var labels := SectionLabels(critical);
    WeakestHighExactly(labels);
    hide Critical, WeakestLabel;
    if forall i :: 0 <= i < |labels| ==> labels[i] == High {
      forall k | 0 <= k < |sections| && sections[k].critical
        ensures sections[k].finalLabel == High
      {
        assert sections[k] in critical;
        var i :| 0 <= i < |critical| && critical[i] == sections[k];
        assert labels[i] == High;
      }
    }
    if CriticalAllHigh(sections) {
      forall i | 0 <= i < |labels|
        ensures labels[i] == High
      {
        assert critical[i] in critical;
        var k :| 0 <= k < |sections| && sections[k] == critical[i];
      }
    }
  }

  lemma {:induction false} EachSectionHighExactly(request: Request, k: nat)
    requires ValidRequest(request) && k < |request.sections|
    ensures SectionResults(request)[k].critical == request.sections[k].critical
    ensures SectionResults(request)[k].finalLabel == High <==> SectionFullyHigh(request, request.sections[k])
  {
    MembersValid(request, request.sections[k]);
    SectionHighExactly(MembersOf(request, request.sections[k]));
    hide ValidRequest, MembersOf, SectionLabel, SectionScore, FullyHigh;
  }

  lemma {:induction false} CriticalHighExactly(request: Request)
    requires ValidRequest(request)
    ensures CriticalAllHigh(SectionResults(request))
            <==> (forall s :: s in request.sections && s.critical ==> SectionFullyHigh(request, s))
  {
    var results := SectionResults(request);
    assert |results| == |request.sections|;
    forall k | 0 <= k < |results|
      ensures results[k].critical == request.sections[k].critical
      ensures results[k].finalLabel == High <==> SectionFullyHigh(request, request.sections[k])
    {
      EachSectionHighExactly(request, k);
    }
    hide ValidRequest, SectionResults, SectionFullyHigh;
    if CriticalAllHigh(results) {
      forall s | s in request.sections && s.critical
        ensures SectionFullyHigh(request, s)
      {
        var k :| 0 <= k < |request.sections| && request.sections[k] == s;
        assert results[k].critical;
      }
    }
    if forall s :: s in request.sections && s.critical ==> SectionFullyHigh(request, s) {
      forall k | 0 <= k < |results| && results[k].critical
        ensures results[k].finalLabel == High
      {
        assert request.sections[k] in request.sections;
      }
    }
  }

  lemma {:induction false} StrictHighExactly(request: Request)
    requires ValidRequest(request)
    ensures FinalLabels(ClaimResults(request)) != []
    ensures WeakestLabel(FinalLabels(ClaimResults(request))) == High
            <==> forall c :: c in request.claims ==> FullyHigh(c)
  {
    var labels := FinalLabels(ClaimResults(request));
    WeakestHighExactly(labels);
    forall i | 0 <= i < |request.claims|
      ensures labels[i] == High <==> FullyHigh(request.claims[i])
    {
      ClaimHighExactly(request.claims[i]);
    }
    hide FullyHigh, ClaimLabel, WeakestLabel;
  }

  /** The overall label is High exactly when the overall score reaches 80, every
      claim of every critical section scores 80, passes all gates under High
      ceilings and has no hard unknown, and, under strict reasons, so does every
      claim at all. */
  lemma {:induction false} OverallHighExactly(request: Request)
    requires ValidRequest(request)
    ensures Confidences(request).overall.finalLabel == High
            <==> && Confidences(request).overall.score >= 80.0
                 && (forall s :: s in request.sections && s.critical ==> SectionFullyHigh(request, s))
                 && (request.strict != [] ==> forall c :: c in request.claims ==> FullyHigh(c))
  {
    SomeCritical(request);
    CriticalHighExactly(request);
    StrictHighExactly(request);
    CriticalAllHighExactly(SectionResults(request));
    assert request.claims != [];
    hide ValidRequest, SectionResults, ClaimResults, FullyHigh, SectionFullyHigh, WeakestLabel, Critical, FinalLabels;
    hide SectionLabels, Mean, Lowest, CriticalAllHigh;
  }
}
