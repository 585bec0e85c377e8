/** Coverage is a weight as well as a dimension, so less of it can raise a score
    (apps/api/backend/ask/confidence.py): exactly when it does, and a request on
    which it lifts the overall label. */
module ConfidenceCoverage {
  import opened ConfidenceArithmetic
  import opened Confidence
  import opened ConfidenceTheorems

  // ----- blends of quotients ------------------------------------------------------------------

  /** Cross-multiplied: 0.7 of the change of the mean against 0.3 of the fall of
      the lowest value. */
  predicate NoGain(sum: real, total: real, lowest: real, sum': real, total': real, lowest': real)
  {
    0.7 * (sum' * total - sum * total') <= 0.3 * (lowest - lowest') * (total * total')
  }

  lemma {:induction false} Products(a: real, b: real, s: real, t: real, u: real, v: real)
    requires a * t == s && b * v == u
    ensures (b - a) * (t * v) == u * t - s * v
  {
    assert (b - a) * (t * v) == b * v * t - a * t * v;
  }

  lemma {:induction false} BlendFallsExactly(
    sum: real, total: real, lowest: real, sum': real, total': real, lowest': real)
    requires total > 0.0 && total' > 0.0
    ensures Blend(sum' / total', lowest') <= Blend(sum / total, lowest)
            <==> NoGain(sum, total, lowest, sum', total', lowest')
  {
    var a, b, scale := sum / total, sum' / total', total * total';
    assert a * total == sum && b * total' == sum';
    assert scale > 0.0;
    Products(a, b, sum, total, sum', total');
    Compare(0.7 * (b - a), 0.3 * (lowest - lowest'), scale);
    assert 0.7 * (b - a) * scale == 0.7 * ((b - a) * scale);
  }

  /** The mean of weighted values against that of others. */
  lemma {:induction false} MeanFallsExactly(a: seq<Weighted>, b: seq<Weighted>)
    requires Total(a) > 0.0 && Total(b) > 0.0
    ensures Mean(b) <= Mean(a) <==> WeightedSum(b) * Total(a) <= WeightedSum(a) * Total(b)
  {
    var x, y := WeightedSum(a) / Total(a), WeightedSum(b) / Total(b);
    assert x * Total(a) == WeightedSum(a) && y * Total(b) == WeightedSum(b);
    var scale := Total(a) * Total(b);
    assert scale > 0.0;
    Products(x, y, WeightedSum(a), Total(a), WeightedSum(b), Total(b));
    Compare(y - x, 0.0, scale);
  }

  // ----- one value among others -----------------------------------------------------------------

  function Without(ws: seq<Weighted>, i: nat): seq<Weighted>
    requires i < |ws|
  {
    ws[..i] + ws[i + 1..]
  }

  lemma {:induction false} SplitOff(ws: seq<Weighted>, i: nat)
    requires i < |ws|
    ensures Total(ws) == Total(Without(ws, i)) + ws[i].weight
    ensures WeightedSum(ws) == WeightedSum(Without(ws, i)) + ws[i].value * ws[i].weight
  {
    hide Total, WeightedSum;
    SumsAppend(ws[..i], ws[i + 1..]);
    SumsAppend([ws[i]], ws[i + 1..]);
    SumsAppend(ws[..i], [ws[i]] + ws[i + 1..]);
    SumsOfOne(ws[i]);
    assert ws == ws[..i] + ([ws[i]] + ws[i + 1..]);
  }

  lemma {:induction false} SumsOfOne(w: Weighted)
    ensures Total([w]) == w.weight && WeightedSum([w]) == w.value * w.weight
  {
    assert [w][1..] == [];
  }

  lemma {:induction false} SumsAppend(a: seq<Weighted>, b: seq<Weighted>)
    ensures Total(a + b) == Total(a) + Total(b) && WeightedSum(a + b) == WeightedSum(a) + WeightedSum(b)
  {
    if a == [] {
      assert a + b == b;
    } else {
      SumsAppend(a[1..], b);
      assert (a + b)[1..] == a[1..] + b;
    }
  }

  /** One value falls from weight `w` and value `x` to `w'` and `x'`, the others
      having total weight `r` and weighted sum `s`: the mean falls exactly when
      what it loses in value outweighs what it loses in weight. */
  predicate OutweighsOthers(s: real, r: real, x: real, w: real, x': real, w': real)
  {
    s * (w - w') <= r * (x * w - x' * w') + w * w' * (x - x')
  }

  lemma {:induction false} Regroup(s: real, r: real, x: real, w: real, x': real, w': real)
    ensures (s + x * w) * (r + w') - (s + x' * w') * (r + w)
         == r * (x * w - x' * w') + w * w' * (x - x') - s * (w - w')
  {
    assert (s + x * w) * (r + w') == s * r + s * w' + x * w * r + x * w * w';
    assert (s + x' * w') * (r + w) == s * r + s * w + x' * w' * r + x' * w' * w;
    assert w * w' * (x - x') == x * w * w' - x' * w' * w;
    assert r * (x * w - x' * w') == x * w * r - x' * w' * r;
  }

  /** The two means' sums and totals, in terms of the one value that changes. */
  ghost predicate Parted(sum: real, total: real, s: real, r: real, x: real, w: real)
  {
    sum == s + x * w && total == r + w
  }

  lemma {:induction false} CrossDifference(
    sum: real, total: real, sum': real, total': real, s: real, r: real, x: real, w: real, x': real, w': real)
    requires Parted(sum, total, s, r, x, w) && Parted(sum', total', s, r, x', w')
    ensures sum' * total - sum * total' == s * (w - w') - r * (x * w - x' * w') - w * w' * (x - x')
    ensures total * total' == (r + w) * (r + w')
  {
    Regroup(s, r, x, w, x', w');
  }

  lemma {:induction false} SumsParted(ws: seq<Weighted>, i: nat, one: Weighted)
    requires i < |ws|
    ensures var (s, r) := (WeightedSum(Without(ws, i)), Total(Without(ws, i)));
            && Parted(WeightedSum(ws), Total(ws), s, r, ws[i].value, ws[i].weight)
            && Parted(WeightedSum(ws[i := one]), Total(ws[i := one]), s, r, one.value, one.weight)
  {
    SplitOff(ws, i);
    SplitOff(ws[i := one], i);
    assert Without(ws[i := one], i) == Without(ws, i);
    hide Without, Total, WeightedSum;
  }

  lemma {:induction false} OneMeanFallsExactly(ws: seq<Weighted>, i: nat, one: Weighted)
    requires i < |ws| && Total(ws) > 0.0 && Total(ws[i := one]) > 0.0
    ensures var others := Without(ws, i);
            Mean(ws[i := one]) <= Mean(ws)
            <==> OutweighsOthers(WeightedSum(others), Total(others), ws[i].value, ws[i].weight, one.value, one.weight)
  {
    hide Without, Total, WeightedSum, Mean, Parted;
    var changed, others := ws[i := one], Without(ws, i);
    SumsParted(ws, i, one);
    MeanFallsExactly(ws, changed);
    CrossDifference(WeightedSum(ws), Total(ws), WeightedSum(changed), Total(changed),
                    WeightedSum(others), Total(others), ws[i].value, ws[i].weight, one.value, one.weight);
  }

  // ----- sections ----------------------------------------------------------------------------------

  /** The coverage-weighted sum and the total coverage of a section's claims. */
  function CoverageSum(members: seq<Claim>): real { WeightedSum(ByCoverage(members)) }

  function CoverageTotal(members: seq<Claim>): real { Total(ByCoverage(members)) }

  function LowestScore(members: seq<Claim>): real
    requires members != []
  {
    Lowest(Scores(members))
  }

  lemma {:induction false} SectionScoreIs(members: seq<Claim>)
    requires ValidMembers(members)
    ensures CoverageTotal(members) >= 0.0
    ensures SectionScore(members)
         == if CoverageTotal(members) > 0.0
            then Blend(CoverageSum(members) / CoverageTotal(members), LowestScore(members))
            else Blend(0.0, LowestScore(members))
    ensures CoverageTotal(members) > 0.0 ==> CoverageSum(members) >= 0.0
  {
    MemberScores(members);
    TotalNonNegative(ByCoverage(members));
    if CoverageTotal(members) > 0.0 {
      SumBetween(ByCoverage(members), 0.0, 100.0);
    }
    hide ClaimScore, ValidClaim, Lowest, Total, WeightedSum, Values;
  }

  /** A section's score does not rise exactly when it loses all coverage or its
      mean gains no more than its lowest score costs. */
  predicate SectionGainsNothing(cs: seq<Claim>, ds: seq<Claim>)
    requires cs != [] && ds != []
  {
    || CoverageTotal(ds) == 0.0
    || NoGain(CoverageSum(cs), CoverageTotal(cs), LowestScore(cs), CoverageSum(ds), CoverageTotal(ds), LowestScore(ds))
  }

  lemma {:induction false} LessCoverageInTotal(cs: seq<Claim>, ds: seq<Claim>)
    requires ValidMembers(cs) && ValidMembers(ds) && NoBetterClaims(cs, ds) && CoverageTotal(ds) > 0.0
    ensures CoverageTotal(cs) > 0.0
  {
    MemberScores(cs);
    MemberScores(ds);
    TotalNonNegative(ByCoverage(cs));
    TotalNonNegative(ByCoverage(ds));
    forall i | 0 <= i < |cs|
      ensures ByCoverage(ds)[i].weight <= ByCoverage(cs)[i].weight
    {
      assert NoBetterClaim(cs[i], ds[i]);
    }
    hide ClaimScore, ValidClaim, NoBetterClaim, Total;
    var i :| 0 <= i < |ds| && ByCoverage(ds)[i].weight != 0.0;
    assert ByCoverage(cs)[i].weight != 0.0;
  }

  lemma {:induction false} SectionScoreFallsExactly(cs: seq<Claim>, ds: seq<Claim>)
    requires ValidMembers(cs) && ValidMembers(ds) && NoBetterClaims(cs, ds)
    ensures SectionScore(ds) <= SectionScore(cs) <==> SectionGainsNothing(cs, ds)
  {
    SectionScoreIs(cs);
    SectionScoreIs(ds);
    LowestAndWeakestFall(cs, ds);
    hide CoverageTotal, CoverageSum, SectionScore, NoBetterClaims;
    if CoverageTotal(ds) > 0.0 {
      LessCoverageInTotal(cs, ds);
      BlendFallsExactly(CoverageSum(cs), CoverageTotal(cs), LowestScore(cs),
                        CoverageSum(ds), CoverageTotal(ds), LowestScore(ds));
    } else {
      EmptyMeanIsLow(cs);
    }
  }

  lemma {:induction false} EmptyMeanIsLow(members: seq<Claim>)
    requires ValidMembers(members)
    ensures SectionScore(members) >= Blend(0.0, LowestScore(members))
  {
    SectionScoreIs(members);
    hide CoverageTotal, CoverageSum, SectionScore;
    if CoverageTotal(members) > 0.0 {
      Quotient(CoverageSum(members), 0.0, CoverageTotal(members));
    }
  }

  /** A section gains nothing from a claim that falls exactly when no coverage is
      left, or 0.7 of what the lost weight frees stays within 0.3 of the fall of the
      lowest score: `r` is the total coverage and `s` the weighted sum of the other
      claims. */
  predicate ClaimGainsNothing(cs: seq<Claim>, i: nat, d: Claim)
    requires i < |cs|
  {
    var others := Without(ByCoverage(cs), i);
    var (r, s) := (Total(others), WeightedSum(others));
    var (x, w, x', w') := (ClaimScore(cs[i]), cs[i].dimensions.coverage, ClaimScore(d), d.dimensions.coverage);
    || r + w' == 0.0
    || 0.7 * (s * (w - w') - r * (x * w - x' * w') - w * w' * (x - x'))
       <= 0.3 * (LowestScore(cs) - LowestScore(cs[i := d])) * ((r + w) * (r + w'))
  }

  /** One claim of a section changes: the condition in terms of that claim and of
      the others. */
  lemma {:induction false} OneClaimFallsExactly(cs: seq<Claim>, i: nat, d: Claim)
    requires i < |cs| && ValidMembers(cs) && ValidMembers(cs[i := d]) && NoBetterClaim(cs[i], d)
    ensures var others := Without(ByCoverage(cs), i);
            var (r, s) := (Total(others), WeightedSum(others));
            var (x, w, x', w') := (ClaimScore(cs[i]), cs[i].dimensions.coverage, ClaimScore(d), d.dimensions.coverage);
            && (r + w' > 0.0 ==>
                  (Mean(ByCoverage(cs[i := d])) <= Mean(ByCoverage(cs)) <==> OutweighsOthers(s, r, x, w, x', w')))
            && (SectionScore(cs[i := d]) <= SectionScore(cs) <==> ClaimGainsNothing(cs, i, d))
  {
    hide *;
    var ds, ws, one := cs[i := d], ByCoverage(cs), Weighted(ClaimScore(d), d.dimensions.coverage);
    OneClaimChanged(cs, i, d);
    SumsParted(ws, i, one);
    SectionTotals(cs);
    SectionTotals(ds);
    SectionScoreFallsExactly(cs, ds);
    SectionScoreIs(ds);
    var others := Without(ws, i);
    PartedTotal(WeightedSum(ws[i := one]), Total(ws[i := one]), WeightedSum(others), Total(others),
                one.value, one.weight);
    CrossDifference(WeightedSum(ws), Total(ws), WeightedSum(ws[i := one]), Total(ws[i := one]),
                    WeightedSum(others), Total(others), ws[i].value, ws[i].weight, one.value, one.weight);
    GainsUnfold(cs, ds);
    ClaimGainsUnfold(cs, i, d);
    if CoverageTotal(ds) > 0.0 {
      LessCoverageInTotal(cs, ds);
      OneMeanFallsExactly(ws, i, one);
    }
  }

  lemma {:induction false} PartedTotal(sum: real, total: real, s: real, r: real, x: real, w: real)
    requires Parted(sum, total, s, r, x, w)
    ensures total == r + w
  {
  }

  lemma {:induction false} SectionTotals(members: seq<Claim>)
    ensures CoverageSum(members) == WeightedSum(ByCoverage(members))
    ensures CoverageTotal(members) == Total(ByCoverage(members))
  {
  }

  lemma {:induction false} GainsUnfold(cs: seq<Claim>, ds: seq<Claim>)
    requires cs != [] && ds != []
    ensures SectionGainsNothing(cs, ds) <==>
      || CoverageTotal(ds) == 0.0
      || 0.7 * (CoverageSum(ds) * CoverageTotal(cs) - CoverageSum(cs) * CoverageTotal(ds))
         <= 0.3 * (LowestScore(cs) - LowestScore(ds)) * (CoverageTotal(cs) * CoverageTotal(ds))
  {
    hide CoverageSum, CoverageTotal, LowestScore;
  }

  lemma {:induction false} ClaimGainsUnfold(cs: seq<Claim>, i: nat, d: Claim)
    requires i < |cs| && |ByCoverage(cs)| == |cs|
    ensures var others := Without(ByCoverage(cs), i);
            var (r, s) := (Total(others), WeightedSum(others));
            var (x, w, x', w') := (ClaimScore(cs[i]), cs[i].dimensions.coverage, ClaimScore(d), d.dimensions.coverage);
            ClaimGainsNothing(cs, i, d) <==>
              || r + w' == 0.0
              || 0.7 * (s * (w - w') - r * (x * w - x' * w') - w * w' * (x - x'))
                 <= 0.3 * (LowestScore(cs) - LowestScore(cs[i := d])) * ((r + w) * (r + w'))
  {
    hide Without, ByCoverage, Total, WeightedSum, ClaimScore, LowestScore;
  }

  lemma {:induction false} OneClaimChanged(cs: seq<Claim>, i: nat, d: Claim)
    requires i < |cs| && NoBetterClaim(cs[i], d)
    ensures NoBetterClaims(cs, cs[i := d]) && |ByCoverage(cs)| == |cs|
    ensures ByCoverage(cs)[i] == Weighted(ClaimScore(cs[i]), cs[i].dimensions.coverage)
    ensures ByCoverage(cs[i := d]) == ByCoverage(cs)[i := Weighted(ClaimScore(d), d.dimensions.coverage)]
  {
    forall k | 0 <= k < |cs|
      ensures NoBetterClaim(cs[k], cs[i := d][k])
    {
    }
    hide ClaimScore, NoBetterClaim;
  }

  /** A claim that still scores at least the mean of the others only lowers its
      section when it falls. */
  lemma {:induction false} StrongClaimOnlyLowers(cs: seq<Claim>, i: nat, d: Claim)
    requires i < |cs| && ValidMembers(cs) && ValidMembers(cs[i := d]) && NoBetterClaim(cs[i], d)
    requires WeightedSum(Without(ByCoverage(cs), i)) <= Total(Without(ByCoverage(cs), i)) * ClaimScore(d)
    ensures SectionScore(cs[i := d]) <= SectionScore(cs)
  {
    hide *;
    OneClaimFallsExactly(cs, i, d);
    OneClaimChanged(cs, i, d);
    ClaimGainsUnfold(cs, i, d);
    StrongClaimFacts(cs, i, d);
    LowestFallsWith(cs, i, d);
    var others := Without(ByCoverage(cs), i);
    var (r, s) := (Total(others), WeightedSum(others));
    var (x, w, x', w') := (ClaimScore(cs[i]), cs[i].dimensions.coverage, ClaimScore(d), d.dimensions.coverage);
    StrongOutweighs(s, r, x, w, x', w');
    GainIsBounded(LowestScore(cs), LowestScore(cs[i := d]), (r + w) * (r + w'));
  }

  lemma {:induction false} LowestFallsWith(cs: seq<Claim>, i: nat, d: Claim)
    requires i < |cs| && ValidMembers(cs) && ValidMembers(cs[i := d]) && NoBetterClaim(cs[i], d)
    ensures LowestScore(cs[i := d]) <= LowestScore(cs)
  {
    OneClaimChanged(cs, i, d);
    LowestAndWeakestFall(cs, cs[i := d]);
  }

  lemma {:induction false} StrongClaimFacts(cs: seq<Claim>, i: nat, d: Claim)
    requires i < |cs| && ValidMembers(cs) && ValidMembers(cs[i := d]) && NoBetterClaim(cs[i], d)
    ensures 0.0 <= ClaimScore(d) <= ClaimScore(cs[i]) && 0.0 <= d.dimensions.coverage <= cs[i].dimensions.coverage
    ensures i < |ByCoverage(cs)| && Total(Without(ByCoverage(cs), i)) >= 0.0
  {
    assert ValidClaim(cs[i]) && ValidClaim(cs[i := d][i]);
    OthersNonNegative(cs, i);
    hide ClaimScore, ByCoverage, Total, ValidMembers;
    ClaimFalls(cs[i], d);
    ClaimInRange(d);
  }

  lemma {:induction false} OthersNonNegative(cs: seq<Claim>, i: nat)
    requires i < |cs| && ValidMembers(cs)
    ensures i < |ByCoverage(cs)| && Total(Without(ByCoverage(cs), i)) >= 0.0
  {
    MemberScores(cs);
    hide ClaimScore, ValidMembers;
    var ws := ByCoverage(cs);
    var others := Without(ws, i);
    forall k | 0 <= k < |others|
      ensures others[k].weight >= 0.0
    {
      assert others[k] == if k < i then ws[k] else ws[k + 1];
    }
    hide ByCoverage, Total;
    TotalNonNegative(others);
  }

  lemma {:induction false} StrongOutweighs(s: real, r: real, x: real, w: real, x': real, w': real)
    requires x' <= x && 0.0 <= w' <= w && r >= 0.0 && s <= r * x' && x' >= 0.0
    ensures s * (w - w') - r * (x * w - x' * w') - w * w' * (x - x') <= 0.0
    ensures (r + w) * (r + w') >= 0.0
  {
    LostWeight(s, r, x', w, w');
    LostValue(r, x, w, x', w');
    NonNegativeProduct(w, w');
    NonNegativeProduct(w * w', x - x');
    NonNegativeProduct(r + w, r + w');
  }

  lemma {:induction false} NonNegativeProduct(a: real, b: real)
    requires a >= 0.0 && b >= 0.0
    ensures a * b >= 0.0
  {
  }

  lemma {:induction false} LostWeight(s: real, r: real, x': real, w: real, w': real)
    requires w' <= w && s <= r * x'
    ensures s * (w - w') <= r * (x' * w - x' * w')
  {
    Scale(s, r * x', w - w');
    assert r * x' * (w - w') == r * (x' * w - x' * w');
  }

  lemma {:induction false} LostValue(r: real, x: real, w: real, x': real, w': real)
    requires x' <= x && 0.0 <= w && r >= 0.0
    ensures r * (x' * w - x' * w') <= r * (x * w - x' * w')
  {
    Scale(x', x, w);
    var (a, b) := (x' * w - x' * w', x * w - x' * w');
    Scale(a, b, r);
    assert r * a == a * r && r * b == b * r;
  }

  lemma {:induction false} GainIsBounded(low: real, low': real, scale: real)
    requires low' <= low && scale >= 0.0
    ensures 0.3 * (low - low') * scale >= 0.0
  {
    Scale(0.0, 0.3 * (low - low'), scale);
  }

  // ----- requests ------------------------------------------------------------------------------------

  /** No better inputs raise the score of a section exactly when its claims' sums
      say so. */
  lemma {:induction false} SectionScoresFallExactly(a: Request, b: Request, k: nat)
    requires ValidRequest(a) && ValidRequest(b) && NoBetter(a, b) && k < |a.sections|
    ensures k < |Confidences(a).sections| && k < |Confidences(b).sections|
    ensures MembersOf(a, a.sections[k]) != [] && MembersOf(b, b.sections[k]) != []
    ensures Confidences(b).sections[k].score <= Confidences(a).sections[k].score
            <==> SectionGainsNothing(MembersOf(a, a.sections[k]), MembersOf(b, b.sections[k]))
  {
    assert NoBetterSection(a.sections[k], b.sections[k]);
    MembersValid(a, a.sections[k]);
    MembersValid(b, b.sections[k]);
    MembersFall(a, b, k);
    hide ValidRequest, MembersOf, NoBetterClaims, SectionScore, SectionGainsNothing, OverallOf;
    SectionScoreFallsExactly(MembersOf(a, a.sections[k]), MembersOf(b, b.sections[k]));
  }

  /** The label is allowed by all claims of all critical sections, which carry some
      coverage, and under strict reasons by all claims. */
  ghost predicate ClaimsAllow(request: Request, l: Label)
    requires ValidRequest(request)
  {
    && (forall k :: 0 <= k < |request.sections| && request.sections[k].critical ==>
          SectionAllows(MembersOf(request, request.sections[k]), l))
    && (request.strict != [] ==> ClaimsReach(request.claims, l))
  }

  ghost predicate ClaimsReach(claims: seq<Claim>, l: Label)
  {
    forall i :: 0 <= i < |claims| ==> Rank(l) <= Rank(ClaimLabel(claims[i]))
  }

  ghost predicate SectionAllows(members: seq<Claim>, l: Label)
  {
    Covered(members) && ClaimsReach(members, l)
  }

  lemma {:induction false} WeakestReaches(claims: seq<Claim>, labels: seq<Label>, l: Label)
    requires claims != [] && |labels| == |claims|
    requires forall i :: 0 <= i < |claims| ==> labels[i] == ClaimLabel(claims[i])
    ensures Rank(l) <= Rank(WeakestLabel(labels)) <==> ClaimsReach(claims, l)
  {
    WeakestIsLeast(labels);
    hide WeakestLabel, ClaimLabel, Rank;
  }

  lemma {:induction false} SectionAllowsExactly(members: seq<Claim>, l: Label)
    requires ValidMembers(members) && l != Unknown
    ensures Rank(l) <= Rank(SectionLabel(members)) <==> SectionAllows(members, l)
  {
    SectionLabelExactly(members);
    WeakestReaches(members, Labels(members), l);
    hide SectionLabel, WeakestLabel, ClaimLabel, ClaimsReach, Covered;
  }

  ghost predicate CriticalReach(results: seq<SectionResult>, l: Label)
  {
    forall k :: 0 <= k < |results| && results[k].critical ==> Rank(l) <= Rank(results[k].finalLabel)
  }

  lemma {:induction false} WeakestCriticalReaches(results: seq<SectionResult>, l: Label)
    requires Critical(results) != []
    ensures Rank(l) <= Rank(WeakestLabel(SectionLabels(Critical(results)))) <==> CriticalReach(results, l)
  {
    var critical := Critical(results);
    CriticalExactly(results);
    var labels := SectionLabels(critical);
    WeakestIsLeast(labels);
    hide Critical, WeakestLabel, Rank;
    if Rank(l) <= Rank(WeakestLabel(labels)) {
      forall k | 0 <= k < |results| && results[k].critical
        ensures Rank(l) <= Rank(results[k].finalLabel)
      {
        assert results[k] in critical;
        var i :| 0 <= i < |critical| && critical[i] == results[k];
        assert labels[i] == results[k].finalLabel;
      }
    }
    if CriticalReach(results, l) {
      var i :| 0 <= i < |labels| && WeakestLabel(labels) == labels[i];
      assert critical[i] in critical;
      var k :| 0 <= k < |results| && results[k] == critical[i];
    }
  }

  /** What caps the overall label, in terms of the labels of claims. */
  lemma {:induction false} CapsExactly(request: Request, l: Label)
    requires ValidRequest(request) && l != Unknown
    ensures Rank(l) <= Rank(Caps(request)) <==> ClaimsAllow(request, l)
  {
    SomeCritical(request);
    Sizes(request);
    assert request.claims != [];
    var results, finals := SectionResults(request), FinalLabels(ClaimResults(request));
    WeakestCriticalReaches(results, l);
    assert forall i :: 0 <= i < |request.claims| ==> finals[i] == ClaimLabel(request.claims[i]);
    WeakestReaches(request.claims, finals, l);
    forall k | 0 <= k < |results|
      ensures results[k].critical == request.sections[k].critical
      ensures Rank(l) <= Rank(results[k].finalLabel) <==> SectionAllows(MembersOf(request, request.sections[k]), l)
    {
      ResultAt(request, k);
      MembersValid(request, request.sections[k]);
      SectionAllowsExactly(MembersOf(request, request.sections[k]), l);
    }
    hide ValidRequest, SectionResults, ClaimResults, WeakestLabel, ClaimLabel, ClaimsReach, SectionAllows, MembersOf;
    hide Critical, SectionLabels, FinalLabels;
  }

  /** The overall label rises exactly when the overall score comes to reach a label
      that every claim of the critical sections, and under strict reasons every
      claim, still allows. */
  lemma {:induction false} OverallLabelRisesExactly(a: Request, b: Request)
    requires ValidRequest(a) && ValidRequest(b) && NoBetter(a, b)
    ensures Rank(Confidences(b).overall.finalLabel) > Rank(Confidences(a).overall.finalLabel)
            <==> exists l :: Confidences(a).overall.score < LeastScore(l) <= Confidences(b).overall.score
                             && ClaimsAllow(b, l)
  {
    OverallIsCapped(a);
    OverallIsCapped(b);
    CapsFall(a, b);
    ResultsInRange(a);
    var (x, y) := (Confidences(a).overall.score, Confidences(b).overall.score);
    hide Confidences, Caps, ValidRequest, NoBetter, ClaimsAllow;
    forall l: Label | l != Unknown
      ensures Rank(l) <= Rank(Caps(b)) <==> ClaimsAllow(b, l)
    {
      CapsExactly(b, l);
    }
    LabelRisesExactly(x, y, Caps(a), Caps(b));
  }

  lemma {:induction false} LabelRisesExactly(x: real, y: real, before: Label, after: Label)
    requires x >= 0.0 && Rank(after) <= Rank(before)
    ensures Rank(MinLabel(LabelForScore(y), after)) > Rank(MinLabel(LabelForScore(x), before))
            <==> exists l :: l != Unknown && x < LeastScore(l) <= y && Rank(l) <= Rank(after)
  {
    if Rank(MinLabel(LabelForScore(y), after)) > Rank(MinLabel(LabelForScore(x), before)) {
      var l := MinLabel(LabelForScore(y), after);
      assert x < LeastScore(l) <= y;
    }
  }

  // ----- the whole ---------------------------------------------------------------------------------

  /** The importance-weighted sum of the section scores and the total importance. */
  function ImportanceSum(request: Request): real
    requires ValidRequest(request)
  {
    WeightedSum(ByImportance(Confidences(request).sections))
  }

  function ImportanceTotal(request: Request): real
    requires ValidRequest(request)
  {
    Total(ByImportance(Confidences(request).sections))
  }

  lemma {:induction false} SameImportance(a: seq<Weighted>, b: seq<Weighted>)
    requires |a| == |b| && forall i :: 0 <= i < |a| ==> a[i].weight == b[i].weight
    ensures Total(a) == Total(b)
  {
    if a != [] {
      SameImportance(a[1..], b[1..]);
    }
  }

  lemma {:induction false} ImportancesAgree(a: Request, b: Request)
    requires ValidRequest(a) && ValidRequest(b) && NoBetter(a, b)
    ensures ImportanceTotal(a) == ImportanceTotal(b) > 0.0
  {
    var ws, ws' := ByImportance(SectionResults(a)), ByImportance(SectionResults(b));
    Sizes(a);
    Sizes(b);
    forall i | 0 <= i < |a.sections|
      ensures ws[i].weight == ws'[i].weight > 0.0
    {
      OneSectionFalls(a, b, i);
    }
    hide SectionResults, ValidRequest, NoBetter;
    SameImportance(ws, ws');
    TotalNonNegative(ws);
    hide Total;
    assert ws[0].weight != 0.0;
  }

  /** The overall score does not rise exactly when the sections' weighted gain
      stays within what the lowest critical score costs. */
  lemma {:induction false} OverallScoreFallsExactly(a: Request, b: Request)
    requires ValidRequest(a) && ValidRequest(b) && NoBetter(a, b)
    ensures Confidences(b).overall.score <= Confidences(a).overall.score
            <==> 0.7 * (ImportanceSum(b) - ImportanceSum(a))
                 <= 0.3 * (Confidences(a).overall.lowestCritical - Confidences(b).overall.lowestCritical)
                    * ImportanceTotal(a)
  {
    hide *;
    ImportancesAgree(a, b);
    OverallScoreIs(a);
    OverallScoreIs(b);
    var (sum, total, sum') := (ImportanceSum(a), ImportanceTotal(a), ImportanceSum(b));
    var (low, low') := (Confidences(a).overall.lowestCritical, Confidences(b).overall.lowestCritical);
    BlendFallsExactly(sum, total, low, sum', total, low');
    SameTotal(sum, total, low, sum', low');
  }

  lemma {:induction false} OverallScoreIs(request: Request)
    requires ValidRequest(request) && ImportanceTotal(request) > 0.0
    ensures Confidences(request).overall.score
         == Blend(ImportanceSum(request) / ImportanceTotal(request), Confidences(request).overall.lowestCritical)
  {
    hide ValidRequest, SectionResults, ClaimResults, Critical, WeakestLabel, Lowest, Total, WeightedSum;
  }

  lemma {:induction false} SameTotal(sum: real, total: real, low: real, sum': real, low': real)
    requires total > 0.0
    ensures NoGain(sum, total, low, sum', total, low') <==> 0.7 * (sum' - sum) <= 0.3 * (low - low') * total
  {
    Compare(0.7 * (sum' - sum), 0.3 * (low - low') * total, total);
    assert 0.7 * (sum' - sum) * total == 0.7 * (sum' * total - sum * total);
    assert 0.3 * (low - low') * total * total == 0.3 * (low - low') * (total * total);
  }

  /** One list of results against another, section by section. */
  ghost predicate ScoresAtMost(results: seq<SectionResult>, results': seq<SectionResult>)
  {
    |results| == |results'| && forall k :: 0 <= k < |results| ==>
      results[k].score <= results'[k].score && results[k].critical == results'[k].critical
  }

  lemma {:induction false} CriticalMatch(results: seq<SectionResult>, results': seq<SectionResult>, r': SectionResult)
    requires ScoresAtMost(results, results') && r' in Critical(results')
    ensures exists r :: r in Critical(results) && r.score <= r'.score
  {
    CriticalExactly(results);
    CriticalExactly(results');
    hide Critical;
    var k :| 0 <= k < |results'| && results'[k] == r';
    assert results[k] in Critical(results);
  }

  lemma {:induction false} LowestCriticalAtMost(results: seq<SectionResult>, results': seq<SectionResult>)
    requires ScoresAtMost(results, results') && Critical(results) != [] && Critical(results') != []
    ensures Lowest(SectionScores(Critical(results))) <= Lowest(SectionScores(Critical(results')))
  {
    hide Critical, Lowest, ScoresAtMost;
    var critical, critical' := Critical(results), Critical(results');
    var low, low' := SectionScores(critical), SectionScores(critical');
    forall i | 0 <= i < |critical'|
      ensures SomeAtMost(low, low'[i])
    {
      CriticalMatch(results, results', critical'[i]);
      var r :| r in critical && r.score <= critical'[i].score;
      var j :| 0 <= j < |critical| && critical[j] == r;
      assert low[j] <= low'[i];
    }
    hide SectionScores, SomeAtMost;
    LowestBelow(low, low');
  }

  /** The two requests differ in the claims of one section only. */
  ghost predicate OnlySectionChanges(a: Request, b: Request, k: nat)
    requires ValidRequest(a) && ValidRequest(b)
  {
    && k < |a.sections| && b.sections == a.sections
    && forall j :: 0 <= j < |a.sections| && j != k ==> MembersOf(b, a.sections[j]) == MembersOf(a, a.sections[j])
  }

  lemma {:induction false} OneResultChanges(a: Request, b: Request, k: nat)
    requires ValidRequest(a) && ValidRequest(b) && OnlySectionChanges(a, b, k)
    ensures k < |SectionResults(a)| == |SectionResults(b)| && SectionResults(a)[k].importance > 0.0
    ensures forall j :: 0 <= j < |SectionResults(a)| ==>
      SectionResults(b)[j].critical == SectionResults(a)[j].critical
      && (j != k ==> SectionResults(b)[j].score == SectionResults(a)[j].score)
    ensures ByImportance(SectionResults(b))
         == ByImportance(SectionResults(a))[k := Weighted(SectionResults(b)[k].score, SectionResults(a)[k].importance)]
  {
    assert ValidSection(a.sections[k]);
    Sizes(a);
    Sizes(b);
    forall j | 0 <= j < |a.sections|
      ensures SectionResults(b)[j].critical == SectionResults(a)[j].critical
      ensures SectionResults(b)[j].importance == SectionResults(a)[j].importance
      ensures j != k ==> SectionResults(b)[j].score == SectionResults(a)[j].score
    {
      ResultAt(a, j);
      ResultAt(b, j);
    }
    ResultAt(a, k);
    hide ValidRequest, MembersOf, SectionResults;
  }

  lemma {:induction false} SumMovesWith(ws: seq<Weighted>, k: nat, x: real)
    requires k < |ws|
    ensures WeightedSum(ws[k := Weighted(x, ws[k].weight)]) - WeightedSum(ws) == (x - ws[k].value) * ws[k].weight
  {
    var one := Weighted(x, ws[k].weight);
    SumsParted(ws, k, one);
    hide Without, Total, WeightedSum;
    assert (x - ws[k].value) * ws[k].weight == x * ws[k].weight - ws[k].value * ws[k].weight;
  }

  /** The sum and the lowest critical score move with the one section. */
  lemma {:induction false} PartsFollowSection(a: Request, b: Request, k: nat)
    requires ValidRequest(a) && ValidRequest(b) && OnlySectionChanges(a, b, k)
    ensures k < |SectionResults(a)| == |SectionResults(b)|
    ensures var (r, q) := (SectionResults(a)[k], SectionResults(b)[k]);
            && r.importance > 0.0
            && ImportanceSum(b) - ImportanceSum(a) == (q.score - r.score) * r.importance
            && (q.score <= r.score ==>
                  Confidences(b).overall.lowestCritical <= Confidences(a).overall.lowestCritical)
            && (r.score <= q.score ==>
                  Confidences(a).overall.lowestCritical <= Confidences(b).overall.lowestCritical)
  {
    hide *;
    var results, results' := SectionResults(a), SectionResults(b);
    OneResultChanges(a, b, k);
    LowestCriticals(a);
    LowestCriticals(b);
    SumsAre(a);
    SumsAre(b);
    ImportanceAt(results, k);
    SumMovesWith(ByImportance(results), k, results'[k].score);
    if results'[k].score <= results[k].score {
      AtMostBut(results', results, k);
      LowestCriticalAtMost(results', results);
    }
    if results[k].score <= results'[k].score {
      AtMostBut(results, results', k);
      LowestCriticalAtMost(results, results');
    }
  }

  lemma {:induction false} ImportanceAt(results: seq<SectionResult>, k: nat)
    requires k < |results|
    ensures k < |ByImportance(results)| && ByImportance(results)[k] == Weighted(results[k].score, results[k].importance)
  {
  }

  lemma {:induction false} AtMostBut(results: seq<SectionResult>, results': seq<SectionResult>, k: nat)
    requires k < |results| == |results'| && results[k].score <= results'[k].score
    requires forall j :: 0 <= j < |results| ==>
      results[j].critical == results'[j].critical && (j != k ==> results[j].score == results'[j].score)
    ensures ScoresAtMost(results, results')
  {
  }

  /** Whatever happens to one section, the whole rises and falls with it. */
  lemma {:induction false} OverallFollowsSection(a: Request, b: Request, k: nat)
    requires ValidRequest(a) && ValidRequest(b) && NoBetter(a, b) && OnlySectionChanges(a, b, k)
    ensures k < |SectionResults(a)| == |SectionResults(b)|
    ensures Confidences(b).overall.score <= Confidences(a).overall.score
            <==> SectionResults(b)[k].score <= SectionResults(a)[k].score
  {
    hide *;
    OverallScoreFallsExactly(a, b);
    ImportancesAgree(a, b);
    PartsFollowSection(a, b, k);
    var (r, q) := (SectionResults(a)[k], SectionResults(b)[k]);
    GainsFollow(r.score, q.score, r.importance, Confidences(a).overall.lowestCritical,
                Confidences(b).overall.lowestCritical, ImportanceTotal(a));
  }

  lemma {:induction false} Signs(a: real, b: real)
    requires b > 0.0
    ensures a <= 0.0 <==> a * b <= 0.0
    ensures a >= 0.0 <==> a * b >= 0.0
  {
    Compare(a, 0.0, b);
    Compare(0.0, a, b);
  }

  lemma {:induction false} GainsFollow(x: real, x': real, w: real, low: real, low': real, total: real)
    requires w > 0.0 && total > 0.0 && (x' <= x ==> low' <= low) && (x <= x' ==> low <= low')
    ensures 0.7 * ((x' - x) * w) <= 0.3 * (low - low') * total <==> x' <= x
  {
    Signs(x' - x, w);
    Signs(0.3 * (low - low'), total);
    var (gain, cost) := ((x' - x) * w, 0.3 * (low - low') * total);
    assert x' <= x ==> gain <= 0.0 <= cost;
    assert x < x' ==> gain > 0.0 >= cost;
  }

  lemma {:induction false} LowestCriticals(request: Request)
    requires ValidRequest(request)
    ensures Critical(SectionResults(request)) != []
    ensures Confidences(request).overall.lowestCritical == Lowest(SectionScores(Critical(SectionResults(request))))
  {
    SomeCritical(request);
  }

  lemma {:induction false} SumsAre(request: Request)
    requires ValidRequest(request)
    ensures ImportanceSum(request) == WeightedSum(ByImportance(SectionResults(request)))
  {
  }

  lemma {:induction false} SectionsOf(request: Request)
    requires ValidRequest(request)
    ensures Confidences(request).sections == SectionResults(request)
  {
  }

  /** When the claims of one section change, however important the section and
      critical or not, the overall score does not rise exactly when that section
      gains nothing. */
  lemma {:induction false} OneSectionFallsExactly(a: Request, b: Request, k: nat)
    requires ValidRequest(a) && ValidRequest(b) && NoBetter(a, b) && OnlySectionChanges(a, b, k)
    ensures MembersOf(a, a.sections[k]) != [] && MembersOf(b, b.sections[k]) != []
    ensures Confidences(b).overall.score <= Confidences(a).overall.score
            <==> SectionGainsNothing(MembersOf(a, a.sections[k]), MembersOf(b, b.sections[k]))
  {
    assert k < |a.sections|;
    SectionsOf(a);
    SectionsOf(b);
    hide *;
    SectionScoresFallExactly(a, b, k);
    OverallFollowsSection(a, b, k);
  }

  /** When no section gains, neither the overall score nor the overall label rises. */
  lemma {:induction false} NoSectionGains(a: Request, b: Request)
    requires ValidRequest(a) && ValidRequest(b) && NoBetter(a, b)
    requires forall k :: 0 <= k < |a.sections| ==>
      var (cs, ds) := (MembersOf(a, a.sections[k]), MembersOf(b, b.sections[k]));
      cs != [] && ds != [] && SectionGainsNothing(cs, ds)
    ensures Confidences(b).overall.score <= Confidences(a).overall.score
    ensures Rank(Confidences(b).overall.finalLabel) <= Rank(Confidences(a).overall.finalLabel)
  {
    assert |b.sections| == |a.sections|;
    Sizes(a);
    Sizes(b);
    hide ValidRequest, NoBetter, SectionResults, ClaimResults, OverallOf, MembersOf, SectionGainsNothing;
    forall k | 0 <= k < |a.sections|
      ensures Confidences(b).sections[k].score <= Confidences(a).sections[k].score
    {
      SectionScoresFallExactly(a, b, k);
    }
    OverallFallsTogether(a, b);
  }

  /** The request with one claim replaced. */
  function WithClaim(a: Request, n: nat, d: Claim): Request
    requires n < |a.claims|
  {
    a.(claims := a.claims[n := d])
  }

  lemma {:induction false} IndexedAt(claims: seq<Claim>, n: nat)
    requires n < |claims| && Distinct(ClaimIds(claims))
    ensures claims[n].id in Indexed(claims) && Indexed(claims)[claims[n].id] == claims[n]
  {
    IndexedCovers(claims);
    var c := Indexed(claims)[claims[n].id];
    var m :| 0 <= m < |claims| && claims[m] == c;
    var ids := ClaimIds(claims);
    assert ids[m] == ids[n];
  }

  lemma {:induction false} IndexedWith(claims: seq<Claim>, n: nat, d: Claim)
    requires n < |claims| && Distinct(ClaimIds(claims)) && d.id == claims[n].id
    ensures ClaimIds(claims[n := d]) == ClaimIds(claims)
    ensures Indexed(claims[n := d]) == Indexed(claims)[d.id := d]
  {
    var changed := claims[n := d];
    assert ClaimIds(changed) == ClaimIds(claims);
    IndexedCovers(claims);
    IndexedCovers(changed);
    IndexedAt(changed, n);
    hide Indexed, Distinct;
    assert forall i :: 0 <= i < |claims| ==> changed[i].id == claims[i].id;
    forall id | id in Indexed(claims) && id != d.id
      ensures Indexed(changed)[id] == Indexed(claims)[id]
    {
      var i :| 0 <= i < |claims| && claims[i].id == id;
      IndexedAt(claims, i);
      IndexedAt(changed, i);
    }
    assert Indexed(changed).Keys == Indexed(claims)[d.id := d].Keys;
  }

  /** Replacing a claim by one of the same name, section and mode keeps a request
      valid and changes the members of its own section only. */
  lemma {:induction false} WithClaimValid(a: Request, n: nat, d: Claim)
    requires ValidRequest(a) && n < |a.claims| && ValidClaim(d)
    requires d.id == a.claims[n].id && d.section == a.claims[n].section && d.mode == a.claims[n].mode
    ensures ValidRequest(WithClaim(a, n, d))
    ensures Indexed(WithClaim(a, n, d).claims) == Indexed(a.claims)[d.id := d]
    ensures d.id in Indexed(a.claims) && Indexed(a.claims)[d.id] == a.claims[n]
  {
    var b := WithClaim(a, n, d);
    IndexedWith(a.claims, n, d);
    IndexedAt(a.claims, n);
    hide Indexed, Distinct, Referenced, ValidClaim, ValidSection, ClaimIds, Keys;
    assert forall c :: c in b.claims ==> c == d || c in a.claims;
    forall s | s in b.sections
      ensures s.claimIds != [] && (forall id :: id in s.claimIds ==> id in Indexed(b.claims))
      ensures SectionAgrees(s, Indexed(b.claims))
    {
      assert SectionAgrees(s, Indexed(a.claims));
    }
    assert b.sections == a.sections && b.strict == a.strict;
  }

  lemma {:induction false} DistinctParts<T>(a: seq<T>, b: seq<T>)
    requires Distinct(a + b)
    ensures Distinct(b) && forall x :: x in a ==> x !in b
  {
    var all := a + b;
    forall i, j | 0 <= i < j < |b|
      ensures b[i] != b[j]
    {
      assert all[|a| + i] == b[i] && all[|a| + j] == b[j];
    }
    forall x | x in a
      ensures x !in b
    {
      var i :| 0 <= i < |a| && a[i] == x;
      assert all[i] == x;
      assert forall j :: 0 <= j < |b| ==> b[j] == all[|a| + j];
    }
  }

  lemma {:induction false} ReferencedApart(sections: seq<Section>, j: nat, k: nat, id: string)
    requires Distinct(Referenced(sections)) && j < |sections| && k < |sections|
    requires id in sections[j].claimIds && id in sections[k].claimIds
    ensures j == k
  {
    DistinctParts(sections[0].claimIds, Referenced(sections[1..]));
    if j != 0 {
      ReferencedHolds(sections[1..], j - 1, id);
    }
    if k != 0 {
      ReferencedHolds(sections[1..], k - 1, id);
    }
    if j != 0 && k != 0 {
      ReferencedApart(sections[1..], j - 1, k - 1, id);
    }
  }

  lemma {:induction false} ReferencedHolds(sections: seq<Section>, k: nat, id: string)
    requires k < |sections| && id in sections[k].claimIds
    ensures id in Referenced(sections)
  {
    if k != 0 {
      ReferencedHolds(sections[1..], k - 1, id);
    }
  }

  /** One claim of a request falls, in score or coverage: the overall score does not
      rise exactly when the inequality between that claim and the others of its
      section holds, the same one as for the section's own score. */
  lemma {:induction false} OneClaimFallsOverallExactly(a: Request, n: nat, d: Claim, k: nat, i: nat)
    requires ValidRequest(a) && n < |a.claims| && ValidClaim(d) && NoBetterClaim(a.claims[n], d)
    requires k < |a.sections| && i < |a.sections[k].claimIds| && a.sections[k].claimIds[i] == d.id
    ensures ValidRequest(WithClaim(a, n, d))
    ensures i < |MembersOf(a, a.sections[k])| && MembersOf(a, a.sections[k])[i] == a.claims[n]
    ensures Confidences(WithClaim(a, n, d)).overall.score <= Confidences(a).overall.score
            <==> ClaimGainsNothing(MembersOf(a, a.sections[k]), i, d)
  {
    var b := WithClaim(a, n, d);
    WithClaimValid(a, n, d);
    OneClaimOfSection(a, n, d, k, i);
    var (cs, ds) := (MembersOf(a, a.sections[k]), MembersOf(b, b.sections[k]));
    MembersValid(a, a.sections[k]);
    MembersValid(b, b.sections[k]);
    OneClaimNoBetter(a, n, d);
    assert b.sections == a.sections;
    hide *;
    OneSectionFallsExactly(a, b, k);
    OneClaimChanged(cs, i, d);
    SectionScoreFallsExactly(cs, ds);
    OneClaimFallsExactly(cs, i, d);
  }

  lemma {:induction false} OneClaimOfSection(a: Request, n: nat, d: Claim, k: nat, i: nat)
    requires ValidRequest(a) && n < |a.claims| && ValidClaim(d) && NoBetterClaim(a.claims[n], d)
    requires k < |a.sections| && i < |a.sections[k].claimIds| && a.sections[k].claimIds[i] == d.id
    requires ValidRequest(WithClaim(a, n, d))
    ensures OnlySectionChanges(a, WithClaim(a, n, d), k)
    ensures var (cs, ds) := (MembersOf(a, a.sections[k]), MembersOf(WithClaim(a, n, d), a.sections[k]));
            i < |cs| && cs[i] == a.claims[n] && ds == cs[i := d]
  {
    var b := WithClaim(a, n, d);
    WithClaimValid(a, n, d);
    assert ValidSection(a.sections[k]);
    forall j | 0 <= j < |a.sections| && j != k
      ensures MembersOf(b, a.sections[j]) == MembersOf(a, a.sections[j])
    {
      if d.id in a.sections[j].claimIds {
        ReferencedApart(a.sections, j, k, d.id);
      }
    }
    hide Indexed, ValidClaim, NoBetterClaim;
  }

  lemma {:induction false} OneClaimNoBetter(a: Request, n: nat, d: Claim)
    requires n < |a.claims| && NoBetterClaim(a.claims[n], d)
    ensures NoBetter(a, WithClaim(a, n, d))
  {
    forall c: Claim
      ensures NoBetterClaim(c, c)
    {
    }
    hide NoBetterClaim;
  }

  // ----- a request that rises ---------------------------------------------------------------------------

  /** A critical section with one High claim of score 80, and another section with
      a strong and a weak claim, whose coverage varies. */
  function Varied(coverage: real): Request
  {
    Request(
      [Claim("anchor", "first", GroundedRegulatory, High, Dimensions(79.4, 77.0, 85.0, 77.0, 77.0, 85.0),
             [], [], true, true, High),
       Claim("strong", "second", GroundedRegulatory, High, Dimensions(100.0, 100.0, 100.0, 100.0, 100.0, 100.0),
             [], [], true, true, High),
       Claim("weak", "second", GroundedRegulatory, High, Dimensions(50.0, 50.0, coverage, 50.0, 50.0, 50.0),
             [], [], true, true, High)],
      [Section("first", ["anchor"], 1.0, true), Section("second", ["strong", "weak"], 1.0, false)],
      [])
  }

  lemma {:induction false} VariedIndex(coverage: real)
    ensures var r := Varied(coverage);
            && Indexed(r.claims) == map["anchor" := r.claims[0], "strong" := r.claims[1], "weak" := r.claims[2]]
  {
    var cs := Varied(coverage).claims;
    assert cs[..2][..1] == [cs[0]] && cs[..1][..0] == [];
    assert Indexed([cs[0]]) == map["anchor" := cs[0]] by {
      assert [cs[0]][..0] == [];
    }
    assert cs[..2] == [cs[0], cs[1]] && [cs[0], cs[1]][..1] == [cs[0]];
    assert Indexed(cs[..2]) == map["anchor" := cs[0], "strong" := cs[1]];
  }

  lemma {:induction false} VariedNames(coverage: real)
    ensures var r := Varied(coverage);
            && Distinct(ClaimIds(r.claims)) && Distinct(Keys(r.sections)) && Distinct(Referenced(r.sections))
            && Distinct(["anchor"]) && Distinct(["strong", "weak"])
  {
    var r := Varied(coverage);
    VariedReferences(coverage);
    hide Referenced;
    assert ClaimIds(r.claims) == ["anchor", "strong", "weak"] && Keys(r.sections) == ["first", "second"];
    assert "anchor"[0] == 'a' && "strong"[0] == 's' && "weak"[0] == 'w' && "first"[0] == 'f' && "second"[0] == 's';
  }

  lemma {:induction false} VariedValid(coverage: real)
    requires InRange(coverage)
    ensures ValidRequest(Varied(coverage))
  {
    var r := Varied(coverage);
    VariedIndex(coverage);
    VariedNames(coverage);
    VariedReferences(coverage);
    hide Indexed, Referenced, Distinct, ClaimIds, Keys;
    assert Distinct<StrictReason>([]) && Distinct<Penalty>([]) && Distinct<HardUnknown>([]) by { NothingTwice(); }
    assert r.sections[0].critical && r.sections[0] in r.sections;
    assert forall s :: s in r.sections ==> s == r.sections[0] || s == r.sections[1];
    assert forall c :: c in r.claims ==> ValidClaim(c);
    hide Varied;
  }

  lemma {:induction false} NothingTwice()
    ensures Distinct<StrictReason>([]) && Distinct<Penalty>([]) && Distinct<HardUnknown>([])
  {
  }

  lemma {:induction false} VariedMembers(coverage: real)
    requires InRange(coverage)
    ensures ValidRequest(Varied(coverage))
    ensures var r := Varied(coverage);
            && MembersOf(r, r.sections[0]) == [r.claims[0]]
            && MembersOf(r, r.sections[1]) == [r.claims[1], r.claims[2]]
  {
    VariedValid(coverage);
    VariedIndex(coverage);
    hide ValidRequest, Indexed;
  }

  lemma {:induction false} VariedReferences(coverage: real)
    ensures Referenced(Varied(coverage).sections) == ["anchor", "strong", "weak"]
  {
    var ss := Varied(coverage).sections;
    assert ss[1..] == [ss[1]] && [ss[1]][1..] == [];
    assert Referenced([ss[1]]) == ["strong", "weak"] + Referenced([]);
    assert Referenced(ss) == ["anchor"] + Referenced([ss[1]]);
  }

  lemma {:induction false} PairScore(c: Claim, d: Claim, y: real, w: real)
    requires ClaimScore(c) == c.dimensions.coverage == 100.0
    requires ClaimScore(d) == y <= 100.0 && d.dimensions.coverage == w >= 0.0
    ensures SectionScore([c, d]) == Blend((10000.0 + y * w) / (100.0 + w), y)
  {
    hide ClaimScore;
    var ws, last := ByCoverage([c, d]), [Weighted(y, w)];
    assert ws == [Weighted(100.0, 100.0), Weighted(y, w)];
    assert ws[1..] == last;
    SumsOfOne(Weighted(y, w));
    assert Total(ws) == 100.0 + w && WeightedSum(ws) == 10000.0 + y * w;
    assert Scores([c, d]) == [100.0, y];
    assert [100.0, y][1..] == [y];
    assert Lowest([100.0, y]) == Min(100.0, Lowest([y])) == y;
  }

  lemma {:induction false} SingleScore(c: Claim)
    requires c.dimensions.coverage > 0.0
    ensures SectionScore([c]) == ClaimScore(c) &&
            SectionLabel([c]) == MinLabel(LabelForScore(ClaimScore(c)), ClaimLabel(c))
  {
    var ws, w := ByCoverage([c]), c.dimensions.coverage;
    assert ws == [Weighted(ClaimScore(c), w)] && ws[1..] == [];
    assert Total(ws) == w + Total(ws[1..]) == w;
    assert WeightedSum(ws) == ClaimScore(c) * w + WeightedSum(ws[1..]) == ClaimScore(c) * w;
    assert Scores([c]) == [ClaimScore(c)] && Labels([c]) == [ClaimLabel(c)];
    hide ClaimScore, ClaimLabel;
    assert Mean(ws) == ClaimScore(c) * w / w == ClaimScore(c);
  }

  lemma {:induction false} NoPenalties(c: Claim)
    requires c.penalties == [] && InRange(BaseScore(c.dimensions))
    ensures ClaimScore(c) == BaseScore(c.dimensions)
  {
  }

  lemma {:induction false} ResultAt(request: Request, k: nat)
    requires ValidRequest(request) && k < |request.sections|
    ensures |SectionResults(request)| == |request.sections|
    ensures var (s, r) := (request.sections[k], SectionResults(request)[k]);
            && MembersOf(request, s) != []
            && r.score == SectionScore(MembersOf(request, s)) && r.finalLabel == SectionLabel(MembersOf(request, s))
            && r.importance == s.importance && r.critical == s.critical
  {
    MembersValid(request, request.sections[k]);
    hide ValidRequest, MembersOf, SectionScore, SectionLabel;
  }

  lemma {:induction false} VariedSections(coverage: real)
    requires InRange(coverage)
    ensures ValidRequest(Varied(coverage))
    ensures var (r, results) := (Varied(coverage), SectionResults(Varied(coverage)));
            && |results| == 2 && |r.claims| == 3 && results[0].critical && !results[1].critical
            && results[0].importance == results[1].importance == 1.0
            && results[0].score == 80.0 && results[0].finalLabel == High
            && results[1].score == SectionScore([r.claims[1], r.claims[2]])
  {
    hide *;
    VariedShape(coverage);
    VariedMembers(coverage);
    VariedClaims(coverage);
    var r := Varied(coverage);
    ResultAt(r, 0);
    ResultAt(r, 1);
    SingleScore(r.claims[0]);
    EightyIsHigh();
  }

  lemma {:induction false} VariedShape(coverage: real)
    requires InRange(coverage)
    ensures var r := Varied(coverage);
            && |r.claims| == 3 && |r.sections| == 2 && r.claims[0].dimensions.coverage == 85.0
            && r.claims[1].dimensions.coverage == 100.0 && r.claims[2].dimensions.coverage == coverage >= 0.0
            && r.sections[0].critical && !r.sections[1].critical
            && r.sections[0].importance == r.sections[1].importance == 1.0
  {
  }

  lemma {:induction false} EightyIsHigh()
    ensures MinLabel(LabelForScore(80.0), High) == High
  {
  }

  lemma {:induction false} VariedClaims(coverage: real)
    requires InRange(coverage)
    ensures var cs := Varied(coverage).claims;
            && ClaimScore(cs[0]) == 80.0 && ClaimLabel(cs[0]) == High
            && ClaimScore(cs[1]) == 100.0 && ClaimScore(cs[2]) == 40.0 + 0.2 * coverage
  {
    var cs := Varied(coverage).claims;
    hide ClaimScore, ClaimLabel;
    NoPenalties(cs[0]);
    NoPenalties(cs[1]);
    NoPenalties(cs[2]);
    ClaimHighExactly(cs[0]);
  }

  /** Overall, for two equally important sections of which the first is critical. */
  lemma {:induction false} OverallOfTwo(request: Request)
    requires ValidRequest(request) && request.strict == [] && |SectionResults(request)| == 2
    requires SectionResults(request)[0].critical && !SectionResults(request)[1].critical
    requires SectionResults(request)[0].importance == SectionResults(request)[1].importance == 1.0
    ensures var (first, second) := (SectionResults(request)[0], SectionResults(request)[1]);
            var o := Confidences(request).overall;
            && o.score == Blend((first.score + second.score) / 2.0, first.score)
            && o.finalLabel == MinLabel(LabelForScore(o.score), first.finalLabel)
  {
    var results := SectionResults(request);
    var (first, second) := (results[0], results[1]);
    hide ValidRequest, SectionResults, ClaimResults, LabelForScore;
    assert results == [first, second] && results[1..] == [second] && [second][1..] == [];
    assert Critical([]) == [] && Critical([second]) == [] && Critical(results) == [first];
    var ws, rest := ByImportance(results), [Weighted(second.score, 1.0)];
    assert ws == [Weighted(first.score, 1.0), Weighted(second.score, 1.0)] && ws[1..] == rest && rest[1..] == [];
    assert Total(rest) == 1.0 && WeightedSum(rest) == second.score;
    assert Total(ws) == 2.0 && WeightedSum(ws) == first.score + second.score;
    assert SectionScores([first]) == [first.score] && SectionLabels([first]) == [first.finalLabel];
  }

  /** Two valid requests that differ only in the coverage of one claim, which falls
      from 50 to 0: the score of its section rises from about 73.3 to 82, the
      overall score with it, and the overall label from Medium to High. */
  lemma {:induction false} LessCoverageCanRaise()
    ensures var (a, b) := (Varied(50.0), Varied(0.0));
            && ValidRequest(a) && ValidRequest(b) && NoBetter(a, b)
            && Confidences(a).sections[1].score < 74.0 && Confidences(b).sections[1].score == 82.0
            && Confidences(a).overall.score < Confidences(b).overall.score
            && Confidences(a).overall.finalLabel == Medium && Confidences(b).overall.finalLabel == High
  {
    hide *;
    VariedNumbers((10000.0 + 50.0 * 50.0) / (100.0 + 50.0));
    VariedOverall(50.0, 50.0);
    VariedOverall(0.0, 40.0);
    VariedNoBetter(50.0, 0.0);
  }

  lemma {:induction false} VariedOverall(coverage: real, weak: real)
    requires InRange(coverage) && weak == 40.0 + 0.2 * coverage
    ensures ValidRequest(Varied(coverage)) && |Confidences(Varied(coverage)).sections| == 2
    ensures var (o, second) := (Confidences(Varied(coverage)).overall, Confidences(Varied(coverage)).sections[1].score);
            && second == Blend((10000.0 + weak * coverage) / (100.0 + coverage), weak)
            && o.score == Blend((80.0 + second) / 2.0, 80.0)
            && o.finalLabel == MinLabel(LabelForScore(o.score), High)
  {
    VariedSections(coverage);
    VariedShape(coverage);
    VariedClaims(coverage);
    var r := Varied(coverage);
    assert r.strict == [] && weak <= 100.0 && coverage >= 0.0;
    hide ValidRequest, SectionResults, ClaimResults, OverallOf, Varied, Blend, SectionScore, ClaimScore, ClaimLabel;
    PairScore(r.claims[1], r.claims[2], weak, coverage);
    hide LabelForScore, MinLabel;
    OverallOfTwo(r);
  }

  lemma {:induction false} VariedNumbers(mean: real)
    requires mean == (10000.0 + 50.0 * 50.0) / (100.0 + 50.0)
    ensures InRange(50.0) && InRange(0.0) && 40.0 + 0.2 * 50.0 == 50.0 && 40.0 + 0.2 * 0.0 == 40.0
    ensures var x := Blend(mean, 50.0);
            && 73.0 < x < 74.0 && 77.0 < Blend((80.0 + x) / 2.0, 80.0) < 78.0
            && MinLabel(LabelForScore(Blend((80.0 + x) / 2.0, 80.0)), High) == Medium
    ensures Blend((10000.0 + 40.0 * 0.0) / (100.0 + 0.0), 40.0) == 82.0
    ensures Blend((80.0 + 82.0) / 2.0, 80.0) == 80.7 && MinLabel(LabelForScore(80.7), High) == High
  {
  }

  lemma {:induction false} VariedNoBetter(more: real, less: real)
    requires less <= more
    ensures NoBetter(Varied(more), Varied(less))
  {
  }

  /** One section of one claim, with every dimension at 100 but no coverage. */
  function Uncovered(): Request
  {
    Request(
      [Claim("only", "s", GroundedRegulatory, High, Dimensions(100.0, 100.0, 0.0, 100.0, 100.0, 100.0), [], [],
             true, true, High)],
      [Section("s", ["only"], 1.0, true)],
      [])
  }

  lemma {:induction false} UncoveredValid()
    ensures ValidRequest(Uncovered())
    ensures var r := Uncovered(); MembersOf(r, r.sections[0]) == [r.claims[0]]
  {
    var r := Uncovered();
    assert r.claims[..0] == [] && r.sections[1..] == [];
    assert Indexed(r.claims) == map["only" := r.claims[0]];
    assert Referenced(r.sections) == ["only"];
    NothingTwice();
    hide Indexed, Referenced;
    assert r.sections[0].critical && r.sections[0] in r.sections;
    assert forall c :: c in r.claims ==> c == r.claims[0];
    assert forall s :: s in r.sections ==> s == r.sections[0];
  }

  /** A valid request whose only claim scores 80 without coverage, while its
      section scores 24: below its only claim. */
  lemma {:induction false} NoCoverageFallsBelowLowest()
    ensures ValidRequest(Uncovered())
    ensures var r := Confidences(Uncovered());
            && |r.claims| == |r.sections| == 1 && r.claims[0].finalScore == 80.0
            && r.sections[0].lowest == 80.0 && r.sections[0].score == 24.0
  {
    UncoveredValid();
    var c := Uncovered().claims[0];
    NoPenalties(c);
    UncoveredScore(c);
    Sizes(Uncovered());
    hide ValidRequest, OverallOf, MembersOf, Mean, Lowest;
  }

  lemma {:induction false} UncoveredScore(c: Claim)
    requires c.dimensions.coverage == 0.0 && ClaimScore(c) == 80.0
    ensures SectionScore([c]) == 24.0 && Lowest(Scores([c])) == 80.0
  {
    var ws := ByCoverage([c]);
    assert ws == [Weighted(80.0, 0.0)] && ws[1..] == [];
    assert Total(ws) == 0.0 + Total(ws[1..]) == 0.0;
    assert Scores([c]) == [80.0];
  }
}
