/** What a verification makes of a reply, with its thresholds and codes
    (apps/api/backend/ask/claim_verification.py). */
module ClaimOutcomes {
  import opened Foundations
  import opened Ordering
  import opened ClaimTokens
  import opened ClaimVerification
  import opened ClaimVerificationTheorems

  // ----- outcomes ------------------------------------------------------------------

  /** Supported at the threshold of the risk: 0.95 for high risk, else 0.90. */
  predicate Backs(p: Proposition, risk: Risk)
  {
    p.outcome == Supported && p.confidence >= match risk case HighRisk => 0.95 case MaterialRisk => 0.90
  }

  predicate HalfBacks(p: Proposition)
  {
    p.outcome == PartialSupport && p.confidence >= 0.80
  }

  predicate Denies(p: Proposition)
  {
    p.outcome == Contradiction && p.confidence >= 0.90
  }

  /** Unknown, or below the threshold of its own outcome. */
  predicate SaysNothing(p: Proposition, risk: Risk)
  {
    !Backs(p, risk) && !HalfBacks(p) && !Denies(p)
  }

  lemma {:induction false} NormalizedExactly(p: Proposition, risk: Risk)
    requires p.confidence >= 0.0
    ensures NormalizedOutcome(p, risk) == Supported <==> Backs(p, risk)
    ensures NormalizedOutcome(p, risk) == PartialSupport <==> HalfBacks(p)
    ensures NormalizedOutcome(p, risk) == Contradiction <==> Denies(p)
    ensures NormalizedOutcome(p, risk) == Unknown <==> SaysNothing(p, risk)
  {
  }

  /** The order of the outcomes, weakest first. */
  lemma {:induction false} WeakestExactly(outcomes: seq<Support>)
    requires outcomes != []
    ensures WeakestOutcome(outcomes) == Contradiction <==> Contradiction in outcomes
    ensures WeakestOutcome(outcomes) == Unknown <==> Unknown in outcomes && Contradiction !in outcomes
    ensures WeakestOutcome(outcomes) == PartialSupport
            <==> PartialSupport in outcomes && Unknown !in outcomes && Contradiction !in outcomes
    ensures WeakestOutcome(outcomes) == Supported <==> forall o :: o in outcomes ==> o == Supported
  {
    assert outcomes[0] in outcomes;
  }

  /** The attempt that a usable reply leaves: a contradiction decides, then a
      proposition that says nothing, then partial support. */
  lemma {:induction false} AttemptExactly(
    env: Alphabet, request: Request, evidence: map<string, string>, subject: Subject, reply: Reply, number: nat)
    requires ParsedOutput(env, request, evidence, subject, reply, number).Some?
    ensures var (a, risk) := (ParsedOutput(env, request, evidence, subject, reply, number).value.0, request.risk);
            var ps := reply.parsed.value.propositions;
            && a.propositions == ps && a.subject == subject && a.number == number
            && LeastConfident(ps, a.confidence)
            && (a.outcome == Contradiction <==> exists p :: p in ps && Denies(p))
            && (a.outcome == Unknown
                <==> (forall p :: p in ps ==> !Denies(p)) && exists p :: p in ps && SaysNothing(p, risk))
            && (a.outcome == PartialSupport
                <==> (forall p :: p in ps ==> Backs(p, risk) || HalfBacks(p)) && exists p :: p in ps && HalfBacks(p))
            && (a.outcome == Supported <==> forall p :: p in ps ==> Backs(p, risk))
    ensures ParsedOutput(env, request, evidence, subject, reply, number).value.1 == reply.parsed.value.correction
  {
    var ps := reply.parsed.value.propositions;
    var outcomes := NormalizedOutcomes(ps, request.risk);
    forall i | 0 <= i < |ps|
      ensures ps[i].confidence >= 0.0
    {
      assert ValidProposition(ps[i]);
    }
    ConfidenceIsLowest(ps);
    hide ValidProposition, PropositionsHold, LowestConfidence;
    forall o
      ensures o in outcomes <==> exists p :: p in ps && NormalizedOutcome(p, request.risk) == o
    {
      OutcomeOccurs(ps, request.risk, o);
    }
    forall p | p in ps
      ensures NormalizedOutcome(p, request.risk) == Supported <==> Backs(p, request.risk)
      ensures NormalizedOutcome(p, request.risk) == PartialSupport <==> HalfBacks(p)
      ensures NormalizedOutcome(p, request.risk) == Contradiction <==> Denies(p)
      ensures NormalizedOutcome(p, request.risk) == Unknown <==> SaysNothing(p, request.risk)
    {
      NormalizedExactly(p, request.risk);
    }
    assert ps[0] in ps && |outcomes| == |ps|;
    WeakestExactly(outcomes);
    hide NormalizedOutcome, Backs, HalfBacks, Denies, NormalizedOutcomes, WeakestOutcome;
  }

  lemma {:induction false} OutcomeOccurs(ps: seq<Proposition>, risk: Risk, o: Support)
    ensures o in NormalizedOutcomes(ps, risk) <==> exists p :: p in ps && NormalizedOutcome(p, risk) == o
  {
    var outcomes := NormalizedOutcomes(ps, risk);
    hide NormalizedOutcome;
    if p :| p in ps && NormalizedOutcome(p, risk) == o {
      var i :| 0 <= i < |ps| && ps[i] == p;
      assert outcomes[i] == o;
    }
    if o in outcomes {
      var i :| 0 <= i < |outcomes| && outcomes[i] == o;
      assert ps[i] in ps;
    }
  }

  // ----- what a reply may say ---------------------------------------------------------

  ghost predicate NoneTwice(ids: seq<string>)
  {
    forall i, j :: 0 <= i < j < |ids| ==> ids[i] != ids[j]
  }

  predicate QuotesOnly(p: Proposition)
  {
    && (forall s :: s in p.support + p.contradictions ==> s.evidenceId in p.evidenceIds)
    && (forall id :: id in p.evidenceIds ==> exists s :: s in p.support + p.contradictions && s.evidenceId == id)
  }

  predicate SpanShape(start: nat, end: nat, text: string)
  {
    start < end && |text| > 0
  }

  /** The shape of one proposition: spans are not empty, confidence is a share, and
      each outcome has its own kinds of spans. */
  lemma {:induction false} PropositionExactly(p: Proposition)
    ensures ValidProposition(p)
            <==> && SpanShape(p.span.start, p.span.end, p.span.text) && 0.0 <= p.confidence && p.confidence <= 1.0
                 && (forall s :: s in p.unsupported ==> SpanShape(s.start, s.end, s.text))
                 && (forall s :: s in p.support || s in p.contradictions ==>
                       SpanShape(s.start, s.end, s.text) && |s.evidenceId| > 0)
                 && |p.evidenceIds| > 0 && NoneTwice(p.evidenceIds)
                 && (p.outcome == Supported ==> |p.support| > 0 && |p.unsupported| == 0 && |p.contradictions| == 0)
                 && (p.outcome == PartialSupport ==> |p.support| > 0 && |p.unsupported| > 0 && |p.contradictions| == 0)
                 && (p.outcome == Contradiction ==> |p.contradictions| > 0)
                 && (p.outcome == Unknown ==> |p.support| == 0 && |p.contradictions| == 0)
                 && (p.outcome != Unknown ==> QuotesOnly(p))
  {
    UsedIdsExactly(p);
    hide UsedIds, QuotesOnly;
  }

  lemma {:induction false} UsedIdsExactly(p: Proposition)
    ensures (UsedIds(p) == set id | id in p.evidenceIds) <==> QuotesOnly(p)
  {
    var named := set id | id in p.evidenceIds;
    assert forall s :: s in p.support + p.contradictions ==> s.evidenceId in UsedIds(p);
    if UsedIds(p) == named {
      forall id | id in p.evidenceIds
        ensures exists s :: s in p.support + p.contradictions && s.evidenceId == id
      {
        assert id in UsedIds(p);
      }
    }
  }

  /** A payload names its claim, numbers one to 32 propositions from 1, and offers a
      correction of at most 20000 characters only when something is not supported. */
  lemma {:induction false} PayloadExactly(p: Payload)
    ensures ValidPayload(p)
            <==> && |p.claimId| > 0 && |p.propositions| > 0 && |p.propositions| <= 32
                 && (forall i :: 0 <= i < |p.propositions| ==>
                       p.propositions[i].number == i + 1 && ValidProposition(p.propositions[i]))
                 && (p.correction.Some? ==>
                       && 0 < |p.correction.value.text| <= 20_000
                       && |p.correction.value.evidenceIds| > 0 && NoneTwice(p.correction.value.evidenceIds)
                       && exists q :: q in p.propositions && q.outcome != Supported)
  {
    hide ValidProposition;
    assert (exists i :: 0 <= i < |p.propositions| && p.propositions[i].outcome != Supported)
      <==> exists q :: q in p.propositions && q.outcome != Supported by {
      if q :| q in p.propositions && q.outcome != Supported {
        var i :| 0 <= i < |p.propositions| && p.propositions[i] == q;
      }
    }
  }

  predicate QuotesExactly(text: string, start: nat, end: nat, quote: string)
  {
    start <= end <= |text| && |quote| == end - start && forall i :: 0 <= i < |quote| ==> quote[i] == text[start + i]
  }

  lemma {:induction false} QuoteIsSlice(text: string, start: nat, end: nat, quote: string)
    ensures start <= end <= |text| && text[start..end] == quote <==> QuotesExactly(text, start, end, quote)
  {
    if start <= end <= |text| {
      assert forall i :: 0 <= i < end - start ==> text[start..end][i] == text[start + i];
    }
  }

  /** A proposition is held against claim and evidence character by character. */
  lemma {:induction false} PropositionHoldsExactly(p: Proposition, subject: Subject, evidence: map<string, string>)
    ensures PropositionHolds(p, subject, evidence)
            <==> && QuotesExactly(subject.text, p.span.start, p.span.end, p.span.text)
                 && (forall id :: id in p.evidenceIds ==> id in subject.evidenceIds)
                 && (forall u :: u in p.unsupported ==>
                       p.span.start <= u.start && u.end <= p.span.end
                       && QuotesExactly(subject.text, u.start, u.end, u.text))
                 && (forall s :: s in p.support || s in p.contradictions ==>
                       s.evidenceId in p.evidenceIds && s.evidenceId in evidence
                       && QuotesExactly(evidence[s.evidenceId], s.start, s.end, s.text))
  {
    forall text: string, start: nat, end: nat, quote: string
      ensures (start <= end <= |text| && text[start..end] == quote) <==> QuotesExactly(text, start, end, quote)
    {
      QuoteIsSlice(text, start, end, quote);
    }
    assert forall s :: s in p.support + p.contradictions <==> s in p.support || s in p.contradictions;
    hide QuotesExactly;
  }

  /** A reply is usable when it is text of at most 100000 characters that parses to
      a payload for this claim whose propositions hold, do not overlap, and together
      cover the claim's tokens. */
  lemma {:induction false} UsableExactly(
    env: Alphabet, request: Request, evidence: map<string, string>, subject: Subject, reply: Reply, number: nat)
    ensures ParsedOutput(env, request, evidence, subject, reply, number).Some?
            <==> && reply.Text? && reply.length <= 100_000 && reply.parsed.Some? && ValidPayload(reply.parsed.value)
                 && reply.parsed.value.claimId == request.claimId
                 && var ps := reply.parsed.value.propositions;
                    && (forall p :: p in ps ==> PropositionHolds(p, subject, evidence))
                    && (forall i, j :: 0 <= i < j < |ps| ==> ps[i].span.end <= ps[j].span.start)
                    && multiset(Tokens(env, subject.text)) <= multiset(Tokens(env, Joined(SpanTexts(ps))))
  {
    hide ValidPayload, PropositionHolds, Tokens, Joined, WeakestOutcome, LowestConfidence;
  }

  lemma {:induction false} SpanTextsAre(ps: seq<Proposition>)
    ensures |SpanTexts(ps)| == |ps| && forall i :: 0 <= i < |ps| ==> SpanTexts(ps)[i] == ps[i].span.text
  {
    if ps != [] {
      SpanTextsAre(ps[..|ps| - 1]);
    }
  }

  /** A correction narrows the claim: another text with some tokens, all of them the
      claim's, and no new evidence. */
  lemma {:induction false} CorrectionExactly(env: Alphabet, subject: Subject, c: Correction)
    ensures ValidCorrection(env, subject, c)
            <==> && c.text != subject.text && |Tokens(env, c.text)| > 0
                 && (forall id :: id in c.evidenceIds ==> id in subject.evidenceIds)
                 && forall token :: multiset(Tokens(env, c.text))[token] <= multiset(Tokens(env, subject.text))[token]
  {
    hide Tokens;
  }

  // ----- tokens ------------------------------------------------------------------------

  /** Word places behind `n`, each of them maximal. */
  ghost predicate PlacesBehind(env: Alphabet, s: string, n: nat, a: seq<nat>, b: seq<nat>)
  {
    && |a| == |b|
    && (forall k :: 0 <= k < |a| ==>
          && n <= a[k] < b[k] <= |s| && (forall i :: a[k] <= i < b[k] ==> env.isWord(s[i]))
          && (a[k] > 0 ==> !env.isWord(s[a[k] - 1])) && (b[k] < |s| ==> !env.isWord(s[b[k]])))
    && (forall j, k :: 0 <= j < k < |a| ==> b[j] < a[k])
  }

  /** The places of the words of a text: maximal runs of word characters, in order,
      and every word character is in one. */
  ghost predicate WordPlaces(env: Alphabet, s: string, starts: seq<nat>, ends: seq<nat>)
  {
    && PlacesBehind(env, s, 0, starts, ends)
    && (forall i :: 0 <= i < |s| && env.isWord(s[i]) ==> InSomeWord(starts, ends, i))
  }

  ghost predicate InSomeWord(starts: seq<nat>, ends: seq<nat>, i: int)
  {
    exists k :: 0 <= k < |starts| && k < |ends| && starts[k] <= i < ends[k]
  }

  ghost predicate WordsAt(env: Alphabet, s: string, starts: seq<nat>, ends: seq<nat>)
  {
    && WordPlaces(env, s, starts, ends) && |Words(env, s)| == |starts|
    && forall k :: 0 <= k < |starts| ==> Words(env, s)[k] == s[starts[k]..ends[k]]
  }

  function Shifted(places: seq<nat>, n: nat): seq<nat>
  {
    seq(|places|, k requires 0 <= k < |places| => places[k] + n)
  }

  lemma {:induction false} WordRun(env: Alphabet, s: string)
    ensures var n := WordLength(env, s);
            && (forall i :: 0 <= i < n ==> env.isWord(s[i])) && (n < |s| ==> !env.isWord(s[n]))
  {
    if s != [] && env.isWord(s[0]) {
      WordRun(env, s[1..]);
      assert forall i :: 1 <= i < |s| ==> s[i] == s[1..][i - 1];
    }
  }

  /** Words behind position `n`, which does not cut a word. */
  lemma {:induction false} WordsBehind(env: Alphabet, s: string, n: nat, starts: seq<nat>, ends: seq<nat>)
    requires 0 < n <= |s| && (!env.isWord(s[n - 1]) || n == |s| || !env.isWord(s[n]))
    requires WordPlaces(env, s[n..], starts, ends)
    ensures var (a, b) := (Shifted(starts, n), Shifted(ends, n));
            && PlacesBehind(env, s, n, a, b)
            && (forall i :: n <= i < |s| && env.isWord(s[i]) ==> InSomeWord(a, b, i))
  {
    PlacesShifted(env, s, n, starts, ends);
    hide PlacesBehind;
    var rest := s[n..];
    var (a, b) := (Shifted(starts, n), Shifted(ends, n));
    forall i | n <= i < |s| && env.isWord(s[i])
      ensures InSomeWord(a, b, i)
    {
      assert s[i] == rest[i - n];
      assert InSomeWord(starts, ends, i - n);
      var k :| 0 <= k < |starts| && k < |ends| && starts[k] <= i - n < ends[k];
      assert a[k] <= i < b[k];
    }
  }

  lemma {:induction false} PlacesShifted(env: Alphabet, s: string, n: nat, starts: seq<nat>, ends: seq<nat>)
    requires 0 < n <= |s| && (!env.isWord(s[n - 1]) || n == |s| || !env.isWord(s[n]))
    requires PlacesBehind(env, s[n..], 0, starts, ends)
    ensures PlacesBehind(env, s, n, Shifted(starts, n), Shifted(ends, n))
  {
    var rest := s[n..];
    var (a, b) := (Shifted(starts, n), Shifted(ends, n));
    forall k | 0 <= k < |a|
      ensures n <= a[k] < b[k] <= |s| && (forall i :: a[k] <= i < b[k] ==> env.isWord(s[i]))
      ensures (a[k] > 0 ==> !env.isWord(s[a[k] - 1])) && (b[k] < |s| ==> !env.isWord(s[b[k]]))
    {
      var (from, to) := (starts[k], ends[k]);
      assert env.isWord(rest[from]) && rest[from] == s[from + n];
      if from > 0 {
        assert s[a[k] - 1] == rest[from - 1];
      }
      forall i | a[k] <= i < b[k]
        ensures env.isWord(s[i])
      {
        assert s[i] == rest[i - n];
      }
      if to < |rest| {
        assert rest[to] == s[b[k]];
      }
    }
  }

  /** The words of a text are its maximal runs of word characters, in order. */
  lemma {:induction false} WordsExactly(env: Alphabet, s: string) returns (starts: seq<nat>, ends: seq<nat>)
    ensures WordsAt(env, s, starts, ends)
    decreases |s|
  {
    if s == [] {
      starts, ends := [], [];
    } else if !env.isWord(s[0]) {
      var starts', ends' := WordsExactly(env, s[1..]);
      starts, ends := Shifted(starts', 1), Shifted(ends', 1);
      hide WordsAt;
      NoWordFirst(env, s, starts', ends');
    } else {
      var n := WordLength(env, s);
      var starts', ends' := WordsExactly(env, s[n..]);
      starts, ends := [0] + Shifted(starts', n), [n] + Shifted(ends', n);
      hide WordsAt;
      WordFirst(env, s, starts', ends');
    }
  }

  lemma {:induction false} NoWordFirst(env: Alphabet, s: string, starts: seq<nat>, ends: seq<nat>)
    requires s != [] && !env.isWord(s[0]) && WordsAt(env, s[1..], starts, ends)
    ensures WordsAt(env, s, Shifted(starts, 1), Shifted(ends, 1))
  {
    WordsBehind(env, s, 1, starts, ends);
    ShiftedSlices(s, 1, starts, ends);
    assert Words(env, s) == Words(env, s[1..]);
    hide Words, InSomeWord;
  }

  lemma {:induction false} WordFirst(env: Alphabet, s: string, starts: seq<nat>, ends: seq<nat>)
    requires s != [] && env.isWord(s[0]) && WordsAt(env, s[WordLength(env, s)..], starts, ends)
    ensures var n := WordLength(env, s); WordsAt(env, s, [0] + Shifted(starts, n), [n] + Shifted(ends, n))
  {
    var n := WordLength(env, s);
    var (a, b) := (Shifted(starts, n), Shifted(ends, n));
    WordRun(env, s);
    assert WordPlaces(env, s[n..], starts, ends);
    WordsBehind(env, s, n, starts, ends);
    var words := Words(env, s[n..]);
    WordsMove(env, s, n, starts, ends);
    assert Words(env, s) == [s[..n]] + words;
    hide *;
    FirstWord(env, s, n, a, b);
    FirstSlice(s, n, words, a, b);
    WordsAre(env, s, [0] + a, [n] + b);
  }

  lemma {:induction false} WordsMove(env: Alphabet, s: string, n: nat, starts: seq<nat>, ends: seq<nat>)
    requires n <= |s| && WordsAt(env, s[n..], starts, ends)
    ensures var (a, b, words) := (Shifted(starts, n), Shifted(ends, n), Words(env, s[n..]));
            && |a| == |b| == |words|
            && forall k :: 0 <= k < |a| ==> a[k] <= b[k] <= |s| && words[k] == s[a[k]..b[k]]
  {
    ShiftedSlices(s, n, starts, ends);
    hide Words, InSomeWord;
  }

  lemma {:induction false} WordsAre(env: Alphabet, s: string, starts: seq<nat>, ends: seq<nat>)
    requires WordPlaces(env, s, starts, ends) && |Words(env, s)| == |starts| == |ends|
    requires forall k :: 0 <= k < |starts| ==>
      starts[k] <= ends[k] <= |s| && Words(env, s)[k] == s[starts[k]..ends[k]]
    ensures WordsAt(env, s, starts, ends)
  {
    hide Words, WordPlaces;
  }

  lemma {:induction false} FirstSlice(s: string, n: nat, words: seq<string>, a: seq<nat>, b: seq<nat>)
    requires n <= |s| && |a| == |b| == |words|
    requires forall k :: 0 <= k < |a| ==> a[k] <= b[k] <= |s| && words[k] == s[a[k]..b[k]]
    ensures forall k :: 0 <= k < |[0] + a| ==>
      ([0] + a)[k] <= ([n] + b)[k] <= |s| && ([s[..n]] + words)[k] == s[([0] + a)[k]..([n] + b)[k]]
  {
    assert s[0..n] == s[..n];
  }

  lemma {:induction false} ShiftedSlices(s: string, n: nat, starts: seq<nat>, ends: seq<nat>)
    requires n <= |s| && |starts| == |ends|
    requires forall k :: 0 <= k < |starts| ==> starts[k] <= ends[k] <= |s| - n
    ensures forall k :: 0 <= k < |starts| ==> s[n..][starts[k]..ends[k]] == s[starts[k] + n..ends[k] + n]
  {
  }

  lemma {:induction false} FirstWord(env: Alphabet, s: string, n: nat, a: seq<nat>, b: seq<nat>)
    requires 0 < n <= |s| && (forall i :: 0 <= i < n ==> env.isWord(s[i])) && (n < |s| ==> !env.isWord(s[n]))
    requires PlacesBehind(env, s, n, a, b)
    requires forall i :: n <= i < |s| && env.isWord(s[i]) ==> InSomeWord(a, b, i)
    ensures WordPlaces(env, s, [0] + a, [n] + b)
  {
    FirstPlace(env, s, n, a, b);
    hide PlacesBehind;
    var (starts, ends) := ([0] + a, [n] + b);
    forall i | 0 <= i < |s| && env.isWord(s[i])
      ensures InSomeWord(starts, ends, i)
    {
      if i < n {
        assert starts[0] <= i < ends[0];
      } else {
        var k :| 0 <= k < |a| && k < |b| && a[k] <= i < b[k];
        assert starts[k + 1] <= i < ends[k + 1];
      }
    }
  }

  lemma {:induction false} FirstPlace(env: Alphabet, s: string, n: nat, a: seq<nat>, b: seq<nat>)
    requires 0 < n <= |s| && (forall i :: 0 <= i < n ==> env.isWord(s[i])) && (n < |s| ==> !env.isWord(s[n]))
    requires PlacesBehind(env, s, n, a, b)
    ensures PlacesBehind(env, s, 0, [0] + a, [n] + b)
  {
    forall k | 0 <= k < |a|
      ensures n < a[k]
    {
      assert env.isWord(s[a[k]]);
    }
    var (starts, ends) := ([0] + a, [n] + b);
    assert forall k :: 1 <= k < |starts| ==> starts[k] == a[k - 1] && ends[k] == b[k - 1];
  }

  function Folded(env: Alphabet, words: seq<string>): seq<string>
  {
    seq(|words|, k requires 0 <= k < |words| => env.fold(words[k]))
  }

  predicate Counts(token: string)
  {
    token != "and" && token != "or" && token != "the" && token != "a" && token != "an"
  }

  /** The tokens of a text are its words, folded, without the five connectives. */
  lemma {:induction false} TokensExactly(env: Alphabet, s: string)
    ensures Tokens(env, s) == Filter(Folded(env, Words(env, s)), Counts)
  {
    hide Words;
    MaterialExactly(env, Words(env, s));
  }

  lemma {:induction false} MaterialExactly(env: Alphabet, words: seq<string>)
    ensures Material(env, words) == Filter(Folded(env, words), Counts)
  {
    if words != [] {
      var init, last := words[..|words| - 1], words[|words| - 1];
      MaterialExactly(env, init);
      MaterialAppend(env, init, [last]);
      assert words == init + [last] && Folded(env, words) == Folded(env, init) + [env.fold(last)];
      assert Folded(env, words)[..|init|] == Folded(env, init);
      OneWord(env, last);
      hide Material, Counts;
    }
  }

  lemma {:induction false} OneWord(env: Alphabet, word: string)
    ensures Material(env, [word]) == if Counts(env.fold(word)) then [env.fold(word)] else []
  {
    assert [word][1..] == [];
    assert Connective(env.fold(word)) <==> !Counts(env.fold(word));
  }

  // ----- results ------------------------------------------------------------------------

  /** What identifies a failure without a judged claim. */
  predicate FailsWith(
    r: Option<Result>, request: Request, state: State, reason: string, snapshots: seq<string>,
    identity: Option<Identity>, attempts: seq<Attempt>, latencyMs: nat)
  {
    r == Some(Result(request.claim.text, state, Unknown, None, EvidenceOnly, snapshots, attempts, None, identity,
                     latencyMs, reason))
  }

  /** Before the first pass. */
  lemma {:induction false} RefusalsExactly(
    env: Alphabet, request: Request, intake: Intake, provider: Provider, latencyMs: nat)
    ensures var r := Verification(env, request, intake, provider, latencyMs);
            && (intake == InputInvalid ==>
                  FailsWith(r, request, InvalidOutput, "CLAIM_VERIFIER_INPUT_INVALID", [], None, [], latencyMs))
            && (intake == EvidenceInvalid ==>
                  FailsWith(r, request, InvalidOutput, "CLAIM_VERIFIER_EVIDENCE_IDENTITY_INVALID", [], None, [],
                            latencyMs))
            && (intake.Admitted? && provider.identity.None? ==>
                  FailsWith(r, request, Unavailable, "CLAIM_VERIFIER_UNAVAILABLE", request.claim.evidenceIds, None, [],
                            latencyMs))
  {
    hide Passes;
  }

  /** The answer to judged attempts: grounded prose exactly with an approved release
      within 2200 milliseconds, and the reason says what is missing. */
  ghost predicate Concludes(
    r: Option<Result>, request: Request, identity: Identity, text: string, attempts: seq<Attempt>,
    correction: Option<Lineage>, latencyMs: nat)
    requires attempts != []
  {
    var last := attempts[|attempts| - 1];
    var approved := request.release.Some? && request.release.value == identity;
    && r.Some?
    && r.value.finalText == text && r.value.state == Satisfied && r.value.outcome == last.outcome
    && r.value.confidence == Some(last.confidence) && r.value.snapshots == request.claim.evidenceIds
    && r.value.attempts == attempts && r.value.correction == correction && r.value.identity == Some(identity)
    && r.value.latencyMs == latencyMs
    && (r.value.publication == GroundedProse <==> last.outcome == Supported && approved && latencyMs <= 2_200)
    && r.value.reason == if last.outcome != Supported then "CLAIM_VERIFIER_NOT_PUBLISHABLE"
                         else if !approved then "CLAIM_VERIFIER_RELEASE_NOT_APPROVED"
                         else if latencyMs > 2_200 then "CLAIM_VERIFIER_BUDGET_EXCEEDED"
                         else "CLAIM_VERIFIER_SUPPORTED"
  }

  /** How the first pass ends. */
  lemma {:induction false} FirstPassExactly(s: Setting, replies: nat -> Reply)
    ensures var (r, request, claim) := (Passes(s, replies), s.request, s.request.claim);
            var first := ParsedOutput(s.env, request, s.evidence, claim, replies(0), 0);
            && (replies(0) == DeadlinePassed ==>
                  FailsWith(r, request, TimedOut, "CLAIM_VERIFIER_TIMED_OUT", claim.evidenceIds, Some(s.identity), [],
                            s.latencyMs))
            && (replies(0) == Raised ==>
                  FailsWith(r, request, Unavailable, "CLAIM_VERIFIER_UNAVAILABLE", claim.evidenceIds,
                            Some(s.identity), [], s.latencyMs))
            && (replies(0) != DeadlinePassed && replies(0) != Raised && first.None? ==>
                  FailsWith(r, request, InvalidOutput, "CLAIM_VERIFIER_OUTPUT_INVALID", claim.evidenceIds,
                            Some(s.identity), [], s.latencyMs))
            && (first.Some? && (first.value.0.outcome == Supported || first.value.1.None?) ==>
                  Concludes(r, request, s.identity, claim.text, [first.value.0], None, s.latencyMs))
            && (first.Some? && first.value.0.outcome != Supported && first.value.1.Some?
                && !ValidCorrection(s.env, claim, first.value.1.value) ==>
                  FailsWith(r, request, InvalidOutput, "CLAIM_VERIFIER_CORRECTION_INVALID", claim.evidenceIds,
                            Some(s.identity), [first.value.0], s.latencyMs))
  {
    var first := ParsedOutput(s.env, s.request, s.evidence, s.request.claim, replies(0), 0);
    assert first.Some? ==> replies(0).Text?;
    if first.Some? {
      assert first.value == (first.value.0, first.value.1) && [] + [first.value.0] == [first.value.0];
      Concluded(s, Progress(s.request.claim, [first.value.0], None));
      hide ParsedOutput, ValidCorrection, Success, NotPublishable, Concludes;
    } else {
      hide ParsedOutput, ValidCorrection;
    }
  }

  /** How the second pass ends, after a correction that narrows the claim: with both
      attempts and the correction, or not at all. */
  lemma {:induction false} SecondPassExactly(s: Setting, replies: nat -> Reply)
    requires FirstPassNarrows(s, replies(0))
    ensures var first := ParsedOutput(s.env, s.request, s.evidence, s.request.claim, replies(0), 0);
            && first.Some? && first.value.1.Some?
            && var c := first.value.1.value;
               var second := ParsedOutput(s.env, s.request, s.evidence, Subject(c.text, c.evidenceIds), replies(1), 1);
               && (Passes(s, replies).None? <==> second.None?)
               && (second.Some? ==>
                     Concludes(Passes(s, replies), s.request, s.identity, c.text, [first.value.0, second.value.0],
                               Some(Lineage(s.request.claim.text, c.text, c.evidenceIds)), s.latencyMs))
  {
    NarrowsTo(s, replies(0));
    var first := ParsedOutput(s.env, s.request, s.evidence, s.request.claim, replies(0), 0);
    var c := first.value.1.value;
    var p := Pass(s, replies(0), 0, Start(s.request)).progress;
    JudgedTwice(s, replies(1), p);
    hide ParsedOutput, Pass, FirstPassNarrows, Concludes;
    var second := ParsedOutput(s.env, s.request, s.evidence, Subject(c.text, c.evidenceIds), replies(1), 1);
    assert second.Some? ==> [first.value.0] + [second.value.0] == [first.value.0, second.value.0];
  }

  lemma {:induction false} NarrowsTo(s: Setting, reply: Reply)
    requires FirstPassNarrows(s, reply)
    ensures var first := ParsedOutput(s.env, s.request, s.evidence, s.request.claim, reply, 0);
            && first.Some? && first.value.1.Some?
            && var c := first.value.1.value;
               Pass(s, reply, 0, Start(s.request))
               == Continues(Progress(Subject(c.text, c.evidenceIds), [first.value.0],
                                     Some(Lineage(s.request.claim.text, c.text, c.evidenceIds))))
  {
    var first := ParsedOutput(s.env, s.request, s.evidence, s.request.claim, reply, 0);
    assert first.Some? ==> first.value == (first.value.0, first.value.1) && [] + [first.value.0] == [first.value.0];
    hide ParsedOutput, ValidCorrection, PassFailure, Success, NotPublishable;
  }

  lemma {:induction false} JudgedTwice(s: Setting, reply: Reply, p: Progress)
    requires |p.attempts| == 1 && p.correction.Some?
    ensures var (end, parsed) := (Pass(s, reply, 1, p),
                                  ParsedOutput(s.env, s.request, s.evidence, p.subject, reply, 1));
            && end.Ends? && (end.result.None? <==> parsed.None?)
            && (parsed.Some? ==> Concludes(end.result, s.request, s.identity, p.subject.text,
                                           p.attempts + [parsed.value.0], p.correction, s.latencyMs))
  {
    var parsed := ParsedOutput(s.env, s.request, s.evidence, p.subject, reply, 1);
    if parsed.Some? {
      assert reply.Text? && parsed.value == (parsed.value.0, parsed.value.1);
      Concluded(s, p.(attempts := p.attempts + [parsed.value.0]));
      hide ParsedOutput, ValidCorrection, Success, NotPublishable, Concludes;
    } else {
      hide ParsedOutput, ValidCorrection;
    }
  }

  lemma {:induction false} Concluded(s: Setting, p: Progress)
    requires p.attempts != [] && (|p.attempts| == 2 <==> p.correction.Some?) && |p.attempts| <= 2
    ensures var r := if p.attempts[|p.attempts| - 1].outcome == Supported then Success(s, p) else NotPublishable(s, p);
            Concludes(r, s.request, s.identity, p.subject.text, p.attempts, p.correction, s.latencyMs)
  {
  }

  /** What a result may say: grounded prose only for a supported claim with confidence
      and a named verifier, and two attempts exactly with a correction. */
  lemma {:induction false} ContractExactly(r: Result)
    ensures ValidResult(r)
            <==> && (r.publication == GroundedProse ==>
                       && r.state == Satisfied && r.outcome == Supported && r.confidence != None && r.identity != None)
                 && |r.attempts| < 3 && (r.correction != None <==> |r.attempts| == 2)
  {
  }
}
