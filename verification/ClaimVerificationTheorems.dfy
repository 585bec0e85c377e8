/** What a returned verification guarantees, and when none is returned
    (apps/api/backend/ask/claim_verification.py). */
module ClaimVerificationTheorems {
  import opened Foundations
  import opened ClaimTokens
  import opened ClaimVerification

  // ----- propositions -------------------------------------------------------------------------

  /** Accepted spans cover every material token of the claim with multiplicity:
      the tokens of the separate spans, taken together, contain the claim's. */
  lemma {:induction false} SpansCoverTheClaim(
    env: Alphabet, ps: seq<Proposition>, subject: Subject, evidence: map<string, string>)
    requires SpaceSeparates(env) && PropositionsHold(env, ps, subject, evidence)
    ensures multiset(Tokens(env, subject.text)) <= multiset(AllTokens(env, SpanTexts(ps)))
  {
    JoinedTokens(env, SpanTexts(ps));
    hide Tokens, AllTokens, Joined;
  }

  /** Accepted spans lie in the claim in order and without overlap, so together
      they are never longer than the claim. */
  lemma {:induction false} SpansFitTheClaim(ps: seq<Proposition>, subject: Subject, evidence: map<string, string>)
    requires OrderedAndDisjoint(ps) && forall i :: 0 <= i < |ps| ==> PropositionHolds(ps[i], subject, evidence)
    ensures TotalLength(ps) <= if ps == [] then 0 else ps[|ps| - 1].span.end
    ensures TotalLength(ps) <= |subject.text|
  {
    if ps != [] {
      var init, last := ps[..|ps| - 1], ps[|ps| - 1];
      assert forall i :: 0 <= i < |init| ==> init[i] == ps[i];
      SpansFitTheClaim(init, subject, evidence);
      assert PropositionHolds(last, subject, evidence);
      assert init != [] ==> init[|init| - 1].span.end <= last.span.start;
    }
  }

  function TotalLength(ps: seq<Proposition>): nat
  {
    if ps == [] then 0 else TotalLength(ps[..|ps| - 1]) + |ps[|ps| - 1].span.text|
  }

  // ----- outcomes -------------------------------------------------------------------------------

  predicate FullySupported(ps: seq<Proposition>, risk: Risk)
  {
    forall i :: 0 <= i < |ps| ==> ps[i].outcome == Supported && ps[i].confidence >= Threshold(Supported, risk)
  }

  /** A claim is supported exactly when every proposition is, at its risk's
      threshold. */
  lemma {:induction false} SupportedExactly(ps: seq<Proposition>, risk: Risk)
    requires ps != []
    ensures WeakestOutcome(NormalizedOutcomes(ps, risk)) == Supported <==> FullySupported(ps, risk)
  {
    var outcomes := NormalizedOutcomes(ps, risk);
    assert forall i :: 0 <= i < |ps| ==> outcomes[i] in outcomes && outcomes[i] == NormalizedOutcome(ps[i], risk);
    if WeakestOutcome(outcomes) == Supported {
      forall i | 0 <= i < |ps|
        ensures outcomes[i] == Supported
      {
        assert outcomes[i] in outcomes;
      }
    }
    if FullySupported(ps, risk) {
      assert forall i :: 0 <= i < |ps| ==> outcomes[i] == Supported;
    }
  }

  /** A contradiction at or above its threshold always decides the outcome. */
  lemma {:induction false} ContradictedExactly(ps: seq<Proposition>, risk: Risk)
    requires ps != []
    ensures WeakestOutcome(NormalizedOutcomes(ps, risk)) == Contradiction
            <==> exists i :: 0 <= i < |ps| && ps[i].outcome == Contradiction && ps[i].confidence >= 0.90
  {
    var outcomes := NormalizedOutcomes(ps, risk);
    assert forall i :: 0 <= i < |ps| ==> outcomes[i] == NormalizedOutcome(ps[i], risk);
    if i :| 0 <= i < |ps| && ps[i].outcome == Contradiction && ps[i].confidence >= 0.90 {
      assert outcomes[i] in outcomes;
    }
  }

  // ----- attempts -----------------------------------------------------------------------------------

  /** The attempt is the judgment of its subject by accepted propositions. */
  ghost predicate FaithfulAttempt(env: Alphabet, request: Request, evidence: map<string, string>, a: Attempt)
  {
    && a.propositions != []
    && PropositionsHold(env, a.propositions, a.subject, evidence)
    && a.outcome == WeakestOutcome(NormalizedOutcomes(a.propositions, request.risk))
    && a.confidence == LowestConfidence(a.propositions)
  }

  lemma {:induction false} ParsedIsFaithful(
    env: Alphabet, request: Request, evidence: map<string, string>, subject: Subject, reply: Reply, number: nat)
    ensures var parsed := ParsedOutput(env, request, evidence, subject, reply, number);
            parsed.Some? ==>
              && FaithfulAttempt(env, request, evidence, parsed.value.0)
              && parsed.value.0.subject == subject && parsed.value.0.number == number
  {
    hide PropositionsHold, WeakestOutcome, LowestConfidence, NormalizedOutcomes, ValidProposition;
  }

  /** The second subject only narrows the first. */
  ghost predicate Narrows(env: Alphabet, from: Subject, to: Subject)
  {
    && to.text != from.text && Tokens(env, to.text) != []
    && multiset(Tokens(env, to.text)) <= multiset(Tokens(env, from.text))
    && (forall id :: id in to.evidenceIds ==> id in from.evidenceIds)
  }

  /** The attempts of a result tell the run: the first judges the original
      claim, a second one judges the recorded correction, which narrows it, and
      only after an unsupported first. */
  ghost predicate FaithfulHistory(env: Alphabet, request: Request, evidence: map<string, string>, r: Result)
  {
    && |r.attempts| <= 2
    && (forall i :: 0 <= i < |r.attempts| ==>
          r.attempts[i].number == i && FaithfulAttempt(env, request, evidence, r.attempts[i]))
    && (|r.attempts| > 0 ==> r.attempts[0].subject == request.claim)
    && (|r.attempts| == 2 <==> r.correction.Some?)
    && (|r.attempts| == 2 ==>
          && r.attempts[0].outcome != Supported
          && Narrows(env, request.claim, r.attempts[1].subject)
          && r.correction ==
             Some(Lineage(request.claim.text, r.attempts[1].subject.text, r.attempts[1].subject.evidenceIds)))
  }

  /** One pass from a known progress, with the branches named. */
  ghost predicate GoodProgress(s: Setting, number: nat, p: Progress)
  {
    && number < 2 && |p.attempts| == number
    && (number == 0 ==> p == Start(s.request))
    && (number == 1 ==>
          && p.attempts[0].number == 0 && p.attempts[0].subject == s.request.claim
          && p.attempts[0].outcome != Supported
          && FaithfulAttempt(s.env, s.request, s.evidence, p.attempts[0])
          && Narrows(s.env, s.request.claim, p.subject)
          && p.correction == Some(Lineage(s.request.claim.text, p.subject.text, p.subject.evidenceIds)))
  }

  lemma {:induction false} PassMovesOn(s: Setting, reply: Reply, p: Progress)
    requires GoodProgress(s, 0, p)
    ensures var end := Pass(s, reply, 0, p);
            end.Continues? ==> GoodProgress(s, 1, end.progress)
  {
    ParsedIsFaithful(s.env, s.request, s.evidence, p.subject, reply, 0);
    hide ParsedOutput, PassFailure, Success, NotPublishable, FaithfulAttempt, Tokens;
  }

  /** What a result that ends a pass says. */
  ghost predicate FaithfulResult(s: Setting, r: Result)
  {
    && FaithfulHistory(s.env, s.request, s.evidence, r)
    && (r.state == Satisfied ==>
          && r.attempts != []
          && var last := r.attempts[|r.attempts| - 1];
             r.finalText == last.subject.text && r.outcome == last.outcome && r.confidence == Some(last.confidence))
    && (r.state != Satisfied ==> r.outcome == Unknown && r.finalText == s.request.claim.text)
    && r.identity == Some(s.identity) && r.latencyMs == s.latencyMs
    && (r.publication == GroundedProse <==>
          r.state == Satisfied && r.outcome == Supported
          && s.request.release == Some(s.identity) && r.latencyMs <= BudgetMs)
  }

  lemma {:induction false} PassFailureFaithful(s: Setting, state: State, reason: string, number: nat, p: Progress)
    requires GoodProgress(s, number, p) && state != Satisfied
    ensures var result := PassFailure(s, state, reason, p);
            (result.Some? ==> FaithfulResult(s, result.value)) && (result.None? <==> number == 1)
  {
    hide FaithfulAttempt, Narrows;
  }

  lemma {:induction false} JudgedFaithful(s: Setting, number: nat, p: Progress, a: Attempt)
    requires GoodProgress(s, number, p) && a.number == number && a.subject == p.subject
    requires FaithfulAttempt(s.env, s.request, s.evidence, a)
    ensures var done := p.(attempts := p.attempts + [a]);
            && (a.outcome == Supported ==>
                  Success(s, done).Some? && FaithfulResult(s, Success(s, done).value))
            && (a.outcome != Supported ==>
                  NotPublishable(s, done).Some? && FaithfulResult(s, NotPublishable(s, done).value))
            && (number == 0 ==>
                  var failure := PassFailure(s, InvalidOutput, "CLAIM_VERIFIER_CORRECTION_INVALID",
                                             done.(correction := None));
                  failure.Some? && FaithfulResult(s, failure.value))
  {
    hide FaithfulAttempt, Narrows;
  }

  /** The reply cannot be used: late, raised or unacceptable. */
  predicate Unusable(s: Setting, reply: Reply, subject: Subject, number: nat)
  {
    || reply == DeadlinePassed || reply == Raised
    || ParsedOutput(s.env, s.request, s.evidence, subject, reply, number).None?
  }

  lemma {:induction false} PassFaithful(s: Setting, reply: Reply, number: nat, p: Progress)
    requires GoodProgress(s, number, p)
    ensures var end := Pass(s, reply, number, p);
            end.Ends? ==>
              && (end.result.Some? ==> FaithfulResult(s, end.result.value))
              && (end.result.None? <==> number == 1 && Unusable(s, reply, p.subject, 1))
  {
    hide ParsedOutput, PassFailure, Success, NotPublishable, FaithfulAttempt, FaithfulResult, Tokens, ValidCorrection;
    assert number < 2;
    ParsedIsFaithful(s.env, s.request, s.evidence, p.subject, reply, number);
    PassFailureFaithful(s, TimedOut, "CLAIM_VERIFIER_TIMED_OUT", number, p);
    PassFailureFaithful(s, Unavailable, "CLAIM_VERIFIER_UNAVAILABLE", number, p);
    PassFailureFaithful(s, InvalidOutput, "CLAIM_VERIFIER_OUTPUT_INVALID", number, p);
    var parsed := ParsedOutput(s.env, s.request, s.evidence, p.subject, reply, number);
    if parsed.Some? {
      JudgedFaithful(s, number, p, parsed.value.0);
    }
    hide GoodProgress;
  }

  /** The first pass asks for a correction that narrows the claim. */
  predicate FirstPassNarrows(s: Setting, reply: Reply)
  {
    !Unusable(s, reply, s.request.claim, 0) &&
    var (attempt, proposed) := ParsedOutput(s.env, s.request, s.evidence, s.request.claim, reply, 0).value;
    attempt.outcome != Supported && proposed.Some? && ValidCorrection(s.env, s.request.claim, proposed.value)
  }

  /** The subject of the second pass. */
  function SecondSubject(s: Setting, reply: Reply): Subject
    requires FirstPassNarrows(s, reply)
  {
    var c := ParsedOutput(s.env, s.request, s.evidence, s.request.claim, reply, 0).value.1.value;
    Subject(c.text, c.evidenceIds)
  }

  lemma {:induction false} ContinuesExactly(s: Setting, reply: Reply)
    ensures var end := Pass(s, reply, 0, Start(s.request));
            && (end.Continues? <==> FirstPassNarrows(s, reply))
            && (end.Continues? ==> end.progress.subject == SecondSubject(s, reply))
  {
    var parsed := ParsedOutput(s.env, s.request, s.evidence, s.request.claim, reply, 0);
    assert parsed.Some? ==> parsed.value == (parsed.value.0, parsed.value.1);
    hide ParsedOutput, PassFailure, Success, NotPublishable, ValidCorrection;
  }

  lemma {:induction false} PassesFaithful(s: Setting, replies: nat -> Reply)
    ensures Passes(s, replies).Some? ==> FaithfulResult(s, Passes(s, replies).value)
    ensures Passes(s, replies).None? <==>
      FirstPassNarrows(s, replies(0)) && Unusable(s, replies(1), SecondSubject(s, replies(0)), 1)
  {
    var start := Start(s.request);
    PassFaithful(s, replies(0), 0, start);
    PassMovesOn(s, replies(0), start);
    ContinuesExactly(s, replies(0));
    var end := Pass(s, replies(0), 0, start);
    if end.Continues? {
      SecondPassEnds(s, replies(1), end.progress);
      PassFaithful(s, replies(1), 1, end.progress);
    }
    hide Pass, FaithfulResult, GoodProgress, FirstPassNarrows, SecondSubject, Unusable;
  }

  // ----- main results ------------------------------------------------------------------------------------

  /** No result is returned exactly when the first pass led to an admissible
      correction and the second pass then timed out, raised or answered with
      something unusable: that failure carries one attempt together with a
      correction, which the result contract refuses. */
  lemma {:induction false} RaisesExactly(
    env: Alphabet, request: Request, intake: Intake, provider: Provider, latencyMs: nat)
    ensures Verification(env, request, intake, provider, latencyMs).None? <==>
      intake.Admitted? && provider.identity.Some? &&
      var s := Setting(env, request, intake.evidence, provider.identity.value, latencyMs);
      FirstPassNarrows(s, provider.replies(0))
      && Unusable(s, provider.replies(1), SecondSubject(s, provider.replies(0)), 1)
  {
    if intake.Admitted? && provider.identity.Some? {
      var s := Setting(env, request, intake.evidence, provider.identity.value, latencyMs);
      PassesFaithful(s, provider.replies);
    }
    hide Passes, FirstPassNarrows, Unusable, SecondSubject;
  }

  /** The state of a returned result names what happened: since a failing second
      pass raises, timeouts and outages are those of the first pass. */
  lemma {:induction false} FailureStateExactly(
    env: Alphabet, request: Request, evidence: map<string, string>, provider: Provider, latencyMs: nat)
    requires provider.identity.Some?
    ensures var s := Setting(env, request, evidence, provider.identity.value, latencyMs);
            var result := Verification(env, request, Admitted(evidence), provider, latencyMs);
            var first := ParsedOutput(env, request, evidence, request.claim, provider.replies(0), 0);
            result.Some? ==>
              && (result.value.state == TimedOut <==> provider.replies(0) == DeadlinePassed)
              && (result.value.state == Unavailable <==> provider.replies(0) == Raised)
              && (result.value.state == Satisfied ==> first.Some?)
              && (result.value.state == InvalidOutput && first.Some? <==> FirstCorrectionWidens(s, first))
  {
    var s := Setting(env, request, evidence, provider.identity.value, latencyMs);
    var start := Start(request);
    FirstPassState(s, provider.replies(0));
    var end := Pass(s, provider.replies(0), 0, start);
    if end.Continues? {
      PassMovesOn(s, provider.replies(0), start);
      SecondPassState(s, provider.replies(1), end.progress);
    }
    hide Pass, GoodProgress, ParsedOutput, FirstCorrectionWidens;
  }

  /** The first pass asked for a correction that does not narrow the claim. */
  predicate FirstCorrectionWidens(s: Setting, first: Option<(Attempt, Option<Correction>)>)
  {
    first.Some? && first.value.0.outcome != Supported && first.value.1.Some?
    && !ValidCorrection(s.env, s.request.claim, first.value.1.value)
  }

  lemma {:induction false} FirstPassState(s: Setting, reply: Reply)
    ensures var end := Pass(s, reply, 0, Start(s.request));
            var first := ParsedOutput(s.env, s.request, s.evidence, s.request.claim, reply, 0);
            && (first.Some? ==> reply.Text?)
            && (end.Ends? && end.result.Some? ==>
                  && (end.result.value.state == TimedOut <==> reply == DeadlinePassed)
                  && (end.result.value.state == Unavailable <==> reply == Raised)
                  && (end.result.value.state == Satisfied ==> first.Some?)
                  && (end.result.value.state == InvalidOutput && first.Some? <==> FirstCorrectionWidens(s, first)))
            && (end.Continues? ==> first.Some? && !FirstCorrectionWidens(s, first))
  {
    hide PropositionsHold, ValidPayload, ValidCorrection, WeakestOutcome, NormalizedOutcomes, LowestConfidence;
    var first := ParsedOutput(s.env, s.request, s.evidence, s.request.claim, reply, 0);
    assert first.Some? ==> reply.Text?;
    assert first.Some? ==> first.value == (first.value.0, first.value.1);
    hide ParsedOutput;
  }

  lemma {:induction false} SecondPassState(s: Setting, reply: Reply, p: Progress)
    requires GoodProgress(s, 1, p)
    ensures var end := Pass(s, reply, 1, p);
            end.Ends? && (end.result.Some? ==> end.result.value.state == Satisfied)
  {
    SecondPassEnds(s, reply, p);
    hide ParsedOutput, ValidCorrection, FaithfulAttempt, Narrows;
  }

  /** Everything a published text stands for. */
  ghost predicate SoundPublication(env: Alphabet, request: Request, evidence: map<string, string>, r: Result)
  {
    && 1 <= |r.attempts| <= 2
    && var last := r.attempts[|r.attempts| - 1];
       && r.finalText == last.subject.text
       && last.propositions != [] && FullySupported(last.propositions, request.risk)
       && PropositionsHold(env, last.propositions, last.subject, evidence)
       && multiset(Tokens(env, r.finalText)) <= multiset(Tokens(env, request.claim.text))
       && (forall id :: id in last.subject.evidenceIds ==> id in request.claim.evidenceIds)
       && (forall i :: 0 <= i < |last.propositions| ==>
             forall id :: id in last.propositions[i].evidenceIds ==> id in request.claim.evidenceIds)
       && r.confidence == Some(LowestConfidence(last.propositions))
  }

  /** Whenever grounded prose is returned, at most two passes were judged, every
      final proposition is supported at or above its risk's threshold, the final
      text uses only material tokens and evidence of the original claim, the
      release approval names this very provider and the budget was kept. */
  lemma {:induction false} GroundedProseIsSound(
    env: Alphabet, request: Request, intake: Intake, provider: Provider, latencyMs: nat)
    ensures var result := Verification(env, request, intake, provider, latencyMs);
            result.Some? && result.value.publication == GroundedProse ==>
              && intake.Admitted? && SoundPublication(env, request, intake.evidence, result.value)
              && provider.identity.Some? && request.release == provider.identity && latencyMs <= 2_200
  {
    var result := Verification(env, request, intake, provider, latencyMs);
    if intake.Admitted? && provider.identity.Some? {
      var s := Setting(env, request, intake.evidence, provider.identity.value, latencyMs);
      PassesFaithful(s, provider.replies);
      if result.Some? && result.value.publication == GroundedProse {
        PublishedIsSound(s, result.value);
      }
    }
    hide Passes, SoundPublication, FirstPassNarrows, Unusable;
  }

  lemma {:induction false} PublishedIsSound(s: Setting, r: Result)
    requires FaithfulResult(s, r) && r.publication == GroundedProse
    ensures SoundPublication(s.env, s.request, s.evidence, r)
  {
    hide Tokens, WeakestOutcome, LowestConfidence, NormalizedOutcomes, FullySupported, PropositionsHold;
    var last := r.attempts[|r.attempts| - 1];
    assert FaithfulAttempt(s.env, s.request, s.evidence, last);
    SupportedExactly(last.propositions, s.request.risk);
    NarrowedOrSame(s, r);
    AllowedEvidence(s, last);
  }

  lemma {:induction false} NarrowedOrSame(s: Setting, r: Result)
    requires FaithfulHistory(s.env, s.request, s.evidence, r) && r.attempts != []
    ensures var to := r.attempts[|r.attempts| - 1].subject;
            && multiset(Tokens(s.env, to.text)) <= multiset(Tokens(s.env, s.request.claim.text))
            && forall id :: id in to.evidenceIds ==> id in s.request.claim.evidenceIds
  {
    hide Tokens, FaithfulAttempt;
  }

  lemma {:induction false} AllowedEvidence(s: Setting, a: Attempt)
    requires PropositionsHold(s.env, a.propositions, a.subject, s.evidence)
    requires forall id :: id in a.subject.evidenceIds ==> id in s.request.claim.evidenceIds
    ensures forall i :: 0 <= i < |a.propositions| ==>
      forall id :: id in a.propositions[i].evidenceIds ==> id in s.request.claim.evidenceIds
  {
    hide CoversTokens, OrderedAndDisjoint;
    forall i | 0 <= i < |a.propositions|
      ensures forall id :: id in a.propositions[i].evidenceIds ==> id in s.request.claim.evidenceIds
    {
      assert PropositionHolds(a.propositions[i], a.subject, s.evidence);
    }
  }

  /** Of the returned results, grounded prose is exactly the supported ones with a
      matching release within the budget. */
  lemma {:induction false} PublishedExactly(
    env: Alphabet, request: Request, intake: Intake, provider: Provider, latencyMs: nat)
    ensures var result := Verification(env, request, intake, provider, latencyMs);
            result.Some? ==>
              (result.value.publication == GroundedProse
               <==> && result.value.state == Satisfied && result.value.outcome == Supported
                    && provider.identity.Some? && request.release == provider.identity && latencyMs <= 2_200)
  {
    if intake.Admitted? && provider.identity.Some? {
      var s := Setting(env, request, intake.evidence, provider.identity.value, latencyMs);
      PassesFaithful(s, provider.replies);
    }
    hide Passes, FirstPassNarrows, Unusable;
  }

  /** Every returned result past admission tells its run faithfully. */
  lemma {:induction false} HistoryIsFaithful(
    env: Alphabet, request: Request, evidence: map<string, string>, provider: Provider, latencyMs: nat)
    ensures var result := Verification(env, request, Admitted(evidence), provider, latencyMs);
            result.Some? ==> FaithfulHistory(env, request, evidence, result.value)
  {
    if provider.identity.Some? {
      var s := Setting(env, request, evidence, provider.identity.value, latencyMs);
      PassesFaithful(s, provider.replies);
    }
    hide Passes, FirstPassNarrows, Unusable;
  }

  // ----- a run that raises ----------------------------------------------------------------------

  function Plain(): Alphabet
  {
    Alphabet((c: char) => c != ' ', (s: string) => s)
  }

  function RaisingRequest(): Request
  {
    Request("c", Subject("x y", ["e"]), MaterialRisk, None)
  }

  /** The first reply supports one half of the claim and asks to drop the other. */
  function NarrowingPayload(): Payload
  {
    Payload("c",
            [Proposition(1, ClaimSpan(0, 3, "x y"), PartialSupport, 0.9, ["e"],
                         [EvidenceSpan("e", 0, 1, "x")], [ClaimSpan(2, 3, "y")], [])],
            Some(Correction("x", ["e"])))
  }

  function RaisingReplies(): nat -> Reply
  {
    (n: nat) => if n == 0 then Text(100, Some(NarrowingPayload())) else DeadlinePassed
  }

  lemma {:induction false} LetterToken(env: Alphabet, c: char)
    requires env.isWord(c) && env.fold([c]) == [c] && !Connective([c])
    ensures Tokens(env, [c]) == [[c]]
  {
    hide Connective;
    var s: string := [c];
    assert s[1..] == [];
    assert WordLength(env, []) == 0;
    assert WordLength(env, s) == 1;
    assert s[..1] == s;
    assert Words(env, []) == [];
    assert Words(env, s) == [s] + Words(env, []);
    assert [s][1..] == [];
    assert Material(env, []) == [];
    assert Material(env, [s]) == [s];
  }

  lemma {:induction false} PlainTokens()
    ensures Tokens(Plain(), "x y") == ["x", "y"] && Tokens(Plain(), "x") == ["x"]
  {
    assert !Connective("x") && !Connective("y") && SpaceSeparates(Plain());
    hide Connective, Tokens;
    LetterToken(Plain(), 'x');
    LetterToken(Plain(), 'y');
    JoinedTokens(Plain(), ["x", "y"]);
    assert Joined(["x", "y"][1..]) == "y";
    assert Joined(["x", "y"]) == "x y";
    assert AllTokens(Plain(), []) == [] && ["y"][1..] == [];
    assert AllTokens(Plain(), ["x", "y"][1..]) == ["y"];
    assert AllTokens(Plain(), ["x", "y"]) == ["x", "y"];
  }

  lemma {:induction false} NarrowingIsValid()
    ensures ValidPayload(NarrowingPayload())
  {
    var p := NarrowingPayload().propositions[0];
    assert p.support[0] in p.support + p.contradictions;
    assert UsedIds(p) == {"e"};
    assert ValidProposition(p);
    hide ValidProposition;
  }

  lemma {:induction false} NarrowingHolds()
    ensures PropositionsHold(Plain(), NarrowingPayload().propositions, RaisingRequest().claim, map["e" := "x"])
  {
    var ps := NarrowingPayload().propositions;
    assert ps[..0] == [];
    assert SpanTexts(ps) == ["x y"];
    assert Joined(["x y"]) == "x y";
    hide Tokens;
    assert PropositionHolds(ps[0], RaisingRequest().claim, map["e" := "x"]);
  }

  lemma {:induction false} CorrectionNarrows()
    ensures ValidCorrection(Plain(), RaisingRequest().claim, Correction("x", ["e"]))
  {
    PlainTokens();
    hide Tokens;
    assert multiset(["x"]) <= multiset(["x", "y"]);
  }

  lemma {:induction false} FirstReplyParses()
    ensures var first := ParsedOutput(Plain(), RaisingRequest(), map["e" := "x"], RaisingRequest().claim,
                                      RaisingReplies()(0), 0);
            first.Some? && first.value.0.outcome == PartialSupport && first.value.1 == Some(Correction("x", ["e"]))
  {
    NarrowingIsValid();
    NarrowingHolds();
    hide PropositionsHold, ValidPayload, LowestConfidence;
    assert NarrowingPayload().claimId == RaisingRequest().claimId && NarrowingPayload().propositions != [];
    var outcomes := NormalizedOutcomes(NarrowingPayload().propositions, MaterialRisk);
    assert outcomes == [PartialSupport];
    assert outcomes[0] in outcomes;
  }

  lemma {:induction false} FirstNarrows(identity: Identity, latencyMs: nat)
    ensures FirstPassNarrows(Setting(Plain(), RaisingRequest(), map["e" := "x"], identity, latencyMs),
                             RaisingReplies()(0))
  {
    CorrectionNarrows();
    FirstReplyParses();
    assert RaisingReplies()(0).Text?;
    hide ParsedOutput, ValidCorrection, RaisingReplies, Plain;
  }

  /** A correction that narrows, and then a second pass that times out: the
      verification raises although every part of it met its contract. */
  lemma {:induction false} SecondTimeoutRaises(identity: Identity, latencyMs: nat)
    ensures forall n :: Parses(RaisingReplies()(n))
    ensures ExactEvidence(RaisingRequest(), map["e" := "x"])
    ensures Verification(Plain(), RaisingRequest(), Admitted(map["e" := "x"]),
                         Provider(Some(identity), RaisingReplies()), latencyMs)
         == None
  {
    NarrowingIsValid();
    assert forall n :: RaisingReplies()(n) == if n == 0 then Text(100, Some(NarrowingPayload())) else DeadlinePassed;
    var (request, evidence, replies) := (RaisingRequest(), map["e" := "x"], RaisingReplies());
    var s := Setting(Plain(), request, evidence, identity, latencyMs);
    assert replies(1) == DeadlinePassed && replies(0).Text?;
    FirstNarrows(identity, latencyMs);
    hide ValidPayload, NarrowingPayload, RaisingReplies, Verification, Plain, FirstPassNarrows, SecondSubject;
    assert Unusable(s, replies(1), SecondSubject(s, replies(0)), 1);
    hide Unusable;
    RaisesExactly(Plain(), request, Admitted(evidence), Provider(Some(identity), replies), latencyMs);
  }
}
