/** The bounded retry loop around one provider
    (apps/api/backend/ask/live_intelligence.py, `_run_connector`). A connector
    is an arbitrary reply for every attempt. */
module LiveConnector {
  import opened Foundations
  import opened LiveContracts

  /** One call: the deadline passed, it raised, or it returned a value. A value
      is not text, or is text of some length that may parse to a payload. */
  datatype Reply = DeadlinePassed | Raised | NotText | Text(length: nat, parsed: Option<Payload>)

  datatype Run = Run(payload: Payload, attempts: nat, sleepsMs: seq<nat>)

  const Attempts: nat := 3
  const MaxResponseChars: nat := 1_000_000
  const MaxItems: nat := 100

  ghost predicate DistinctIds(items: seq<Item>)
  {
    forall i, j :: 0 <= i < j < |items| ==> items[i].id != items[j].id
  }

  /** The payload contract that parsing enforces. */
  ghost predicate ValidPayload(p: Payload)
  {
    && |p.items| <= MaxItems
    && (p.state == Satisfied <==> p.items != [])
    && (p.state == Satisfied || p.state == NoMatch <==> p.code == None)
    && DistinctIds(p.items)
  }

  /** Text parses only to payloads that satisfy the contract. */
  ghost predicate Parses(reply: Reply)
  {
    reply.Text? && reply.parsed.Some? ==> ValidPayload(reply.parsed.value)
  }

  function Failed(provider: string, state: ProviderState, code: string): Payload
  {
    Payload(provider, state, [], Some(code))
  }

  /** The payload in a returned value, or the failure that stands for it. */
  function Parsed(provider: string, reply: Reply): Payload
    requires reply.NotText? || reply.Text?
  {
    if reply.Text? && reply.length <= MaxResponseChars && reply.parsed.Some? then reply.parsed.value
    else Failed(provider, InvalidOutput, "LIVE_PROVIDER_OUTPUT_INVALID")
  }

  /** The payload one attempt leaves behind. */
  function Read(provider: string, reply: Reply): Payload
  {
    match reply
    case DeadlinePassed => Failed(provider, TimedOut, "LIVE_PROVIDER_TIMED_OUT")
    case Raised => Failed(provider, Unavailable, "LIVE_PROVIDER_UNAVAILABLE")
    case _ =>
      if Parsed(provider, reply).provider != provider then
        Failed(provider, InvalidOutput, "LIVE_PROVIDER_IDENTITY_INVALID")
      else Parsed(provider, reply)
  }

  predicate NonRetryable(code: Option<string>)
  {
    code in {Some("LIVE_PROVIDER_AUTH_FAILED"), Some("LIVE_PROVIDER_ENTITLEMENT_FAILED"),
             Some("LIVE_PROVIDER_ROBOTS_DENIED"), Some("LIVE_PROVIDER_PERMANENT_FAILURE"),
             Some("LIVE_PROVIDER_RATE_LIMITED")}
  }

  /** Whether another attempt may follow this payload. */
  predicate Transient(p: Payload)
  {
    (p.state == TimedOut || p.state == Unavailable) && !NonRetryable(p.code)
  }

  /** The pause after a failed attempt: 50 ms, then twice as long each time. */
  function PauseMs(attempt: nat): nat
    requires attempt >= 1
  {
    if attempt == 1 then 50 else 2 * PauseMs(attempt - 1)
  }

  /** The run that starts at the given attempt. */
  function RunFrom(provider: string, replies: nat -> Reply, attempt: nat): Run
    requires 1 <= attempt <= Attempts
    decreases Attempts - attempt
  {
    var p := Read(provider, replies(attempt));
    if !Transient(p) || attempt == Attempts then Run(p, attempt, [])
    else
      Extend([PauseMs(attempt)], RunFrom(provider, replies, attempt + 1))
  }

  function Extend(sleepsMs: seq<nat>, run: Run): Run
  {
    run.(sleepsMs := sleepsMs + run.sleepsMs)
  }

  function RunOf(provider: string, replies: nat -> Reply): Run
  {
    RunFrom(provider, replies, 1)
  }

  /** What a run is, without the recursion: it stops at the first attempt whose
      payload is final, or at the third, and slept once between attempts. */
  ghost predicate StopsExactly(provider: string, replies: nat -> Reply, run: Run)
  {
    && 1 <= run.attempts <= Attempts
    && run.payload == Read(provider, replies(run.attempts))
    && (forall i :: 1 <= i < run.attempts ==> Transient(Read(provider, replies(i))))
    && (run.attempts < Attempts ==> !Transient(run.payload))
    && |run.sleepsMs| == run.attempts - 1
    && (forall i :: 0 <= i < |run.sleepsMs| ==> run.sleepsMs[i] == PauseMs(i + 1))
  }

  lemma {:induction false} FailuresAreTransient(provider: string)
    ensures Transient(Failed(provider, TimedOut, "LIVE_PROVIDER_TIMED_OUT"))
    ensures Transient(Failed(provider, Unavailable, "LIVE_PROVIDER_UNAVAILABLE"))
    ensures !Transient(Failed(provider, InvalidOutput, "LIVE_PROVIDER_IDENTITY_INVALID"))
  {
    assert "LIVE_PROVIDER_TIMED_OUT"[14] == 'T';
  }

  /** The loop as written: the payload is built inside the attempt, and the two
      handlers return only on the third attempt. */
  method RunConnector(provider: string, replies: nat -> Reply) returns (run: Run)
    ensures run == RunOf(provider, replies)
  {
    hide Parsed, NonRetryable, PauseMs;
    var sleeps: seq<nat> := [];
    var attempt := 1;
    FailuresAreTransient(provider);
    while true
      invariant 1 <= attempt <= Attempts
      invariant RunOf(provider, replies) == Extend(sleeps, RunFrom(provider, replies, attempt))
      decreases Attempts - attempt
    {
      var reply := replies(attempt);
      var payload;
      if reply == DeadlinePassed {
        payload := Failed(provider, TimedOut, "LIVE_PROVIDER_TIMED_OUT");
        if attempt == Attempts {
          return Run(payload, attempt, sleeps);
        }
      } else if reply == Raised {
        payload := Failed(provider, Unavailable, "LIVE_PROVIDER_UNAVAILABLE");
        if attempt == Attempts {
          return Run(payload, attempt, sleeps);
        }
      } else {
        payload := Parsed(provider, reply);
        if payload.provider != provider {
          return Run(Failed(provider, InvalidOutput, "LIVE_PROVIDER_IDENTITY_INVALID"), attempt, sleeps);
        }
        if NonRetryable(payload.code) {
          return Run(payload, attempt, sleeps);
        }
        if (payload.state != TimedOut && payload.state != Unavailable) || attempt == Attempts {
          return Run(payload, attempt, sleeps);
        }
      }
      ghost var next := RunFrom(provider, replies, attempt + 1);
      assert Extend(sleeps, Extend([PauseMs(attempt)], next)) == Extend(sleeps + [PauseMs(attempt)], next);
      sleeps := sleeps + [PauseMs(attempt)];
      attempt := attempt + 1;
    }
  }

  // ----- properties ------------------------------------------------------------------

  ghost predicate StopsFrom(provider: string, replies: nat -> Reply, attempt: nat, run: Run)
    requires attempt >= 1
  {
    && attempt <= run.attempts <= Attempts
    && run.payload == Read(provider, replies(run.attempts))
    && (forall i :: attempt <= i < run.attempts ==> Transient(Read(provider, replies(i))))
    && (run.attempts < Attempts ==> !Transient(run.payload))
    && |run.sleepsMs| == run.attempts - attempt
    && (forall i :: 0 <= i < |run.sleepsMs| ==> run.sleepsMs[i] == PauseMs(attempt + i))
  }

  lemma {:induction false} RunFromStops(provider: string, replies: nat -> Reply, attempt: nat)
    requires 1 <= attempt <= Attempts
    ensures StopsFrom(provider, replies, attempt, RunFrom(provider, replies, attempt))
    decreases Attempts - attempt
  {
    hide Read, Transient, PauseMs;
    if Transient(Read(provider, replies(attempt))) && attempt < Attempts {
      RunFromStops(provider, replies, attempt + 1);
      var rest := RunFrom(provider, replies, attempt + 1);
      var run := RunFrom(provider, replies, attempt);
      assert run.sleepsMs == [PauseMs(attempt)] + rest.sleepsMs;
      assert forall i :: 1 <= i < |run.sleepsMs| ==> run.sleepsMs[i] == rest.sleepsMs[i - 1];
    }
  }

  /** Each connector stops within three attempts, with one sleep fewer than
      attempts, at the first final reply; nothing else meets that description. */
  lemma {:induction false} RunStopsExactly(provider: string, replies: nat -> Reply, run: Run)
    ensures StopsExactly(provider, replies, run) <==> run == RunOf(provider, replies)
  {
    RunFromStops(provider, replies, 1);
    var own := RunOf(provider, replies);
    hide Read, Transient, PauseMs, RunFrom;
    if StopsExactly(provider, replies, run) {
      assert own.attempts == run.attempts;
      assert own.sleepsMs == run.sleepsMs;
    }
  }

  /** Whatever the provider sends, the payload handed on is contract-valid and
      names that provider. */
  lemma {:induction false} RunPayloadIsValid(provider: string, replies: nat -> Reply)
    requires forall i :: Parses(replies(i))
    ensures var p := RunOf(provider, replies).payload; ValidPayload(p) && p.provider == provider
  {
    RunFromStops(provider, replies, 1);
    var run := RunOf(provider, replies);
    assert Parses(replies(run.attempts));
    hide RunFrom;
  }

  /** A run ends timed out or unavailable with a retryable code only when every
      one of the three attempts failed in passing. */
  lemma {:induction false} TransientOnlyAfterAllAttempts(provider: string, replies: nat -> Reply)
    ensures Transient(RunOf(provider, replies).payload)
            <==> forall i :: 1 <= i <= Attempts ==> Transient(Read(provider, replies(i)))
  {
    RunFromStops(provider, replies, 1);
    hide Read, Transient, RunFrom;
  }
}
