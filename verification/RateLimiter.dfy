/** The sliding-window limiter (apps/api/backend/api/ratelimit.py) and what it
    guarantees over every run of calls under a clock that never goes back. */
module RateLimiter {

  type Key = string

  // ----- one bucket ----------------------------------------------------------

  /** `while bucket and bucket[0] < window_start: bucket.popleft()`. */
  function Evict(bucket: seq<real>, windowStart: real): seq<real>
  {
    if bucket != [] && bucket[0] < windowStart then Evict(bucket[1..], windowStart) else bucket
  }

  type Buckets = map<Key, seq<real>>

  function BucketOf(events: Buckets, key: Key): seq<real> { if key in events then events[key] else [] }

  class TokenBucket {
    const limit: int
    const windowS: int
    var events: Buckets

    constructor (limit: int, windowS: int)
      ensures this.limit == limit && this.windowS == windowS && events == map[]
    {
      this.limit, this.windowS, events := limit, windowS, map[];
    }

    /** Evicts in place, then records the call or refuses it. */
    method Check(key: Key, now: real) returns (accepted: bool)
      modifies this
      ensures (events, accepted) == old(Step(limit, windowS, events, Call(key, now)))
    {
      var windowStart := now - windowS as real;
      var bucket := BucketOf(events, key);
      while bucket != [] && bucket[0] < windowStart
        invariant Evict(bucket, windowStart) == Evict(BucketOf(events, key), windowStart)
        decreases |bucket|
      {
        bucket := bucket[1..];
      }
      if |bucket| >= limit {
        events := events[key := bucket];
        return false;
      }
      events := events[key := bucket + [now]];
      accepted := true;
    }
  }

  // ----- runs ------------------------------------------------------------------

  datatype Call = Call(key: Key, now: real)

  function Step(limit: int, windowS: int, events: Buckets, c: Call): (Buckets, bool)
  {
    var bucket := Evict(BucketOf(events, c.key), c.now - windowS as real);
    if |bucket| >= limit then (events[c.key := bucket], false)
    else (events[c.key := bucket + [c.now]], true)
  }

  function After(limit: int, windowS: int, calls: seq<Call>): Buckets
  {
    if calls == [] then map[]
    else Step(limit, windowS, After(limit, windowS, calls[..|calls| - 1]), calls[|calls| - 1]).0
  }

  /** Whether a call is accepted after a run. */
  predicate Accepts(limit: int, windowS: int, calls: seq<Call>, c: Call)
  {
    Step(limit, windowS, After(limit, windowS, calls), c).1
  }

  /** The times of the accepted calls of a key, in order. */
  function Log(limit: int, windowS: int, calls: seq<Call>, key: Key): seq<real>
  {
    if calls == [] then []
    else
      var init, last := calls[..|calls| - 1], calls[|calls| - 1];
      Log(limit, windowS, init, key)
      + if last.key == key && Accepts(limit, windowS, init, last) then [last.now] else []
  }

  /** How many of the times lie in the closed interval from `lo` to `hi`. */
  function CountIn(times: seq<real>, lo: real, hi: real): nat
  {
    if times == [] then 0
    else CountIn(times[..|times| - 1], lo, hi) + if lo <= times[|times| - 1] <= hi then 1 else 0
  }

  predicate Monotone(calls: seq<Call>)
  {
    forall i, j :: 0 <= i < j < |calls| ==> calls[i].now <= calls[j].now
  }

  predicate Ascending(times: seq<real>)
  {
    forall i, j :: 0 <= i < j < |times| ==> times[i] <= times[j]
  }

  // ----- the bucket is the recent part of the log -------------------------

  lemma {:induction false} EvictDrops(bucket: seq<real>, start: real) returns (n: nat)
    ensures n <= |bucket| && Evict(bucket, start) == bucket[n..]
    ensures forall k :: 0 <= k < n ==> bucket[k] < start
    ensures n < |bucket| ==> bucket[n] >= start
    decreases |bucket|
  {
    n := 0;
    if bucket != [] && bucket[0] < start {
      var m := EvictDrops(bucket[1..], start);
      n := m + 1;
      assert bucket[1..][m..] == bucket[n..];
      assert forall k :: 1 <= k < n ==> bucket[k] == bucket[1..][k - 1];
    }
  }

  /** The bucket is the log from position `n` on; what comes before is older than `bound`. */
  ghost predicate EndsLog(bucket: seq<real>, log: seq<real>, n: nat, bound: real)
  {
    n <= |log| && bucket == log[n..] && forall k :: 0 <= k < n ==> log[k] < bound
  }

  lemma {:induction false} EvictEndsLog(
    bucket: seq<real>, log: seq<real>, m: nat, bound: real, start: real) returns (n: nat)
    requires EndsLog(bucket, log, m, bound) && bound <= start
    ensures EndsLog(Evict(bucket, start), log, n, start) && (n < |log| ==> log[n] >= start)
  {
    var d := EvictDrops(bucket, start);
    n := m + d;
    assert log[m..][d..] == log[n..];
    assert forall k :: m <= k < n ==> log[k] == log[m..][k - m];
    assert n < |log| ==> log[n] == log[m..][d];
  }

  lemma {:induction false} AppendEndsLog(bucket: seq<real>, log: seq<real>, n: nat, bound: real, now: real)
    requires EndsLog(bucket, log, n, bound)
    ensures EndsLog(bucket + [now], log + [now], n, bound)
  {
    assert (log + [now])[n..] == log[n..] + [now];
  }

  lemma {:induction false} LogIsAscending(limit: int, windowS: int, calls: seq<Call>, key: Key)
    requires Monotone(calls)
    ensures Ascending(Log(limit, windowS, calls, key))
    ensures forall k :: 0 <= k < |Log(limit, windowS, calls, key)| ==>
      calls != [] && Log(limit, windowS, calls, key)[k] <= calls[|calls| - 1].now
  {
    if calls != [] {
      LogIsAscending(limit, windowS, calls[..|calls| - 1], key);
    }
  }

  /** What is left of a bucket is the end of the log; what was dropped is older
      than the window of the last call. */
  lemma {:induction false} BucketEndsLog(limit: int, windowS: int, calls: seq<Call>, key: Key) returns (n: nat)
    requires Monotone(calls) && calls != []
    ensures EndsLog(BucketOf(After(limit, windowS, calls), key), Log(limit, windowS, calls, key), n,
                    calls[|calls| - 1].now - windowS as real)
  {
    var init, last := calls[..|calls| - 1], calls[|calls| - 1];
    assert init + [last] == calls;
    MonotoneInit(init, last);
    OneMoreCall(limit, windowS, init, last, key);
    var bucket, log := BucketOf(After(limit, windowS, init), key), Log(limit, windowS, init, key);
    var start := last.now - windowS as real;
    var m, bound := 0, start;
    if init == [] {
      assert EndsLog(bucket, log, 0, start);
    } else {
      m := BucketEndsLog(limit, windowS, init, key);
      bound := init[|init| - 1].now - windowS as real;
    }
    hide Evict, Log, After, BucketOf, Monotone;
    assert EndsLog(bucket, log, m, start);
    n := m;
    if last.key == key {
      n := EvictEndsLog(bucket, log, m, start, start);
      AppendEndsLog(Evict(bucket, start), log, n, start, last.now);
    }
  }

  /** The bucket and the log of a key after one more call. */
  lemma {:induction false} OneMoreCall(limit: int, windowS: int, calls: seq<Call>, c: Call, key: Key)
    ensures var bucket := BucketOf(After(limit, windowS, calls), key);
            var kept := Evict(bucket, c.now - windowS as real);
            var log := Log(limit, windowS, calls, key);
            && BucketOf(After(limit, windowS, calls + [c]), key)
               == (if c.key != key then bucket else if |kept| < limit then kept + [c.now] else kept)
            && Log(limit, windowS, calls + [c], key)
               == (if c.key == key && |kept| < limit then log + [c.now] else log)
  {
    hide Evict;
    assert (calls + [c])[..|calls + [c]| - 1] == calls;
    var log := Log(limit, windowS, calls, key);
    assert log + [] == log;
  }

  lemma {:induction false} CountSplits(a: seq<real>, b: seq<real>, lo: real, hi: real)
    ensures CountIn(a + b, lo, hi) == CountIn(a, lo, hi) + CountIn(b, lo, hi)
  {
    if b == [] {
      assert a + b == a;
    } else {
      assert (a + b)[..|a + b| - 1] == a + b[..|b| - 1];
      CountSplits(a, b[..|b| - 1], lo, hi);
    }
  }

  lemma {:induction false} CountAllOrNone(times: seq<real>, lo: real, hi: real)
    ensures (forall k :: 0 <= k < |times| ==> lo <= times[k] <= hi) ==> CountIn(times, lo, hi) == |times|
    ensures (forall k :: 0 <= k < |times| ==> times[k] < lo) ==> CountIn(times, lo, hi) == 0
  {
    if times != [] {
      CountAllOrNone(times[..|times| - 1], lo, hi);
    }
  }

  lemma {:induction false} CountMonotone(times: seq<real>, lo: real, hi: real, lo': real, hi': real)
    requires forall k :: 0 <= k < |times| && lo <= times[k] <= hi ==> lo' <= times[k] <= hi'
    ensures CountIn(times, lo, hi) <= CountIn(times, lo', hi')
  {
    if times != [] {
      CountMonotone(times[..|times| - 1], lo, hi, lo', hi');
    }
  }

  lemma {:induction false} MonotoneInit(calls: seq<Call>, c: Call)
    requires Monotone(calls + [c])
    ensures Monotone(calls) && (calls != [] ==> calls[|calls| - 1].now <= c.now)
  {
    assert forall i :: 0 <= i < |calls| ==> calls[i] == (calls + [c])[i];
    assert calls != [] ==> (calls + [c])[|calls| - 1].now <= (calls + [c])[|calls|].now;
  }

  /** A call is accepted exactly when fewer than `limit` accepted calls of its
      key lie in the window that ends now. */
  lemma {:induction false} AcceptedExactlyBelowLimit(limit: int, windowS: int, calls: seq<Call>, c: Call)
    requires Monotone(calls + [c])
    ensures Accepts(limit, windowS, calls, c)
            <==> CountIn(Log(limit, windowS, calls, c.key), c.now - windowS as real, c.now) < limit
  {
    var start := c.now - windowS as real;
    var log := Log(limit, windowS, calls, c.key);
    hide Evict, Log, CountIn, Monotone;
    MonotoneInit(calls, c);
    assert Accepts(limit, windowS, calls, c) <==> |Evict(BucketOf(After(limit, windowS, calls), c.key), start)| < limit;
    hide Evict, Log, After, CountIn, Monotone, Accepts, Step, BucketOf;
    LogIsAscending(limit, windowS, calls, c.key);
    var m := 0;
    if calls == [] {
      NothingLogged(limit, windowS, c.key);
    } else {
      m := BucketEndsLog(limit, windowS, calls, c.key);
    }
    var bucket := BucketOf(After(limit, windowS, calls), c.key);
    var n := EvictEndsLog(bucket, log, m, start, start);
    CountRecent(log, n, start, c.now);
  }

  lemma {:induction false} NothingLogged(limit: int, windowS: int, key: Key)
    ensures BucketOf(After(limit, windowS, []), key) == [] && Log(limit, windowS, [], key) == []
  {
  }

  /** The end of an ascending log that starts at `start` is what the window counts. */
  lemma {:induction false} CountRecent(log: seq<real>, n: nat, start: real, now: real)
    requires n <= |log| && Ascending(log) && forall k :: 0 <= k < |log| ==> log[k] <= now
    requires forall k :: 0 <= k < n ==> log[k] < start
    requires n < |log| ==> log[n] >= start
    ensures CountIn(log, start, now) == |log| - n
    decreases |log|
  {
    if n == |log| {
      CountAllOrNone(log, start, now);
    } else {
      assert log[n] <= log[|log| - 1];
      CountRecent(log[..|log| - 1], n, start, now);
    }
  }

  lemma {:induction false} OneMoreFits(log: seq<real>, now: real, lo: real, width: real, limit: int)
    requires forall k :: 0 <= k < |log| ==> log[k] <= now
    requires CountIn(log, now - width, now) < limit && CountIn(log, lo, lo + width) <= limit
    ensures CountIn(log + [now], lo, lo + width) <= limit
  {
    CountSplits(log, [now], lo, lo + width);
    assert CountIn([now], lo, lo + width) == if lo <= now <= lo + width then 1 else 0;
    if lo <= now <= lo + width {
      CountMonotone(log, lo, lo + width, now - width, now);
    }
  }

  /** No closed interval as long as the window holds more accepted calls of a
      key than the limit, wherever it starts and however long the run is. */
  lemma {:induction false} NeverMoreThanLimit(limit: int, windowS: int, calls: seq<Call>, key: Key, lo: real)
    requires Monotone(calls)
    ensures CountIn(Log(limit, windowS, calls, key), lo, lo + windowS as real) <= if limit > 0 then limit else 0
  {
    if calls != [] {
      var init, last := calls[..|calls| - 1], calls[|calls| - 1];
      NeverMoreThanLimit(limit, windowS, init, key, lo);
      var before := Log(limit, windowS, init, key);
      assert init + [last] == calls;
      LogOfRun(limit, windowS, init, last, key);
      if last.key == key && Accepts(limit, windowS, init, last) {
        AcceptedExactlyBelowLimit(limit, windowS, init, last);
        hide Log, After, CountIn;
        OneMoreFits(before, last.now, lo, windowS as real, limit);
      }
    }
  }

  lemma {:induction false} LogOfRun(limit: int, windowS: int, calls: seq<Call>, c: Call, key: Key)
    requires Monotone(calls + [c])
    ensures Log(limit, windowS, calls + [c], key)
            == if c.key == key && Accepts(limit, windowS, calls, c)
               then Log(limit, windowS, calls, key) + [c.now] else Log(limit, windowS, calls, key)
    ensures forall k :: 0 <= k < |Log(limit, windowS, calls, key)| ==> Log(limit, windowS, calls, key)[k] <= c.now
  {
    assert (calls + [c])[..|calls + [c]| - 1] == calls;
    assert Log(limit, windowS, calls, key) + [] == Log(limit, windowS, calls, key);
    MonotoneInit(calls, c);
    LogIsAscending(limit, windowS, calls, key);
  }

  /** A refusal means that the window that ends now is exactly full. */
  lemma {:induction false} RefusedExactlyWhenFull(limit: int, windowS: int, calls: seq<Call>, c: Call)
    requires Monotone(calls + [c]) && limit >= 0
    ensures !Accepts(limit, windowS, calls, c)
            <==> CountIn(Log(limit, windowS, calls, c.key), c.now - windowS as real, c.now) == limit
  {
    AcceptedExactlyBelowLimit(limit, windowS, calls, c);
    MonotoneInit(calls, c);
    NeverMoreThanLimit(limit, windowS, calls, c.key, c.now - windowS as real);
  }

  // ----- keys are independent ---------------------------------------------

  /** The calls of one key. */
  function CallsOf(calls: seq<Call>, key: Key): seq<Call>
  {
    if calls == [] then []
    else CallsOf(calls[..|calls| - 1], key) + if calls[|calls| - 1].key == key then [calls[|calls| - 1]] else []
  }

  lemma {:induction false} BucketDependsOnOwnCalls(limit: int, windowS: int, calls: seq<Call>, key: Key)
    ensures BucketOf(After(limit, windowS, calls), key) == BucketOf(After(limit, windowS, CallsOf(calls, key)), key)
  {
    if calls != [] {
      var init, last := calls[..|calls| - 1], calls[|calls| - 1];
      BucketDependsOnOwnCalls(limit, windowS, init, key);
      if last.key == key {
        assert CallsOf(calls, key)[..|CallsOf(calls, key)| - 1] == CallsOf(init, key);
      } else {
        assert CallsOf(calls, key) == CallsOf(init, key);
      }
    }
  }

  /** Calls of other keys never change a decision. */
  lemma {:induction false} KeysAreIndependent(limit: int, windowS: int, calls: seq<Call>, c: Call)
    ensures Accepts(limit, windowS, calls, c) <==> Accepts(limit, windowS, CallsOf(calls, c.key), c)
  {
    BucketDependsOnOwnCalls(limit, windowS, calls, c.key);
  }
}
