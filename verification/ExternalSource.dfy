/** backend/app/services/external_observations.py: the cached, rate-limited OpenSky source with backoff and a
    circuit breaker. Times are in microseconds; what the provider answers is a parameter of each fetch.
  */
module ExternalSource {
  import opened Wrappers

  datatype Config = Config(cacheTtl: int, minimumPollInterval: int, failureBackoff: int,
                           circuitFailureThreshold: int, circuitOpen: int)

  const SECOND := 1_000_000

  /** The values of `OpenSkyConfig`. */
  const DEFAULTS := Config(10 * SECOND, 10 * SECOND, 2 * SECOND, 3, 60 * SECOND)

  /** What one attempt meets. `Escapes` is an exception the code does not catch. */
  datatype Reply = RequestFailed | RateLimited(retryHeader: Option<nat>) | HttpError(status: int) | BadPayload
                 | Fetched(observations: seq<int>, credits: Option<nat>) | Escapes

  datatype Reason = CircuitOpen | PollOrBackoff | ProviderLimit | Failure

  datatype Result = Result(available: bool, observations: seq<int>, fetchedAt: int, fromCache: bool,
                           reason: Option<Reason>)

  datatype CacheEntry = CacheEntry(result: Result, expiresAt: int)

  datatype Health = Health(requests: nat, successes: nat, failures: nat, cacheHits: nat, rateLimitEvents: nat,
                           consecutiveFailures: nat, lastSuccessAt: Option<int>, lastError: Option<Reason>,
                           retryAfter: Option<int>, creditsRemaining: Option<nat>)

  datatype Source = Source(cache: map<string, CacheEntry>, nextRequestAt: Option<int>,
      circuitOpenUntil: Option<int>, health: Health)

  const FRESH := Source(map[], None, None, Health(0, 0, 0, 0, 0, 0, None, None, None, None))

  function Pow2(n: nat): nat {
    if n == 0 then 1 else 2 * Pow2(n - 1)
  }

  function Unavailable(now: int, reason: Reason): Result {
    Result(false, [], now, false, Some(reason))
  }

  predicate Before(now: int, limit: Option<int>) {
    limit.Some? && now < limit.value
  }

  function BlockedReason(s: Source, now: int): Option<Reason> {
    if Before(now, s.circuitOpenUntil) then Some(CircuitOpen)
    else if Before(now, s.nextRequestAt) then Some(PollOrBackoff)
    else None
  }

  /** Seconds to wait after a rate-limit answer: the header when it is a positive number, else a minute. */
  function RetryDelay(header: Option<nat>): int {
    if header.Some? && header.value != 0 then header.value * SECOND else 60 * SECOND
  }

  function Backoff(c: Config, streak: nat): int
    requires streak >= 1
  {
    c.failureBackoff * Pow2(streak - 1)
  }

  function RecordFailure(c: Config, s: Source, now: int): Source {
    var streak := s.health.consecutiveFailures + 1;
    var open := streak >= c.circuitFailureThreshold;
    var retryAt := if open then now + c.circuitOpen else now + Backoff(c, streak);
    s.(nextRequestAt := Some(now + Backoff(c, streak)),
       circuitOpenUntil := if open then Some(now + c.circuitOpen) else s.circuitOpenUntil,
       health := s.health.(failures := s.health.failures + 1, consecutiveFailures := streak,
                           lastError := Some(Failure), retryAfter := Some(retryAt)))
  }

  predicate CacheAnswers(s: Source, key: string, now: int) {
    key in s.cache && now < s.cache[key].expiresAt
  }

  /** Whether a fetch goes to the provider. */
  predicate Attempts(s: Source, key: string, now: int) {
    !CacheAnswers(s, key, now) && BlockedReason(s, now).None?
  }

  /** The source after one fetch, and its result (None when an exception escapes). */
  function Fetch(c: Config, s: Source, key: string, now: int, reply: Reply): (Source, Option<Result>) {
    var hit := s.(health := s.health.(cacheHits := s.health.cacheHits + 1));
    if CacheAnswers(s, key, now) then (hit, Some(s.cache[key].result.(fromCache := true)))
    else if BlockedReason(s, now).Some? then
      if key in s.cache then (hit, Some(s.cache[key].result.(fromCache := true, reason := BlockedReason(s, now))))
      else (s, Some(Unavailable(now, BlockedReason(s, now).value)))
    else
      var tried := s.(nextRequestAt := Some(now + c.minimumPollInterval),
                      health := s.health.(requests := s.health.requests + 1));
      match reply
      case RateLimited(header) =>
        var retryAt := now + RetryDelay(header);
        (tried.(nextRequestAt := Some(retryAt),
                health := tried.health.(rateLimitEvents := tried.health.rateLimitEvents + 1,
                                        lastError := Some(ProviderLimit),
                                        retryAfter := Some(retryAt), creditsRemaining := Some(0))),
         Some(Unavailable(now, ProviderLimit)))
      case Fetched(observations, credits) =>
        var result := Result(true, observations, now, false, None);
        (tried.(cache := tried.cache[key := CacheEntry(result, now + c.cacheTtl)],
                health := tried.health.(successes := tried.health.successes + 1, consecutiveFailures := 0,
                                        lastSuccessAt := Some(now), lastError := None,
                                        retryAfter := tried.nextRequestAt, creditsRemaining := credits)),
         Some(result))
      case Escapes => (tried, None)
      case _ => (RecordFailure(c, tried, now), Some(Unavailable(now, Failure)))
  }

  class OpenSkyObservationSource {
    const config: Config
    var cache: map<string, CacheEntry>
    var nextRequestAt: Option<int>
    var circuitOpenUntil: Option<int>
    var health: Health

    function Value(): Source
      reads this
    {
      Source(cache, nextRequestAt, circuitOpenUntil, health)
    }

    constructor (config: Config)
      ensures Value() == FRESH && this.config == config
    {
      this.config := config;
      cache, nextRequestAt, circuitOpenUntil, health := map[], None, None, FRESH.health;
    }

    method CountFailure(now: int) returns (result: Result)
      modifies this
      ensures Value() == RecordFailure(config, old(Value()), now) && result == Unavailable(now, Failure)
    {
      var consecutive := health.consecutiveFailures + 1;
      var backoff := config.failureBackoff * Pow2(consecutive - 1);
      var retryAt := now + backoff;
      nextRequestAt := Some(retryAt);
      if consecutive >= config.circuitFailureThreshold {
        circuitOpenUntil := Some(now + config.circuitOpen);
        retryAt := now + config.circuitOpen;
      }
      health := health.(failures := health.failures + 1, consecutiveFailures := consecutive,
                        lastError := Some(Failure), retryAfter := Some(retryAt));
      result := Unavailable(now, Failure);
    }

    method FetchStates(key: string, now: int, reply: Reply) returns (result: Option<Result>)
      modifies this
      ensures (Value(), result) == Fetch(config, old(Value()), key, now, reply)
    {
      if key in cache && now < cache[key].expiresAt {
        health := health.(cacheHits := health.cacheHits + 1);
        return Some(cache[key].result.(fromCache := true));
      }
      var blocked := BlockedReason(Value(), now);
      if blocked.Some? {
        if key in cache {
          health := health.(cacheHits := health.cacheHits + 1);
          return Some(cache[key].result.(fromCache := true, reason := blocked));
        }
        return Some(Unavailable(now, blocked.value));
      }
      health := health.(requests := health.requests + 1);
      nextRequestAt := Some(now + config.minimumPollInterval);
      if reply.Escapes? {
        return None;
      }
      if reply.RequestFailed? {
        var failure := CountFailure(now);
        return Some(failure);
      }
      if reply.RateLimited? {
        var retryAt := now + RetryDelay(reply.retryHeader);
        nextRequestAt := Some(retryAt);
        health := health.(rateLimitEvents := health.rateLimitEvents + 1, lastError := Some(ProviderLimit),
                          retryAfter := Some(retryAt), creditsRemaining := Some(0));
        return Some(Unavailable(now, ProviderLimit));
      }
      if reply.HttpError? || reply.BadPayload? {
        var failure := CountFailure(now);
        return Some(failure);
      }
      health := health.(successes := health.successes + 1, consecutiveFailures := 0, lastSuccessAt := Some(now),
                        lastError := None, retryAfter := nextRequestAt, creditsRemaining := reply.credits);
      var fetched := Result(true, reply.observations, now, false, None);
      cache := cache[key := CacheEntry(fetched, now + config.cacheTtl)];
      return Some(fetched);
    }
  }

  // ---------- runs ----------

  datatype Call = Call(key: string, at: int, reply: Reply)

  function SourceAfter(c: Config, calls: seq<Call>): Source
    decreases |calls|
  {
    if calls == [] then FRESH
    else
      var last := calls[|calls| - 1];
      Fetch(c, SourceAfter(c, calls[..|calls| - 1]), last.key, last.at, last.reply).0
  }

  /** The calls that went to the provider. */
  function Attempted(c: Config, calls: seq<Call>): seq<Call>
    decreases |calls|
  {
    if calls == [] then []
    else
      var n := |calls| - 1;
      Attempted(c, calls[..n])
      + if Attempts(SourceAfter(c, calls[..n]), calls[n].key, calls[n].at) then [calls[n]] else []
  }

  /** What an attempt is tallied as. */
  datatype Outcome = Success | Failed | Limited | Escaped

  function OutcomeOf(reply: Reply): Outcome {
    match reply
    case Fetched(_, _) => Success
    case RateLimited(_) => Limited
    case Escapes => Escaped
    case _ => Failed
  }

  function StreakThen(streak: nat, outcome: Outcome): nat {
    if outcome.Success? then 0 else if outcome.Failed? then streak + 1 else streak
  }

  /** Failures since the last success; rate limits neither count nor reset. */
  function Streak(attempts: seq<Call>): nat {
    if attempts == [] then 0
    else StreakThen(Streak(attempts[..|attempts| - 1]), OutcomeOf(attempts[|attempts| - 1].reply))
  }

  function Tally(attempts: seq<Call>, outcome: Outcome): nat {
    if attempts == [] then 0
    else
      Tally(attempts[..|attempts| - 1], outcome)
      + if OutcomeOf(attempts[|attempts| - 1].reply) == outcome then 1 else 0
  }

  /** How long after an attempt the next one may start; streak is the run of failures ending with it. */
  function Gap(c: Config, reply: Reply, streak: nat): int {
    match reply
    case RateLimited(header) => RetryDelay(header)
    case Fetched(_, _) => c.minimumPollInterval
    case Escapes => c.minimumPollInterval
    case _ =>
      if streak == 0 then 0
      else if streak >= c.circuitFailureThreshold && c.circuitOpen > Backoff(c, streak) then c.circuitOpen
      else Backoff(c, streak)
  }

  /** The counters say what the attempts came to. */
  predicate Tallied(h: Health, attempts: seq<Call>) {
    && h.requests == |attempts|
    && h.successes == Tally(attempts, Success)
    && h.failures == Tally(attempts, Failed)
    && h.rateLimitEvents == Tally(attempts, Limited)
    && h.requests == h.successes + h.failures + h.rateLimitEvents + Tally(attempts, Escaped)
    && h.consecutiveFailures == Streak(attempts)
  }

  lemma TalliesAppend(attempts: seq<Call>, call: Call)
    ensures forall outcome ::
      Tally(attempts + [call], outcome) == Tally(attempts, outcome) + if OutcomeOf(call.reply) == outcome then 1 else 0
    ensures Streak(attempts + [call]) == StreakThen(Streak(attempts), OutcomeOf(call.reply))
  {
    hide StreakThen, OutcomeOf;
    assert (attempts + [call])[..|attempts|] == attempts;
  }

  lemma FetchCounts(c: Config, s: Source, call: Call)
    ensures
      var h, after := s.health, Fetch(c, s, call.key, call.at, call.reply).0.health;
      var outcome := OutcomeOf(call.reply);
      if Attempts(s, call.key, call.at) then
        && after.requests == h.requests + 1
        && after.successes == h.successes + (if outcome.Success? then 1 else 0)
        && after.failures == h.failures + (if outcome.Failed? then 1 else 0)
        && after.rateLimitEvents == h.rateLimitEvents + (if outcome.Limited? then 1 else 0)
        && after.consecutiveFailures == StreakThen(h.consecutiveFailures, outcome)
      else
        after == h.(cacheHits := after.cacheHits)
  {
    hide Backoff, RetryDelay, BlockedReason;
  }

  lemma RunGrows(c: Config, calls: seq<Call>)
    requires calls != []
    ensures
      var n := |calls| - 1;
      var before, attempts, call := SourceAfter(c, calls[..n]), Attempted(c, calls[..n]), calls[n];
      && SourceAfter(c, calls) == Fetch(c, before, call.key, call.at, call.reply).0
      && Attempted(c, calls) == if Attempts(before, call.key, call.at) then attempts + [call] else attempts
  {
    hide Fetch, Attempts;
    var attempts := Attempted(c, calls[..|calls| - 1]);
    assert attempts + [] == attempts;
  }

  /** Main result: the health counters are exactly the tallies of the attempts; every attempt is counted once as a
      success, a failure or a rate limit, unless an exception escaped; the failure streak is the current one.
    */
  lemma {:induction false} CountersTally(c: Config, calls: seq<Call>)
    ensures Tallied(SourceAfter(c, calls).health, Attempted(c, calls))
    decreases |calls|
  {
    if calls != [] {
      var n := |calls| - 1;
      CountersTally(c, calls[..n]);
      CountersStep(c, calls);
    }
  }

  lemma CountersStep(c: Config, calls: seq<Call>)
    requires calls != []
    requires Tallied(SourceAfter(c, calls[..|calls| - 1]).health, Attempted(c, calls[..|calls| - 1]))
    ensures Tallied(SourceAfter(c, calls).health, Attempted(c, calls))
  {
    hide Fetch, Attempts, SourceAfter, Attempted, Tally, Streak, StreakThen, OutcomeOf;
    var n := |calls| - 1;
    RunGrows(c, calls);
    FetchCounts(c, SourceAfter(c, calls[..n]), calls[n]);
    TalliesAppend(Attempted(c, calls[..n]), calls[n]);
  }

  /** Both brakes hold the next attempt back by at least the gap of the last one. */
  ghost predicate Braked(c: Config, s: Source, attempts: seq<Call>) {
    attempts != [] ==>
      var last := attempts[|attempts| - 1];
      HeldUntil(s, last.at + Gap(c, last.reply, Streak(attempts)))
  }

  ghost predicate HeldUntil(s: Source, release: int) {
    forall now :: BlockedReason(s, now).None? ==> now >= release
  }

  lemma {:induction false} EveryRunIsBraked(c: Config, calls: seq<Call>)
    ensures Braked(c, SourceAfter(c, calls), Attempted(c, calls))
    decreases |calls|
  {
    hide Fetch, Attempts, SourceAfter, Attempted, HeldUntil, Streak, StreakThen, OutcomeOf, Tally, Gap;
    if calls == [] {
      NothingAttempted(c);
    } else {
      var n := |calls| - 1;
      var before, attempts, call := SourceAfter(c, calls[..n]), Attempted(c, calls[..n]), calls[n];
      EveryRunIsBraked(c, calls[..n]);
      CountersTally(c, calls[..n]);
      RunGrows(c, calls);
      TalliesAppend(attempts, call);
      if Attempts(before, call.key, call.at) {
        AttemptBrakes(c, before, call, Streak(attempts));
      } else if attempts != [] {
        var last := attempts[|attempts| - 1];
        RefusalKeepsBrakes(c, before, call, last.at + Gap(c, last.reply, Streak(attempts)));
      }
    }
  }

  lemma NothingAttempted(c: Config)
    ensures Attempted(c, []) == []
  {
  }

  lemma RefusalKeepsBrakes(c: Config, s: Source, call: Call, release: int)
    requires !Attempts(s, call.key, call.at) && HeldUntil(s, release)
    ensures HeldUntil(Fetch(c, s, call.key, call.at, call.reply).0, release)
  {
    var after := Fetch(c, s, call.key, call.at, call.reply).0;
    assert forall now :: BlockedReason(after, now) == BlockedReason(s, now);
  }

  lemma AttemptBrakes(c: Config, s: Source, call: Call, streak: nat)
    requires Attempts(s, call.key, call.at) && s.health.consecutiveFailures == streak
    ensures HeldUntil(Fetch(c, s, call.key, call.at, call.reply).0,
                      call.at + Gap(c, call.reply, StreakThen(streak, OutcomeOf(call.reply))))
  {
    hide Backoff, RetryDelay;
  }

  /** Main result: consecutive attempts are spaced by the gap of the earlier one: after the k-th failure in a row at
      least backoff * 2^(k-1), and at least the circuit's opening time once k reaches the threshold.
    */
  lemma AttemptsAreSpaced(c: Config, calls: seq<Call>, next: Call)
    requires Attempted(c, calls) != []
    requires Attempts(SourceAfter(c, calls), next.key, next.at)
    ensures
      var attempts := Attempted(c, calls);
      var last, streak := attempts[|attempts| - 1], Streak(attempts);
      && next.at >= last.at + Gap(c, last.reply, streak)
      && (OutcomeOf(last.reply).Failed? ==>
            && streak >= 1 && next.at >= last.at + Backoff(c, streak)
            && (streak >= c.circuitFailureThreshold ==> next.at >= last.at + c.circuitOpen))
  {
    hide Backoff, RetryDelay;
    EveryRunIsBraked(c, calls);
  }

  // ---------- the poll interval after an attempt ----------

  /** How long an attempt made in this state holds the next one back. */
  function GapAfter(c: Config, s: Source, reply: Reply): int {
    Gap(c, reply, StreakThen(s.health.consecutiveFailures, OutcomeOf(reply)))
  }

  /** Once an attempt is recorded, exactly the times past its gap are unblocked, whatever the provider answered. */
  lemma AttemptReleasesExactly(c: Config, s: Source, call: Call, now: int)
    requires Attempts(s, call.key, call.at) && now >= call.at
    ensures
      var after := Fetch(c, s, call.key, call.at, call.reply).0;
      BlockedReason(after, now).None? <==> now >= call.at + GapAfter(c, s, call.reply)
  {
    hide Backoff, RetryDelay;
  }

  /** Every time from `from` on that is free is at least an interval after it. */
  ghost predicate IntervalHolds(s: Source, from: int, interval: int) {
    forall now :: now >= from && BlockedReason(s, now).None? ==> now >= from + interval
  }

  /** Main result: a failure or a rate-limit answer replaces the minimum poll interval by its own gap, so the interval
      survives an attempt exactly when the attempt's gap is at least as long.
    */
  lemma PollIntervalAfterAttempt(c: Config, s: Source, call: Call)
    requires Attempts(s, call.key, call.at)
    ensures IntervalHolds(Fetch(c, s, call.key, call.at, call.reply).0, call.at, c.minimumPollInterval)
            <==> GapAfter(c, s, call.reply) >= c.minimumPollInterval || c.minimumPollInterval <= 0
  {
    hide GapAfter, Fetch, BlockedReason;
    var after := Fetch(c, s, call.key, call.at, call.reply).0;
    var gap := GapAfter(c, s, call.reply);
    forall now | now >= call.at
      ensures BlockedReason(after, now).None? <==> now >= call.at + gap
    {
      AttemptReleasesExactly(c, s, call, now);
    }
    var earliest := if gap >= 0 then call.at + gap else call.at;
    assert BlockedReason(after, earliest).None?;
  }

  /** With the default settings the first failure is followed by two seconds, and an answer that asks for one second by
      one, where the interval is ten.
    */
  lemma DefaultsUndercutInterval(key: string, at: int)
    ensures
      var failed := Fetch(DEFAULTS, FRESH, key, at, RequestFailed).0;
      BlockedReason(failed, at + 2 * SECOND).None? && !IntervalHolds(failed, at, DEFAULTS.minimumPollInterval)
    ensures
      var limited := Fetch(DEFAULTS, FRESH, key, at, RateLimited(Some(1))).0;
      BlockedReason(limited, at + SECOND).None? && !IntervalHolds(limited, at, DEFAULTS.minimumPollInterval)
  {
    assert Pow2(0) == 1;
  }

  // ---------- the reported retry time ----------

  /** The health report's `retry_after` is when the source takes requests again. */
  ghost predicate RetryAfterIsExact(s: Source, from: int) {
    && s.health.retryAfter.Some?
    && forall now :: now >= from ==> (BlockedReason(s, now).None? <==> now >= s.health.retryAfter.value)
  }

  /** When the retry time an attempt leaves in the report is right: an exception that escapes leaves the one from
      before, and a failure that opens the circuit reports only the circuit.
    */
  predicate ReportsRetry(c: Config, s: Source, call: Call) {
    var streak := s.health.consecutiveFailures + 1;
    var next := call.at + c.minimumPollInterval;
    match OutcomeOf(call.reply)
    case Escaped =>
      var reported := s.health.retryAfter;
      reported.Some? && (reported.value == next || (reported.value <= call.at && next <= call.at))
    case Failed =>
      !(streak >= c.circuitFailureThreshold && Backoff(c, streak) > c.circuitOpen && Backoff(c, streak) > 0)
    case _ => true
  }

  /** Main result: after any attempt the reported retry time is exact exactly on that condition. */
  lemma RetryAfterIsReported(c: Config, s: Source, call: Call)
    requires Attempts(s, call.key, call.at)
    ensures RetryAfterIsExact(Fetch(c, s, call.key, call.at, call.reply).0, call.at) <==> ReportsRetry(c, s, call)
  {
    hide Backoff, RetryDelay;
    var after := Fetch(c, s, call.key, call.at, call.reply).0;
    if after.health.retryAfter.Some? {
      AgreesFrom(after, call.at, call.at + GapAfter(c, s, call.reply)) by {
        forall now | now >= call.at
          ensures BlockedReason(after, now).None? <==> now >= call.at + GapAfter(c, s, call.reply)
        {
          AttemptReleasesExactly(c, s, call, now);
        }
      }
    }
  }

  /** Two release times say the same from some time on exactly when they are equal or both already past. */
  lemma AgreesFrom(s: Source, from: int, release: int)
    requires s.health.retryAfter.Some?
    requires forall now :: now >= from ==> (BlockedReason(s, now).None? <==> now >= release)
    ensures RetryAfterIsExact(s, from)
            <==> s.health.retryAfter.value == release || (s.health.retryAfter.value <= from && release <= from)
  {
    hide BlockedReason;
    var reported := s.health.retryAfter.value;
    assert BlockedReason(s, from).None? <==> from >= release;
    assert reported >= from ==> (BlockedReason(s, reported).None? <==> reported >= release);
    assert release >= from ==> (BlockedReason(s, release).None? <==> release >= release);
  }

  /** With the default settings the sixth failure in a row is the first to be reported too early, and an exception that
      escapes ten seconds after a success leaves a time that has already passed.
    */
  lemma DefaultsMisreportRetry(key: string, at: int, observations: seq<int>, credits: Option<nat>)
    ensures Backoff(DEFAULTS, 5) < DEFAULTS.circuitOpen < Backoff(DEFAULTS, 6)
    ensures
      var fetched := Fetch(DEFAULTS, FRESH, key, at, Fetched(observations, credits)).0;
      var escape := Call(key, at + 10 * SECOND, Escapes);
      Attempts(fetched, key, escape.at)
      && !RetryAfterIsExact(Fetch(DEFAULTS, fetched, key, escape.at, Escapes).0, escape.at)
  {
    DefaultBackoffs();
    var fetched := Fetch(DEFAULTS, FRESH, key, at, Fetched(observations, credits)).0;
    RetryAfterIsReported(DEFAULTS, fetched, Call(key, at + 10 * SECOND, Escapes));
  }

  lemma DefaultBackoffs()
    ensures Backoff(DEFAULTS, 5) == 32 * SECOND && Backoff(DEFAULTS, 6) == 64 * SECOND
  {
    assert Pow2(0) == 1 && Pow2(1) == 2 && Pow2(2) == 4 && Pow2(3) == 8 && Pow2(4) == 16 && Pow2(5) == 32;
  }

  // ---------- the cache ----------

  /** Cached results are successful ones, and expire one TTL after they were fetched. */
  ghost predicate CacheIsDated(c: Config, s: Source) {
    forall key :: key in s.cache ==>
      && s.cache[key].result.available && s.cache[key].result.reason.None?
      && s.cache[key].expiresAt == s.cache[key].result.fetchedAt + c.cacheTtl
  }

  lemma {:induction false} EveryRunDatesItsCache(c: Config, calls: seq<Call>)
    ensures CacheIsDated(c, SourceAfter(c, calls))
    decreases |calls|
  {
    hide BlockedReason, Backoff, RetryDelay;
    if calls != [] { EveryRunDatesItsCache(c, calls[..|calls| - 1]); }
  }

  /** Main result: a cached result comes without a reason exactly when it is younger than the TTL; an older one is only
      served, and labelled, while the source is blocked.
    */
  lemma CachedResultsAreFreshOrLabelled(c: Config, calls: seq<Call>, call: Call)
    ensures
      var s := SourceAfter(c, calls);
      var (after, result) := Fetch(c, s, call.key, call.at, call.reply);
      result.Some? && result.value.fromCache ==>
        && result.value.available
        && (result.value.reason.None? <==> call.at - result.value.fetchedAt < c.cacheTtl)
        && (result.value.reason.Some? ==> result.value.reason == BlockedReason(s, call.at))
  {
    EveryRunDatesItsCache(c, calls);
    hide SourceAfter, Backoff, RetryDelay;
  }

  // ---------- the source as a function of its attempts ----------

  /** The last attempt with this key that the provider answered with data. */
  function LastFetched(attempts: seq<Call>, key: string): (r: Option<Call>)
    ensures r.Some? ==> r.value in attempts && r.value.key == key && r.value.reply.Fetched?
  {
    if attempts == [] then None
    else
      var last := attempts[|attempts| - 1];
      if last.key == key && last.reply.Fetched? then Some(last) else LastFetched(attempts[..|attempts| - 1], key)
  }

  /** Until when the circuit is open: a failure that ends a long enough streak opens it. */
  function OpenUntil(c: Config, attempts: seq<Call>): Option<int> {
    if attempts == [] then None
    else
      var last := attempts[|attempts| - 1];
      if OutcomeOf(last.reply).Failed? && Streak(attempts) >= c.circuitFailureThreshold
      then Some(last.at + c.circuitOpen)
      else OpenUntil(c, attempts[..|attempts| - 1])
  }

  /** When the last attempt allows the next request, the circuit apart. */
  function NextAt(c: Config, attempts: seq<Call>): Option<int> {
    if attempts == [] then None
    else
      var last := attempts[|attempts| - 1];
      match last.reply
      case RateLimited(header) =>
        Some(last.at + if header == None || header == Some(0) then 60_000_000 else header.value * 1_000_000)
      case Fetched(_, _) => Some(last.at + c.minimumPollInterval)
      case Escapes => Some(last.at + c.minimumPollInterval)
      case _ =>
        var streak := Streak(attempts);
        Some(last.at + if streak == 0 then 0 else c.failureBackoff * Pow2(streak - 1))
  }

  function Block(c: Config, attempts: seq<Call>, now: int): Option<Reason> {
    var open, next := OpenUntil(c, attempts), NextAt(c, attempts);
    if open.Some? && now < open.value then Some(CircuitOpen)
    else if next.Some? && now < next.value then Some(PollOrBackoff)
    else None
  }

  predicate IsFresh(c: Config, attempts: seq<Call>, key: string, now: int) {
    var last := LastFetched(attempts, key);
    last.Some? && now < last.value.at + c.cacheTtl
  }

  /** What a caller should get, given the attempts so far and what the provider would answer now. */
  function ExpectedAnswer(c: Config, attempts: seq<Call>, call: Call): Option<Result> {
    var last, block := LastFetched(attempts, call.key), Block(c, attempts, call.at);
    if IsFresh(c, attempts, call.key, call.at) then
      Some(Result(true, last.value.reply.observations, last.value.at, true, None))
    else if block.Some? then
      if last.Some? then Some(Result(true, last.value.reply.observations, last.value.at, true, block))
      else Some(Result(false, [], call.at, false, block))
    else
      match call.reply
      case Fetched(observations, _) => Some(Result(true, observations, call.at, false, None))
      case RateLimited(_) => Some(Result(false, [], call.at, false, Some(ProviderLimit)))
      case Escapes => None
      case _ => Some(Result(false, [], call.at, false, Some(Failure)))
  }

  /** The cache holds, for each key, the last data fetched for it. */
  ghost predicate CacheFollows(c: Config, s: Source, attempts: seq<Call>) {
    forall key ::
      var last := LastFetched(attempts, key);
      && (key in s.cache <==> last.Some?)
      && (last.Some? ==>
            s.cache[key] == CacheEntry(Result(true, last.value.reply.observations, last.value.at, false, None),
                                       last.value.at + c.cacheTtl))
  }

  lemma LastFetchedAppend(attempts: seq<Call>, call: Call, key: string)
    ensures LastFetched(attempts + [call], key)
            == if call.key == key && call.reply.Fetched? then Some(call) else LastFetched(attempts, key)
  {
    assert (attempts + [call])[..|attempts|] == attempts;
  }

  lemma BrakesAppend(c: Config, attempts: seq<Call>, call: Call)
    ensures
      var streak := StreakThen(Streak(attempts), OutcomeOf(call.reply));
      && OpenUntil(c, attempts + [call])
         == (if OutcomeOf(call.reply).Failed? && streak >= c.circuitFailureThreshold then Some(call.at + c.circuitOpen)
             else OpenUntil(c, attempts))
      && NextAt(c, attempts + [call])
         == match call.reply
            case RateLimited(header) => Some(call.at + RetryDelay(header))
            case Fetched(_, _) => Some(call.at + c.minimumPollInterval)
            case Escapes => Some(call.at + c.minimumPollInterval)
            case _ => Some(call.at + if streak == 0 then 0 else Backoff(c, streak))
  {
    TalliesAppend(attempts, call);
    hide Streak, Pow2, StreakThen, Tally;
    LastIs(attempts, call);
  }

  lemma LastIs<T>(s: seq<T>, x: T)
    ensures (s + [x])[..|s|] == s && (s + [x])[|s|] == x
  {}

  /** The source is where these attempts leave it. */
  ghost predicate Follows(c: Config, s: Source, attempts: seq<Call>) {
    && CacheFollows(c, s, attempts) && s.health.consecutiveFailures == Streak(attempts)
    && s.nextRequestAt == NextAt(c, attempts) && s.circuitOpenUntil == OpenUntil(c, attempts)
  }

  /** One fetch seen from the attempts before it: what it answers. */
  lemma FetchAnswers(c: Config, s: Source, attempts: seq<Call>, call: Call)
    requires Follows(c, s, attempts)
    ensures Attempts(s, call.key, call.at)
            <==> !IsFresh(c, attempts, call.key, call.at) && Block(c, attempts, call.at).None?
    ensures Fetch(c, s, call.key, call.at, call.reply).1 == ExpectedAnswer(c, attempts, call)
  {
    hide Backoff, RetryDelay, LastFetched, OpenUntil, NextAt, Streak;
  }

  /** An attempt leaves the cache with its data, and the brakes with its wait. */
  lemma AttemptFollows(c: Config, s: Source, attempts: seq<Call>, call: Call)
    requires Follows(c, s, attempts) && Attempts(s, call.key, call.at)
    ensures
      var after := Fetch(c, s, call.key, call.at, call.reply).0;
      && CacheFollows(c, after, attempts + [call])
      && after.nextRequestAt == NextAt(c, attempts + [call])
      && after.circuitOpenUntil == OpenUntil(c, attempts + [call])
  {
    hide Backoff, RetryDelay, LastFetched, OpenUntil, NextAt, Streak, Tally, Pow2;
    BrakesAppend(c, attempts, call);
    forall key
      ensures LastFetched(attempts + [call], key)
              == if call.key == key && call.reply.Fetched? then Some(call) else LastFetched(attempts, key)
    {
      LastFetchedAppend(attempts, call, key);
    }
  }

  /** A fetch that makes no attempt leaves both alone. */
  lemma RefusalFollows(c: Config, s: Source, attempts: seq<Call>, call: Call)
    requires Follows(c, s, attempts) && !Attempts(s, call.key, call.at)
    ensures
      var after := Fetch(c, s, call.key, call.at, call.reply).0;
      && CacheFollows(c, after, attempts)
      && after.nextRequestAt == NextAt(c, attempts) && after.circuitOpenUntil == OpenUntil(c, attempts)
  {
    hide LastFetched, OpenUntil, NextAt, Streak, Tally, Pow2, Backoff, RetryDelay;
  }

  lemma {:induction false} EveryRunFollows(c: Config, calls: seq<Call>)
    ensures
      var s, attempts := SourceAfter(c, calls), Attempted(c, calls);
      Follows(c, s, attempts)
    decreases |calls|
  {
    hide Fetch, Attempts, NextAt, OpenUntil, ExpectedAnswer, IsFresh, Block, LastFetched, CacheFollows;
    CountersTally(c, calls);
    if calls == [] {
      NothingFollows(c);
    } else {
      var n := |calls| - 1;
      var before, attempts := SourceAfter(c, calls[..n]), Attempted(c, calls[..n]);
      EveryRunFollows(c, calls[..n]);
      RunGrows(c, calls);
      if Attempts(before, calls[n].key, calls[n].at) {
        AttemptFollows(c, before, attempts, calls[n]);
      } else {
        RefusalFollows(c, before, attempts, calls[n]);
      }
    }
  }

  lemma NothingFollows(c: Config)
    ensures CacheFollows(c, FRESH, []) && NextAt(c, []) == None == OpenUntil(c, []) && Attempted(c, []) == []
    ensures SourceAfter(c, []) == FRESH
  {}

  /** Main result: on every run each fetch answers what the attempts before it call for: the last data fetched for its
      key while it is fresh; the same with a reason, or nothing, while the last attempts block the source; and otherwise
      exactly what the provider says.
    */
  lemma AnswersFollowAttempts(c: Config, calls: seq<Call>, call: Call)
    ensures
      var s, attempts := SourceAfter(c, calls), Attempted(c, calls);
      && Fetch(c, s, call.key, call.at, call.reply).1 == ExpectedAnswer(c, attempts, call)
      && (Attempts(s, call.key, call.at)
          <==> !IsFresh(c, attempts, call.key, call.at) && Block(c, attempts, call.at).None?)
  {
    hide Fetch, Attempts, NextAt, OpenUntil, ExpectedAnswer, IsFresh, Block, LastFetched, CacheFollows;
    EveryRunFollows(c, calls);
    FetchAnswers(c, SourceAfter(c, calls), Attempted(c, calls), call);
  }

  // ---------- the health report ----------

  function LastSuccessAt(attempts: seq<Call>): Option<int> {
    if attempts == [] then None
    else
      var last := attempts[|attempts| - 1];
      if last.reply.Fetched? then Some(last.at) else LastSuccessAt(attempts[..|attempts| - 1])
  }

  /** The last attempt that said anything sets the error; an escaped exception says nothing. */
  function LastErrorOf(attempts: seq<Call>): Option<Reason> {
    if attempts == [] then None
    else
      match attempts[|attempts| - 1].reply
      case Fetched(_, _) => None
      case RateLimited(_) => Some(ProviderLimit)
      case Escapes => LastErrorOf(attempts[..|attempts| - 1])
      case _ => Some(Failure)
  }

  /** Credits are those of the last data; a rate limit means none. */
  function CreditsOf(attempts: seq<Call>): Option<nat> {
    if attempts == [] then None
    else
      match attempts[|attempts| - 1].reply
      case Fetched(_, credits) => credits
      case RateLimited(_) => Some(0)
      case _ => CreditsOf(attempts[..|attempts| - 1])
  }

  /** The calls answered from the cache, fresh or not. */
  function CacheAnswersOn(c: Config, calls: seq<Call>): nat
    decreases |calls|
  {
    if calls == [] then 0
    else
      var n := |calls| - 1;
      var answer := ExpectedAnswer(c, Attempted(c, calls[..n]), calls[n]);
      CacheAnswersOn(c, calls[..n]) + if answer.Some? && answer.value.fromCache then 1 else 0
  }

  ghost predicate Reported(c: Config, h: Health, attempts: seq<Call>, hits: nat) {
    && h.lastSuccessAt == LastSuccessAt(attempts) && h.lastError == LastErrorOf(attempts)
    && h.creditsRemaining == CreditsOf(attempts) && h.cacheHits == hits
  }

  lemma ReportAppend(attempts: seq<Call>, call: Call)
    ensures LastSuccessAt(attempts + [call]) == if call.reply.Fetched? then Some(call.at) else LastSuccessAt(attempts)
    ensures LastErrorOf(attempts + [call])
            == match call.reply
               case Fetched(_, _) => None
               case RateLimited(_) => Some(ProviderLimit)
               case Escapes => LastErrorOf(attempts)
               case _ => Some(Failure)
    ensures CreditsOf(attempts + [call])
            == match call.reply
               case Fetched(_, credits) => credits
               case RateLimited(_) => Some(0)
               case _ => CreditsOf(attempts)
  {
    assert (attempts + [call])[..|attempts|] == attempts;
  }

  lemma FetchReports(c: Config, s: Source, attempts: seq<Call>, hits: nat, call: Call)
    requires Reported(c, s.health, attempts, hits)
    ensures
      var (after, result) := Fetch(c, s, call.key, call.at, call.reply);
      Reported(c, after.health, if Attempts(s, call.key, call.at) then attempts + [call] else attempts,
               hits + if Attempts(s, call.key, call.at) || call.key !in s.cache then 0 else 1)
  {
    hide Backoff, RetryDelay, BlockedReason, LastSuccessAt, LastErrorOf, CreditsOf;
    ReportAppend(attempts, call);
  }

  /** Main result: on every run the report names the last success, the last error since it, the credits last told, and
      how many calls were answered from the cache.
    */
  lemma {:induction false} HealthFollowsAttempts(c: Config, calls: seq<Call>)
    ensures Reported(c, SourceAfter(c, calls).health, Attempted(c, calls), CacheAnswersOn(c, calls))
    decreases |calls|
  {
    hide Fetch, Attempts, ExpectedAnswer, Reported, Block, IsFresh, CacheFollows, OpenUntil, NextAt, LastFetched,
        Streak, Tally, SourceAfter, Attempted;
    if calls == [] {
      NothingReported(c);
    } else {
      var n := |calls| - 1;
      var s, attempts := SourceAfter(c, calls[..n]), Attempted(c, calls[..n]);
      HealthFollowsAttempts(c, calls[..n]);
      RunGrows(c, calls);
      EveryRunFollows(c, calls[..n]);
      FetchReports(c, s, attempts, CacheAnswersOn(c, calls[..n]), calls[n]);
      FetchAnswers(c, s, attempts, calls[n]);
      FromCacheExactly(c, s, attempts, calls[n]);
    }
  }

  lemma NothingReported(c: Config)
    ensures Reported(c, SourceAfter(c, []).health, Attempted(c, []), CacheAnswersOn(c, []))
  {}

  lemma FromCacheExactly(c: Config, s: Source, attempts: seq<Call>, call: Call)
    requires CacheFollows(c, s, attempts)
    requires Attempts(s, call.key, call.at)
             <==> !IsFresh(c, attempts, call.key, call.at) && Block(c, attempts, call.at).None?
    ensures
      var answer := ExpectedAnswer(c, attempts, call);
      answer.Some? && answer.value.fromCache <==> !Attempts(s, call.key, call.at) && call.key in s.cache
  {
    hide Block, LastFetched, Attempts;
  }
}
