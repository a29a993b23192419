/** backend/app/auth/rate_limiter.py: the pruned per-client history and the limits it enforces over
    every interval. Times are in microseconds.
  */
module RateLimiterModel {

  const MINUTE := 60_000_000

  datatype Limits = Limits(requestsPerMinute: nat, loginRequestsPerMinute: nat)

  datatype Entry = Entry(at: int, endpoint: string)

  datatype Call = Call(at: int, endpoint: string, isLogin: bool)

  /** Python's `needle in text`. */
  predicate Contains(text: string, needle: string) {
    needle <= text || (text != "" && Contains(text[1..], needle))
  }

  predicate IsLoginEndpoint(endpoint: string) {
    Contains(endpoint, "/login")
  }

  /** The entries younger than a minute. */
  function Pruned(history: seq<Entry>, now: int): seq<Entry> {
    if history == [] then []
    else Pruned(history[..|history| - 1], now)
         + if history[|history| - 1].at > now - MINUTE then [history[|history| - 1]] else []
  }

  function LoginCount(history: seq<Entry>): nat {
    if history == [] then 0
    else LoginCount(history[..|history| - 1]) + if IsLoginEndpoint(history[|history| - 1].endpoint) then 1 else 0
  }

  datatype Verdict = Verdict(allowed: bool, remaining: int)

  function Judge(l: Limits, recent: seq<Entry>, isLogin: bool): Verdict {
    var count := if isLogin then LoginCount(recent) else |recent|;
    var limit := if isLogin then l.loginRequestsPerMinute else l.requestsPerMinute;
    if count >= limit then Verdict(false, 0) else Verdict(true, limit - count - 1)
  }

  /** The history and verdict of one call; a refused call leaves no entry. */
  function Check(l: Limits, history: seq<Entry>, c: Call): (seq<Entry>, Verdict) {
    var recent := Pruned(history, c.at);
    var v := Judge(l, recent, c.isLogin);
    (if v.allowed then recent + [Entry(c.at, c.endpoint)] else recent, v)
  }

  class RateLimiter {
    const limits: Limits
    var requestHistory: map<string, seq<Entry>>

    constructor (limits: Limits)
      ensures this.limits == limits && requestHistory == map[]
    {
      this.limits := limits;
      requestHistory := map[];
    }

    function HistoryOf(client: string): seq<Entry>
      reads this
    {
      if client in requestHistory then requestHistory[client] else []
    }

    method CheckRateLimit(now: int, client: string, endpoint: string, isLogin: bool)
      returns (allowed: bool, remaining: int)
      modifies this
      ensures (HistoryOf(client), Verdict(allowed, remaining))
          == Check(limits, old(HistoryOf(client)), Call(now, endpoint, isLogin))
      ensures forall other :: other != client ==> HistoryOf(other) == old(HistoryOf(other))
    {
      requestHistory := requestHistory[client := Pruned(HistoryOf(client), now)];
      var recent := requestHistory[client];
      var limit;
      if isLogin {
        var loginCount := CountLogins(recent);
        limit := limits.loginRequestsPerMinute;
        if loginCount >= limit {
          return false, 0;
        }
        requestHistory := requestHistory[client := recent + [Entry(now, endpoint)]];
        return true, limit - loginCount - 1;
      }
      var generalCount := |recent|;
      limit := limits.requestsPerMinute;
      if generalCount >= limit {
        return false, 0;
      }
      requestHistory := requestHistory[client := recent + [Entry(now, endpoint)]];
      return true, limit - generalCount - 1;
    }

    method CountLogins(recent: seq<Entry>) returns (count: nat)
      ensures count == LoginCount(recent)
    {
      count := 0;
      for i := 0 to |recent|
        invariant count == LoginCount(recent[..i])
      {
        assert recent[..i + 1][..i] == recent[..i];
        if IsLoginEndpoint(recent[i].endpoint) {
          count := count + 1;
        }
      }
      assert recent[..|recent|] == recent;
    }
  }

  // ---------- runs of one client ----------

  predicate Monotone(calls: seq<Call>) {
    forall i, j :: 0 <= i < j < |calls| ==> calls[i].at <= calls[j].at
  }

  function HistoryAfter(l: Limits, calls: seq<Call>): seq<Entry>
    decreases |calls|
  {
    if calls == [] then []
    else Check(l, HistoryAfter(l, calls[..|calls| - 1]), calls[|calls| - 1]).0
  }

  /** The calls the limiter let through, in order. */
  function Admitted(l: Limits, calls: seq<Call>): seq<Call>
    decreases |calls|
  {
    if calls == [] then []
    else
      var n := |calls| - 1;
      Admitted(l, calls[..n]) + if Check(l, HistoryAfter(l, calls[..n]), calls[n]).1.allowed then [calls[n]] else []
  }

  /** How many calls of a kind fall in the interval (lo, hi]. */
  function CountIn(calls: seq<Call>, logins: bool, lo: int, hi: int): nat {
    if calls == [] then 0
    else
      var c := calls[|calls| - 1];
      CountIn(calls[..|calls| - 1], logins, lo, hi) + if c.isLogin == logins && lo < c.at <= hi then 1 else 0
  }

  /** Login calls are made to endpoints whose path names them so. */
  predicate LoginsAreNamed(calls: seq<Call>) {
    forall i :: 0 <= i < |calls| && calls[i].isLogin ==> IsLoginEndpoint(calls[i].endpoint)
  }

  function EntriesOf(calls: seq<Call>): seq<Entry> {
    if calls == [] then []
    else EntriesOf(calls[..|calls| - 1]) + [Entry(calls[|calls| - 1].at, calls[|calls| - 1].endpoint)]
  }

  lemma AppendEntry(calls: seq<Call>, c: Call)
    ensures EntriesOf(calls + [c]) == EntriesOf(calls) + [Entry(c.at, c.endpoint)]
    ensures forall logins, lo, hi ::
              CountIn(calls + [c], logins, lo, hi)
              == CountIn(calls, logins, lo, hi) + if c.isLogin == logins && lo < c.at <= hi then 1 else 0
  {
    assert (calls + [c])[..|calls|] == calls;
  }

  lemma PruneAppend(history: seq<Entry>, e: Entry, now: int)
    ensures Pruned(history + [e], now) == Pruned(history, now) + if e.at > now - MINUTE then [e] else []
  {
    assert (history + [e])[..|history|] == history;
  }

  lemma CountAppend(history: seq<Entry>, e: Entry)
    ensures LoginCount(history + [e]) == LoginCount(history) + if IsLoginEndpoint(e.endpoint) then 1 else 0
  {
    assert (history + [e])[..|history|] == history;
  }

  lemma {:induction false} PruneTwice(history: seq<Entry>, earlier: int, now: int)
    requires earlier <= now
    ensures Pruned(Pruned(history, earlier), now) == Pruned(history, now)
    decreases |history|
  {
    if history != [] {
      var front, e := history[..|history| - 1], history[|history| - 1];
      assert history == front + [e];
      PruneTwice(front, earlier, now);
      hide Pruned;
      PruneAppend(front, e, earlier);
      PruneAppend(front, e, now);
      PruneAppend(Pruned(front, earlier), e, now);
      assert Pruned(front, earlier) + [] == Pruned(front, earlier) && Pruned(front, now) + [] == Pruned(front, now);
    }
  }

  lemma {:induction false} AdmittedIsEarlier(l: Limits, calls: seq<Call>, now: int)
    requires forall i :: 0 <= i < |calls| ==> calls[i].at <= now
    ensures forall i :: 0 <= i < |Admitted(l, calls)| ==>
              Admitted(l, calls)[i].at <= now && Admitted(l, calls)[i] in calls
    decreases |calls|
  {
    if calls != [] {
      AdmittedIsEarlier(l, calls[..|calls| - 1], now);
      hide Check, HistoryAfter;
      var before := Admitted(l, calls[..|calls| - 1]);
      assert forall i :: 0 <= i < |before| ==> before[i] in calls[..|calls| - 1];
    }
  }

  /** What pruning keeps is exactly the admitted calls of the last minute. */
  lemma {:induction false} HistoryIsRecentAdmitted(l: Limits, calls: seq<Call>)
    requires Monotone(calls) && calls != []
    ensures HistoryAfter(l, calls) == Pruned(EntriesOf(Admitted(l, calls)), calls[|calls| - 1].at)
    decreases |calls|
  {
    var n := |calls| - 1;
    var c, before := calls[n], Admitted(l, calls[..n]);
    RecentBefore(l, calls);
    hide Judge;
    if Check(l, HistoryAfter(l, calls[..n]), c).1.allowed {
      AppendEntry(before, c);
      PruneAppend(EntriesOf(before), Entry(c.at, c.endpoint), c.at);
    } else {
      assert before + [] == before;
    }
  }

  lemma {:induction false} RecentBefore(l: Limits, calls: seq<Call>)
    requires Monotone(calls) && calls != []
    ensures
      var n := |calls| - 1;
      Pruned(HistoryAfter(l, calls[..n]), calls[n].at) == Pruned(EntriesOf(Admitted(l, calls[..n])), calls[n].at)
    decreases |calls|, 0
  {
    var n := |calls| - 1;
    if n > 0 {
      HistoryIsRecentAdmitted(l, calls[..n]);
      PruneTwice(EntriesOf(Admitted(l, calls[..n])), calls[n - 1].at, calls[n].at);
    }
  }

  /** Every admitted call of the last minute has its entry, every named login its login entry. */
  lemma {:induction false} CountsAreCovered(calls: seq<Call>, now: int)
    ensures CountIn(calls, false, now - MINUTE, now) <= |Pruned(EntriesOf(calls), now)|
    ensures LoginsAreNamed(calls) ==>
              CountIn(calls, true, now - MINUTE, now) <= LoginCount(Pruned(EntriesOf(calls), now))
    decreases |calls|
  {
    hide IsLoginEndpoint, Pruned, LoginCount;
    if calls == [] {
      PruneNothing(now);
    } else {
      var n := |calls| - 1;
      var e := Entry(calls[n].at, calls[n].endpoint);
      CountsAreCovered(calls[..n], now);
      PruneAppend(EntriesOf(calls[..n]), e, now);
      CountAppend(Pruned(EntriesOf(calls[..n]), now), e);
      assert Pruned(EntriesOf(calls[..n]), now) + [] == Pruned(EntriesOf(calls[..n]), now);
    }
  }

  lemma PruneNothing(now: int)
    ensures Pruned([], now) == [] && LoginCount([]) == 0
  {}

  lemma {:induction false} LaterWindowIsSmaller(calls: seq<Call>, logins: bool, now: int, t: int)
    requires now <= t && forall i :: 0 <= i < |calls| ==> calls[i].at <= now
    ensures CountIn(calls, logins, t - MINUTE, t) <= CountIn(calls, logins, now - MINUTE, now)
    decreases |calls|
  {
    if calls != [] { LaterWindowIsSmaller(calls[..|calls| - 1], logins, now, t); }
  }

  /** How many calls of either kind fall in the interval (lo, hi]. */
  function CountAll(calls: seq<Call>, lo: int, hi: int): nat {
    if calls == [] then 0
    else CountAll(calls[..|calls| - 1], lo, hi) + if lo < calls[|calls| - 1].at <= hi then 1 else 0
  }

  lemma {:induction false} CountBothKinds(calls: seq<Call>, lo: int, hi: int)
    ensures CountAll(calls, lo, hi) == CountIn(calls, true, lo, hi) + CountIn(calls, false, lo, hi)
    decreases |calls|
  {
    if calls != [] { CountBothKinds(calls[..|calls| - 1], lo, hi); }
  }

  /** What the limits promise for the minute that ends at t; `named` says whether logins are named so. */
  predicate MinuteIsBounded(l: Limits, admitted: seq<Call>, named: bool, t: int) {
    && (named ==> CountIn(admitted, true, t - MINUTE, t) <= l.loginRequestsPerMinute)
    && CountIn(admitted, false, t - MINUTE, t) <= l.requestsPerMinute
  }

  lemma AdmissionKeepsBound(l: Limits, recent: seq<Entry>, before: seq<Call>, c: Call, named: bool, t: int)
    requires recent == Pruned(EntriesOf(before), c.at) && Judge(l, recent, c.isLogin).allowed
    requires named ==> LoginsAreNamed(before)
    requires forall i :: 0 <= i < |before| ==> before[i].at <= c.at
    requires MinuteIsBounded(l, before, named, t)
    ensures MinuteIsBounded(l, before + [c], named, t)
  {
    hide IsLoginEndpoint, Pruned, LoginCount, CountIn, EntriesOf, LoginsAreNamed;
    AppendEntry(before, c);
    CountsAreCovered(before, c.at);
    if t >= c.at {
      LaterWindowIsSmaller(before, c.isLogin, c.at, t);
    }
  }

  lemma {:induction false} AdmittedIsBounded(l: Limits, calls: seq<Call>, t: int)
    requires Monotone(calls)
    ensures MinuteIsBounded(l, Admitted(l, calls), LoginsAreNamed(calls), t)
    decreases |calls|
  {
    hide MinuteIsBounded, HistoryAfter, Judge, Pruned, EntriesOf, IsLoginEndpoint;
    if calls == [] {
      NothingIsBounded(l, LoginsAreNamed(calls), t);
    } else {
      var n := |calls| - 1;
      var c, before := calls[n], Admitted(l, calls[..n]);
      AdmittedIsBounded(l, calls[..n], t);
      AdmittedIsEarlier(l, calls[..n], c.at);
      RecentBefore(l, calls);
      FewerAreNamed(calls, before);
      if Judge(l, Pruned(HistoryAfter(l, calls[..n]), c.at), c.isLogin).allowed {
        AdmissionKeepsBound(l, Pruned(EntriesOf(before), c.at), before, c, LoginsAreNamed(calls), t) by {
          BoundOfFewer(l, before, LoginsAreNamed(calls[..n]), LoginsAreNamed(calls), t);
        }
      } else {
        assert before + [] == before;
        BoundOfFewer(l, before, LoginsAreNamed(calls[..n]), LoginsAreNamed(calls), t);
      }
    }
  }

  lemma NothingIsBounded(l: Limits, named: bool, t: int)
    ensures MinuteIsBounded(l, [], named, t)
  {
    CountNothing(t);
  }

  lemma FewerAreNamed(calls: seq<Call>, admitted: seq<Call>)
    requires calls != [] && forall i :: 0 <= i < |admitted| ==> admitted[i] in calls[..|calls| - 1]
    ensures LoginsAreNamed(calls) ==> LoginsAreNamed(calls[..|calls| - 1]) && LoginsAreNamed(admitted)
  {
    hide IsLoginEndpoint;
    forall i | 0 <= i < |admitted|
      ensures admitted[i] in calls
    {
      assert admitted[i] in calls[..|calls| - 1];
    }
  }

  lemma BoundOfFewer(l: Limits, admitted: seq<Call>, named: bool, more: bool, t: int)
    requires MinuteIsBounded(l, admitted, named, t) && (more ==> named)
    ensures MinuteIsBounded(l, admitted, more, t)
  {}

  /** Main result: with a clock that never goes back, every interval of a minute contains at most the general limit of
      admitted requests that are not logins and, when logins are named so, at most the login limit of logins and at most
      the sum of both limits in all.
    */
  lemma EveryMinuteIsBounded(l: Limits, calls: seq<Call>, t: int)
    requires Monotone(calls)
    ensures CountIn(Admitted(l, calls), false, t - MINUTE, t) <= l.requestsPerMinute
    ensures LoginsAreNamed(calls) ==>
              && CountIn(Admitted(l, calls), true, t - MINUTE, t) <= l.loginRequestsPerMinute
              && CountAll(Admitted(l, calls), t - MINUTE, t) <= l.requestsPerMinute + l.loginRequestsPerMinute
  {
    hide LoginsAreNamed, Admitted, CountIn, CountAll;
    AdmittedIsBounded(l, calls, t);
    CountBothKinds(Admitted(l, calls), t - MINUTE, t);
  }

  lemma CountNothing(t: int)
    ensures CountIn([], true, t - MINUTE, t) == 0 == CountIn([], false, t - MINUTE, t)
  {}

  // ---------- exactly which calls are admitted ----------

  /** The needle stands at place k of the text. */
  predicate StandsAt(text: string, k: nat, needle: string) {
    k + |needle| <= |text| && text[k..k + |needle|] == needle
  }

  ghost predicate Occurs(text: string, needle: string) {
    exists k: nat :: StandsAt(text, k, needle)
  }

  lemma StandsInTail(text: string, k: nat, needle: string)
    requires text != ""
    ensures StandsAt(text, k + 1, needle) <==> StandsAt(text[1..], k, needle)
    ensures StandsAt(text, 0, needle) <==> needle <= text
  {
    if k + 1 + |needle| <= |text| {
      assert text[1..][k..k + |needle|] == text[k + 1..k + 1 + |needle|];
    }
  }

  lemma {:induction false} ContainsExactly(text: string, needle: string)
    ensures Contains(text, needle) <==> Occurs(text, needle)
  {
    if text == "" {
      assert StandsAt(text, 0, needle) <==> needle <= text;
    } else {
      hide StandsAt;
      ContainsExactly(text[1..], needle);
      StandsInTail(text, 0, needle);
      if k: nat :| StandsAt(text[1..], k, needle) {
        StandsInTail(text, k, needle);
      }
      if k: nat :| StandsAt(text, k, needle) && k > 0 {
        StandsInTail(text, k - 1, needle);
      }
    }
  }

  /** How many calls in the interval (lo, hi] have "/login" in their endpoint, whatever their kind. */
  ghost function CountNamed(calls: seq<Call>, lo: int, hi: int): nat {
    if calls == [] then 0
    else
      var c := calls[|calls| - 1];
      CountNamed(calls[..|calls| - 1], lo, hi) + if lo < c.at <= hi && Occurs(c.endpoint, "/login") then 1 else 0
  }

  lemma {:induction false} RecentAreCounted(admitted: seq<Call>, now: int)
    requires forall i :: 0 <= i < |admitted| ==> admitted[i].at <= now
    ensures |Pruned(EntriesOf(admitted), now)| == CountAll(admitted, now - MINUTE, now)
    ensures LoginCount(Pruned(EntriesOf(admitted), now)) == CountNamed(admitted, now - MINUTE, now)
    decreases |admitted|
  {
    hide Contains, Occurs, Pruned, LoginCount;
    if admitted == [] {
      PruneNothing(now);
    } else {
      var n := |admitted| - 1;
      var e := Entry(admitted[n].at, admitted[n].endpoint);
      RecentAreCounted(admitted[..n], now);
      PruneAppend(EntriesOf(admitted[..n]), e, now);
      CountAppend(Pruned(EntriesOf(admitted[..n]), now), e);
      ContainsExactly(e.endpoint, "/login");
      assert Pruned(EntriesOf(admitted[..n]), now) + [] == Pruned(EntriesOf(admitted[..n]), now);
    }
  }

  /** Main result: on every run a call is admitted exactly when fewer than its limit were admitted in the minute before:
      of all calls for a general one, of those with "/login" in their path for a login. The remainder is what is left.
    */
  lemma AdmittedExactly(l: Limits, calls: seq<Call>, c: Call)
    requires Monotone(calls + [c])
    ensures
      var before := Admitted(l, calls);
      var count :=
        if c.isLogin then CountNamed(before, c.at - MINUTE, c.at) else CountAll(before, c.at - MINUTE, c.at);
      var limit := if c.isLogin then l.loginRequestsPerMinute else l.requestsPerMinute;
      Check(l, HistoryAfter(l, calls), c).1
      == if count < limit then Verdict(true, limit - count - 1) else Verdict(false, 0)
  {
    hide Contains, Occurs, Pruned, LoginCount, HistoryAfter, Admitted, CountNamed, CountAll;
    var all := calls + [c];
    assert all[..|all| - 1] == calls;
    RecentBefore(l, all);
    forall i | 0 <= i < |calls|
      ensures calls[i].at <= c.at
    {
      assert all[i] == calls[i] && all[|calls|] == c;
    }
    AdmittedIsEarlier(l, calls, c.at);
    RecentAreCounted(Admitted(l, calls), c.at);
  }

  // ---------- the reported remainder ----------

  function LimitFor(l: Limits, isLogin: bool): nat {
    if isLogin then l.loginRequestsPerMinute else l.requestsPerMinute
  }

  function CountFor(recent: seq<Entry>, isLogin: bool): nat {
    if isLogin then LoginCount(recent) else |recent|
  }

  /** The history after the same call has been repeated n times at once. */
  function Repeated(l: Limits, history: seq<Entry>, c: Call, n: nat): seq<Entry> {
    if n == 0 then history else Check(l, Repeated(l, history, c, n - 1), c).0
  }

  lemma OneMoreCounts(l: Limits, history: seq<Entry>, c: Call)
    requires c.isLogin ==> IsLoginEndpoint(c.endpoint)
    ensures
      var count := CountFor(Pruned(history, c.at), c.isLogin);
      var (after, v) := Check(l, history, c);
      && (v.allowed <==> count < LimitFor(l, c.isLogin))
      && v.remaining == (if v.allowed then LimitFor(l, c.isLogin) - count - 1 else 0)
      && CountFor(Pruned(after, c.at), c.isLogin) == if v.allowed then count + 1 else count
  {
    hide Pruned, LoginCount, IsLoginEndpoint;
    var recent, e := Pruned(history, c.at), Entry(c.at, c.endpoint);
    PruneTwice(history, c.at, c.at);
    PruneAppend(recent, e, c.at);
    CountAppend(recent, e);
  }

  lemma {:induction false} RepeatedCounts(l: Limits, history: seq<Entry>, c: Call, n: nat)
    requires c.isLogin ==> IsLoginEndpoint(c.endpoint)
    requires CountFor(Pruned(history, c.at), c.isLogin) <= LimitFor(l, c.isLogin)
    ensures
      var count, limit := CountFor(Pruned(history, c.at), c.isLogin) + n, LimitFor(l, c.isLogin);
      CountFor(Pruned(Repeated(l, history, c, n), c.at), c.isLogin) == if count <= limit then count else limit
  {
    hide Check, Pruned, CountFor, IsLoginEndpoint;
    if n > 0 {
      RepeatedCounts(l, history, c, n - 1);
      OneMoreCounts(l, Repeated(l, history, c, n - 1), c);
    }
  }

  /** Of a call repeated at once, n more are admitted exactly while the remainder lasts. */
  lemma NamedRemainder(l: Limits, history: seq<Entry>, c: Call, n: nat)
    requires c.isLogin ==> IsLoginEndpoint(c.endpoint)
    requires Check(l, history, c).1.allowed
    ensures
      var (after, v) := Check(l, history, c);
      Check(l, Repeated(l, after, c, n), c).1.allowed <==> n < v.remaining
  {
    hide Check, Pruned, CountFor, Repeated, IsLoginEndpoint;
    var after := Check(l, history, c).0;
    OneMoreCounts(l, history, c);
    RepeatedCounts(l, after, c, n);
    OneMoreCounts(l, Repeated(l, after, c, n), c);
  }

  /** A login at any other endpoint is not counted as one. */
  lemma UnnamedIsNotCounted(l: Limits, history: seq<Entry>, c: Call)
    requires c.isLogin && !IsLoginEndpoint(c.endpoint)
    ensures
      var count, (after, v) := LoginCount(Pruned(history, c.at)), Check(l, history, c);
      && LoginCount(Pruned(after, c.at)) == count
      && (v.allowed <==> count < l.loginRequestsPerMinute)
      && (v.allowed ==> v.remaining == l.loginRequestsPerMinute - count - 1)
  {
    hide Pruned, LoginCount, IsLoginEndpoint;
    var recent, e := Pruned(history, c.at), Entry(c.at, c.endpoint);
    PruneTwice(history, c.at, c.at);
    PruneAppend(recent, e, c.at);
    CountAppend(recent, e);
  }

  lemma {:induction false} UnnamedStaysAdmitted(l: Limits, history: seq<Entry>, c: Call, n: nat)
    requires c.isLogin && !IsLoginEndpoint(c.endpoint)
    requires LoginCount(Pruned(history, c.at)) < l.loginRequestsPerMinute
    ensures LoginCount(Pruned(Repeated(l, history, c, n), c.at)) < l.loginRequestsPerMinute
    ensures Check(l, Repeated(l, history, c, n), c).1.allowed
  {
    hide Check, Pruned, LoginCount, IsLoginEndpoint;
    if n > 0 {
      UnnamedStaysAdmitted(l, history, c, n - 1);
      UnnamedIsNotCounted(l, Repeated(l, history, c, n - 1), c);
    }
    UnnamedIsNotCounted(l, Repeated(l, history, c, n), c);
  }

  /** Of the same call repeated at once, as many more are admitted as the remainder says, and the rest refused. */
  ghost predicate RemainderHolds(l: Limits, after: seq<Entry>, c: Call, remaining: int) {
    forall n: nat :: Check(l, Repeated(l, after, c, n), c).1.allowed <==> n < remaining
  }

  /** Main result: the remainder reported with an admitted call is exact unless the call is a login that does not count
      as one.
    */
  lemma RemainderIsExact(l: Limits, history: seq<Entry>, c: Call)
    requires Check(l, history, c).1.allowed
    ensures
      var (after, v) := Check(l, history, c);
      RemainderHolds(l, after, c, v.remaining) <==> c.isLogin ==> IsLoginEndpoint(c.endpoint)
  {
    hide Check, Pruned, Repeated, LoginCount, IsLoginEndpoint;
    var (after, v) := Check(l, history, c);
    if c.isLogin ==> IsLoginEndpoint(c.endpoint) {
      forall n: nat
        ensures Check(l, Repeated(l, after, c, n), c).1.allowed <==> n < v.remaining
      {
        NamedRemainder(l, history, c, n);
      }
    } else {
      UnnamedIsNotCounted(l, history, c);
      UnnamedStaysAdmitted(l, after, c, v.remaining);
      assert Check(l, Repeated(l, after, c, v.remaining), c).1.allowed;
    }
  }

  // ---------- the endpoint condition ----------

  /** The middleware marks a call as a login only for paths that also count as login endpoints. */
  lemma {:induction false} MiddlewareNamesLogins(path: string)
    requires Contains(path, "/auth/login")
    ensures IsLoginEndpoint(path)
  {
    if "/auth/login" <= path {
      assert path[5..11] == "/login";
      assert path[5..][..6] == path[5..11];
      ContainsFrom(path, 5, "/login");
    } else {
      MiddlewareNamesLogins(path[1..]);
    }
  }

  lemma {:induction false} ContainsFrom(text: string, k: nat, needle: string)
    requires k <= |text| && needle <= text[k..]
    ensures Contains(text, needle)
  {
    if k > 0 {
      assert text[1..][k - 1..] == text[k..];
      ContainsFrom(text[1..], k - 1, needle);
    } else {
      assert text[0..] == text;
    }
  }

  function Burst(endpoint: string, at: int, n: nat): (calls: seq<Call>)
    ensures |calls| == n && forall i :: 0 <= i < n ==> calls[i] == Call(at, endpoint, true)
  {
    if n == 0 then [] else Burst(endpoint, at, n - 1) + [Call(at, endpoint, true)]
  }

  lemma RunAppend(l: Limits, calls: seq<Call>, c: Call)
    ensures HistoryAfter(l, calls + [c]) == Check(l, HistoryAfter(l, calls), c).0
    ensures Admitted(l, calls + [c])
            == Admitted(l, calls) + if Check(l, HistoryAfter(l, calls), c).1.allowed then [c] else []
  {
    hide Check;
    assert (calls + [c])[..|calls|] == calls;
  }

  /** Logins at an endpoint without "/login" in its path are never refused. */
  lemma {:induction false} UnnamedLoginsAreUnlimited(l: Limits, endpoint: string, at: int, n: nat)
    requires !IsLoginEndpoint(endpoint) && l.loginRequestsPerMinute >= 1
    ensures Admitted(l, Burst(endpoint, at, n)) == Burst(endpoint, at, n)
    ensures LoginCount(Pruned(HistoryAfter(l, Burst(endpoint, at, n)), at)) == 0
    ensures CountIn(Burst(endpoint, at, n), true, at - MINUTE, at) == n
  {
    if n > 0 {
      UnnamedLoginsAreUnlimited(l, endpoint, at, n - 1);
      UnnamedLoginIsAdmitted(l, Burst(endpoint, at, n - 1), endpoint, at);
      AppendEntry(Burst(endpoint, at, n - 1), Call(at, endpoint, true));
      hide IsLoginEndpoint, Pruned, LoginCount, HistoryAfter, Admitted, CountIn;
    }
  }

  lemma UnnamedLoginIsAdmitted(l: Limits, calls: seq<Call>, endpoint: string, at: int)
    requires !IsLoginEndpoint(endpoint) && l.loginRequestsPerMinute >= 1
    requires LoginCount(Pruned(HistoryAfter(l, calls), at)) == 0
    ensures
      var more := calls + [Call(at, endpoint, true)];
      Admitted(l, more) == Admitted(l, calls) + [Call(at, endpoint, true)]
        && LoginCount(Pruned(HistoryAfter(l, more), at)) == 0
  {
    hide IsLoginEndpoint, Pruned, LoginCount, HistoryAfter, Admitted;
    var recent, e := Pruned(HistoryAfter(l, calls), at), Entry(at, endpoint);
    RunAppend(l, calls, Call(at, endpoint, true));
    PruneTwice(HistoryAfter(l, calls), at, at);
    PruneAppend(recent, e, at);
    CountAppend(recent, e);
  }

  /** A login limit of zero refuses them all. */
  lemma {:induction false} NoLoginsAtZero(l: Limits, endpoint: string, at: int, n: nat)
    requires l.loginRequestsPerMinute == 0
    ensures Admitted(l, Burst(endpoint, at, n)) == []
  {
    hide Pruned, HistoryAfter, LoginCount;
    if n > 0 {
      NoLoginsAtZero(l, endpoint, at, n - 1);
      RunAppend(l, Burst(endpoint, at, n - 1), Call(at, endpoint, true));
    }
  }

  /** Main result: the login limit holds for logins at an endpoint exactly when its path contains "/login" or no logins
      are allowed at all.
    */
  lemma LoginLimitHoldsExactly(l: Limits, endpoint: string)
    ensures IsLoginEndpoint(endpoint) || l.loginRequestsPerMinute == 0
            <==> forall n: nat, at: int ::
                   CountIn(Admitted(l, Burst(endpoint, at, n)), true, at - MINUTE, at) <= l.loginRequestsPerMinute
  {
    hide IsLoginEndpoint, CountIn, Admitted, Burst;
    if IsLoginEndpoint(endpoint) {
      forall n: nat, at: int
        ensures CountIn(Admitted(l, Burst(endpoint, at, n)), true, at - MINUTE, at) <= l.loginRequestsPerMinute
      {
        EveryMinuteIsBounded(l, Burst(endpoint, at, n), at);
      }
    } else if l.loginRequestsPerMinute == 0 {
      forall n: nat, at: int
        ensures CountIn(Admitted(l, Burst(endpoint, at, n)), true, at - MINUTE, at) <= l.loginRequestsPerMinute
      {
        NoLoginsAtZero(l, endpoint, at, n);
        CountNothing(at);
      }
    } else {
      var n := l.loginRequestsPerMinute + 1;
      UnnamedLoginsAreUnlimited(l, endpoint, 0, n);
      assert CountIn(Admitted(l, Burst(endpoint, 0, n)), true, 0 - MINUTE, 0) == n;
    }
  }
}
