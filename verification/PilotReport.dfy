/** evaluation/pilot/report.py: which participant evidence is accepted, and how counters that restart from zero with
    every process session are aggregated.
  */
module PilotReport {
  import opened Rounding
  import opened Wrappers

  datatype Counter = UptimeSeconds | SourceConnectedSeconds | ParsedMessages | ParseFailures | ObservationsEvaluated
                   | DroppedMessages | Reconnects | StoredEvents

  /** The code's COUNTER_FIELDS. */
  const COUNTERS := [UptimeSeconds, SourceConnectedSeconds, ParsedMessages, ParseFailures, ObservationsEvaluated,
                     DroppedMessages, Reconnects, StoredEvents]

  /** One day's summary. */
  datatype Summary = Summary(sessionId: string, policyVersion: string, uptimeSeconds: nat, sourceConnectedSeconds: nat,
                             parsedMessages: nat, parseFailures: nat, observationsEvaluated: nat, droppedMessages: nat,
                             reconnects: nat, storedEvents: nat, processMemory: real, questionableTracks: nat)
  {
    function Get(c: Counter): nat {
      match c
      case UptimeSeconds => uptimeSeconds
      case SourceConnectedSeconds => sourceConnectedSeconds
      case ParsedMessages => parsedMessages
      case ParseFailures => parseFailures
      case ObservationsEvaluated => observationsEvaluated
      case DroppedMessages => droppedMessages
      case Reconnects => reconnects
      case StoredEvents => storedEvents
    }

    /** The count contract of one summary. */
    predicate Consistent() {
      sourceConnectedSeconds <= uptimeSeconds && observationsEvaluated <= parsedMessages
    }
  }

  type Days = seq<Summary>

  /** Day k is in the same session as the day before. */
  predicate Continues(days: Days, k: nat)
    requires k < |days|
  {
    k > 0 && days[k].sessionId == days[k - 1].sessionId
  }

  // ---------- acceptance ----------

  /** Among the first n days, no session comes back after another one. */
  ghost predicate Contiguous(days: Days, n: nat)
    requires n <= |days|
  {
    forall i, j, k :: 0 <= i < j < k < n && days[i].sessionId == days[k].sessionId ==>
      days[j].sessionId == days[i].sessionId
  }

  /** Among the first n days, no counter is lower on a later day of the same session. */
  ghost predicate CountersGrow(days: Days, n: nat)
    requires n <= |days|
  {
    forall c: Counter, i, k :: 0 <= i < k < n && days[i].sessionId == days[k].sessionId ==>
      days[i].Get(c) <= days[k].Get(c)
  }

  ghost predicate Orderly(days: Days, n: nat)
    requires n <= |days|
  {
    Contiguous(days, n) && CountersGrow(days, n)
  }

  ghost predicate OnePolicy(days: Days) {
    forall i, k :: 0 <= i < |days| && 0 <= k < |days| ==> days[i].policyVersion == days[k].policyVersion
  }

  ghost predicate Accepted(days: Days) {
    Orderly(days, |days|) && OnePolicy(days)
  }

  datatype Fault = SessionReappears(day: nat) | CounterDecreases(day: nat, field: Counter) | PolicyChanges

  /** What a fault says: everything before its day is in order, and its day is not. */
  ghost predicate Explains(days: Days, fault: Fault) {
    match fault
    case SessionReappears(day) =>
      day < |days| && Orderly(days, day) && !Contiguous(days, day + 1)
    case CounterDecreases(day, field) =>
      && 0 < day < |days| && Orderly(days, day) && Contiguous(days, day + 1)
      && days[day].sessionId == days[day - 1].sessionId
      && exists f :: 0 <= f < |COUNTERS| && COUNTERS[f] == field && FirstDecrease(days[day - 1], days[day], f)
    case PolicyChanges =>
      Orderly(days, |days|) && !OnePolicy(days)
  }

  predicate FirstDecrease(previous: Summary, current: Summary, f: nat)
    requires f < |COUNTERS|
  {
    && current.Get(COUNTERS[f]) < previous.Get(COUNTERS[f])
    && forall g :: 0 <= g < f ==> previous.Get(COUNTERS[g]) <= current.Get(COUNTERS[g])
  }

  lemma EveryCounterIsListed(c: Counter)
    ensures c in COUNTERS
  {
    assert c == COUNTERS[match c
                         case UptimeSeconds => 0 case SourceConnectedSeconds => 1 case ParsedMessages => 2
                         case ParseFailures => 3 case ObservationsEvaluated => 4 case DroppedMessages => 5
                         case Reconnects => 6 case StoredEvents => 7];
  }

  method FindDecrease(previous: Summary, current: Summary) returns (fault: Option<Counter>)
    ensures fault.None? <==> forall c: Counter :: previous.Get(c) <= current.Get(c)
    ensures fault.Some? ==> exists f ::
              0 <= f < |COUNTERS| && COUNTERS[f] == fault.value && FirstDecrease(previous, current, f)
  {
    for f := 0 to |COUNTERS|
      invariant forall g :: 0 <= g < f ==> previous.Get(COUNTERS[g]) <= current.Get(COUNTERS[g])
    {
      if current.Get(COUNTERS[f]) < previous.Get(COUNTERS[f]) {
        assert FirstDecrease(previous, current, f);
        return Some(COUNTERS[f]);
      }
    }
    forall c: Counter
      ensures previous.Get(c) <= current.Get(c)
    {
      EveryCounterIsListed(c);
    }
    return None;
  }

  lemma AtMostOne<T>(s: set<T>, a: T, b: T)
    requires |s| <= 1 && a in s && b in s
    ensures a == b
  {
    if a != b {
      assert {a, b} <= s;
      SubsetIsNoLarger({a, b}, s);
    }
  }

  lemma {:induction false} SubsetIsNoLarger<T>(a: set<T>, b: set<T>)
    requires a <= b
    ensures |a| <= |b|
  {
    if a != {} {
      var x :| x in a;
      SubsetIsNoLarger(a - {x}, b - {x});
    }
  }

  /** The sessions of the first n days that have ended. */
  ghost predicate AreClosed(closed: set<string>, days: Days, n: nat)
    requires n <= |days|
  {
    forall s :: s in closed <==> exists j :: 0 <= j < n && days[j].sessionId == s && s != days[n - 1].sessionId
  }

  /** The code's `closed_sessions` once day i has been compared with the one before. */
  function CloseOnChange(closed: set<string>, days: Days, i: nat): set<string>
    requires i < |days|
  {
    if i > 0 && !Continues(days, i) then closed + {days[i - 1].sessionId} else closed
  }

  method HasOnePolicy(days: Days) returns (one: bool)
    ensures one <==> OnePolicy(days)
  {
    var policies := set i | 0 <= i < |days| :: days[i].policyVersion;
    one := |policies| <= 1;
    if one {
      forall i, k | 0 <= i < |days| && 0 <= k < |days|
        ensures days[i].policyVersion == days[k].policyVersion
      {
        AtMostOne(policies, days[i].policyVersion, days[k].policyVersion);
      }
    } else if OnePolicy(days) && days != [] {
      SubsetIsNoLarger(policies, {days[0].policyVersion});
    }
  }

  method ValidateSessions(days: Days) returns (fault: Option<Fault>)
    ensures fault.None? <==> Accepted(days)
    ensures fault.Some? ==> Explains(days, fault.value)
  {
    hide Contiguous, CountersGrow, OnePolicy, Explains, AreClosed, FirstDecrease;
    var closed: set<string> := {};
    NothingToValidate(days);
    for i := 0 to |days|
      invariant Orderly(days, i)
      invariant AreClosed(closed, days, i)
    {
      var current := days[i];
      ghost var before := closed;
      if i > 0 && current.sessionId != days[i - 1].sessionId {
        closed := closed + {days[i - 1].sessionId};
      }
      assert closed == CloseOnChange(before, days, i);
      if current.sessionId in closed {
        ReappearanceIsFault(days, i, before);
        return Some(SessionReappears(i));
      }
      NoReappearance(days, i, before);
      if i > 0 && current.sessionId == days[i - 1].sessionId {
        var decrease := FindDecrease(days[i - 1], current);
        if decrease.Some? {
          DecreaseIsFault(days, i, decrease.value);
          return Some(CounterDecreases(i, decrease.value));
        }
      }
      NoDecrease(days, i);
    }
    var one := HasOnePolicy(days);
    if !one {
      PolicyChangeIsFault(days);
      return Some(PolicyChanges);
    }
    return None;
  }

  lemma NothingToValidate(days: Days)
    ensures Orderly(days, 0) && AreClosed({}, days, 0)
  {
  }

  lemma ReappearanceIsFault(days: Days, i: nat, closed: set<string>)
    requires i < |days| && Orderly(days, i) && AreClosed(closed, days, i)
    requires days[i].sessionId in CloseOnChange(closed, days, i)
    ensures Explains(days, SessionReappears(i)) && !Contiguous(days, |days|)
  {
    hide CountersGrow;
    var j :| 0 <= j < i && days[j].sessionId == days[i].sessionId && days[i - 1].sessionId != days[i].sessionId;
    assert j < i - 1 < i;
  }

  lemma NoReappearance(days: Days, i: nat, closed: set<string>)
    requires i < |days| && Contiguous(days, i) && AreClosed(closed, days, i)
    requires days[i].sessionId !in CloseOnChange(closed, days, i)
    ensures Contiguous(days, i + 1) && AreClosed(CloseOnChange(closed, days, i), days, i + 1)
    ensures forall j :: 0 <= j < i && days[j].sessionId == days[i].sessionId ==> Continues(days, i)
  {
  }

  lemma DecreaseIsFault(days: Days, i: nat, field: Counter)
    requires i < |days| && Orderly(days, i) && Contiguous(days, i + 1) && Continues(days, i)
    requires exists f :: 0 <= f < |COUNTERS| && COUNTERS[f] == field && FirstDecrease(days[i - 1], days[i], f)
    ensures Explains(days, CounterDecreases(i, field)) && !CountersGrow(days, |days|)
  {
    hide Contiguous;
    assert days[i].Get(field) < days[i - 1].Get(field);
  }

  lemma NoDecrease(days: Days, i: nat)
    requires i < |days| && CountersGrow(days, i)
    requires forall j :: 0 <= j < i && days[j].sessionId == days[i].sessionId ==> Continues(days, i)
    requires Continues(days, i) ==> forall c: Counter :: days[i - 1].Get(c) <= days[i].Get(c)
    ensures CountersGrow(days, i + 1)
  {
    forall c: Counter, j | 0 <= j < i && days[j].sessionId == days[i].sessionId
      ensures days[j].Get(c) <= days[i].Get(c)
    {
      assert Continues(days, i);
      assert days[j].Get(c) <= days[i - 1].Get(c);
    }
  }

  lemma PolicyChangeIsFault(days: Days)
    requires Orderly(days, |days|) && !OnePolicy(days)
    ensures Explains(days, PolicyChanges)
  {
  }

  // ---------- aggregation ----------

  function Prior(days: Days, k: nat, c: Counter): nat
    requires k < |days|
  {
    if Continues(days, k) then days[k - 1].Get(c) else 0
  }

  /** What the first n days add to a total. */
  function Total(days: Days, n: nat, c: Counter): int
    requires n <= |days|
  {
    if n == 0 then 0 else Total(days, n - 1, c) + days[n - 1].Get(c) - Prior(days, n - 1, c)
  }

  function GrandTotal(participants: seq<Days>, n: nat, c: Counter): int
    requires n <= |participants|
  {
    if n == 0 then 0 else GrandTotal(participants, n - 1, c) + Total(participants[n - 1], |participants[n - 1]|, c)
  }

  function QuestionableDays(days: Days, n: nat): nat
    requires n <= |days|
  {
    if n == 0 then 0 else QuestionableDays(days, n - 1) + if days[n - 1].questionableTracks > 0 then 1 else 0
  }

  function AllQuestionableDays(participants: seq<Days>, n: nat): nat
    requires n <= |participants|
  {
    if n == 0 then 0
    else AllQuestionableDays(participants, n - 1) + QuestionableDays(participants[n - 1], |participants[n - 1]|)
  }

  /** The peak over the first n participants and the first m days of the next one. */
  ghost predicate IsPeak(peak: real, participants: seq<Days>, n: nat, m: nat)
    requires n <= |participants| && (m > 0 ==> n < |participants| && m <= |participants[n]|)
  {
    && (forall p, d | 0 <= p < n && 0 <= d < |participants[p]| :: participants[p][d].processMemory <= peak)
    && (forall d | 0 <= d < m :: participants[n][d].processMemory <= peak)
    && peak >= 0.0
    && (peak == 0.0
        || exists p, d ::
             0 <= p < |participants| && 0 <= d < |participants[p]| && participants[p][d].processMemory == peak)
  }

  ghost predicate HasAll(totals: map<Counter, int>) {
    forall c: Counter :: c in totals
  }

  method AddDay(totals: map<Counter, int>, days: Days, k: nat) returns (sums: map<Counter, int>)
    requires HasAll(totals) && k < |days|
    ensures HasAll(sums)
    ensures forall c: Counter :: sums[c] == totals[c] + days[k].Get(c) - Prior(days, k, c)
  {
    var newSession := k == 0 || days[k].sessionId != days[k - 1].sessionId;
    sums := totals;
    for f := 0 to |COUNTERS|
      invariant HasAll(sums)
      invariant forall c: Counter ::
        sums[c] == totals[c] + if c in COUNTERS[..f] then days[k].Get(c) - Prior(days, k, c) else 0
    {
      var field := COUNTERS[f];
      var value := days[k].Get(field);
      var prior := if newSession then 0 else days[k - 1].Get(field);
      sums := sums[field := sums[field] + value - prior];
      NotListedBefore(f);
      assert COUNTERS[..f + 1] == COUNTERS[..f] + [field];
    }
    forall c: Counter
      ensures c in COUNTERS[..|COUNTERS|]
    {
      EveryCounterIsListed(c);
      assert COUNTERS[..|COUNTERS|] == COUNTERS;
    }
  }

  lemma NotListedBefore(f: nat)
    requires f < |COUNTERS|
    ensures COUNTERS[f] !in COUNTERS[..f]
  {
  }

  method AggregateCounters(participants: seq<Days>)
    returns (totals: map<Counter, int>, ratio: real, peak: real, questionableDays: nat)
    ensures HasAll(totals) && forall c: Counter :: totals[c] == GrandTotal(participants, |participants|, c)
    ensures ratio == RoundTo(ConnectedRatio(participants), 1_000_000.0)
    ensures exists exact :: IsPeak(exact, participants, |participants|, 0) && peak == RoundTo(exact, 1000.0)
    ensures questionableDays == AllQuestionableDays(participants, |participants|)
  {
    hide IsPeak, Prior, RoundTo, Round;
    NoPeakYet(participants);
    totals := map c: Counter | c in COUNTERS :: 0;
    forall c: Counter
      ensures c in totals && totals[c] == 0
    {
      EveryCounterIsListed(c);
    }
    peak, questionableDays := 0.0, 0;
    for p := 0 to |participants|
      invariant HasAll(totals) && forall c: Counter :: totals[c] == GrandTotal(participants, p, c)
      invariant IsPeak(peak, participants, p, 0)
      invariant questionableDays == AllQuestionableDays(participants, p)
    {
      var days := participants[p];
      for k := 0 to |days|
        invariant HasAll(totals) && forall c: Counter :: totals[c] == GrandTotal(participants, p, c) + Total(days, k, c)
        invariant IsPeak(peak, participants, p, k)
        invariant questionableDays == AllQuestionableDays(participants, p) + QuestionableDays(days, k)
      {
        totals := AddDay(totals, days, k);
        PeakGrows(peak, participants, p, k);
        peak := if days[k].processMemory > peak then days[k].processMemory else peak;
        if days[k].questionableTracks > 0 {
          questionableDays := questionableDays + 1;
        }
      }
      PeakMovesOn(peak, participants, p);
    }
    var uptime, connected := totals[UptimeSeconds], totals[SourceConnectedSeconds];
    RoundedZero();
    ratio := if uptime != 0 then RoundTo(connected as real / uptime as real, 1_000_000.0) else 0.0;
    peak := RoundTo(peak, 1000.0);
  }

  /** The share of the uptime with a connected source, before it is rounded. */
  function ConnectedRatio(participants: seq<Days>): real {
    var uptime := GrandTotal(participants, |participants|, UptimeSeconds);
    if uptime == 0 then 0.0
    else GrandTotal(participants, |participants|, SourceConnectedSeconds) as real / uptime as real
  }

  lemma RoundedZero()
    ensures RoundTo(0.0, 1_000_000.0) == 0.0
  {
    RoundOfInteger(0);
  }

  lemma NoPeakYet(participants: seq<Days>)
    ensures IsPeak(0.0, participants, 0, 0)
  {
  }

  lemma PeakGrows(peak: real, participants: seq<Days>, p: nat, k: nat)
    requires p < |participants| && k < |participants[p]| && IsPeak(peak, participants, p, k)
    ensures
      var memory := participants[p][k].processMemory;
      IsPeak(if memory > peak then memory else peak, participants, p, k + 1)
  {
  }

  lemma PeakMovesOn(peak: real, participants: seq<Days>, p: nat)
    requires p < |participants| && IsPeak(peak, participants, p, |participants[p]|)
    ensures IsPeak(peak, participants, p + 1, 0)
  {
  }

  // ---------- what a total means ----------

  /** Day k is the last one of its session. */
  ghost predicate IsFinal(days: Days, k: nat)
    requires k < |days|
  {
    forall j :: k < j < |days| ==> days[j].sessionId != days[k].sessionId
  }

  /** The process is replaced after day k although its session comes back later. */
  ghost predicate IsInterrupted(days: Days, k: nat)
    requires k < |days|
  {
    k + 1 < |days| && !Continues(days, k + 1) && !IsFinal(days, k)
  }

  /** The sum, over the distinct sessions, of the last value each reported (those last reported in the first n days). */
  ghost function FinalValues(days: Days, n: nat, c: Counter): nat
    requires n <= |days|
  {
    if n == 0 then 0 else FinalValues(days, n - 1, c) + if IsFinal(days, n - 1) then days[n - 1].Get(c) else 0
  }

  ghost function InterruptedValues(days: Days, n: nat, c: Counter): nat
    requires n <= |days|
  {
    if n == 0 then 0
    else InterruptedValues(days, n - 1, c) + if IsInterrupted(days, n - 1) then days[n - 1].Get(c) else 0
  }

  /** The value of a day that the next one continues. */
  function Carried(days: Days, n: nat, c: Counter): nat
    requires n <= |days|
  {
    if 0 < n < |days| then Prior(days, n, c) else 0
  }

  lemma {:induction false} TotalTelescopes(days: Days, n: nat, c: Counter)
    requires n <= |days|
    ensures Total(days, n, c) == FinalValues(days, n, c) + InterruptedValues(days, n, c) + Carried(days, n, c)
  {
    if n > 0 {
      TotalTelescopes(days, n - 1, c);
      if n < |days| && Continues(days, n) {
        assert !IsFinal(days, n - 1);
      }
    }
  }

  lemma {:induction false} InterruptedValuesVanish(days: Days, n: nat, c: Counter)
    requires n <= |days|
    ensures InterruptedValues(days, n, c) == 0
            <==> forall k :: 0 <= k < n && IsInterrupted(days, k) ==> days[k].Get(c) == 0
  {
    if n > 0 { InterruptedValuesVanish(days, n - 1, c); }
  }

  /** Main result: a total counts every session once, by its last value, exactly when no day that a returning session
      had ended on reported anything.
    */
  lemma TotalCountsSessionsOnce(days: Days, c: Counter)
    ensures Total(days, |days|, c) == FinalValues(days, |days|, c)
            <==> forall k :: 0 <= k < |days| && IsInterrupted(days, k) ==> days[k].Get(c) == 0
  {
    TotalTelescopes(days, |days|, c);
    InterruptedValuesVanish(days, |days|, c);
  }

  /** The sum of these over the first n participants. */
  ghost function GrandFinalValues(participants: seq<Days>, n: nat, c: Counter): nat
    requires n <= |participants|
  {
    if n == 0 then 0
    else GrandFinalValues(participants, n - 1, c) + FinalValues(participants[n - 1], |participants[n - 1]|, c)
  }

  /** No day of the first n participants that a returning session had ended on reported anything. */
  ghost predicate NothingLost(participants: seq<Days>, n: nat, c: Counter)
    requires n <= |participants|
  {
    forall p, k :: 0 <= p < n && 0 <= k < |participants[p]| && IsInterrupted(participants[p], k) ==>
        participants[p][k].Get(c) == 0
  }

  lemma {:induction false} GrandTotalIsAtLeast(participants: seq<Days>, n: nat, c: Counter)
    requires n <= |participants|
    ensures GrandTotal(participants, n, c) >= GrandFinalValues(participants, n, c)
    ensures GrandTotal(participants, n, c) == GrandFinalValues(participants, n, c) <==> NothingLost(participants, n, c)
  {
    hide IsInterrupted, FinalValues, InterruptedValues, Total;
    if n > 0 {
      var days := participants[n - 1];
      GrandTotalIsAtLeast(participants, n - 1, c);
      TotalTelescopes(days, |days|, c);
      TotalCountsSessionsOnce(days, c);
    }
  }

  /** Main result: the totals over all participants count every session once exactly when no participant has such a day,
      and so they do for all evidence that validation accepts.
    */
  lemma AcceptedTotalsAreSessionSums(participants: seq<Days>, c: Counter)
    ensures GrandTotal(participants, |participants|, c) == GrandFinalValues(participants, |participants|, c)
            <==> NothingLost(participants, |participants|, c)
    ensures (forall p :: 0 <= p < |participants| ==> Accepted(participants[p])) ==>
              GrandTotal(participants, |participants|, c) == GrandFinalValues(participants, |participants|, c)
  {
    GrandTotalIsAtLeast(participants, |participants|, c);
    if forall p :: 0 <= p < |participants| ==> Accepted(participants[p]) {
      forall p, k | 0 <= p < |participants| && 0 <= k < |participants[p]|
        ensures !IsInterrupted(participants[p], k)
      {
        NothingInterrupted(participants[p], k);
      }
    }
  }

  lemma NothingInterrupted(days: Days, k: nat)
    requires Contiguous(days, |days|) && k < |days|
    ensures !IsInterrupted(days, k)
  {
    if k + 1 < |days| && !IsFinal(days, k) {
      var j :| k < j < |days| && days[j].sessionId == days[k].sessionId;
      assert days[k + 1].sessionId == days[k].sessionId by { assert j > k + 1 ==> k < k + 1 < j; }
    }
  }

  /** Without validation a session that comes back is counted twice. */
  lemma ReturningSessionIsCountedTwice()
    ensures
      var a, b := Summary("session-a", "v1", 5, 0, 0, 0, 0, 0, 0, 0, 0.0, 0),
        Summary("session-b", "v1", 0, 0, 0, 0, 0, 0, 0, 0, 0.0, 0);
      Total([a, b, a], 3, UptimeSeconds) == 10 && FinalValues([a, b, a], 3, UptimeSeconds) == 5 && !Accepted([a, b, a])
  {
    var a, b := Summary("session-a", "v1", 5, 0, 0, 0, 0, 0, 0, 0, 0.0, 0),
      Summary("session-b", "v1", 0, 0, 0, 0, 0, 0, 0, 0, 0.0, 0);
    var days := [a, b, a];
    assert a.sessionId != b.sessionId by { assert a.sessionId[8] != b.sessionId[8]; }
    assert days[0].sessionId == days[2].sessionId && !IsFinal(days, 0);
    assert IsFinal(days, 1) && IsFinal(days, 2);
    assert FinalValues(days, 1, UptimeSeconds) == 0;
    assert FinalValues(days, 2, UptimeSeconds) == 0;
    assert Total(days, 1, UptimeSeconds) == 5;
    assert Total(days, 2, UptimeSeconds) == 5;
  }

  // ---------- growth ----------

  lemma {:induction false} TotalGrows(days: Days, m: nat, n: nat, c: Counter)
    requires m <= n <= |days|
    requires forall k :: m <= k < n ==> Prior(days, k, c) <= days[k].Get(c)
    ensures Total(days, m, c) <= Total(days, n, c)
    decreases n
  {
    if m < n { TotalGrows(days, m, n - 1, c); }
  }

  ghost predicate TotalNeverFalls(days: Days, c: Counter) {
    forall m, n :: 0 <= m <= n <= |days| ==> Total(days, m, c) <= Total(days, n, c)
  }

  ghost predicate NeverFallsWithinSession(days: Days, c: Counter) {
    forall k :: 0 <= k < |days| && Continues(days, k) ==> days[k - 1].Get(c) <= days[k].Get(c)
  }

  /** Main result: the running total never falls as days are added exactly when the counter never falls within a
      session.
    */
  lemma TotalsGrowExactly(days: Days, c: Counter)
    ensures TotalNeverFalls(days, c) <==> NeverFallsWithinSession(days, c)
  {
    if NeverFallsWithinSession(days, c) {
      forall m, n | 0 <= m <= n <= |days|
        ensures Total(days, m, c) <= Total(days, n, c)
      {
        TotalGrows(days, m, n, c);
      }
    }
    if TotalNeverFalls(days, c) {
      forall k | 0 <= k < |days| && Continues(days, k)
        ensures days[k - 1].Get(c) <= days[k].Get(c)
      {
        var next := k + 1;
        assert Total(days, k, c) <= Total(days, next, c);
      }
    }
  }

  lemma {:induction false} TotalOfPrefix(days: Days, more: Days, n: nat, c: Counter)
    requires n <= |days|
    ensures Total(days + more, n, c) == Total(days, n, c)
  {
    if n > 0 { TotalOfPrefix(days, more, n - 1, c); }
  }

  lemma {:induction false} GrandTotalDiffers(participants: seq<Days>, others: seq<Days>, i: nat, n: nat, c: Counter)
    requires n <= |participants| == |others| && i < |others|
    requires forall p :: 0 <= p < |others| && p != i ==> participants[p] == others[p]
    ensures GrandTotal(others, n, c) - GrandTotal(participants, n, c)
            == if i < n then Total(others[i], |others[i]|, c) - Total(participants[i], |participants[i]|, c) else 0
  {
    if n > 0 { GrandTotalDiffers(participants, others, i, n - 1, c); }
  }

  /** Main result: reporting further accepted days for one participant lowers no counter of the aggregate. */
  lemma ReportingMoreNeverLowers(participants: seq<Days>, i: nat, more: Days, c: Counter)
    requires i < |participants| && Accepted(participants[i] + more)
    ensures GrandTotal(participants, |participants|, c)
            <= GrandTotal(participants[i := participants[i] + more], |participants|, c)
  {
    var days := participants[i];
    TotalGrows(days + more, |days|, |days + more|, c);
    TotalOfPrefix(days, more, |days|, c);
    GrandTotalDiffers(participants, participants[i := days + more], i, |participants|, c);
  }

  // ---------- bounds between totals ----------

  lemma {:induction false} LowerValuesLowerTotals(days: Days, n: nat, low: Counter, high: Counter)
    requires n <= |days| && forall k :: 0 <= k < |days| ==> days[k].Get(low) <= days[k].Get(high)
    ensures FinalValues(days, n, low) + InterruptedValues(days, n, low)
            <= FinalValues(days, n, high) + InterruptedValues(days, n, high)
  {
    if n > 0 { LowerValuesLowerTotals(days, n - 1, low, high); }
  }

  lemma {:induction false} LowerTotals(participants: seq<Days>, n: nat, low: Counter, high: Counter)
    requires n <= |participants|
    requires forall p, k :: 0 <= p < |participants| && 0 <= k < |participants[p]| ==>
        participants[p][k].Get(low) <= participants[p][k].Get(high)
    ensures 0 <= GrandTotal(participants, n, low) <= GrandTotal(participants, n, high)
  {
    if n > 0 {
      LowerTotals(participants, n - 1, low, high);
      var days := participants[n - 1];
      TotalTelescopes(days, |days|, low);
      TotalTelescopes(days, |days|, high);
      LowerValuesLowerTotals(days, |days|, low, high);
    }
  }

  /** Main result: the connected ratio is a fraction and evaluated observations never outnumber parsed messages, over
      any participants whose daily summaries are each consistent.
    */
  lemma AggregatesStayConsistent(participants: seq<Days>)
    requires forall p, k :: 0 <= p < |participants| && 0 <= k < |participants[p]| ==> participants[p][k].Consistent()
    ensures
      var connected := GrandTotal(participants, |participants|, SourceConnectedSeconds);
      var uptime := GrandTotal(participants, |participants|, UptimeSeconds);
      0 <= connected <= uptime && (uptime != 0 ==> 0.0 <= connected as real / uptime as real <= 1.0)
    ensures GrandTotal(participants, |participants|, ObservationsEvaluated)
            <= GrandTotal(participants, |participants|, ParsedMessages)
    ensures 0.0 <= RoundTo(ConnectedRatio(participants), 1_000_000.0) <= 1.0
  {
    hide RoundTo, GrandTotal;
    LowerTotals(participants, |participants|, SourceConnectedSeconds, UptimeSeconds);
    LowerTotals(participants, |participants|, ObservationsEvaluated, ParsedMessages);
    RoundedFraction(ConnectedRatio(participants), 1_000_000, 1_000_000.0);
  }

  // ---------- drops ----------

  /** `_has_drops`: some day reported dropped messages. */
  predicate HasDrops(days: Days) {
    exists k :: 0 <= k < |days| && days[k].droppedMessages > 0
  }

  /** Main result: for accepted evidence the daily check for drops and the aggregated counter agree. */
  lemma DropsAgreeWithTotal(days: Days)
    requires Accepted(days)
    ensures HasDrops(days) <==> Total(days, |days|, DroppedMessages) > 0
  {
    if HasDrops(days) {
      var k :| 0 <= k < |days| && days[k].droppedMessages > 0;
      TotalGrows(days, 0, k, DroppedMessages);
      TotalTelescopes(days, k + 1, DroppedMessages);
      DayIsWithinTotal(days, k, DroppedMessages);
    } else {
      SilentDaysAddNothing(days, |days|, DroppedMessages);
    }
  }

  lemma {:induction false} RunningTotalCoversLastDay(days: Days, n: nat, c: Counter)
    requires 0 < n <= |days|
    ensures Total(days, n, c) >= days[n - 1].Get(c)
  {
    if n > 1 && Continues(days, n - 1) { RunningTotalCoversLastDay(days, n - 1, c); }
    else { TotalTelescopes(days, n - 1, c); }
  }

  lemma DayIsWithinTotal(days: Days, k: nat, c: Counter)
    requires Accepted(days) && k < |days|
    ensures Total(days, |days|, c) >= days[k].Get(c)
  {
    RunningTotalCoversLastDay(days, k + 1, c);
    TotalGrows(days, k + 1, |days|, c);
  }

  lemma {:induction false} SilentDaysAddNothing(days: Days, n: nat, c: Counter)
    requires n <= |days| && forall k :: 0 <= k < |days| ==> days[k].Get(c) == 0
    ensures Total(days, n, c) == 0
  {
    if n > 0 { SilentDaysAddNothing(days, n - 1, c); }
  }

  // ---------- the other aggregates ----------

  /** Main result: the unrounded ratio is the one of the session sums: it times the total uptime is the total connected
      time, and without uptime it is zero.
    */
  lemma ConnectedRatioExactly(participants: seq<Days>, ratio: real)
    ensures
      var uptime := GrandTotal(participants, |participants|, UptimeSeconds);
      var connected := GrandTotal(participants, |participants|, SourceConnectedSeconds);
      ratio == ConnectedRatio(participants)
      <==> if uptime == 0 then ratio == 0.0 else ratio * uptime as real == connected as real
  {
    hide GrandTotal;
    var uptime := GrandTotal(participants, |participants|, UptimeSeconds);
    if uptime != 0 {
      QuotientExactly(GrandTotal(participants, |participants|, SourceConnectedSeconds) as real, uptime as real, ratio);
    }
  }

  lemma QuotientExactly(x: real, y: real, q: real)
    requires y != 0.0
    ensures q == x / y <==> q * y == x
  {}

  /** The days with questionable tracks, by participant and day. */
  ghost function Questionable(participants: seq<Days>, n: nat): set<(nat, nat)>
    requires n <= |participants|
  {
    set p: nat, k: nat | p < n && k < |participants[p]| && participants[p][k].questionableTracks > 0 :: (p, k)
  }

  ghost function QuestionableOf(days: Days, p: nat, n: nat): set<(nat, nat)>
    requires n <= |days|
  {
    set k: nat | k < n && days[k].questionableTracks > 0 :: (p, k)
  }

  lemma {:induction false} QuestionableDaysCounted(days: Days, p: nat, n: nat)
    requires n <= |days|
    ensures QuestionableDays(days, n) == |QuestionableOf(days, p, n)|
  {
    if n > 0 {
      hide QuestionableOf;
      QuestionableDaysCounted(days, p, n - 1);
      OneMoreQuestionable(days, p, n);
    } else {
      assert QuestionableOf(days, p, 0) == {};
    }
  }

  lemma OneMoreQuestionable(days: Days, p: nat, n: nat)
    requires 0 < n <= |days|
    ensures
      var before := QuestionableOf(days, p, n - 1);
      && (p, n - 1) !in before
      && QuestionableOf(days, p, n) == if days[n - 1].questionableTracks > 0 then before + {(p, n - 1)} else before
  {}

  /** Main result: the number returned counts every day of every participant with questionable tracks once. */
  lemma {:induction false} QuestionableDaysAreCounted(participants: seq<Days>, n: nat)
    requires n <= |participants|
    ensures AllQuestionableDays(participants, n) == |Questionable(participants, n)|
  {
    if n > 0 {
      var last := QuestionableOf(participants[n - 1], n - 1, |participants[n - 1]|);
      QuestionableDaysAreCounted(participants, n - 1);
      QuestionableDaysCounted(participants[n - 1], n - 1, |participants[n - 1]|);
      hide QuestionableDays;
      assert Questionable(participants, n) == Questionable(participants, n - 1) + last;
    } else {
      assert Questionable(participants, 0) == {};
    }
  }
}
