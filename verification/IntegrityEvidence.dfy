/** Which evidence an observation raises, from the observation, its track and the policy, and what it then says. */
module IntegrityEvidence {
  import opened DedupRing
  import opened Ordering
  import opened IntegrityModel
  import opened IntegrityProofs
  import opened IntegrityCandidates

  // ---------- the window the evaluator sees ----------

  ghost predicate AscendingBelow(index: seq<nat>, bound: nat) {
    && (forall i :: 0 <= i < |index| ==> index[i] < bound)
    && (forall i, j :: 0 <= i < j < |index| ==> index[i] < index[j])
  }

  predicate InRange(o: Observation, earliest: Time, latest: Time) {
    earliest <= o.observedAt && o.observedAt <= latest
  }

  /** These are the places of the observations in the range, in order. */
  ghost predicate AreInRange(index: seq<nat>, s: seq<Observation>, earliest: Time, latest: Time) {
    && AscendingBelow(index, |s|)
    && forall k: nat :: k < |s| ==> (InRange(s[k], earliest, latest) <==> k in index)
  }

  ghost predicate Picks(items: seq<Observation>, s: seq<Observation>, index: seq<nat>) {
    && |items| == |index|
    && forall i :: 0 <= i < |items| ==> index[i] < |s| && items[i] == s[index[i]]
  }

  lemma {:induction false} InWindowPicks(s: seq<Observation>, earliest: Time, latest: Time) returns (index: seq<nat>)
    ensures AreInRange(index, s, earliest, latest) && Picks(InWindow(s, earliest, latest), s, index)
    decreases |s|
  {
    if s == [] {
      index := [];
    } else {
      var rest := InWindowPicks(s[1..], earliest, latest);
      var moved := seq(|rest|, i requires 0 <= i < |rest| => rest[i] + 1);
      index := (if InRange(s[0], earliest, latest) then [0] else []) + moved;
      InWindowMoves(s, earliest, latest, rest, moved);
    }
  }

  /** The places in a list of those in its tail. */
  ghost predicate Moved(moved: seq<nat>, rest: seq<nat>) {
    |moved| == |rest| && forall i :: 0 <= i < |rest| ==> moved[i] == rest[i] + 1
  }

  lemma MovedAscends(moved: seq<nat>, rest: seq<nat>, bound: nat)
    requires AscendingBelow(rest, bound) && Moved(moved, rest)
    ensures AscendingBelow(moved, bound + 1) && AscendingBelow([0] + moved, bound + 1)
    ensures forall k: nat :: k + 1 in moved <==> k in rest
    ensures 0 !in moved
  {
    forall k: nat
      ensures k + 1 in moved <==> k in rest
    {
      if k in rest {
        var i :| 0 <= i < |rest| && rest[i] == k;
        assert moved[i] == k + 1;
      }
    }
  }

  lemma InWindowHead(s: seq<Observation>, earliest: Time, latest: Time)
    requires s != []
    ensures InWindow(s, earliest, latest)
            == (if InRange(s[0], earliest, latest) then [s[0]] else []) + InWindow(s[1..], earliest, latest)
  {}

  lemma PicksMoves(items: seq<Observation>, s: seq<Observation>, rest: seq<nat>, moved: seq<nat>)
    requires s != [] && Picks(items, s[1..], rest) && Moved(moved, rest)
    ensures Picks(items, s, moved) && Picks([s[0]] + items, s, [0] + moved)
  {}

  lemma InWindowMoves(s: seq<Observation>, earliest: Time, latest: Time, rest: seq<nat>, moved: seq<nat>)
    requires s != [] && AreInRange(rest, s[1..], earliest, latest) && Moved(moved, rest)
    requires Picks(InWindow(s[1..], earliest, latest), s[1..], rest)
    ensures
      var index := (if InRange(s[0], earliest, latest) then [0] else []) + moved;
      AreInRange(index, s, earliest, latest) && Picks(InWindow(s, earliest, latest), s, index)
  {
    hide InWindow, Picks, AscendingBelow, InRange, Moved;
    var index := (if InRange(s[0], earliest, latest) then [0] else []) + moved;
    MovedAscends(moved, rest, |s| - 1);
    InWindowHead(s, earliest, latest);
    PicksMoves(InWindow(s[1..], earliest, latest), s, rest, moved);
    assert [] + moved == moved && [] + InWindow(s[1..], earliest, latest) == InWindow(s[1..], earliest, latest);
    forall k: nat | k < |s|
      ensures InRange(s[k], earliest, latest) <==> k in index
    {
      if k > 0 {
        assert s[k] == s[1..][k - 1];
        assert k in moved <==> k - 1 in rest by { assert k - 1 + 1 == k; }
      }
    }
  }

  /** Main result: for a limit n the evaluator sees the newest n of the observations not older than the duration and not
      newer than the current one, in their order; for a limit of zero it sees all of these.
    */
  lemma WindowItemsAre(s: seq<Observation>, now: Time, duration: int, n: nat) returns (index: seq<nat>)
    ensures AreInRange(index, s, now - duration, now)
    ensures
      var items := WindowItems(s, now, duration, n);
      var newest := if n == 0 || |index| <= n then index else index[|index| - n..];
      Picks(items, s, newest)
  {
    hide InWindow, Picks, AreInRange;
    index := InWindowPicks(s, now - duration, now);
    LastPicks(InWindow(s, now - duration, now), s, index, n);
  }

  lemma LastPicks(items: seq<Observation>, s: seq<Observation>, index: seq<nat>, n: nat)
    requires Picks(items, s, index)
    ensures |items| == |index|
    ensures Picks(SliceLast(items, n), s, if n == 0 || |index| <= n then index else index[|index| - n..])
  {
    if n == 0 {
      assert items[-n..] == items;
    }
  }

  // ---------- what is raised ----------

  /** What a failed rule is reported as: critical from twice a positive threshold on, a warning otherwise. */
  predicate Reports(c: Candidate, kind: Kind, r: RuleResult) {
    && c.kind == kind && c.discriminator == r.rule && c.summary == r.explanation
    && c.measured == r.value && c.threshold == r.threshold
    && (c.severity == Critical <==> r.threshold > 0.0 && r.value >= 2.0 * r.threshold)
    && (c.severity == Warning <==> !(r.threshold > 0.0 && r.value >= 2.0 * r.threshold))
  }

  predicate ReportsOne(c: Candidate, kind: Kind, results: seq<RuleResult>) {
    exists i :: 0 <= i < |results| && Reports(c, kind, results[i])
  }

  /** The newest observations, the current one included, as many as a track keeps. */
  function NewestKept(p: Policy, t: Track, o: Observation): seq<Observation>
    requires p.Valid()
  {
    var all := t.observations + [o];
    if |all| <= p.maximumObservationsPerTrack then all else all[|all| - p.maximumObservationsPerTrack..]
  }

  /** The results of the pair evaluator, once there is a previous observation. */
  function PairResults(p: Policy, t: Track, o: Observation): seq<RuleResult> {
    if t.observations == [] then [] else p.evaluatePair(t.observations[|t.observations| - 1], o)
  }

  /** The results of the window evaluator, once the window is long enough. */
  function WindowResults(p: Policy, t: Track, o: Observation): seq<RuleResult>
    requires p.Valid()
  {
    var items := WindowItems(NewestKept(p, t, o), o.observedAt, p.windowDuration, p.windowMaximum);
    if |items| >= p.windowMinimum then p.evaluateWindow(items) else []
  }

  /** The source time passed since the previous observation, 0 for the first. */
  function Passed(t: Track, o: Observation): int {
    if t.observations == [] then 0 else o.observedAt - t.observations[|t.observations| - 1].observedAt
  }

  /** Evidence kind by kind: its condition, and what it says. */
  predicate Warranted(p: Policy, t: Track, o: Observation, c: Candidate)
    requires p.Valid()
  {
    var passed, late := Passed(t, o), o.receivedAt - o.observedAt;
    match c.kind
    case TimingDuplicate =>
      && o.rawId != "" && o.rawId in t.seen.ids
      && c == Candidate(TimingDuplicate, "message", "duplicate", 1.0, 0.0, Warning)
    case TimingNonIncreasing =>
      && t.observations != [] && passed <= 0
      && c == Candidate(c.kind, "source_time", "not advancing", passed as real / 1000000.0, 0.0, Warning)
    case TimingOutOfOrder =>
      && t.observations != [] && passed < -p.maximumReordering
      && c == Candidate(c.kind, "source_time", "out of order", -passed as real / 1000000.0,
                        p.maximumReordering as real / 1000000.0, Warning)
    case TimingGap =>
      && t.observations != [] && passed > p.gap
      && c == Candidate(c.kind, "continuity", "gap", passed as real / 1000000.0, p.gap as real / 1000000.0, Info)
    case TimingExcessiveLatency =>
      && !o.recordedReplay && late > p.maximumLatency
      && c == Candidate(c.kind, "source_latency", "late", late as real / 1000000.0,
                        p.maximumLatency as real / 1000000.0, Warning)
    case PairKinematic => ReportsOne(c, PairKinematic, PairResults(p, t, o))
    case WindowKinematic => ReportsOne(c, WindowKinematic, WindowResults(p, t, o))
  }

  lemma {:induction false} RulesReported(kind: Kind, results: seq<RuleResult>)
    ensures |RuleCandidates(kind, results)| == |results|
    ensures forall i :: 0 <= i < |results| ==> Reports(RuleCandidates(kind, results)[i], kind, results[i])
    decreases |results|
  {
    if results != [] {
      hide SeverityOf;
      RulesReported(kind, results[1..]);
      OneReported(kind, results[0]);
    }
  }

  lemma OneReported(kind: Kind, r: RuleResult)
    ensures
      Reports(Candidate(kind, r.rule, r.explanation, r.value, r.threshold, SeverityOf(r.value, r.threshold)), kind, r)
  {}

  /** A report determines its candidate. */
  lemma ReportIsUnique(a: Candidate, b: Candidate, kind: Kind, r: RuleResult)
    requires Reports(a, kind, r) && Reports(b, kind, r)
    ensures a == b
  {}

  lemma RulesAre(kind: Kind, results: seq<RuleResult>, c: Candidate)
    ensures c in RuleCandidates(kind, results) <==> ReportsOne(c, kind, results)
  {
    hide RuleCandidates, Reports;
    RulesReported(kind, results);
    var cs := RuleCandidates(kind, results);
    if i :| 0 <= i < |results| && Reports(c, kind, results[i]) {
      ReportIsUnique(c, cs[i], kind, results[i]);
      assert cs[i] in cs;
    }
  }

  lemma OrderAre(p: Policy, previous: Observation, o: Observation, c: Candidate)
    ensures
      var delta := o.observedAt - previous.observedAt;
      var results := p.evaluatePair(previous, o);
      && |OrderCandidates(p, previous, o)|
         == (if delta <= 0 then 1 else 0) + (if delta < -p.maximumReordering then 1 else 0)
            + (if delta > p.gap then 1 else 0) + |results|
      && (c in OrderCandidates(p, previous, o)
          <==> (delta <= 0 && c == Candidate(TimingNonIncreasing, "source_time", "not advancing", Seconds(delta), 0.0,
                                             Warning))
               || (delta < -p.maximumReordering
                   && c == Candidate(TimingOutOfOrder, "source_time", "out of order", Seconds(-delta),
                                     Seconds(p.maximumReordering), Warning))
               || (delta > p.gap
                   && c == Candidate(TimingGap, "continuity", "gap", Seconds(delta), Seconds(p.gap), Info))
               || ReportsOne(c, PairKinematic, results))
  {
    hide RuleCandidates, ReportsOne, Seconds;
    RulesReported(PairKinematic, p.evaluatePair(previous, o));
    RulesAre(PairKinematic, p.evaluatePair(previous, o), c);
  }

  /** Main result: an observation raises exactly the evidence the policy warrants. */
  lemma CandidatesAre(p: Policy, t: Track, o: Observation)
    requires p.Valid()
    ensures forall c :: c in Candidates(p, t, o) <==> Warranted(p, t, o, c)
  {
    hide Candidates, Warranted;
    forall c
      ensures c in Candidates(p, t, o) <==> Warranted(p, t, o, c)
    {
      CandidateIs(p, t, o, c);
    }
  }

  function Times(condition: bool): nat {
    if condition then 1 else 0
  }

  /** Main result: it raises each of them once: one per timing condition that holds and one per rule reported. */
  lemma CandidateCount(p: Policy, t: Track, o: Observation)
    requires p.Valid()
    ensures
      var previous, passed := t.observations != [], Passed(t, o);
      |Candidates(p, t, o)|
      == Times(o.rawId != "" && o.rawId in t.seen.ids)
         + Times(previous && passed <= 0) + Times(previous && passed < -p.maximumReordering)
         + Times(previous && passed > p.gap)
         + Times(!o.recordedReplay && o.receivedAt - o.observedAt > p.maximumLatency)
         + |PairResults(p, t, o)| + |WindowResults(p, t, o)|
  {
    hide DuplicateCandidates, OrderCandidates, LatencyCandidates, WindowCandidates, WindowResults, Remember, ReportsOne,
        Seconds;
    var any := Candidate(TimingGap, "", "", 0.0, 0.0, Info);
    PartsAre(p, t, o, any);
    if t.observations != [] { OrderAre(p, t.observations[|t.observations| - 1], o, any); }
  }

  /** The duplicate, latency and window parts. */
  lemma PartsAre(p: Policy, t: Track, o: Observation, c: Candidate)
    requires p.Valid()
    ensures |DuplicateCandidates(t.seen, o)| == if o.rawId != "" && o.rawId in t.seen.ids then 1 else 0
    ensures c in DuplicateCandidates(t.seen, o)
            <==> o.rawId != "" && o.rawId in t.seen.ids
                 && c == Candidate(TimingDuplicate, "message", "duplicate", 1.0, 0.0, Warning)
    ensures |LatencyCandidates(p, o)|
            == if !o.recordedReplay && o.receivedAt - o.observedAt > p.maximumLatency then 1 else 0
    ensures c in LatencyCandidates(p, o)
            <==> !o.recordedReplay && o.receivedAt - o.observedAt > p.maximumLatency
                 && c == Candidate(TimingExcessiveLatency, "source_latency", "late",
                                   Seconds(o.receivedAt - o.observedAt), Seconds(p.maximumLatency), Warning)
    ensures |WindowCandidates(p, Remember(p, t.observations, o), o)| == |WindowResults(p, t, o)|
    ensures c in WindowCandidates(p, Remember(p, t.observations, o), o)
            <==> ReportsOne(c, WindowKinematic, WindowResults(p, t, o))
  {
    hide RuleCandidates, ReportsOne, Seconds, WindowItems;
    assert Remember(p, t.observations, o) == NewestKept(p, t, o);
    RulesReported(WindowKinematic, WindowResults(p, t, o));
    RulesAre(WindowKinematic, WindowResults(p, t, o), c);
    RulesAre(WindowKinematic, [], c);
    RulesReported(WindowKinematic, []);
  }

  lemma CandidateIs(p: Policy, t: Track, o: Observation, c: Candidate)
    requires p.Valid()
    ensures c in Candidates(p, t, o) <==> Warranted(p, t, o, c)
  {
    hide DuplicateCandidates, OrderCandidates, LatencyCandidates, WindowCandidates, ReportsOne, WindowResults, Remember;
    PartsAre(p, t, o, c);
    if t.observations != [] { OrderAre(p, t.observations[|t.observations| - 1], o, c); }
    ReportedKind(c, PairKinematic, PairResults(p, t, o));
    ReportedKind(c, WindowKinematic, WindowResults(p, t, o));
  }

  lemma ReportedKind(c: Candidate, kind: Kind, results: seq<RuleResult>)
    ensures ReportsOne(c, kind, results) ==> c.kind == kind && results != []
  {}

  // ---------- what raised evidence says ----------

  /** Whether evidence is still open when the observation arrives. */
  predicate WasOpen(t: Track, now: Time, key: string) {
    key in t.active && t.active[key].expiresAt > now
  }

  /** Evidence after a candidate was raised: continued from the open one, or new. */
  predicate Says(p: Policy, id: TrackId, t: Track, o: Observation, c: Candidate, e: Evidence) {
    var key := KindName(c.kind) + ":" + c.discriminator;
    && e.lastObservedAt == o.observedAt && e.expiresAt == o.observedAt + p.evidenceTtl
    && e.summary == c.summary && e.measured == c.measured && e.threshold == c.threshold
    && if WasOpen(t, o.observedAt, key) then
         var before := t.active[key];
         && e.id == before.id && e.kind == before.kind && e.firstObservedAt == before.firstObservedAt
         && e.severity == if before.severity == Critical || c.severity == Critical then Critical
                          else if before.severity == Warning || c.severity == Warning then Warning else Info
       else
         && e.id == EvidenceId(p.version, id, key, o.id) && e.kind == c.kind && e.firstObservedAt == o.observedAt
         && e.severity == c.severity
  }

  lemma {:induction false} RaisedSays(p: Policy, id: TrackId, t: Track, o: Observation, cs: seq<Candidate>, i: nat)
    requires KeysDiffer(cs) && i < |cs|
    ensures
      var after := ApplyAll(p, id, StillOpen(t.active, o.observedAt), o, cs).0;
      KeyOf(cs[i]) in after && Says(p, id, t, o, cs[i], after[KeyOf(cs[i])])
    decreases |cs|
  {
    hide Says, OpenOrUpdate, StillOpen, KeyOf, KeysDiffer;
    var n, open := |cs| - 1, StillOpen(t.active, o.observedAt);
    var before := ApplyAll(p, id, open, o, cs[..n]).0;
    CandidateKeyAt(cs, i);
    if i < n {
      RaisedSays(p, id, t, o, cs[..n], i);
      OthersKept(p, id, before, o, cs[n], KeyOf(cs[i]));
    } else {
      hide RefreshesRaised, Continues;
      ApplyAllContinues(p, id, open, o, cs[..n]);
      LastKeyUnraised(cs);
      KeptUntilRaised(p, open, before, o, cs);
      LastSays(p, id, t, o, before, cs[n]);
    }
  }

  lemma CandidateKeyAt(cs: seq<Candidate>, i: nat)
    requires KeysDiffer(cs) && i < |cs|
    ensures KeysDiffer(cs[..|cs| - 1])
    ensures i < |cs| - 1 ==> cs[..|cs| - 1][i] == cs[i] && KeyOf(cs[i]) != KeyOf(cs[|cs| - 1])
  {
    hide KeyOf;
  }

  lemma OthersKept(p: Policy, id: TrackId, active: map<string, Evidence>, o: Observation, c: Candidate, key: string)
    requires key in active && key != KeyOf(c)
    ensures key in OpenOrUpdate(p, id, active, o, c).0 && OpenOrUpdate(p, id, active, o, c).0[key] == active[key]
  {
    hide KeyOf;
  }

  lemma LastKeyUnraised(cs: seq<Candidate>)
    requires KeysDiffer(cs) && cs != []
    ensures !Raised(cs[..|cs| - 1], KeyOf(cs[|cs| - 1]))
  {
    hide KeyOf;
  }

  lemma KeptUntilRaised(p: Policy, open: map<string, Evidence>, before: map<string, Evidence>, o: Observation,
                        cs: seq<Candidate>)
    requires cs != [] && !Raised(cs[..|cs| - 1], KeyOf(cs[|cs| - 1]))
    requires Continues(open, before) && RefreshesRaised(p, open, before, o, cs[..|cs| - 1])
    ensures
      var key := KeyOf(cs[|cs| - 1]);
      (key in before <==> key in open) && (key in open ==> before[key] == open[key])
  {
    hide KeyOf;
  }

  lemma LastSays(p: Policy, id: TrackId, t: Track, o: Observation, before: map<string, Evidence>, c: Candidate)
    requires
      var key, open := KeyOf(c), StillOpen(t.active, o.observedAt);
      (key in before <==> key in open) && (key in open ==> before[key] == open[key])
    ensures
      var after := OpenOrUpdate(p, id, before, o, c).0;
      KeyOf(c) in after && Says(p, id, t, o, c, after[KeyOf(c)])
  {
    assert KeyOf(c) == KindName(c.kind) + ":" + c.discriminator;
    hide KeyOf, KindName;
  }

  /** Main result: after an observation exactly what it raises and what had not expired is open. What is raised says
      what its candidate says, continuing open evidence with the higher severity; everything else is as it was.
    */
  lemma OpenAfterwards(p: Policy, id: TrackId, t: Track, o: Observation)
    requires p.Valid() && EvaluatorsNameRulesOnce(p)
    ensures
      var after := IngestTrack(p, id, t, o).0.active;
      && (forall c :: c in Candidates(p, t, o) ==>
            KeyOf(c) in after && Says(p, id, t, o, c, after[KeyOf(c)]))
      && (forall key :: !Raised(Candidates(p, t, o), key) ==>
            (key in after <==> WasOpen(t, o.observedAt, key)) && (key in after ==> after[key] == t.active[key]))
  {
    hide Candidates, Says, KeyOf, ApplyAll, Expirations, EvaluatorsNameRulesOnce, KeysDiffer;
    var open, cs := StillOpen(t.active, o.observedAt), Candidates(p, t, o);
    CandidateKeysDiffer(p, t, o);
    ApplyAllContinues(p, id, open, o, cs);
    forall i | 0 <= i < |cs|
      ensures
        var after := IngestTrack(p, id, t, o).0.active;
        KeyOf(cs[i]) in after && Says(p, id, t, o, cs[i], after[KeyOf(cs[i])])
    {
      RaisedSays(p, id, t, o, cs, i);
    }
  }

  // ---------- what events carry ----------

  predicate Carries(id: TrackId, now: Time, before: map<string, Evidence>, after: map<string, Evidence>, e: Event) {
    var key := e.evidence.id.key;
    && e.track == id && e.observedAt == now
    && if e.eventType.Closed? then e.state.Nominal? && key in before && e.evidence == before[key]
       else e.state.Questionable? && key in after && e.evidence == after[key]
  }

  lemma {:induction false} RaisedCarry(p: Policy, id: TrackId, active: map<string, Evidence>, o: Observation,
                                       cs: seq<Candidate>)
    requires WellFiled(p, id, active) && KeysDiffer(cs)
    ensures
      var (after, events) := ApplyAll(p, id, active, o, cs);
      Follow(events, cs) && forall i :: 0 <= i < |events| ==> Carries(id, o.observedAt, map[], after, events[i])
    decreases |cs|
  {
    hide KeyOf, OpenOrUpdate, KeysDiffer, WellFiled, Carries, Follow;
    if cs == [] {
      NothingFollows();
    } else {
      var n := |cs| - 1;
      var (before, events) := ApplyAll(p, id, active, o, cs[..n]);
      CandidateKeyAt(cs, n);
      RaisedCarry(p, id, active, o, cs[..n]);
      ApplyAllIsLegal(p, id, active, o, cs[..n]);
      RaisedEventsFollowCandidates(p, id, active, o, cs);
      FollowLength(events, cs[..n]);
      NextCarries(p, id, before, o, cs[n]);
      forall i | 0 <= i < n
        ensures i < |events|
                && Carries(id, o.observedAt, map[], OpenOrUpdate(p, id, before, o, cs[n]).0, events[i])
      {
        CandidateKeyAt(cs, i);
        EarlierCarries(p, id, before, o, cs, events, i);
      }
    }
  }

  lemma FollowLength(events: seq<Event>, cs: seq<Candidate>)
    requires Follow(events, cs)
    ensures |events| == |cs|
  {}

  lemma NextCarries(p: Policy, id: TrackId, before: map<string, Evidence>, o: Observation, c: Candidate)
    requires WellFiled(p, id, before)
    ensures
      var (after, event) := OpenOrUpdate(p, id, before, o, c);
      Carries(id, o.observedAt, map[], after, event)
  {
    hide KeyOf, MaxSeverity;
  }

  lemma EarlierCarries(p: Policy, id: TrackId, before: map<string, Evidence>, o: Observation, cs: seq<Candidate>,
                       events: seq<Event>, i: nat)
    requires cs != [] && i < |cs| - 1 && Follow(events, cs[..|cs| - 1])
    requires KeyOf(cs[i]) != KeyOf(cs[|cs| - 1]) && Carries(id, o.observedAt, map[], before, events[i])
    ensures Carries(id, o.observedAt, map[], OpenOrUpdate(p, id, before, o, cs[|cs| - 1]).0, events[i])
  {
    hide KeyOf;
    assert cs[..|cs| - 1][i] == cs[i];
    OthersKept(p, id, before, o, cs[|cs| - 1], KeyOf(cs[i]));
    hide OpenOrUpdate;
  }

  predicate AllCarry(id: TrackId, now: Time, before: map<string, Evidence>, after: map<string, Evidence>,
                     events: seq<Event>)
  {
    forall i :: 0 <= i < |events| ==> Carries(id, now, before, after, events[i])
  }

  lemma AllCarrySum(id: TrackId, now: Time, before: map<string, Evidence>, after: map<string, Evidence>, a: seq<Event>,
                    b: seq<Event>)
    requires AllCarry(id, now, before, after, a) && AllCarry(id, now, before, after, b)
    ensures AllCarry(id, now, before, after, a + b)
  {
    hide Carries;
  }

  lemma ClosingCarries(p: Policy, id: TrackId, active: map<string, Evidence>, now: Time, key: string,
                       after: map<string, Evidence>)
    requires WellFiled(p, id, active) && key in active
    ensures AllCarry(id, now, active, after, [EventOf(Closed, id, now, active[key])])
    ensures AllCarry(id, now, active, after, [])
  {}

  lemma {:induction false} ClosedCarry(p: Policy, id: TrackId, active: map<string, Evidence>, now: Time,
                                       keys: seq<string>, after: map<string, Evidence>)
    requires WellFiled(p, id, active) && forall key :: key in keys ==> key in active
    ensures AllCarry(id, now, active, after, ClosedEvents(active, id, now, keys))
    decreases |keys|
  {
    if keys == [] {
      assert ClosedEvents(active, id, now, keys) == [];
    } else {
      hide Expired, WellFiled, AllCarry, EventOf;
      var n := |keys| - 1;
      ClosedCarry(p, id, active, now, keys[..n], after);
      ClosingCarries(p, id, active, now, keys[n], after);
      AllCarrySum(id, now, active, after, ClosedEvents(active, id, now, keys[..n]),
                  if Expired(active[keys[n]], now) then [EventOf(Closed, id, now, active[keys[n]])] else []);
    }
  }

  lemma CarriesMore(id: TrackId, now: Time, before: map<string, Evidence>, after: map<string, Evidence>,
                    events: seq<Event>)
    requires AllCarry(id, now, map[], after, events)
    ensures AllCarry(id, now, before, after, events)
  {}

  /** Main result: every event names its track, the time of the observation and the state its type implies; an opening
      or update carries the evidence as the observation leaves it, a closing the evidence as it was before.
    */
  lemma EventsCarry(p: Policy, id: TrackId, t: Track, o: Observation)
    requires p.Valid() && WellFiled(p, id, t.active) && EvaluatorsNameRulesOnce(p)
    ensures
      var (after, events) := IngestTrack(p, id, t, o);
      AllCarry(id, o.observedAt, t.active, after.active, events)
  {
    hide Candidates, ApplyAll, ClosedEvents, SortedStrings, WellFiled, EvaluatorsNameRulesOnce, KeysDiffer, Carries,
        Follow, StillOpen;
    var open, cs := StillOpen(t.active, o.observedAt), Candidates(p, t, o);
    var (after, raised) := ApplyAll(p, id, open, o, cs);
    CandidateKeysDiffer(p, t, o);
    StillOpenIsFiled(p, id, t.active, o.observedAt);
    RaisedCarry(p, id, open, o, cs);
    assert AllCarry(id, o.observedAt, map[], after, raised);
    hide AllCarry;
    SortedStringsIsSorted(t.active.Keys);
    ClosedCarry(p, id, t.active, o.observedAt, SortedStrings(t.active.Keys), after);
    CarriesMore(id, o.observedAt, t.active, after, raised);
    AllCarrySum(id, o.observedAt, t.active, after, Expirations(t.active, id, o.observedAt), raised);
  }

  // ---------- what a track keeps, and its snapshot ----------

  /** The newest elements, at most cap of them. */
  function Newest<T>(s: seq<T>, cap: nat): seq<T> {
    if |s| <= cap then s else s[|s| - cap..]
  }

  lemma NewestAppend<T>(s: seq<T>, x: T, cap: nat)
    requires cap >= 1
    ensures LastN(Newest(s, cap) + [x], cap) == Newest(s + [x], cap)
  {}

  lemma ObservationKept(p: Policy, id: TrackId, t: Track, o: Observation)
    requires p.Valid()
    ensures IngestTrack(p, id, t, o).0.observations == LastN(t.observations + [o], p.maximumObservationsPerTrack)
  {
    hide ApplyAll, Candidates, Expirations, StillOpen, LastN;
  }

  lemma {:induction false} TrackKeepsNewest(p: Policy, id: TrackId, os: seq<Observation>)
    requires p.Valid()
    ensures TrackAfter(p, id, os).observations == Newest(os, p.maximumObservationsPerTrack)
    decreases |os|
  {
    hide IngestTrack, LastN, Newest;
    if os == [] {
      NewestOfNone(p.maximumObservationsPerTrack);
    } else {
      var n := |os| - 1;
      TrackKeepsNewest(p, id, os[..n]);
      ObservationKept(p, id, TrackAfter(p, id, os[..n]), os[n]);
      NewestAppend(os[..n], os[n], p.maximumObservationsPerTrack);
      assert os == os[..n] + [os[n]];
    }
  }

  lemma NewestOfNone(cap: nat)
    ensures Newest<Observation>([], cap) == []
  {}

  /** Main result: on every run of the engine the snapshot an observation returns is about that observation and as many
      of the newest ones of its track, since that was last started, as a track keeps.
    */
  lemma SnapshotOnEveryRun(p: Policy, os: seq<Observation>, o: Observation) returns (k: nat)
    requires p.Valid()
    ensures LastStart(p, os + [o], p.trackId(o), k) && k <= |os|
    ensures
      var own := OwnObservations(p, (os + [o])[k..], p.trackId(o));
      var n := if |own| <= p.maximumObservationsPerTrack then |own| else p.maximumObservationsPerTrack;
      var (after, s, _) := Ingest(p, EngineAfter(p, os), o);
      && 1 <= n <= |own| && own[|own| - 1] == o
      && s.track == p.trackId(o) && s.observedAt == o.observedAt && s.policyVersion == p.version
      && s.observationCount == n && after.tracks[s.track].observations == own[|own| - n..]
      && (o.observedAt >= own[|own| - n].observedAt ==> s.window == o.observedAt - own[|own| - n].observedAt)
      && (o.observedAt < own[|own| - n].observedAt ==> s.window == 0)
      && (s.tooFew <==> n < p.minimumObservations) && (s.windowTooShort <==> n < p.windowMinimum)
      && (s.noPosition <==> !o.hasPosition)
  {
    hide IngestTrack, MakeRoom, EngineAfter, TrackAfter, OwnObservations, LastStart;
    var id := p.trackId(o);
    k := TrackMetIsFold(p, os, o);
    var before := OwnObservations(p, os[k..], id);
    assert (os + [o])[..|os|] == os;
    OwnGrows(p, os + [o], k, id);
    TrackGrows(p, id, before, o);
    TrackKeepsNewest(p, id, before + [o]);
  }
}
