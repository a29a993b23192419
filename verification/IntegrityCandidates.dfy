/** What one observation can raise, and how the snapshot it leaves relates to the events it sends. */
module IntegrityCandidates {
  import opened DedupRing
  import opened Ordering
  import opened IntegrityModel
  import opened IntegrityProofs

  // ---------- keys ----------

  lemma KindNamesDiffer(a: Kind, b: Kind)
    requires KindName(a) == KindName(b)
    ensures a == b
  {
    var x, y := KindName(a), KindName(b);
    assert x[0] == y[0] && |x| == |y|;
  }

  lemma KindNameHasNoColon(k: Kind)
    ensures ':' !in KindName(k)
  {}

  lemma FirstColon(s: string, n: string, d: string)
    requires s == n + ":" + d && ':' !in n
    ensures |n| < |s| && s[|n|] == ':' && s[..|n|] == n && s[|n| + 1..] == d
    ensures forall i :: 0 <= i < |n| ==> s[i] != ':'
  {
    assert forall i :: 0 <= i < |n| ==> s[i] == n[i] && n[i] in n;
  }

  /** The text before the first colon and the text after it. */
  lemma SplitAtColon(n1: string, d1: string, n2: string, d2: string)
    requires ':' !in n1 && ':' !in n2 && n1 + ":" + d1 == n2 + ":" + d2
    ensures n1 == n2 && d1 == d2
  {
    FirstColon(n1 + ":" + d1, n1, d1);
    FirstColon(n1 + ":" + d1, n2, d2);
  }

  /** Keys of different kinds or discriminators never collide. */
  lemma KeysAreInjective(a: Candidate, b: Candidate)
    requires KeyOf(a) == KeyOf(b)
    ensures a.kind == b.kind && a.discriminator == b.discriminator
  {
    hide KindName;
    KindNameHasNoColon(a.kind);
    KindNameHasNoColon(b.kind);
    SplitAtColon(KindName(a.kind), a.discriminator, KindName(b.kind), b.discriminator);
    KindNamesDiffer(a.kind, b.kind);
  }

  // ---------- one candidate per key ----------

  predicate RulesDiffer(results: seq<RuleResult>) {
    forall i, j :: 0 <= i < j < |results| ==> results[i].rule != results[j].rule
  }

  /** An evaluator reports every rule at most once. */
  ghost predicate EvaluatorsNameRulesOnce(p: Policy) {
    && (forall a, b :: RulesDiffer(p.evaluatePair(a, b)))
    && (forall s :: RulesDiffer(p.evaluateWindow(s)))
  }

  predicate KeysDiffer(cs: seq<Candidate>) {
    forall i, j :: 0 <= i < j < |cs| ==> KeyOf(cs[i]) != KeyOf(cs[j])
  }

  predicate OfKinds(cs: seq<Candidate>, kinds: set<Kind>) {
    forall i :: 0 <= i < |cs| ==> cs[i].kind in kinds
  }

  lemma {:induction false} RuleCandidatesAre(kind: Kind, results: seq<RuleResult>)
    ensures |RuleCandidates(kind, results)| == |results|
    ensures forall i :: 0 <= i < |results| ==>
              RuleCandidates(kind, results)[i].kind == kind
                && RuleCandidates(kind, results)[i].discriminator == results[i].rule
  {
    hide SeverityOf;
    if results != [] { RuleCandidatesAre(kind, results[1..]); }
  }

  lemma RuleKeysDiffer(kind: Kind, results: seq<RuleResult>)
    requires RulesDiffer(results)
    ensures KeysDiffer(RuleCandidates(kind, results)) && OfKinds(RuleCandidates(kind, results), {kind})
  {
    hide KeyOf;
    RuleCandidatesAre(kind, results);
    hide RuleCandidates;
    var cs := RuleCandidates(kind, results);
    forall i, j | 0 <= i < j < |cs|
      ensures KeyOf(cs[i]) != KeyOf(cs[j])
    {
      if KeyOf(cs[i]) == KeyOf(cs[j]) { KeysAreInjective(cs[i], cs[j]); }
    }
  }

  /** Lists of different kinds can be put together. */
  lemma JoinKeys(a: seq<Candidate>, b: seq<Candidate>, ka: set<Kind>, kb: set<Kind>)
    requires KeysDiffer(a) && KeysDiffer(b) && OfKinds(a, ka) && OfKinds(b, kb) && ka !! kb
    ensures KeysDiffer(a + b) && OfKinds(a + b, ka + kb)
  {
    hide KeyOf;
    forall i, j | 0 <= i < |a| && 0 <= j < |b|
      ensures KeyOf(a[i]) != KeyOf(b[j])
    {
      if KeyOf(a[i]) == KeyOf(b[j]) { KeysAreInjective(a[i], b[j]); }
    }
  }

  lemma OrderKeysDiffer(p: Policy, previous: Observation, o: Observation)
    requires EvaluatorsNameRulesOnce(p)
    ensures KeysDiffer(OrderCandidates(p, previous, o))
    ensures OfKinds(OrderCandidates(p, previous, o), {TimingNonIncreasing, TimingOutOfOrder, TimingGap, PairKinematic})
  {
    hide KeyOf, RuleCandidates, RulesDiffer;
    var delta := o.observedAt - previous.observedAt;
    var a :=
      if delta <= 0
      then [Candidate(TimingNonIncreasing, "source_time", "not advancing", Seconds(delta), 0.0, Warning)]
      else [];
    var b := if delta < -p.maximumReordering
             then [Candidate(TimingOutOfOrder, "source_time", "out of order", Seconds(-delta),
                             Seconds(p.maximumReordering), Warning)]
             else [];
    var c :=
      if delta > p.gap
      then [Candidate(TimingGap, "continuity", "gap", Seconds(delta), Seconds(p.gap), Info)]
      else [];
    var d := RuleCandidates(PairKinematic, p.evaluatePair(previous, o));
    assert RulesDiffer(p.evaluatePair(previous, o));
    RuleKeysDiffer(PairKinematic, p.evaluatePair(previous, o));
    JoinKeys(a, b, {TimingNonIncreasing}, {TimingOutOfOrder});
    JoinKeys(a + b, c, {TimingNonIncreasing} + {TimingOutOfOrder}, {TimingGap});
    JoinKeys(a + b + c, d, {TimingNonIncreasing} + {TimingOutOfOrder} + {TimingGap}, {PairKinematic});
    assert OrderCandidates(p, previous, o) == a + b + c + d;
  }

  lemma LatencyKeysDiffer(p: Policy, o: Observation)
    ensures KeysDiffer(LatencyCandidates(p, o)) && OfKinds(LatencyCandidates(p, o), {TimingExcessiveLatency})
  {}

  lemma WindowKeysDiffer(p: Policy, observations: seq<Observation>, o: Observation)
    requires EvaluatorsNameRulesOnce(p)
    ensures KeysDiffer(WindowCandidates(p, observations, o))
            && OfKinds(WindowCandidates(p, observations, o), {WindowKinematic})
  {
    hide KeyOf, RuleCandidates, RulesDiffer, WindowItems;
    var items := WindowItems(observations, o.observedAt, p.windowDuration, p.windowMaximum);
    assert RulesDiffer(p.evaluateWindow(items));
    RuleKeysDiffer(WindowKinematic, p.evaluateWindow(items));
  }

  lemma DuplicateKeysDiffer(seen: Ring<string>, o: Observation)
    ensures KeysDiffer(DuplicateCandidates(seen, o)) && OfKinds(DuplicateCandidates(seen, o), {TimingDuplicate})
  {}

  lemma NothingDiffers(kinds: set<Kind>)
    ensures KeysDiffer([]) && OfKinds([], kinds)
  {}

  /** One observation raises every key at most once, provided the evaluators name every rule at most once. */
  lemma CandidateKeysDiffer(p: Policy, t: Track, o: Observation)
    requires p.Valid() && EvaluatorsNameRulesOnce(p)
    ensures KeysDiffer(Candidates(p, t, o))
  {
    hide DuplicateCandidates, OrderCandidates, LatencyCandidates, WindowCandidates, KeysDiffer, OfKinds,
        EvaluatorsNameRulesOnce;
    var order := {TimingNonIncreasing, TimingOutOfOrder, TimingGap, PairKinematic};
    var a := DuplicateCandidates(t.seen, o);
    var b := if t.observations == [] then [] else OrderCandidates(p, t.observations[|t.observations| - 1], o);
    var c := LatencyCandidates(p, o);
    var d := WindowCandidates(p, Remember(p, t.observations, o), o);
    DuplicateKeysDiffer(t.seen, o);
    NothingDiffers(order);
    if t.observations != [] { OrderKeysDiffer(p, t.observations[|t.observations| - 1], o); }
    LatencyKeysDiffer(p, o);
    WindowKeysDiffer(p, Remember(p, t.observations, o), o);
    JoinKeys(a, b, {TimingDuplicate}, order);
    JoinKeys(a + b, c, {TimingDuplicate} + order, {TimingExcessiveLatency});
    JoinKeys(a + b + c, d, {TimingDuplicate} + order + {TimingExcessiveLatency}, {WindowKinematic});
  }

  /** Event i raises the key of candidate i. */
  predicate Follow(events: seq<Event>, cs: seq<Candidate>) {
    && |events| == |cs|
    && forall i :: 0 <= i < |cs| ==> !events[i].eventType.Closed? && events[i].evidence.id.key == KeyOf(cs[i])
  }

  lemma FollowOn(events: seq<Event>, event: Event, cs: seq<Candidate>)
    requires cs != [] && Follow(events, cs[..|cs| - 1])
    requires !event.eventType.Closed? && event.evidence.id.key == KeyOf(cs[|cs| - 1])
    ensures Follow(events + [event], cs)
  {
    hide KeyOf;
    assert forall i :: 0 <= i < |cs| - 1 ==> cs[..|cs| - 1][i] == cs[i];
  }

  lemma RaisedEventOf(p: Policy, track: TrackId, active: map<string, Evidence>, o: Observation, c: Candidate)
    requires WellFiled(p, track, active)
    ensures
      var event := OpenOrUpdate(p, track, active, o, c).1;
      !event.eventType.Closed? && event.evidence.id.key == KeyOf(c)
  {
    hide KeyOf, MaxSeverity;
  }

  lemma {:induction false} RaisedEventsFollowCandidates(p: Policy, track: TrackId, active: map<string, Evidence>,
                                                        o: Observation, cs: seq<Candidate>)
    requires WellFiled(p, track, active)
    ensures Follow(ApplyAll(p, track, active, o, cs).1, cs)
    decreases |cs|
  {
    hide KeyOf, WellFiled, Follow, OpenOrUpdate;
    if cs == [] {
      NothingFollows();
    } else {
      var n := |cs| - 1;
      RaisedEventsFollowCandidates(p, track, active, o, cs[..n]);
      ApplyAllIsLegal(p, track, active, o, cs[..n]);
      var (before, events) := ApplyAll(p, track, active, o, cs[..n]);
      RaisedEventOf(p, track, before, o, cs[n]);
      FollowOn(events, OpenOrUpdate(p, track, before, o, cs[n]).1, cs);
    }
  }

  lemma NothingFollows()
    ensures Follow([], [])
  {}

  /** Main result: one observation opens or updates any piece of evidence at most once. */
  lemma EvidenceIsRaisedOnce(p: Policy, id: TrackId, t: Track, o: Observation)
    requires p.Valid() && WellFiled(p, id, t.active) && EvaluatorsNameRulesOnce(p)
    ensures
      var events := IngestTrack(p, id, t, o).1;
      forall i, j :: 0 <= i < j < |events| && !events[i].eventType.Closed? && !events[j].eventType.Closed? ==>
        events[i].evidence.id != events[j].evidence.id
  {
    hide Candidates, ApplyAll, Expirations, WellFiled, EvaluatorsNameRulesOnce, KeyOf;
    var open, cs := StillOpen(t.active, o.observedAt), Candidates(p, t, o);
    ExpirationsAreLegal(p, id, t.active, o.observedAt);
    StillOpenIsFiled(p, id, t.active, o.observedAt);
    CandidateKeysDiffer(p, t, o);
    RaisedEventsFollowCandidates(p, id, open, o, cs);
    ExpirationsClose(t.active, id, o.observedAt);
  }

  lemma StillOpenIsFiled(p: Policy, track: TrackId, active: map<string, Evidence>, now: Time)
    requires WellFiled(p, track, active)
    ensures WellFiled(p, track, StillOpen(active, now))
  {}

  lemma {:induction false} ClosedEventsClose(active: map<string, Evidence>, track: TrackId, now: Time,
                                             keys: seq<string>)
    requires forall key :: key in keys ==> key in active
    ensures forall i :: 0 <= i < |ClosedEvents(active, track, now, keys)| ==>
        ClosedEvents(active, track, now, keys)[i].eventType.Closed?
    decreases |keys|
  {
    if keys != [] { ClosedEventsClose(active, track, now, keys[..|keys| - 1]); }
  }

  lemma ExpirationsClose(active: map<string, Evidence>, track: TrackId, now: Time)
    ensures forall i :: 0 <= i < |Expirations(active, track, now)| ==>
              Expirations(active, track, now)[i].eventType.Closed?
  {
    hide ClosedEvents, SortedStrings;
    SortedStringsIsSorted(active.Keys);
    ClosedEventsClose(active, track, now, SortedStrings(active.Keys));
  }

  // ---------- timing evidence ----------

  predicate HasKind(cs: seq<Candidate>, kind: Kind) {
    exists i :: 0 <= i < |cs| && cs[i].kind == kind
  }

  predicate Raises(p: Policy, t: Track, o: Observation, kind: Kind)
    requires p.Valid()
  {
    HasKind(Candidates(p, t, o), kind)
  }

  lemma HasKindOfSum(a: seq<Candidate>, b: seq<Candidate>, kind: Kind)
    ensures HasKind(a + b, kind) <==> HasKind(a, kind) || HasKind(b, kind)
  {
    if HasKind(a, kind) {
      var i :| 0 <= i < |a| && a[i].kind == kind;
      assert (a + b)[i].kind == kind;
    }
    if HasKind(b, kind) {
      var i :| 0 <= i < |b| && b[i].kind == kind;
      assert (a + b)[|a| + i].kind == kind;
    }
  }

  lemma HasKindOfSumAll(a: seq<Candidate>, b: seq<Candidate>)
    ensures forall kind :: HasKind(a + b, kind) <==> HasKind(a, kind) || HasKind(b, kind)
  {
    forall kind ensures HasKind(a + b, kind) <==> HasKind(a, kind) || HasKind(b, kind) { HasKindOfSum(a, b, kind); }
  }

  lemma OtherKindsMissing(cs: seq<Candidate>, kinds: set<Kind>)
    requires OfKinds(cs, kinds)
    ensures forall kind :: HasKind(cs, kind) ==> kind in kinds
  {}

  /** A track's first observation raises no order evidence; later ones raise each kind exactly on its condition,
      so being out of order is a case of not advancing, and a gap excludes both.
    */
  lemma OrderEvidenceIsExact(p: Policy, t: Track, o: Observation)
    requires p.Valid()
    ensures t.observations == [] ==>
              !Raises(p, t, o, TimingOutOfOrder) && !Raises(p, t, o, TimingNonIncreasing) && !Raises(p, t, o, TimingGap)
    ensures t.observations != [] ==>
              var delta := o.observedAt - t.observations[|t.observations| - 1].observedAt;
              && (Raises(p, t, o, TimingNonIncreasing) <==> delta <= 0)
              && (Raises(p, t, o, TimingOutOfOrder) <==> delta < -p.maximumReordering)
              && (Raises(p, t, o, TimingGap) <==> delta > p.gap)
    ensures Raises(p, t, o, TimingOutOfOrder) ==> Raises(p, t, o, TimingNonIncreasing)
    ensures !(Raises(p, t, o, TimingGap) && Raises(p, t, o, TimingNonIncreasing))
  {
    hide DuplicateCandidates, OrderCandidates, LatencyCandidates, WindowCandidates, HasKind, OfKinds, KeysDiffer, LastN;
    var a := DuplicateCandidates(t.seen, o);
    var b := if t.observations == [] then [] else OrderCandidates(p, t.observations[|t.observations| - 1], o);
    var c := LatencyCandidates(p, o);
    var d := WindowCandidates(p, Remember(p, t.observations, o), o);
    HasKindOfSumAll(a, b);
    HasKindOfSumAll(a + b, c);
    HasKindOfSumAll(a + b + c, d);
    DuplicateKeysDiffer(t.seen, o);
    LatencyKeysDiffer(p, o);
    WindowKindOnly(p, Remember(p, t.observations, o), o);
    OtherKindsMissing(a, {TimingDuplicate});
    OtherKindsMissing(c, {TimingExcessiveLatency});
    OtherKindsMissing(d, {WindowKinematic});
    NothingDiffers({});
    OtherKindsMissing([], {});
    if t.observations != [] { OrderKinds(p, t.observations[|t.observations| - 1], o); }
  }

  lemma DuplicateIsRaised(p: Policy, t: Track, o: Observation)
    requires p.Valid()
    ensures Raises(p, t, o, TimingDuplicate) <==> IsDuplicate(t.seen, o)
  {
    hide OrderCandidates, LatencyCandidates, WindowCandidates, HasKind, OfKinds, KeysDiffer, LastN, IsDuplicate;
    var a := DuplicateCandidates(t.seen, o);
    var b := if t.observations == [] then [] else OrderCandidates(p, t.observations[|t.observations| - 1], o);
    var c := LatencyCandidates(p, o);
    var d := WindowCandidates(p, Remember(p, t.observations, o), o);
    HasKindOfSumAll(a, b);
    HasKindOfSumAll(a + b, c);
    HasKindOfSumAll(a + b + c, d);
    LatencyKeysDiffer(p, o);
    WindowKindOnly(p, Remember(p, t.observations, o), o);
    OtherKindsMissing(c, {TimingExcessiveLatency});
    OtherKindsMissing(d, {WindowKinematic});
    NothingDiffers({});
    OtherKindsMissing([], {});
    if t.observations != [] { OrderKindsOnly(p, t.observations[|t.observations| - 1], o); }
    DuplicateKind(t.seen, o);
  }

  lemma DuplicateKind(seen: Ring<string>, o: Observation)
    ensures HasKind(DuplicateCandidates(seen, o), TimingDuplicate) <==> IsDuplicate(seen, o)
  {
    if IsDuplicate(seen, o) { assert DuplicateCandidates(seen, o)[0].kind == TimingDuplicate; }
  }

  lemma OrderKindsOnly(p: Policy, previous: Observation, o: Observation)
    ensures !HasKind(OrderCandidates(p, previous, o), TimingDuplicate)
  {
    hide RuleCandidates, Seconds;
    RuleCandidatesAre(PairKinematic, p.evaluatePair(previous, o));
  }

  /** Main result: on every run of the engine, through purges and evictions, an observation is reported as a duplicate
      exactly when its message id is among the last ids its track admitted since it was last started, as many of them as
      a track keeps observations.
    */
  lemma DuplicateOnEveryRun(p: Policy, os: seq<Observation>, o: Observation) returns (k: nat)
    requires p.Valid()
    ensures
      var id, cap := p.trackId(o), p.maximumObservationsPerTrack;
      && LastStart(p, os + [o], id, k) && k <= |os|
      && (Raises(p, TrackOrNew(MakeRoom(p, EngineAfter(p, os), o), id), o, TimingDuplicate)
          <==> o.rawId != ""
               && o.rawId in LastN(Admitted(NEW_TRACK.seen, RawIds(OwnObservations(p, os[k..], id)), cap), cap))
  {
    hide Raises, MakeRoom, TrackAfter, OwnObservations, RawIds, Admitted, LastN, IsDuplicate, LastStart;
    var id := p.trackId(o);
    k := TrackMetIsFold(p, os, o);
    DuplicateIsRaised(p, TrackOrNew(MakeRoom(p, EngineAfter(p, os), o), id), o);
    DuplicateIsRecent(p, id, OwnObservations(p, os[k..], id), o);
  }

  lemma WindowKindOnly(p: Policy, observations: seq<Observation>, o: Observation)
    ensures OfKinds(WindowCandidates(p, observations, o), {WindowKinematic})
  {
    hide RuleCandidates, WindowItems;
    RuleCandidatesAre(WindowKinematic, p.evaluateWindow(WindowItems(observations, o.observedAt, p.windowDuration,
        p.windowMaximum)));
  }

  lemma OrderKinds(p: Policy, previous: Observation, o: Observation)
    ensures
      var cs, delta := OrderCandidates(p, previous, o), o.observedAt - previous.observedAt;
      && (HasKind(cs, TimingNonIncreasing) <==> delta <= 0)
      && (HasKind(cs, TimingOutOfOrder) <==> delta < -p.maximumReordering)
      && (HasKind(cs, TimingGap) <==> delta > p.gap)
  {
    hide RuleCandidates, Seconds;
    var delta := o.observedAt - previous.observedAt;
    var cs := OrderCandidates(p, previous, o);
    RuleCandidatesAre(PairKinematic, p.evaluatePair(previous, o));
    var second := if delta <= 0 then 1 else 0;
    var third := second + if delta < -p.maximumReordering then 1 else 0;
    if delta <= 0 { assert cs[0].kind == TimingNonIncreasing; }
    if delta < -p.maximumReordering { assert cs[second].kind == TimingOutOfOrder; }
    if delta > p.gap { assert cs[third].kind == TimingGap; }
  }

  // ---------- the snapshot ----------

  /** Main result: the snapshot lists what a subscriber to the events believes to be open, and calls the track
      questionable exactly when it has enough observations and that belief is not empty.
    */
  lemma SnapshotMatchesView(p: Policy, id: TrackId, t: Track)
    requires t.observations != [] && WellFiled(p, id, t.active)
    ensures
      var s, view := BuildSnapshot(p, id, t), ViewOf(p, id, t.active);
      && s.activeEvidence == view.Values
      && (s.state.InsufficientData? <==> |t.observations| < p.minimumObservations)
      && (s.state.Questionable? <==> |t.observations| >= p.minimumObservations && view != map[])
  {
    var view := ViewOf(p, id, t.active);
    forall e ensures e in t.active.Values <==> e in view.Values {
      if e in t.active.Values {
        var key :| key in t.active && t.active[key] == e;
        assert e.id in IdsOf(t.active) && view[e.id] == e;
      }
      if e in view.Values {
        var i :| i in view && view[i] == e;
        assert i.key in t.active;
      }
    }
    if t.active != map[] {
      var key :| key in t.active;
      assert t.active[key].id in view;
    }
  }

  lemma {:induction false} ExpiredKeyIsClosed(active: map<string, Evidence>, track: TrackId, now: Time,
                                              keys: seq<string>, key: string)
    requires (forall k :: k in keys ==> k in active) && key in keys && Expired(active[key], now)
    ensures ClosedEvents(active, track, now, keys) != []
    decreases |keys|
  {
    var n := |keys| - 1;
    if keys[n] != key {
      assert key in keys[..n];
      ExpiredKeyIsClosed(active, track, now, keys[..n], key);
    }
  }

  lemma {:induction false} NoExpiredKeyClosed(active: map<string, Evidence>, track: TrackId, now: Time,
                                              keys: seq<string>)
    requires forall k :: k in keys ==> k in active && !Expired(active[k], now)
    ensures ClosedEvents(active, track, now, keys) == []
    decreases |keys|
  {
    if keys != [] { NoExpiredKeyClosed(active, track, now, keys[..|keys| - 1]); }
  }

  /** Nothing is closed exactly when everything open stays open. */
  lemma ExpirationsExactly(active: map<string, Evidence>, track: TrackId, now: Time)
    ensures Expirations(active, track, now) == [] <==> StillOpen(active, now) == active
  {
    hide ClosedEvents, SortedStrings, Expired;
    var keys := SortedStrings(active.Keys);
    SortedStringsIsSorted(active.Keys);
    if key :| key in active && Expired(active[key], now) {
      assert key in keys;
      ExpiredKeyIsClosed(active, track, now, keys, key);
      assert key !in StillOpen(active, now);
    } else {
      NoExpiredKeyClosed(active, track, now, keys);
      assert StillOpen(active, now) == active;
    }
  }

  /** Main result: an observation sends events exactly when it raises something or something has expired. The state the
      last of them carries is then the snapshot's exactly when the track keeps enough observations, this one included,
      and the observation raises something or leaves nothing open.
    */
  lemma LastEventStateAgrees(p: Policy, id: TrackId, t: Track, o: Observation)
    requires p.Valid() && WellFiled(p, id, t.active) && |t.observations| <= p.maximumObservationsPerTrack
    ensures
      var (after, events) := IngestTrack(p, id, t, o);
      var raised, open := Candidates(p, t, o) != [], StillOpen(t.active, o.observedAt);
      && (events != [] <==> raised || open != t.active)
      && (events != [] ==>
            (events[|events| - 1].state == BuildSnapshot(p, id, after).state
             <==> |t.observations| + 1 >= p.minimumObservations
                  && p.maximumObservationsPerTrack >= p.minimumObservations
                  && (raised || open == map[])))
  {
    hide Candidates, Expirations, WellFiled, KeyOf, ApplyAll, StillOpen, Remember, Follow, RefreshesRaised;
    var open, cs := StillOpen(t.active, o.observedAt), Candidates(p, t, o);
    ExpirationsExactly(t.active, id, o.observedAt);
    ExpirationsClose(t.active, id, o.observedAt);
    EventStates(p, id, t, o);
    RememberLength(p, t.observations, o);
    if cs == [] {
      NothingApplied(p, id, open, o);
    } else {
      StillOpenIsFiled(p, id, t.active, o.observedAt);
      LastRaised(p, id, open, o, cs);
    }
  }

  lemma NothingApplied(p: Policy, id: TrackId, active: map<string, Evidence>, o: Observation)
    ensures ApplyAll(p, id, active, o, []) == (active, [])
  {}

  lemma LastRaised(p: Policy, id: TrackId, active: map<string, Evidence>, o: Observation, cs: seq<Candidate>)
    requires WellFiled(p, id, active) && cs != []
    ensures
      var (after, events) := ApplyAll(p, id, active, o, cs);
      after != map[] && events != [] && !events[|events| - 1].eventType.Closed?
  {
    hide KeyOf, ApplyAll, WellFiled;
    RaisedEventsFollowCandidates(p, id, active, o, cs);
    ApplyAllContinues(p, id, active, o, cs);
    assert KeyOf(cs[0]) in ApplyAll(p, id, active, o, cs).0;
  }

  lemma RememberLength(p: Policy, observations: seq<Observation>, o: Observation)
    requires p.Valid() && |observations| <= p.maximumObservationsPerTrack
    ensures
      |Remember(p, observations, o)| == if |observations| < p.maximumObservationsPerTrack then |observations| + 1
                                        else p.maximumObservationsPerTrack
  {}

  /** A policy whose evaluators find nothing. */
  function QuietPolicy(): Policy {
    Policy("1", 2_000_000, 10_000_000, 60_000_000, 60_000_000, 2, 2048, 64, 300_000_000, 5, 20, 120_000_000,
           (a: Observation, b: Observation) => [], (s: seq<Observation>) => [], (o: Observation) => 0)
  }

  function PlainObservation(at: Time): Observation {
    Observation("", "", false, "", at, at, true)
  }

  function OpenGap(p: Policy, key: string, last: Time): Evidence {
    Evidence(EvidenceId(p.version, 0, key, ""), TimingGap, Info, last, last, last + p.evidenceTtl, "gap", 61.0, 60.0)
  }

  /** One of two pieces of evidence has expired. */
  function HalfExpiredTrack(): Track {
    var p := QuietPolicy();
    Track([PlainObservation(0), PlainObservation(59_000_000)],
          map["TIMING_DUPLICATE:message" := OpenGap(p, "TIMING_DUPLICATE:message", 0),
              "TIMING_GAP:continuity" := OpenGap(p, "TIMING_GAP:continuity", 59_000_000)],
          Ring([], {}))
  }

  /** On that track the next quiet observation closes one piece of evidence, and the closing says NOMINAL while the
      snapshot stays QUESTIONABLE.
    */
  lemma ClosingCanContradictSnapshot()
    ensures
      var p, t, o := QuietPolicy(), HalfExpiredTrack(), PlainObservation(60_000_000);
      && p.Valid() && TrackInv(p, 0, t)
      && var (after, events) := IngestTrack(p, 0, t, o);
         && events != [] && events[|events| - 1].eventType.Closed? && events[|events| - 1].state.Nominal?
         && BuildSnapshot(p, 0, after).state.Questionable?
  {
    hide *;
    var p, t, o := QuietPolicy(), HalfExpiredTrack(), PlainObservation(60_000_000);
    HalfExpiredIsReady();
    QuietObservation();
    LastEventClosing(p, 0, t, o);
  }

  /** A quiet observation that leaves something open contradicts the snapshot with its last event. */
  lemma LastEventClosing(p: Policy, id: TrackId, t: Track, o: Observation)
    requires p.Valid() && TrackInv(p, id, t) && Candidates(p, t, o) == []
    requires |t.observations| + 1 >= p.minimumObservations && p.maximumObservationsPerTrack >= p.minimumObservations
    requires StillOpen(t.active, o.observedAt) != t.active && StillOpen(t.active, o.observedAt) != map[]
    ensures
      var (after, events) := IngestTrack(p, id, t, o);
      && events != [] && events[|events| - 1].eventType.Closed? && events[|events| - 1].state.Nominal?
      && BuildSnapshot(p, id, after).state.Questionable?
  {
    hide Candidates, Expirations, WellFiled, ApplyAll, StillOpen, Remember;
    NothingApplied(p, id, StillOpen(t.active, o.observedAt), o);
    ExpirationsExactly(t.active, id, o.observedAt);
    ExpirationsClose(t.active, id, o.observedAt);
    EventStates(p, id, t, o);
    RememberLength(p, t.observations, o);
  }

  lemma HalfExpiredIsReady()
    ensures
      var p, t, o := QuietPolicy(), HalfExpiredTrack(), PlainObservation(60_000_000);
      && p.Valid() && TrackInv(p, 0, t) && o.observedAt == 60_000_000
      && |t.observations| + 1 >= p.minimumObservations && p.maximumObservationsPerTrack >= p.minimumObservations
      && StillOpen(t.active, o.observedAt) != t.active && StillOpen(t.active, o.observedAt) != map[]
  {
    var t := HalfExpiredTrack();
    TwoKeysDiffer();
    var open := StillOpen(t.active, 60_000_000);
    assert "TIMING_GAP:continuity" in open && "TIMING_DUPLICATE:message" !in open;
  }

  lemma TwoKeysDiffer()
    ensures "TIMING_DUPLICATE:message" != "TIMING_GAP:continuity"
  {
    assert "TIMING_DUPLICATE:message"[7] != "TIMING_GAP:continuity"[7];
  }

  lemma QuietObservation()
    ensures Candidates(QuietPolicy(), HalfExpiredTrack(), PlainObservation(60_000_000)) == []
  {
    hide WindowItems, Remember;
  }

  predicate StatesFollowTypes(events: seq<Event>) {
    forall i :: 0 <= i < |events| ==> events[i].state == if events[i].eventType.Closed? then Nominal else Questionable
  }

  lemma {:induction false} RaisedStates(p: Policy, id: TrackId, active: map<string, Evidence>, o: Observation,
      cs: seq<Candidate>)
    ensures StatesFollowTypes(ApplyAll(p, id, active, o, cs).1)
    decreases |cs|
  {
    hide KeyOf, Refreshed;
    if cs != [] { RaisedStates(p, id, active, o, cs[..|cs| - 1]); }
  }

  lemma {:induction false} ClosedStates(active: map<string, Evidence>, id: TrackId, now: Time, keys: seq<string>)
    requires forall key :: key in keys ==> key in active
    ensures StatesFollowTypes(ClosedEvents(active, id, now, keys))
    decreases |keys|
  {
    if keys != [] { ClosedStates(active, id, now, keys[..|keys| - 1]); }
  }

  lemma EventStates(p: Policy, id: TrackId, t: Track, o: Observation)
    requires p.Valid()
    ensures StatesFollowTypes(IngestTrack(p, id, t, o).1)
  {
    hide Candidates, ApplyAll, ClosedEvents, SortedStrings;
    RaisedStates(p, id, StillOpen(t.active, o.observedAt), o, Candidates(p, t, o));
    SortedStringsIsSorted(t.active.Keys);
    ClosedStates(t.active, id, o.observedAt, SortedStrings(t.active.Keys));
  }
}
