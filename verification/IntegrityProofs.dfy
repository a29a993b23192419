/** What every run of the integrity engine keeps, and what its events tell a subscriber. */
module IntegrityProofs {
  import opened DedupRing
  import opened Ordering
  import opened IntegrityModel

  // ---------- the event protocol ----------

  /** Open evidence is filed under its own key and lives one TTL past its last observation. */
  ghost predicate WellFiled(p: Policy, track: TrackId, active: map<string, Evidence>) {
    forall key :: key in active ==>
      && active[key].id.key == key && active[key].id.track == track
      && active[key].expiresAt == active[key].lastObservedAt + p.evidenceTtl
  }

  /** What a subscriber that only sees events believes to be open. */
  type View = map<EvidenceId, Evidence>

  ghost function ViewOf(p: Policy, track: TrackId, active: map<string, Evidence>): View
    requires WellFiled(p, track, active)
  {
    map id | id in IdsOf(active) :: active[id.key]
  }

  ghost function IdsOf(active: map<string, Evidence>): set<EvidenceId> {
    set key | key in active :: active[key].id
  }

  function Receive(view: View, e: Event): View {
    if e.eventType.Closed? then view - {e.evidence.id} else view[e.evidence.id := e.evidence]
  }

  /** An event that makes sense to someone holding this view. */
  predicate Legal(view: View, e: Event) {
    var id := e.evidence.id;
    match e.eventType
    case Opened => id !in view
    case Updated => id in view && view[id].firstObservedAt == e.evidence.firstObservedAt
                    && Rank(view[id].severity) <= Rank(e.evidence.severity)
    case Closed => id in view && view[id] == e.evidence && Expired(e.evidence, e.observedAt)
  }

  function ReceiveAll(view: View, es: seq<Event>): View
    decreases |es|
  {
    if es == [] then view else Receive(ReceiveAll(view, es[..|es| - 1]), es[|es| - 1])
  }

  predicate AllLegal(view: View, es: seq<Event>)
    decreases |es|
  {
    es == [] || (AllLegal(view, es[..|es| - 1]) && Legal(ReceiveAll(view, es[..|es| - 1]), es[|es| - 1]))
  }

  lemma {:induction false} ReceiveAppend(view: View, a: seq<Event>, b: seq<Event>)
    ensures ReceiveAll(view, a + b) == ReceiveAll(ReceiveAll(view, a), b)
    ensures AllLegal(view, a + b) <==> AllLegal(view, a) && AllLegal(ReceiveAll(view, a), b)
    decreases |b|
  {
    if b == [] {
      assert a + b == a;
    } else {
      var n := |b| - 1;
      assert (a + b)[..|a + b| - 1] == a + b[..n];
      ReceiveAppend(view, a, b[..n]);
    }
  }

  lemma OpenOrUpdateIsLegal(p: Policy, track: TrackId, active: map<string, Evidence>, o: Observation, c: Candidate)
    requires WellFiled(p, track, active)
    ensures
      var (after, event) := OpenOrUpdate(p, track, active, o, c);
      && WellFiled(p, track, after)
      && Legal(ViewOf(p, track, active), event)
      && Receive(ViewOf(p, track, active), event) == ViewOf(p, track, after)
  {
    hide KeyOf, MaxSeverity;
    var key := KeyOf(c);
    var (after, event) := OpenOrUpdate(p, track, active, o, c);
    var e := Refreshed(p, track, active, o, c);
    if key in active { MaxSeverityIsUpper(active[key].severity, c.severity); }
    assert e.id.key == key;
    var view := ViewOf(p, track, active);
    if e.id in view { assert key in active; }
    if key in active { assert active[key].id in IdsOf(active); }
    forall id ensures id in IdsOf(after) <==> id in IdsOf(active) || id == e.id {
      if id in IdsOf(active) {
        assert id.key in active && active[id.key].id == id;
        assert after[id.key].id == id;
      }
      if id == e.id { assert after[key].id == id; }
    }
    assert Receive(view, event) == ViewOf(p, track, after);
  }

  lemma MaxSeverityIsUpper(a: Severity, b: Severity)
    ensures Rank(MaxSeverity(a, b)) >= Rank(a) && Rank(MaxSeverity(a, b)) >= Rank(b)
  {}

  lemma {:induction false} ApplyAllIsLegal(p: Policy, track: TrackId, active: map<string, Evidence>,
      o: Observation, cs: seq<Candidate>)
    requires WellFiled(p, track, active)
    ensures
      var (after, events) := ApplyAll(p, track, active, o, cs);
      && WellFiled(p, track, after)
      && AllLegal(ViewOf(p, track, active), events)
      && ReceiveAll(ViewOf(p, track, active), events) == ViewOf(p, track, after)
    decreases |cs|
  {
    hide OpenOrUpdate, Legal, Receive, ViewOf;
    if cs != [] {
      var n := |cs| - 1;
      ApplyAllIsLegal(p, track, active, o, cs[..n]);
      var (before, events) := ApplyAll(p, track, active, o, cs[..n]);
      OpenOrUpdateIsLegal(p, track, before, o, cs[n]);
      var (after, event) := OpenOrUpdate(p, track, before, o, cs[n]);
      assert (events + [event])[..|events|] == events;
    }
  }

  /** What is open once the expired ones among `keys` have been closed. */
  ghost function ClosedUpTo(active: map<string, Evidence>, now: Time, keys: seq<string>): map<string, Evidence> {
    map key | key in active && !(key in keys && Expired(active[key], now)) :: active[key]
  }

  lemma {:induction false} ClosedEventsAreLegal(p: Policy, track: TrackId, active: map<string, Evidence>,
      now: Time, keys: seq<string>)
    requires WellFiled(p, track, active) && Distinct(keys) && forall key :: key in keys ==> key in active
    ensures
      var events := ClosedEvents(active, track, now, keys);
      && AllLegal(ViewOf(p, track, active), events)
      && ReceiveAll(ViewOf(p, track, active), events) == ViewOf(p, track, ClosedUpTo(active, now, keys))
    decreases |keys|
  {
    if keys == [] {
      assert ClosedUpTo(active, now, keys) == active;
    } else {
      var n := |keys| - 1;
      var key := keys[n];
      ClosedEventsAreLegal(p, track, active, now, keys[..n]);
      var before := ClosedUpTo(active, now, keys[..n]);
      var after := ClosedUpTo(active, now, keys);
      assert key !in keys[..n];
      if Expired(active[key], now) {
        var event := EventOf(Closed, track, now, active[key]);
        CloseOne(p, track, before, key, event);
        assert after == map k | k in before && k != key :: before[k];
        var events := ClosedEvents(active, track, now, keys[..n]);
        assert (events + [event])[..|events|] == events;
      } else {
        assert after == before;
        var events := ClosedEvents(active, track, now, keys[..n]);
        assert events + [] == events;
      }
    }
  }

  lemma CloseOne(p: Policy, track: TrackId, active: map<string, Evidence>, key: string, event: Event)
    requires WellFiled(p, track, active) && key in active
    requires event.eventType.Closed? && event.evidence == active[key] && Expired(active[key], event.observedAt)
    ensures Legal(ViewOf(p, track, active), event)
    ensures Receive(ViewOf(p, track, active), event) == ViewOf(p, track, map k | k in active && k != key :: active[k])
  {
    var after := map k | k in active && k != key :: active[k];
    assert active[key].id in IdsOf(active);
    forall id ensures id in IdsOf(after) <==> id in IdsOf(active) && id != active[key].id {
      if id in IdsOf(active) && id != active[key].id {
        assert id.key in after && after[id.key].id == id;
      }
    }
  }

  lemma ExpirationsAreLegal(p: Policy, track: TrackId, active: map<string, Evidence>, now: Time)
    requires WellFiled(p, track, active)
    ensures
      && AllLegal(ViewOf(p, track, active), Expirations(active, track, now))
      && ReceiveAll(ViewOf(p, track, active), Expirations(active, track, now))
         == ViewOf(p, track, StillOpen(active, now))
  {
    hide ViewOf, ReceiveAll, AllLegal;
    var keys := SortedStrings(active.Keys);
    SortedStringsIsSorted(active.Keys);
    ClosedEventsAreLegal(p, track, active, now, keys);
    assert ClosedUpTo(active, now, keys) == StillOpen(active, now);
  }

  /** Main result: the events of one observation, replayed in order over what was open before,
      are each legal and end in exactly what is open afterwards.
    */
  lemma EventsTellTheWholeStory(p: Policy, id: TrackId, t: Track, o: Observation)
    requires p.Valid() && WellFiled(p, id, t.active)
    ensures
      var (after, events) := IngestTrack(p, id, t, o);
      && WellFiled(p, id, after.active)
      && AllLegal(ViewOf(p, id, t.active), events)
      && ReceiveAll(ViewOf(p, id, t.active), events) == ViewOf(p, id, after.active)
  {
    hide ViewOf, ReceiveAll, AllLegal, Candidates, ApplyAll, Expirations;
    var open := StillOpen(t.active, o.observedAt);
    ExpirationsAreLegal(p, id, t.active, o.observedAt);
    ApplyAllIsLegal(p, id, open, o, Candidates(p, t, o));
    var (after, events) := ApplyAll(p, id, open, o, Candidates(p, t, o));
    ReceiveAppend(ViewOf(p, id, t.active), Expirations(t.active, id, o.observedAt), events);
  }

  // ---------- open evidence over time ----------

  /** While a key stays open: same id, same first time, severity never lower. */
  ghost predicate Continues(before: map<string, Evidence>, after: map<string, Evidence>) {
    forall key :: key in before ==>
      && key in after && after[key].id == before[key].id
      && after[key].firstObservedAt == before[key].firstObservedAt
      && Rank(after[key].severity) >= Rank(before[key].severity)
  }

  predicate Raised(cs: seq<Candidate>, key: string) {
    exists i :: 0 <= i < |cs| && KeyOf(cs[i]) == key
  }

  /** Exactly the raised keys carry the new observation's time; every other key is as it was. */
  ghost predicate RefreshesRaised(p: Policy, before: map<string, Evidence>, after: map<string, Evidence>,
                                  o: Observation,
                                  cs: seq<Candidate>) {
    && (forall i :: 0 <= i < |cs| ==> KeyOf(cs[i]) in after)
    && (forall key :: key in after ==>
          if Raised(cs, key)
          then after[key].lastObservedAt == o.observedAt && after[key].expiresAt == o.observedAt + p.evidenceTtl
          else key in before && after[key] == before[key])
  }

  lemma {:induction false} ApplyAllContinues(p: Policy, track: TrackId, active: map<string, Evidence>,
      o: Observation, cs: seq<Candidate>)
    ensures Continues(active, ApplyAll(p, track, active, o, cs).0)
    ensures RefreshesRaised(p, active, ApplyAll(p, track, active, o, cs).0, o, cs)
    decreases |cs|
  {
    if cs != [] {
      hide KeyOf, Continues, RefreshesRaised, OpenOrUpdate;
      var n := |cs| - 1;
      ApplyAllContinues(p, track, active, o, cs[..n]);
      OpenOrUpdateContinues(p, track, active, ApplyAll(p, track, active, o, cs[..n]).0, o, cs);
    } else {
      NothingRefreshed(p, active, o);
    }
  }

  lemma NothingRefreshed(p: Policy, active: map<string, Evidence>, o: Observation)
    ensures Continues(active, active) && RefreshesRaised(p, active, active, o, [])
  {}

  lemma OpenOrUpdateContinues(p: Policy, track: TrackId, start: map<string, Evidence>, active: map<string, Evidence>,
                              o: Observation, cs: seq<Candidate>)
    requires cs != []
    requires Continues(start, active) && RefreshesRaised(p, start, active, o, cs[..|cs| - 1])
    ensures
      var after := OpenOrUpdate(p, track, active, o, cs[|cs| - 1]).0;
      Continues(start, after) && RefreshesRaised(p, start, after, o, cs)
  {
    hide KeyOf, OpenOrUpdate, RefreshesRaised;
    var n := |cs| - 1;
    OneRefresh(p, track, active, o, cs[n]);
    RefreshesMore(p, start, active, OpenOrUpdate(p, track, active, o, cs[n]).0, o, cs);
  }

  lemma OneRefresh(p: Policy, track: TrackId, active: map<string, Evidence>, o: Observation, c: Candidate)
    ensures
      var after := OpenOrUpdate(p, track, active, o, c).0;
      && Continues(active, after) && KeyOf(c) in after && after == active[KeyOf(c) := after[KeyOf(c)]]
      && after[KeyOf(c)].lastObservedAt == o.observedAt && after[KeyOf(c)].expiresAt == o.observedAt + p.evidenceTtl
  {
    hide KeyOf;
  }

  lemma RefreshesMore(p: Policy, start: map<string, Evidence>, active: map<string, Evidence>,
                      after: map<string, Evidence>,
                      o: Observation, cs: seq<Candidate>)
    requires cs != [] && RefreshesRaised(p, start, active, o, cs[..|cs| - 1])
    requires KeyOf(cs[|cs| - 1]) in after && after == active[KeyOf(cs[|cs| - 1]) := after[KeyOf(cs[|cs| - 1])]]
    requires
      var e := after[KeyOf(cs[|cs| - 1])];
      e.lastObservedAt == o.observedAt && e.expiresAt == o.observedAt + p.evidenceTtl
    ensures RefreshesRaised(p, start, after, o, cs)
  {
    hide KeyOf;
    var n := |cs| - 1;
    assert forall i :: 0 <= i < n ==> cs[..n][i] == cs[i];
    forall key | key in after
      ensures Raised(cs, key) <==> key == KeyOf(cs[n]) || Raised(cs[..n], key)
    {
      if Raised(cs[..n], key) {
        var i :| 0 <= i < n && KeyOf(cs[..n][i]) == key;
        assert KeyOf(cs[i]) == key;
      }
    }
  }

  /** Main result: evidence that has not expired is continued; and no expired evidence is left open
      exactly when the TTL is positive or nothing was raised (a TTL of zero is accepted by the policy loader).
    */
  lemma OpenEvidenceIsCurrent(p: Policy, id: TrackId, t: Track, o: Observation)
    requires p.Valid() && WellFiled(p, id, t.active)
    ensures
      var after := IngestTrack(p, id, t, o).0.active;
      && Continues(StillOpen(t.active, o.observedAt), after)
      && ((forall key :: key in after ==> !Expired(after[key], o.observedAt))
          <==> p.evidenceTtl > 0 || Candidates(p, t, o) == [])
  {
    hide KeyOf, Candidates, ApplyAll;
    var open, cs := StillOpen(t.active, o.observedAt), Candidates(p, t, o);
    ApplyAllContinues(p, id, open, o, cs);
    if p.evidenceTtl <= 0 && cs != [] {
      assert KeyOf(cs[0]) in ApplyAll(p, id, open, o, cs).0;
    }
  }

  // ---------- duplicate messages ----------

  /** A track that has seen these observations and was never purged or evicted. */
  function TrackAfter(p: Policy, id: TrackId, os: seq<Observation>): Track
    requires p.Valid()
    decreases |os|
  {
    if os == [] then NEW_TRACK else IngestTrack(p, id, TrackAfter(p, id, os[..|os| - 1]), os[|os| - 1]).0
  }

  function RawIds(os: seq<Observation>): seq<string> {
    if os == [] then []
    else RawIds(os[..|os| - 1]) + if os[|os| - 1].rawId == "" then [] else [os[|os| - 1].rawId]
  }

  lemma {:induction false} SeenIsRing(p: Policy, id: TrackId, os: seq<Observation>)
    requires p.Valid()
    ensures TrackAfter(p, id, os).seen == Run(NEW_TRACK.seen, RawIds(os), p.maximumObservationsPerTrack)
    decreases |os|
  {
    if os == [] {
      assert RawIds(os) == [];
    } else {
      hide ApplyAll, Candidates, Expirations, StillOpen, Ring.Offer, Remember;
      var n := |os| - 1;
      SeenIsRing(p, id, os[..n]);
      var before := RawIds(os[..n]);
      assert (before + [os[n].rawId])[..|before|] == before && before + [] == before;
    }
  }

  /** On a track that has seen these observations, a message id counts as a duplicate exactly when it is among the last
      ids the track admitted, as many of them as it keeps observations.
    */
  lemma DuplicateIsRecent(p: Policy, id: TrackId, os: seq<Observation>, o: Observation)
    requires p.Valid()
    ensures
      var cap := p.maximumObservationsPerTrack;
      IsDuplicate(TrackAfter(p, id, os).seen, o)
      <==> o.rawId != "" && o.rawId in LastN(Admitted(NEW_TRACK.seen, RawIds(os), cap), cap)
  {
    hide TrackAfter, RawIds, Run, Admitted, LastN;
    SeenIsRing(p, id, os);
    RingAgreesOnEveryRun(NEW_TRACK.seen, RawIds(os), p.maximumObservationsPerTrack);
  }

  // ---------- reachable states of the engine ----------

  ghost predicate TrackInv(p: Policy, id: TrackId, t: Track) {
    && 1 <= |t.observations| <= p.maximumObservationsPerTrack
    && t.seen.Valid(p.maximumObservationsPerTrack)
    && WellFiled(p, id, t.active)
  }

  ghost predicate EngineInv(p: Policy, e: Engine) {
    && |e.tracks| <= p.maximumTracks
    && (forall id :: id in e.tracks ==> TrackInv(p, id, e.tracks[id]))
    && e.snapshots.Keys == e.tracks.Keys
    && (forall id :: id in e.tracks ==> e.snapshots[id] == BuildSnapshot(p, id, e.tracks[id]))
  }

  lemma WithoutShrinks<V>(m: map<TrackId, V>, ids: set<TrackId>)
    ensures Without(m, ids).Keys == m.Keys - ids && |Without(m, ids)| <= |m|
  {
    assert Without(m, ids).Keys == m.Keys - ids;
    SubsetSize(m.Keys - ids, m.Keys);
    assert |Without(m, ids)| == |Without(m, ids).Keys| && |m| == |m.Keys|;
  }

  lemma SubsetSize<T>(a: set<T>, b: set<T>)
    requires a <= b
    ensures |a| <= |b|
  {
    assert b == a + (b - a);
  }

  lemma DropKeepsInv(p: Policy, e: Engine, ids: set<TrackId>)
    requires EngineInv(p, e)
    ensures EngineInv(p, Drop(e, ids))
  {
    hide BuildSnapshot, TrackInv;
    WithoutShrinks(e.tracks, ids);
    WithoutShrinks(e.snapshots, ids);
  }

  /** Eviction happens only at capacity, and then removes just the track with the least (last time, id). */
  lemma EvictionIsMinimal(p: Policy, e: Engine)
    requires p.Valid() && EngineInv(p, e)
    ensures EngineInv(p, Evicted(e, p.maximumTracks)) && |Evicted(e, p.maximumTracks).tracks| < p.maximumTracks
    ensures |e.tracks| < p.maximumTracks ==> Evicted(e, p.maximumTracks) == e
    ensures |e.tracks| == p.maximumTracks ==>
              && IsOldest(e.tracks, Oldest(e.tracks))
              && Evicted(e, p.maximumTracks) == Drop(e, {Oldest(e.tracks)})
  {
    hide BuildSnapshot, TrackInv;
    if |e.tracks| == p.maximumTracks {
      var m := Oldest(e.tracks);
      DropKeepsInv(p, e, {m});
      assert e.tracks.Keys == Without(e.tracks, {m}).Keys + {m};
      assert |Drop(e, {m}).tracks| == |e.tracks| - 1;
    }
  }

  lemma OldestIsUnique(tracks: map<TrackId, Track>, a: TrackId, b: TrackId)
    requires IsOldest(tracks, a) && IsOldest(tracks, b)
    ensures a == b
  {
    assert OlderOrSame(tracks, a, b) && OlderOrSame(tracks, b, a);
  }

  lemma RoomKeepsInv(p: Policy, e: Engine, o: Observation)
    requires p.Valid() && EngineInv(p, e)
    ensures EngineInv(p, MakeRoom(p, e, o))
    ensures p.trackId(o) !in MakeRoom(p, e, o).tracks ==> |MakeRoom(p, e, o).tracks| < p.maximumTracks
    ensures forall id :: id in MakeRoom(p, e, o).tracks ==>
              id in e.tracks && MakeRoom(p, e, o).tracks[id] == e.tracks[id]
                  && LastTime(e.tracks[id]) >= o.observedAt - p.inactiveTrack
  {
    hide BuildSnapshot, TrackInv, LastTime;
    var purged := Drop(e, Stale(p, e.tracks, o.observedAt));
    DropKeepsInv(p, e, Stale(p, e.tracks, o.observedAt));
    EvictionIsMinimal(p, purged);
  }

  /** The tracks an observation at this time does not find stale. */
  ghost function Recent(p: Policy, tracks: map<TrackId, Track>, now: Time): set<TrackId> {
    set id | id in tracks && LastTime(tracks[id]) >= now - p.inactiveTrack
  }

  /** Why a track has to make room: it is stale, or a new track arrives at capacity and it is the oldest of the
      others, the one with the least id among the oldest.
    */
  ghost predicate MakesWay(p: Policy, e: Engine, o: Observation, other: TrackId)
    requires other in e.tracks
  {
    var recent, last := Recent(p, e.tracks, o.observedAt), LastTime(e.tracks[other]);
    || last < o.observedAt - p.inactiveTrack
    || (p.trackId(o) !in recent && |recent| == p.maximumTracks
        && forall id :: id in recent ==>
             last < LastTime(e.tracks[id]) || (last == LastTime(e.tracks[id]) && other <= id))
  }

  lemma RecentAreNotStale(p: Policy, e: Engine, now: Time)
    ensures
      var purged := Drop(e, Stale(p, e.tracks, now)).tracks;
      purged.Keys == Recent(p, e.tracks, now) && |purged| == |Recent(p, e.tracks, now)|
  {
    hide LastTime;
    var purged := Drop(e, Stale(p, e.tracks, now)).tracks;
    assert |purged| == |purged.Keys|;
  }

  lemma RoomSurvivors(p: Policy, e: Engine, o: Observation)
    requires p.Valid() && EngineInv(p, e)
    ensures forall other :: other in e.tracks ==> (other in MakeRoom(p, e, o).tracks <==> !MakesWay(p, e, o, other))
  {
    hide BuildSnapshot, TrackInv, LastTime, Evicted;
    var purged := Drop(e, Stale(p, e.tracks, o.observedAt));
    DropKeepsInv(p, e, Stale(p, e.tracks, o.observedAt));
    EvictionIsMinimal(p, purged);
    RecentAreNotStale(p, e, o.observedAt);
    if |purged.tracks| == p.maximumTracks {
      forall other | other in purged.tracks && IsOldest(purged.tracks, other)
        ensures other == Oldest(purged.tracks)
      {
        OldestIsUnique(purged.tracks, other, Oldest(purged.tracks));
      }
    }
  }

  lemma NewTrackIsReady(p: Policy, id: TrackId, o: Observation)
    requires p.Valid()
    ensures WellFiled(p, id, NEW_TRACK.active) && NEW_TRACK.seen.Valid(p.maximumObservationsPerTrack)
  {}

  lemma IngestTrackKeepsInv(p: Policy, id: TrackId, t: Track, o: Observation)
    requires p.Valid() && WellFiled(p, id, t.active) && t.seen.Valid(p.maximumObservationsPerTrack)
    ensures TrackInv(p, id, IngestTrack(p, id, t, o).0)
  {
    hide ApplyAll, Candidates, Expirations, WellFiled;
    EventsTellTheWholeStory(p, id, t, o);
    if o.rawId != "" && o.rawId !in t.seen.ids {
      PushKeepsValid(t.seen, o.rawId, p.maximumObservationsPerTrack);
    }
  }

  lemma InsertSize<V>(m: map<TrackId, V>, id: TrackId, v: V)
    ensures m[id := v].Keys == m.Keys + {id}
    ensures |m[id := v]| == if id in m then |m| else |m| + 1
  {
    var after := m[id := v];
    assert after.Keys == m.Keys + {id};
    assert |after| == |after.Keys| && |m| == |m.Keys|;
    if id in m { assert after.Keys == m.Keys; }
  }

  lemma IngestKeepsInv(p: Policy, e: Engine, o: Observation)
    requires p.Valid() && EngineInv(p, e)
    ensures EngineInv(p, Ingest(p, e, o).0)
  {
    hide BuildSnapshot, IngestTrack, MakeRoom, WellFiled;
    var id, room := p.trackId(o), MakeRoom(p, e, o);
    RoomKeepsInv(p, e, o);
    NewTrackIsReady(p, id, o);
    var t := TrackOrNew(room, id);
    assert WellFiled(p, id, t.active) && t.seen.Valid(p.maximumObservationsPerTrack);
    IngestTrackKeepsInv(p, id, t, o);
    AddTrackKeepsInv(p, room, id, IngestTrack(p, id, t, o).0);
  }

  lemma TrackHasObservation(p: Policy, id: TrackId, t: Track)
    requires TrackInv(p, id, t)
    ensures t.observations != []
  {}

  lemma AddTrackKeepsInv(p: Policy, e: Engine, id: TrackId, t: Track)
    requires EngineInv(p, e) && TrackInv(p, id, t)
    requires id !in e.tracks ==> |e.tracks| < p.maximumTracks
    ensures EngineInv(p, Engine(e.tracks[id := t], e.snapshots[id := BuildSnapshot(p, id, t)]))
  {
    hide BuildSnapshot, TrackInv;
    assert t.observations != [] by { TrackHasObservation(p, id, t); }
    InsertSize(e.tracks, id, t);
    InsertSize(e.snapshots, id, BuildSnapshot(p, id, t));
  }

  /** Main result: on every run the tracks are bounded, every track is well formed, and every cached
      snapshot is the one its track would give now.
    */
  lemma {:induction false} EveryRunKeepsInv(p: Policy, os: seq<Observation>)
    requires p.Valid()
    ensures EngineInv(p, EngineAfter(p, os))
    ensures
      var e := EngineAfter(p, os);
      forall id :: id in e.tracks ==> LastTime(e.tracks[id]) == e.snapshots[id].observedAt
    decreases |os|
  {
    hide Ingest;
    if os != [] {
      EveryRunKeepsInv(p, os[..|os| - 1]);
      IngestKeepsInv(p, EngineAfter(p, os[..|os| - 1]), os[|os| - 1]);
    }
  }

  /** Main result: an observation removes another track exactly when that is stale or has to make way for a new one, and
      leaves every other surviving track alone; the events it returns account for its own track, starting from nothing
      if that track was unknown, purged or evicted.
    */
  lemma IngestOnEveryRun(p: Policy, os: seq<Observation>, o: Observation)
    requires p.Valid()
    ensures
      var e, id := EngineAfter(p, os), p.trackId(o);
      var (after, snapshot, events) := Ingest(p, e, o);
      var before := TrackOrNew(MakeRoom(p, e, o), id);
      && id in after.tracks && after.snapshots[id] == snapshot
      && (forall other :: other in after.tracks && other != id ==>
            && other in e.tracks && after.tracks[other] == e.tracks[other]
            && LastTime(after.tracks[other]) >= o.observedAt - p.inactiveTrack)
      && (forall other :: other in e.tracks && other != id ==> (other in after.tracks <==> !MakesWay(p, e, o, other)))
      && WellFiled(p, id, before.active) && WellFiled(p, id, after.tracks[id].active)
      && AllLegal(ViewOf(p, id, before.active), events)
      && ReceiveAll(ViewOf(p, id, before.active), events) == ViewOf(p, id, after.tracks[id].active)
  {
    hide BuildSnapshot, IngestTrack, MakeRoom, ViewOf, ReceiveAll, AllLegal, LastTime, MakesWay;
    EveryRunKeepsInv(p, os);
    var e, id := EngineAfter(p, os), p.trackId(o);
    RoomSurvivors(p, e, o);
    RoomKeepsInv(p, e, o);
    NewTrackIsReady(p, id, o);
    EventsTellTheWholeStory(p, id, TrackOrNew(MakeRoom(p, e, o), id), o);
  }

  // ---------- duplicates on every run of the engine ----------

  /** The observations of one track. */
  function OwnObservations(p: Policy, os: seq<Observation>, id: TrackId): seq<Observation> {
    if os == [] then []
    else OwnObservations(p, os[..|os| - 1], id) + if p.trackId(os[|os| - 1]) == id then [os[|os| - 1]] else []
  }

  lemma OwnGrows(p: Policy, os: seq<Observation>, k: nat, id: TrackId)
    requires k < |os|
    ensures
      var own := OwnObservations(p, os[..|os| - 1][k..], id);
      OwnObservations(p, os[k..], id) == if p.trackId(os[|os| - 1]) == id then own + [os[|os| - 1]] else own
  {
    var n := |os| - 1;
    assert os[k..][..|os[k..]| - 1] == os[..n][k..];
    var own := OwnObservations(p, os[..n][k..], id);
    assert own + [] == own;
  }

  lemma TrackGrows(p: Policy, id: TrackId, own: seq<Observation>, o: Observation)
    requires p.Valid()
    ensures TrackAfter(p, id, own + [o]) == IngestTrack(p, id, TrackAfter(p, id, own), o).0
    ensures TrackAfter(p, id, []) == NEW_TRACK
  {
    hide IngestTrack;
    assert (own + [o])[..|own|] == own;
  }

  /** What one observation does to a track of the engine. */
  lemma IngestOnTrack(p: Policy, e: Engine, o: Observation, id: TrackId)
    requires p.Valid() && EngineInv(p, e) && id in Ingest(p, e, o).0.tracks
    ensures
      var after, room := Ingest(p, e, o).0.tracks[id], MakeRoom(p, e, o).tracks;
      && (id == p.trackId(o) ==> after == IngestTrack(p, id, TrackOrNew(MakeRoom(p, e, o), id), o).0)
      && (id != p.trackId(o) ==> id in room && after == room[id])
      && (id in room ==> id in e.tracks && room[id] == e.tracks[id])
  {
    hide IngestTrack, MakeRoom, BuildSnapshot, EngineInv;
    RoomKeepsInv(p, e, o);
  }

  /** Observation m starts its track afresh: the track was new, purged or evicted. */
  ghost predicate StartsTrack(p: Policy, os: seq<Observation>, id: TrackId, m: nat)
    requires p.Valid() && m < |os|
  {
    p.trackId(os[m]) == id && id !in MakeRoom(p, EngineAfter(p, os[..m]), os[m]).tracks
  }

  /** Observation k is the last one to start this track. */
  ghost predicate LastStart(p: Policy, os: seq<Observation>, id: TrackId, k: nat)
    requires p.Valid()
  {
    k < |os| && StartsTrack(p, os, id, k) && forall m :: k < m < |os| ==> !StartsTrack(p, os, id, m)
  }

  lemma StartsAlike(p: Policy, os: seq<Observation>, o: Observation, id: TrackId, m: nat)
    requires p.Valid() && m < |os|
    ensures StartsTrack(p, os + [o], id, m) == StartsTrack(p, os, id, m)
  {
    hide MakeRoom, EngineAfter;
    assert (os + [o])[..m] == os[..m];
  }

  lemma LastStartExtends(p: Policy, os: seq<Observation>, o: Observation, id: TrackId, k: nat)
    requires p.Valid()
    requires if StartsTrack(p, os + [o], id, |os|) then k == |os| else LastStart(p, os, id, k)
    ensures LastStart(p, os + [o], id, k)
  {
    hide StartsTrack;
    forall m | 0 <= m < |os|
      ensures StartsTrack(p, os + [o], id, m) == StartsTrack(p, os, id, m)
    {
      StartsAlike(p, os, o, id, m);
    }
  }

  /** Every track of the engine is the fold of its own observations from the last one on that started it. */
  lemma {:induction false} EngineTrackIsFold(p: Policy, os: seq<Observation>, id: TrackId) returns (k: nat)
    requires p.Valid() && id in EngineAfter(p, os).tracks
    ensures LastStart(p, os, id, k)
    ensures EngineAfter(p, os).tracks[id] == TrackAfter(p, id, OwnObservations(p, os[k..], id))
    decreases |os|
  {
    hide Ingest, IngestTrack, TrackAfter, OwnObservations, EngineInv, MakeRoom, LastStart;
    var n := |os| - 1;
    var e, o := EngineAfter(p, os[..n]), os[n];
    assert os[..n] + [o] == os;
    EveryRunKeepsInv(p, os[..n]);
    IngestOnTrack(p, e, o, id);
    if id in MakeRoom(p, e, o).tracks {
      k := EngineTrackIsFold(p, os[..n], id);
      LastStartExtends(p, os[..n], o, id, k);
      LastStartIsInside(p, os[..n], id, k);
      OwnGrows(p, os, k, id);
      TrackGrows(p, id, OwnObservations(p, os[..n][k..], id), o);
    } else {
      k := n;
      LastStartExtends(p, os[..n], o, id, n);
      OwnGrows(p, os, n, id);
      NothingOwned(p, id);
      assert os[..n][n..] == [] && [] + [o] == [o];
      TrackGrows(p, id, [], o);
    }
  }

  lemma LastStartIsInside(p: Policy, os: seq<Observation>, id: TrackId, k: nat)
    requires p.Valid() && LastStart(p, os, id, k)
    ensures k < |os|
  {}

  lemma NothingOwned(p: Policy, id: TrackId)
    ensures OwnObservations(p, [], id) == []
  {}

  /** The track an observation meets on a run is the fold of its own earlier observations from the last start on; when
      it starts the track itself there are none.
    */
  lemma TrackMetIsFold(p: Policy, os: seq<Observation>, o: Observation) returns (k: nat)
    requires p.Valid()
    ensures
      var id := p.trackId(o);
      && LastStart(p, os + [o], id, k) && k <= |os|
      && TrackOrNew(MakeRoom(p, EngineAfter(p, os), o), id) == TrackAfter(p, id, OwnObservations(p, os[k..], id))
  {
    hide Ingest, IngestTrack, TrackAfter, OwnObservations, EngineInv, MakeRoom, LastStart;
    var id := p.trackId(o);
    EveryRunKeepsInv(p, os);
    RoomKeepsInv(p, EngineAfter(p, os), o);
    assert (os + [o])[..|os|] == os;
    if id in MakeRoom(p, EngineAfter(p, os), o).tracks {
      k := EngineTrackIsFold(p, os, id);
      LastStartIsInside(p, os, id, k);
    } else {
      k := |os|;
      assert os[k..] == [];
      NothingOwned(p, id);
      TrackGrows(p, id, [], o);
    }
    LastStartExtends(p, os, o, id, k);
  }
}
