/** backend/integrity_core/engine.py: the engine and its tracks as mutable objects, each method tied to
    the function on values it computes.
  */
module IntegrityEngineClass {
  import opened DedupRing
  import opened Ordering
  import opened IntegrityModel
  import opened IntegrityProofs

  /** One track: bounded observations, open evidence, and the ring and set of message ids. */
  class TrackRecord {
    var observations: seq<Observation>
    var active: map<string, Evidence>
    var seenMessageIds: set<string>
    var seenMessageOrder: seq<string>

    constructor ()
      ensures Value() == NEW_TRACK
    {
      observations, active, seenMessageIds, seenMessageOrder := [], map[], {}, [];
    }

    function Value(): Track
      reads this
    {
      Track(observations, active, Ring(seenMessageOrder, seenMessageIds))
    }

    method RememberId(rawId: string, cap: nat)
      requires cap >= 1 && rawId !in seenMessageIds && |seenMessageOrder| <= cap
      modifies this`seenMessageIds, this`seenMessageOrder
      ensures Ring(seenMessageOrder, seenMessageIds) == old(Value()).seen.Push(rawId, cap)
    {
      if cap != 0 && |seenMessageOrder| == cap {
        seenMessageIds := seenMessageIds - {seenMessageOrder[0]};
      }
      seenMessageOrder := LastN(seenMessageOrder + [rawId], cap);
      seenMessageIds := seenMessageIds + {rawId};
    }

    method Expire(id: TrackId, now: Time) returns (events: seq<Event>)
      modifies this`active
      ensures events == Expirations(old(active), id, now)
      ensures active == StillOpen(old(active), now)
    {
      hide LexLeq, SortedStrings, EventOf, ClosedEvents, ClosedUpTo, StillOpen;
      SortedStringsIsSorted(active.Keys);
      var keys := SortedStrings(active.Keys);
      ghost var before := active;
      NothingClosed(before, id, now);
      events := [];
      var i := 0;
      while i < |keys|
        invariant 0 <= i <= |keys|
        invariant events == ClosedEvents(before, id, now, keys[..i])
        invariant active == ClosedUpTo(before, now, keys[..i])
      {
        var key := keys[i];
        CloseStep(before, id, now, keys, i);
        var evidence := active[key];
        if evidence.expiresAt <= now {
          active := map k | k in active && k != key :: active[k];
          events := events + [EventOf(Closed, id, now, evidence)];
        }
        i := i + 1;
      }
      assert keys[..i] == keys;
      AllClosed(before, now, keys);
    }

    method Raise(p: Policy, id: TrackId, o: Observation, c: Candidate) returns (event: Event)
      modifies this`active
      ensures (active, event) == OpenOrUpdate(p, id, old(active), o, c)
    {
      var key := KeyOf(c);
      var evidence, eventType;
      if key !in active {
        evidence := Evidence(EvidenceId(p.version, id, key, o.id), c.kind, c.severity, o.observedAt, o.observedAt,
                             o.observedAt + p.evidenceTtl, c.summary, c.measured, c.threshold);
        eventType := Opened;
      } else {
        var existing := active[key];
        evidence := existing.(severity := MaxSeverity(existing.severity, c.severity), lastObservedAt := o.observedAt,
                              expiresAt := o.observedAt + p.evidenceTtl, summary := c.summary, measured := c.measured,
                              threshold := c.threshold);
        eventType := Updated;
      }
      active := active[key := evidence];
      event := EventOf(eventType, id, o.observedAt, evidence);
    }

    /** The body of `ingest` from the expiry on: everything one observation does to its own track. */
    method Observe(p: Policy, id: TrackId, o: Observation) returns (events: seq<Event>)
      requires p.Valid() && |Value().seen.order| <= p.maximumObservationsPerTrack
      modifies this
      ensures (Value(), events) == IngestTrack(p, id, old(Value()), o)
    {
      hide ApplyAll, OrderCandidates, LatencyCandidates, WindowCandidates, Expirations, StillOpen, OpenOrUpdate, LastN;
      ghost var before := Value();
      events := Expire(id, o.observedAt);
      ghost var closed := events;
      var candidates := [];
      var isDuplicate := o.rawId != "" && o.rawId in seenMessageIds;
      if isDuplicate {
        candidates := candidates + [Candidate(TimingDuplicate, "message", "duplicate", 1.0, 0.0, Warning)];
      }
      assert candidates == DuplicateCandidates(before.seen, o);
      if o.rawId != "" && !isDuplicate {
        RememberId(o.rawId, p.maximumObservationsPerTrack);
      }
      assert Ring(seenMessageOrder, seenMessageIds) == SeenAfter(p, before.seen, o);
      if observations != [] {
        candidates := candidates + OrderCandidates(p, observations[|observations| - 1], o);
      }
      candidates := candidates + LatencyCandidates(p, o);
      observations := LastN(observations + [o], p.maximumObservationsPerTrack);
      candidates := candidates + WindowCandidates(p, observations, o);
      assert candidates == Candidates(p, before, o);
      ghost var open := active;
      var i := 0;
      EmptyApply(p, id, open, o);
      ghost var raised := [];
      while i < |candidates|
        invariant 0 <= i <= |candidates|
        invariant (active, raised) == ApplyAll(p, id, open, o, candidates[..i]) && events == closed + raised
        invariant observations == Remember(p, before.observations, o)
        invariant Ring(seenMessageOrder, seenMessageIds) == SeenAfter(p, before.seen, o)
      {
        ApplyStep(p, id, open, o, candidates[..i], candidates[i]);
        assert candidates[..i + 1] == candidates[..i] + [candidates[i]];
        var event := Raise(p, id, o, candidates[i]);
        events := events + [event];
        raised := raised + [event];
        i := i + 1;
      }
      assert candidates[..i] == candidates;
    }
  }

  lemma NothingClosed(active: map<string, Evidence>, id: TrackId, now: Time)
    ensures ClosedEvents(active, id, now, []) == [] && ClosedUpTo(active, now, []) == active
  {}

  lemma AllClosed(active: map<string, Evidence>, now: Time, keys: seq<string>)
    requires forall key :: key in keys <==> key in active
    ensures ClosedUpTo(active, now, keys) == StillOpen(active, now)
  {}

  lemma CloseStep(active: map<string, Evidence>, id: TrackId, now: Time, keys: seq<string>, i: nat)
    requires i < |keys| && Distinct(keys) && forall key :: key in keys ==> key in active
    ensures
      var open := ClosedUpTo(active, now, keys[..i]);
      && keys[i] in open && open[keys[i]] == active[keys[i]]
      && ClosedUpTo(active, now, keys[..i + 1])
         == (if Expired(active[keys[i]], now) then map k | k in open && k != keys[i] :: open[k] else open)
      && ClosedEvents(active, id, now, keys[..i + 1])
         == ClosedEvents(active, id, now, keys[..i])
            + (if Expired(active[keys[i]], now) then [EventOf(Closed, id, now, active[keys[i]])] else [])
  {
    assert keys[..i + 1][..i] == keys[..i];
    assert keys[i] !in keys[..i];
    assert keys[..i + 1] == keys[..i] + [keys[i]];
  }

  lemma EmptyApply(p: Policy, id: TrackId, active: map<string, Evidence>, o: Observation)
    ensures ApplyAll(p, id, active, o, []) == (active, [])
  {}

  lemma ApplyStep(p: Policy, id: TrackId, active: map<string, Evidence>, o: Observation, cs: seq<Candidate>,
                  c: Candidate)
    ensures
      var (before, events) := ApplyAll(p, id, active, o, cs);
      var (after, event) := OpenOrUpdate(p, id, before, o, c);
      ApplyAll(p, id, active, o, cs + [c]) == (after, events + [event])
  {
    assert (cs + [c])[..|cs|] == cs;
  }

  /** The values of a table of tracks. */
  ghost function Values(tracks: map<TrackId, TrackRecord>): (values: map<TrackId, Track>)
    reads tracks.Values
    ensures values.Keys == tracks.Keys && |values| == |tracks|
    ensures forall id :: id in tracks ==> values[id] == tracks[id].Value()
  {
    var values := map id | id in tracks :: tracks[id].Value();
    assert values.Keys == tracks.Keys;
    assert |values| == |values.Keys| && |tracks| == |tracks.Keys|;
    values
  }

  lemma ValuesUpdated(tracks: map<TrackId, TrackRecord>, values: map<TrackId, Track>, id: TrackId, t: Track)
    requires tracks.Keys == values.Keys + {id} && tracks[id].Value() == t
    requires forall other :: other in values && other != id ==> tracks[other].Value() == values[other]
    ensures Values(tracks) == values[id := t]
  {
    hide TrackRecord.Value;
    assert values[id := t].Keys == Values(tracks).Keys;
  }

  lemma ValuesRemoved(tracks: map<TrackId, TrackRecord>, values: map<TrackId, Track>, id: TrackId)
    requires tracks.Keys == values.Keys - {id}
    requires forall other :: other in tracks ==> tracks[other].Value() == values[other]
    ensures Values(tracks) == Without(values, {id})
  {
    hide TrackRecord.Value;
    assert Without(values, {id}).Keys == Values(tracks).Keys;
  }

  ghost predicate AllSeparate(tracks: map<TrackId, TrackRecord>) {
    forall i, j :: i in tracks && j in tracks && i != j ==> tracks[i] != tracks[j]
  }

  lemma StaysSeparate(tracks: map<TrackId, TrackRecord>, id: TrackId, track: TrackRecord)
    requires AllSeparate(tracks) && track !in tracks.Values
    ensures AllSeparate(tracks[id := track])
  {
    hide TrackRecord.Value;
    assert forall i :: i in tracks ==> tracks[i] in tracks.Values;
  }

  class IntegrityEngine {
    const policy: Policy
    var tracks: map<TrackId, TrackRecord>
    var snapshots: map<TrackId, Snapshot>

    ghost function State(): Engine
      reads this, tracks.Values
    {
      Engine(Values(tracks), snapshots)
    }

    ghost predicate Separate()
      reads this
    {
      AllSeparate(tracks)
    }

    ghost predicate Valid()
      reads this, tracks.Values
    {
      policy.Valid() && Separate() && EngineInv(policy, State())
    }

    constructor (policy: Policy)
      requires policy.Valid()
      ensures Valid() && this.policy == policy && State() == EMPTY
    {
      this.policy := policy;
      tracks, snapshots := map[], map[];
    }

    method Remove(id: TrackId)
      requires Separate()
      modifies this
      ensures Separate() && tracks.Values <= old(tracks.Values)
      ensures State() == Drop(old(State()), {id})
    {
      hide Values, TrackRecord.Value;
      ghost var before := Values(tracks);
      snapshots := map other | other in snapshots && other != id :: snapshots[other];
      assert snapshots == Without(old(snapshots), {id});
      tracks := map other | other in tracks && other != id :: tracks[other];
      ValuesRemoved(tracks, before, id);
    }

    method PurgeInactive(now: Time)
      requires Valid()
      modifies this
      ensures Valid() && tracks.Values <= old(tracks.Values)
      ensures State() == Drop(old(State()), Stale(policy, old(State()).tracks, now))
    {
      hide EngineInv, LastTime, Values, TrackRecord.Value, Drop;
      ghost var before := State();
      var stale := set id | id in tracks && LastTime(tracks[id].Value()) < now - policy.inactiveTrack;
      assert stale == Stale(policy, before.tracks, now);
      RemoveAll(stale);
      DropKeepsInv(policy, before, stale);
    }

    method RemoveAll(ids: set<TrackId>)
      requires Separate()
      modifies this
      ensures Separate() && tracks.Values <= old(tracks.Values)
      ensures State() == Drop(old(State()), ids)
    {
      hide Values, TrackRecord.Value, Drop;
      ghost var before := State();
      var left := ids;
      DropNothing(before);
      assert ids - left == {};
      while left != {}
        invariant left <= ids && Separate() && tracks.Values <= old(tracks.Values)
        invariant State() == Drop(before, ids - left)
        decreases |left|
      {
        var id :| id in left;
        DropMore(before, ids - left, id);
        RemainingStale(ids, left, id);
        Remove(id);
        left := left - {id};
      }
      assert ids - {} == ids;
    }

    /** The id of the track with the least (last time, id). */
    method OldestTrack() returns (oldest: TrackId)
      requires tracks != map[]
      ensures oldest == Oldest(State().tracks)
    {
      hide LastTime;
      var ids := tracks.Keys;
      oldest :| oldest in ids;
      var rest := ids - {oldest};
      ghost var all := State().tracks;
      OlderReflexive(all, oldest);
      while rest != {}
        invariant rest <= ids && oldest in ids && all == State().tracks
        invariant forall id :: id in ids && id !in rest ==> OlderOrSame(all, oldest, id)
        decreases |rest|
      {
        var id :| id in rest;
        var a, b := LastTime(tracks[id].Value()), LastTime(tracks[oldest].Value());
        OlderTotal(all, id, oldest);
        if a < b || (a == b && id <= oldest) {
          OlderTransitive(all, id, oldest);
          oldest := id;
        }
        rest := rest - {id};
      }
      assert IsOldest(all, oldest);
      OldestIsUnique(all, oldest, Oldest(all));
    }

    method EvictIfNeeded(incoming: TrackId)
      requires Valid()
      modifies this
      ensures Valid() && tracks.Values <= old(tracks.Values)
      ensures State() == if incoming in old(tracks) then old(State()) else Evicted(old(State()), policy.maximumTracks)
    {
      hide EngineInv, Values, TrackRecord.Value, Drop, Evicted;
      if incoming in tracks {
        return;
      }
      ghost var before := State();
      while |tracks| >= policy.maximumTracks
        invariant Separate() && tracks.Values <= old(tracks.Values) && EngineInv(policy, State())
        invariant Evicted(State(), policy.maximumTracks) == Evicted(before, policy.maximumTracks)
        decreases |tracks|
      {
        var oldest := OldestTrack();
        DropKeepsInv(policy, State(), {oldest});
        EvictedOnce(State(), policy.maximumTracks);
        DropOneShrinks(State(), oldest);
        Remove(oldest);
      }
      EvictedDone(State(), policy.maximumTracks);
    }

    method Ingest(o: Observation) returns (snapshot: Snapshot, events: seq<Event>)
      requires Valid()
      modifies this, tracks.Values
      ensures Valid()
      ensures (State(), snapshot, events) == IntegrityModel.Ingest(policy, old(State()), o)
    {
      hide BuildSnapshot, TrackInv, IngestTrack, EngineInv, MakeRoom, Values, TrackRecord.Value, IntegrityModel.Ingest;
      ghost var before := State();
      IngestKeepsInv(policy, before, o);
      var id := policy.trackId(o);
      MakeRoomFor(o);
      ghost var room := State();
      RoomIsReady(policy, room, id);
      events := ObserveOn(id, o);
      ghost var t := tracks[id].Value();
      ObservedIsNonempty(policy, id, TrackOrNew(room, id), o);
      snapshot := BuildSnapshot(policy, id, tracks[id].Value());
      IngestIs(policy, before, o, room, t, events);
      StoreSnapshot(id, snapshot);
    }

    method StoreSnapshot(id: TrackId, snapshot: Snapshot)
      modifies this`snapshots
      ensures State() == Engine(old(State()).tracks, old(State()).snapshots[id := snapshot])
    {
      hide Values, TrackRecord.Value;
      snapshots := snapshots[id := snapshot];
    }

    method MakeRoomFor(o: Observation)
      requires Valid()
      modifies this
      ensures Valid() && tracks.Values <= old(tracks.Values)
      ensures State() == MakeRoom(policy, old(State()), o)
    {
      hide BuildSnapshot, TrackInv, LastTime, Stale, EngineInv, Evicted, Values, TrackRecord.Value;
      PurgeInactive(o.observedAt);
      EvictIfNeeded(policy.trackId(o));
    }

    method AddTrack(id: TrackId) returns (track: TrackRecord)
      requires Separate() && id !in tracks
      modifies this`tracks
      ensures Separate() && fresh(track) && tracks == old(tracks)[id := track]
      ensures Values(tracks) == old(Values(tracks))[id := NEW_TRACK] && track.Value() == NEW_TRACK
    {
      hide Values, TrackRecord.Value;
      ghost var known, before := tracks, Values(tracks);
      track := new TrackRecord();
      tracks := tracks[id := track];
      StaysSeparate(known, id, track);
      forall other | other in known
        ensures tracks[other].Value() == before[other]
      {
      }
      ValuesUpdated(tracks, before, id, NEW_TRACK);
    }

    /** `setdefault` on the tracks. */
    method TrackFor(id: TrackId) returns (track: TrackRecord)
      requires Separate()
      modifies this`tracks
      ensures Separate() && id in tracks && tracks[id] == track && fresh(tracks.Values - old(tracks.Values))
      ensures Values(tracks) == old(Values(tracks))[id := TrackOrNew(old(State()), id)]
      ensures track.Value() == TrackOrNew(old(State()), id)
    {
      hide Values, TrackRecord.Value;
      if id in tracks {
        track := tracks[id];
        ValuesUpdated(tracks, Values(tracks), id, track.Value());
      } else {
        track := AddTrack(id);
      }
    }

    method ObserveOn(id: TrackId, o: Observation) returns (events: seq<Event>)
      requires Separate() && policy.Valid()
      requires |TrackOrNew(State(), id).seen.order| <= policy.maximumObservationsPerTrack
      modifies this`tracks, tracks.Values
      ensures Separate() && id in tracks && fresh(tracks.Values - old(tracks.Values))
      ensures
        var (t, raised) := IngestTrack(policy, id, TrackOrNew(old(State()), id), o);
        State() == Engine(old(State()).tracks[id := t], snapshots) && events == raised
    {
      hide IngestTrack, Values, TrackRecord.Value, TrackOrNew;
      var track := TrackFor(id);
      ghost var before := Values(tracks);
      events := track.Observe(policy, id, o);
      ValuesUpdated(tracks, before, id, track.Value());
      UpdateTwice(old(Values(tracks)), id, TrackOrNew(old(State()), id), track.Value());
    }
  }

  lemma IngestIs(p: Policy, e: Engine, o: Observation, room: Engine, t: Track, events: seq<Event>)
    requires p.Valid() && room == MakeRoom(p, e, o) && t.observations != []
    requires IngestTrack(p, p.trackId(o), TrackOrNew(room, p.trackId(o)), o) == (t, events)
    ensures
      var id := p.trackId(o);
      var snapshot := BuildSnapshot(p, id, t);
      IntegrityModel.Ingest(p, e, o) == (Engine(room.tracks[id := t], room.snapshots[id := snapshot]), snapshot, events)
  {
    hide BuildSnapshot, IngestTrack, MakeRoom;
  }

  lemma UpdateTwice<V>(m: map<TrackId, V>, id: TrackId, a: V, b: V)
    ensures m[id := a][id := b] == m[id := b]
  {}

  lemma RemainingStale(all: set<TrackId>, stale: set<TrackId>, id: TrackId)
    requires id in stale && stale <= all
    ensures all - (stale - {id}) == (all - stale) + {id}
  {}

  lemma DropNothing(e: Engine)
    ensures Drop(e, {}) == e
  {
    assert Without(e.tracks, {}) == e.tracks && Without(e.snapshots, {}) == e.snapshots;
  }

  lemma DropMore(e: Engine, ids: set<TrackId>, id: TrackId)
    ensures Drop(Drop(e, ids), {id}) == Drop(e, ids + {id})
  {
    assert Without(Without(e.tracks, ids), {id}) == Without(e.tracks, ids + {id});
    assert Without(Without(e.snapshots, ids), {id}) == Without(e.snapshots, ids + {id});
  }

  lemma OlderReflexive(tracks: map<TrackId, Track>, a: TrackId)
    requires a in tracks
    ensures OlderOrSame(tracks, a, a)
  {}

  lemma OlderTotal(tracks: map<TrackId, Track>, a: TrackId, b: TrackId)
    requires a in tracks && b in tracks
    ensures OlderOrSame(tracks, a, b) || OlderOrSame(tracks, b, a)
  {}

  lemma OlderTransitive(tracks: map<TrackId, Track>, a: TrackId, b: TrackId)
    requires a in tracks && b in tracks && OlderOrSame(tracks, a, b)
    ensures OlderOrSame(tracks, a, a)
    ensures forall c :: c in tracks && OlderOrSame(tracks, b, c) ==> OlderOrSame(tracks, a, c)
  {}

  lemma DropOneShrinks(e: Engine, id: TrackId)
    requires id in e.tracks
    ensures |Drop(e, {id}).tracks| == |e.tracks| - 1
  {
    assert e.tracks.Keys == Without(e.tracks, {id}).Keys + {id};
    assert |e.tracks| == |e.tracks.Keys|;
  }

  lemma EvictedOnce(e: Engine, capacity: int)
    requires capacity >= 1 && |e.tracks| >= capacity
    ensures Evicted(e, capacity) == Evicted(Drop(e, {Oldest(e.tracks)}), capacity)
  {}

  lemma EvictedDone(e: Engine, capacity: int)
    requires capacity >= 1 && |e.tracks| < capacity
    ensures Evicted(e, capacity) == e
  {}

  lemma RoomIsReady(p: Policy, e: Engine, id: TrackId)
    requires p.Valid() && EngineInv(p, e)
    ensures |TrackOrNew(e, id).seen.order| <= p.maximumObservationsPerTrack
    ensures e.snapshots.Keys == e.tracks.Keys
  {}

  lemma ObservedIsNonempty(p: Policy, id: TrackId, t: Track, o: Observation)
    requires p.Valid()
    ensures IngestTrack(p, id, t, o).0.observations != []
  {}
}
