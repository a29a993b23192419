/** When two events of the integrity engine share an id, and what a store that keeps each id once then shows. */
module IntegrityEventIds {
  import opened DedupRing
  import opened Ordering
  import opened IntegrityModel
  import opened IntegrityProofs
  import opened IntegrityCandidates

  /** Event ids are injective in the three parts the engine hashes. */
  datatype EventId = EventId(eventType: EventType, evidence: EvidenceId, observedAt: Time)

  function IdOf(e: Event): EventId {
    EventId(e.eventType, e.evidence.id, e.observedAt)
  }

  function EventIds(events: seq<Event>): set<EventId> {
    set e <- events :: IdOf(e)
  }

  predicate IdsDiffer(events: seq<Event>) {
    forall i, j :: 0 <= i < j < |events| ==> IdOf(events[i]) != IdOf(events[j])
  }

  lemma IdsOfSum(a: seq<Event>, b: seq<Event>)
    ensures EventIds(a + b) == EventIds(a) + EventIds(b)
  {
    hide IdOf;
  }

  lemma IdsDifferSum(a: seq<Event>, b: seq<Event>)
    ensures EventIds(a + b) == EventIds(a) + EventIds(b)
    ensures IdsDiffer(a + b) <==> IdsDiffer(a) && IdsDiffer(b) && EventIds(a) !! EventIds(b)
  {
    IdsOfSum(a, b);
    if IdsDiffer(a + b) {
      PartsDiffer(a, b);
    }
    if IdsDiffer(a) && IdsDiffer(b) && EventIds(a) !! EventIds(b) {
      SumDiffers(a, b);
    }
  }

  lemma PartsDiffer(a: seq<Event>, b: seq<Event>)
    requires IdsDiffer(a + b)
    ensures IdsDiffer(a) && IdsDiffer(b) && EventIds(a) !! EventIds(b)
  {
    hide IdOf;
    forall i, j | 0 <= i < j < |a|
      ensures IdOf(a[i]) != IdOf(a[j])
    {
      assert (a + b)[i] == a[i] && (a + b)[j] == a[j];
    }
    forall i, j | 0 <= i < j < |b|
      ensures IdOf(b[i]) != IdOf(b[j])
    {
      assert (a + b)[|a| + i] == b[i] && (a + b)[|a| + j] == b[j];
    }
    forall i, j | 0 <= i < |a| && 0 <= j < |b|
      ensures IdOf(a[i]) != IdOf(b[j])
    {
      assert (a + b)[i] == a[i] && (a + b)[|a| + j] == b[j];
    }
  }

  lemma SumDiffers(a: seq<Event>, b: seq<Event>)
    requires IdsDiffer(a) && IdsDiffer(b) && EventIds(a) !! EventIds(b)
    ensures IdsDiffer(a + b)
  {
    hide IdOf;
    forall i, j | 0 <= i < j < |a + b|
      ensures IdOf((a + b)[i]) != IdOf((a + b)[j])
    {
      if i < |a| <= j {
        assert IdOf(a[i]) in EventIds(a) && IdOf(b[j - |a|]) in EventIds(b);
      }
    }
  }

  lemma NoIds()
    ensures EventIds([]) == {} && IdsDiffer([])
  {}

  lemma OneId(e: Event)
    ensures EventIds([e]) == {IdOf(e)} && IdsDiffer([e])
  {}

  // ---------- the ids one observation sends ----------

  /** The id of an opening or update of the raised keys. */
  predicate AnnouncesRaise(p: Policy, track: TrackId, active: map<string, Evidence>, o: Observation, cs: seq<Candidate>,
                           x: EventId)
  {
    var key := x.evidence.key;
    && x.observedAt == o.observedAt && Raised(cs, key)
    && if key in active then x.eventType.Updated? && x.evidence == active[key].id
       else x.eventType.Opened? && x.evidence == EvidenceId(p.version, track, key, o.id)
  }

  /** The id of the closing of expired evidence. */
  predicate AnnouncesClosing(active: map<string, Evidence>, now: Time, keys: seq<string>, x: EventId) {
    var key := x.evidence.key;
    && x.observedAt == now && x.eventType.Closed?
    && key in keys && key in active && Expired(active[key], now) && x.evidence == active[key].id
  }

  lemma {:induction false} RaisedIdsAre(p: Policy, track: TrackId, active: map<string, Evidence>, o: Observation,
                                        cs: seq<Candidate>)
    requires WellFiled(p, track, active) && KeysDiffer(cs)
    ensures
      var events := ApplyAll(p, track, active, o, cs).1;
      && (forall x :: x in EventIds(events) <==> AnnouncesRaise(p, track, active, o, cs, x))
      && IdsDiffer(events)
    decreases |cs|
  {
    hide KeyOf, OpenOrUpdate, EventIds, IdsDiffer, WellFiled, AnnouncesRaise, RefreshesRaised, KeysDiffer;
    if cs == [] {
      NothingRaised(p, track, active, o);
    } else {
      var n := |cs| - 1;
      FrontKeysDiffer(cs);
      RaisedIdsAre(p, track, active, o, cs[..n]);
      var (before, events) := ApplyAll(p, track, active, o, cs[..n]);
      ApplyAllContinues(p, track, active, o, cs[..n]);
      var event := OpenOrUpdate(p, track, before, o, cs[n]).1;
      IdsDifferSum(events, [event]);
      OneId(event);
      UnraisedIsAsBefore(p, active, before, o, cs);
      NextRaise(p, track, active, before, o, cs);
    }
  }

  lemma NothingRaised(p: Policy, track: TrackId, active: map<string, Evidence>, o: Observation)
    ensures EventIds([]) == {} && IdsDiffer([])
    ensures forall x :: !AnnouncesRaise(p, track, active, o, [], x)
  {}

  lemma FrontKeysDiffer(cs: seq<Candidate>)
    requires cs != [] && KeysDiffer(cs)
    ensures KeysDiffer(cs[..|cs| - 1]) && !Raised(cs[..|cs| - 1], KeyOf(cs[|cs| - 1]))
  {
    hide KeyOf;
  }

  lemma UnraisedIsAsBefore(p: Policy, active: map<string, Evidence>, before: map<string, Evidence>, o: Observation,
                           cs: seq<Candidate>)
    requires cs != [] && !Raised(cs[..|cs| - 1], KeyOf(cs[|cs| - 1]))
    requires Continues(active, before) && RefreshesRaised(p, active, before, o, cs[..|cs| - 1])
    ensures
      var key := KeyOf(cs[|cs| - 1]);
      (key in before <==> key in active) && (key in active ==> before[key] == active[key])
  {
    hide KeyOf;
  }

  lemma RaisedSnoc(cs: seq<Candidate>, key: string)
    requires cs != []
    ensures Raised(cs, key) <==> Raised(cs[..|cs| - 1], key) || key == KeyOf(cs[|cs| - 1])
  {
    hide KeyOf;
    var n := |cs| - 1;
    if Raised(cs[..n], key) {
      var i :| 0 <= i < n && KeyOf(cs[..n][i]) == key;
      assert KeyOf(cs[i]) == key;
    }
    if Raised(cs, key) && key != KeyOf(cs[n]) {
      var i :| 0 <= i <= n && KeyOf(cs[i]) == key;
      assert KeyOf(cs[..n][i]) == key;
    }
  }

  /** The last of several raised keys adds its id and no other, and a new one. */
  lemma NextRaise(p: Policy, track: TrackId, active: map<string, Evidence>, before: map<string, Evidence>,
                  o: Observation, cs: seq<Candidate>)
    requires WellFiled(p, track, active) && cs != [] && !Raised(cs[..|cs| - 1], KeyOf(cs[|cs| - 1]))
    requires
      var key := KeyOf(cs[|cs| - 1]);
      (key in before <==> key in active) && (key in active ==> before[key] == active[key])
    ensures
      var front, x := cs[..|cs| - 1], IdOf(OpenOrUpdate(p, track, before, o, cs[|cs| - 1]).1);
      && !AnnouncesRaise(p, track, active, o, front, x)
      && forall y :: AnnouncesRaise(p, track, active, o, cs, y) <==>
                       AnnouncesRaise(p, track, active, o, front, y) || y == x
  {
    hide KeyOf, MaxSeverity, Raised;
    var n := |cs| - 1;
    var x := IdOf(OpenOrUpdate(p, track, before, o, cs[n]).1);
    assert x.evidence.key == KeyOf(cs[n]);
    forall key
      ensures Raised(cs, key) <==> Raised(cs[..n], key) || key == KeyOf(cs[n])
    {
      RaisedSnoc(cs, key);
    }
  }

  lemma {:induction false} ClosedIdsAre(p: Policy, track: TrackId, active: map<string, Evidence>, now: Time,
                                        keys: seq<string>)
    requires WellFiled(p, track, active) && Distinct(keys) && forall key :: key in keys ==> key in active
    ensures
      var events := ClosedEvents(active, track, now, keys);
      && (forall x :: x in EventIds(events) <==> AnnouncesClosing(active, now, keys, x))
      && IdsDiffer(events)
    decreases |keys|
  {
    hide EventIds, IdsDiffer, WellFiled, Expired;
    if keys == [] {
      NoIds();
    } else {
      var n := |keys| - 1;
      ClosedIdsAre(p, track, active, now, keys[..n]);
      var events, event := ClosedEvents(active, track, now, keys[..n]), EventOf(Closed, track, now, active[keys[n]]);
      IdsDifferSum(events, [event]);
      OneId(event);
      FiledUnder(p, track, active, keys[n]);
      assert events + [] == events && keys == keys[..n] + [keys[n]];
    }
  }

  lemma FiledUnder(p: Policy, track: TrackId, active: map<string, Evidence>, key: string)
    requires WellFiled(p, track, active) && key in active
    ensures active[key].id.key == key && active[key].id.track == track
  {}

  // ---------- when two observations share an id ----------

  /** Observation o of track t sends an event with this id. */
  predicate Announces(p: Policy, id: TrackId, t: Track, o: Observation, x: EventId)
    requires p.Valid()
  {
    || (x.evidence.key in t.active && AnnouncesClosing(t.active, o.observedAt, [x.evidence.key], x))
    || AnnouncesRaise(p, id, StillOpen(t.active, o.observedAt), o, Candidates(p, t, o), x)
  }

  /** Main result: the events of one observation all have different ids, and these are exactly the closings of what has
      expired, the updates of what is raised while open, and the openings of whatever else is raised.
    */
  lemma SentIdsAre(p: Policy, id: TrackId, t: Track, o: Observation)
    requires p.Valid() && WellFiled(p, id, t.active) && EvaluatorsNameRulesOnce(p)
    ensures IdsDiffer(IngestTrack(p, id, t, o).1)
    ensures forall x :: x in EventIds(IngestTrack(p, id, t, o).1) <==> Announces(p, id, t, o, x)
  {
    hide Candidates, ApplyAll, ClosedEvents, WellFiled, EvaluatorsNameRulesOnce, EventIds, IdsDiffer, KeysDiffer,
        Raised, SortedStrings, Expired;
    var open, cs, now := StillOpen(t.active, o.observedAt), Candidates(p, t, o), o.observedAt;
    SortedStringsIsSorted(t.active.Keys);
    var keys := SortedStrings(t.active.Keys);
    ClosedIdsAre(p, id, t.active, now, keys);
    StillOpenIsFiled(p, id, t.active, now);
    CandidateKeysDiffer(p, t, o);
    RaisedIdsAre(p, id, open, o, cs);
    IdsDifferSum(ClosedEvents(t.active, id, now, keys), ApplyAll(p, id, open, o, cs).1);
  }

  predicate Updates(p: Policy, t: Track, o: Observation, key: string)
    requires p.Valid()
  {
    key in StillOpen(t.active, o.observedAt) && Raised(Candidates(p, t, o), key)
  }

  predicate Opens(p: Policy, t: Track, o: Observation, key: string)
    requires p.Valid()
  {
    key !in StillOpen(t.active, o.observedAt) && Raised(Candidates(p, t, o), key)
  }

  predicate Closes(t: Track, o: Observation, key: string) {
    key in t.active && Expired(t.active[key], o.observedAt)
  }

  /** Both observations update the same evidence, or close it, or open it under the same observation id. */
  predicate Repeats(p: Policy, t: Track, o: Observation, u: Track, q: Observation, key: string)
    requires p.Valid()
  {
    || (Updates(p, t, o, key) && Updates(p, u, q, key) && t.active[key].id == u.active[key].id)
    || (Opens(p, t, o, key) && Opens(p, u, q, key) && o.id == q.id)
    || (Closes(t, o, key) && Closes(u, q, key) && t.active[key].id == u.active[key].id)
  }

  ghost predicate Clash(p: Policy, t: Track, o: Observation, u: Track, q: Observation)
    requires p.Valid()
  {
    o.observedAt == q.observedAt && exists key :: Repeats(p, t, o, u, q, key)
  }

  /** An id that either observation of the key may send. */
  function UpdateId(t: Track, o: Observation, key: string): EventId
    requires key in t.active
  {
    EventId(Updated, t.active[key].id, o.observedAt)
  }

  function ClosingId(t: Track, o: Observation, key: string): EventId
    requires key in t.active
  {
    EventId(Closed, t.active[key].id, o.observedAt)
  }

  function OpeningId(p: Policy, id: TrackId, o: Observation, key: string): EventId {
    EventId(Opened, EvidenceId(p.version, id, key, o.id), o.observedAt)
  }

  /** What is announced, kind by kind. */
  lemma AnnouncesExactly(p: Policy, id: TrackId, t: Track, o: Observation, x: EventId)
    requires p.Valid() && WellFiled(p, id, t.active)
    ensures
      var key := x.evidence.key;
      Announces(p, id, t, o, x)
      <==> (Updates(p, t, o, key) && x == UpdateId(t, o, key))
           || (Opens(p, t, o, key) && x == OpeningId(p, id, o, key))
           || (Closes(t, o, key) && x == ClosingId(t, o, key))
  {
    hide Candidates, Raised, WellFiled, Expired;
  }

  lemma AnnouncedKey(p: Policy, id: TrackId, t: Track, o: Observation, key: string)
    requires p.Valid() && WellFiled(p, id, t.active)
    ensures Updates(p, t, o, key) ==> Announces(p, id, t, o, UpdateId(t, o, key))
    ensures Opens(p, t, o, key) ==> Announces(p, id, t, o, OpeningId(p, id, o, key))
    ensures Closes(t, o, key) ==> Announces(p, id, t, o, ClosingId(t, o, key))
  {
    hide Candidates, Raised, Expired;
    if key in t.active { FiledUnder(p, id, t.active, key); }
    hide WellFiled;
  }

  /** Main result: two observations of a track, whatever happened in between, send an event of the same id exactly when
      they have the same source time and both update the same evidence, close it, or open it under one observation id.
    */
  lemma SharedIdsExactly(p: Policy, id: TrackId, t: Track, o: Observation, u: Track, q: Observation)
    requires p.Valid() && WellFiled(p, id, t.active) && WellFiled(p, id, u.active) && EvaluatorsNameRulesOnce(p)
    ensures !(EventIds(IngestTrack(p, id, t, o).1) !! EventIds(IngestTrack(p, id, u, q).1)) <==> Clash(p, t, o, u, q)
  {
    hide IngestTrack, WellFiled, EvaluatorsNameRulesOnce, EventIds, Announces, Updates, Opens, Closes;
    SentIdsAre(p, id, t, o);
    SentIdsAre(p, id, u, q);
    var ours, theirs := EventIds(IngestTrack(p, id, t, o).1), EventIds(IngestTrack(p, id, u, q).1);
    if x :| x in ours && x in theirs {
      AnnouncesExactly(p, id, t, o, x);
      AnnouncesExactly(p, id, u, q, x);
      assert Repeats(p, t, o, u, q, x.evidence.key);
    }
    if Clash(p, t, o, u, q) {
      var key :| Repeats(p, t, o, u, q, key);
      var x := RepeatedId(p, id, t, o, u, q, key);
      assert x in ours && x in theirs;
    }
  }

  lemma RepeatedId(p: Policy, id: TrackId, t: Track, o: Observation, u: Track, q: Observation, key: string)
    returns (x: EventId)
    requires p.Valid() && WellFiled(p, id, t.active) && WellFiled(p, id, u.active)
    requires o.observedAt == q.observedAt && Repeats(p, t, o, u, q, key)
    ensures Announces(p, id, t, o, x) && Announces(p, id, u, q, x)
  {
    hide WellFiled, Announces, Candidates, Raised, Expired;
    AnnouncedKey(p, id, t, o, key);
    AnnouncedKey(p, id, u, q, key);
    if Opens(p, t, o, key) && Opens(p, u, q, key) && o.id == q.id {
      x := OpeningId(p, id, o, key);
    } else if Closes(t, o, key) {
      x := ClosingId(t, o, key);
    } else {
      x := UpdateId(t, o, key);
    }
  }

  // ---------- every run of the engine ----------

  /** The track observation i meets. */
  ghost function Met(p: Policy, os: seq<Observation>, i: nat): Track
    requires p.Valid() && i < |os|
  {
    TrackOrNew(MakeRoom(p, EngineAfter(p, os[..i]), os[i]), p.trackId(os[i]))
  }

  ghost function Sent(p: Policy, os: seq<Observation>, i: nat): seq<Event>
    requires p.Valid() && i < |os|
  {
    Ingest(p, EngineAfter(p, os[..i]), os[i]).2
  }

  /** All events of a run, in order. */
  ghost function EngineEvents(p: Policy, os: seq<Observation>): seq<Event>
    requires p.Valid()
    decreases |os|
  {
    if os == [] then [] else EngineEvents(p, os[..|os| - 1]) + Sent(p, os, |os| - 1)
  }

  lemma SentAlike(p: Policy, os: seq<Observation>, i: nat)
    requires p.Valid() && i < |os| - 1
    ensures Sent(p, os[..|os| - 1], i) == Sent(p, os, i) && Met(p, os[..|os| - 1], i) == Met(p, os, i)
  {
    hide Ingest, EngineAfter, MakeRoom;
    assert os[..|os| - 1][..i] == os[..i];
  }

  lemma SentByTrack(p: Policy, os: seq<Observation>, i: nat)
    requires p.Valid() && i < |os|
    ensures Sent(p, os, i) == IngestTrack(p, p.trackId(os[i]), Met(p, os, i), os[i]).1
    ensures WellFiled(p, p.trackId(os[i]), Met(p, os, i).active)
  {
    hide IngestTrack, BuildSnapshot, MakeRoom, EngineAfter;
    var id, e, o := p.trackId(os[i]), EngineAfter(p, os[..i]), os[i];
    EveryRunKeepsInv(p, os[..i]);
    RoomKeepsInv(p, e, o);
    NewTrackIsReady(p, id, o);
  }

  lemma SentUnderTrack(p: Policy, id: TrackId, t: Track, o: Observation, x: EventId)
    requires p.Valid() && WellFiled(p, id, t.active) && Announces(p, id, t, o, x)
    ensures x.evidence.track == id
  {
    hide Candidates, Raised, Expired;
  }

  /** Observations i and j of a run send an event of the same id. */
  ghost predicate ClashOnRun(p: Policy, os: seq<Observation>, i: nat, j: nat)
    requires p.Valid() && i < |os| && j < |os|
  {
    p.trackId(os[i]) == p.trackId(os[j]) && Clash(p, Met(p, os, i), os[i], Met(p, os, j), os[j])
  }

  lemma SentIdsShared(p: Policy, os: seq<Observation>, i: nat, j: nat)
    requires p.Valid() && EvaluatorsNameRulesOnce(p) && i < |os| && j < |os|
    ensures IdsDiffer(Sent(p, os, i))
    ensures !(EventIds(Sent(p, os, i)) !! EventIds(Sent(p, os, j))) <==> ClashOnRun(p, os, i, j)
  {
    hide IngestTrack, WellFiled, EvaluatorsNameRulesOnce, EventIds, IdsDiffer, Announces, Clash, Met, Sent;
    var t, u := Met(p, os, i), Met(p, os, j);
    SentByTrack(p, os, i);
    SentByTrack(p, os, j);
    SentIdsAre(p, p.trackId(os[i]), t, os[i]);
    SentIdsAre(p, p.trackId(os[j]), u, os[j]);
    if p.trackId(os[i]) == p.trackId(os[j]) {
      SharedIdsExactly(p, p.trackId(os[i]), t, os[i], u, os[j]);
    } else if x :| x in EventIds(Sent(p, os, i)) && x in EventIds(Sent(p, os, j)) {
      SentUnderTrack(p, p.trackId(os[i]), t, os[i], x);
      SentUnderTrack(p, p.trackId(os[j]), u, os[j], x);
    }
  }

  lemma {:induction false} RunIdsMeet(p: Policy, os: seq<Observation>, ids: set<EventId>)
    requires p.Valid()
    ensures EventIds(EngineEvents(p, os)) !! ids <==> forall i :: 0 <= i < |os| ==> EventIds(Sent(p, os, i)) !! ids
    decreases |os|
  {
    hide Sent, EventIds;
    if os == [] {
      NoIds();
    } else {
      var n := |os| - 1;
      RunIdsMeet(p, os[..n], ids);
      IdsOfSum(EngineEvents(p, os[..n]), Sent(p, os, n));
      forall i | 0 <= i < n
        ensures Sent(p, os[..n], i) == Sent(p, os, i)
      {
        SentAlike(p, os, i);
      }
    }
  }

  ghost predicate NoClash(p: Policy, os: seq<Observation>)
    requires p.Valid()
  {
    forall i, j :: 0 <= i < j < |os| ==> !ClashOnRun(p, os, i, j)
  }

  lemma NoClashSnoc(p: Policy, os: seq<Observation>)
    requires p.Valid() && os != []
    ensures
      var n := |os| - 1;
      NoClash(p, os) <==> NoClash(p, os[..n]) && forall i :: 0 <= i < n ==> !ClashOnRun(p, os, i, n)
  {
    hide Sent, Met, Clash;
    var n := |os| - 1;
    forall i, j | 0 <= i < j < n
      ensures ClashOnRun(p, os[..n], i, j) == ClashOnRun(p, os, i, j)
    {
      SentAlike(p, os, i);
      SentAlike(p, os, j);
    }
  }

  /** Main result: on every run of the engine all events have different ids exactly when no two observations of one
      track with the same source time update the same evidence, close it, or open it under one observation id.
    */
  lemma {:induction false} RunIdsDifferExactly(p: Policy, os: seq<Observation>)
    requires p.Valid() && EvaluatorsNameRulesOnce(p)
    ensures IdsDiffer(EngineEvents(p, os)) <==> NoClash(p, os)
    decreases |os|
  {
    hide Sent, EventIds, IdsDiffer, EvaluatorsNameRulesOnce, ClashOnRun;
    if os == [] {
      NoIds();
    } else {
      hide NoClash;
      var n := |os| - 1;
      RunIdsDifferExactly(p, os[..n]);
      NoClashSnoc(p, os);
      IdsDifferSum(EngineEvents(p, os[..n]), Sent(p, os, n));
      RunIdsMeet(p, os[..n], EventIds(Sent(p, os, n)));
      SentIdsShared(p, os, n, n);
      forall i | 0 <= i < n
        ensures Sent(p, os[..n], i) == Sent(p, os, i)
        ensures !(EventIds(Sent(p, os, i)) !! EventIds(Sent(p, os, n))) <==> ClashOnRun(p, os, i, n)
      {
        SentAlike(p, os, i);
        SentIdsShared(p, os, i, n);
      }
    }
  }

  // ---------- one observation after the other ----------

  /** Evidence that was open is raised by one observation and raised again by the next at the same source time. */
  ghost predicate Again(p: Policy, id: TrackId, t: Track, o: Observation, q: Observation, key: string)
    requires p.Valid()
  {
    && o.observedAt == q.observedAt && Updates(p, t, o, key)
    && Raised(Candidates(p, IngestTrack(p, id, t, o).0, q), key)
  }

  /** At the same source time, whatever the first observation left open is still open. */
  lemma StillOpenAgain(p: Policy, id: TrackId, t: Track, o: Observation)
    requires p.Valid() && WellFiled(p, id, t.active) && p.evidenceTtl > 0
    ensures
      var u := IngestTrack(p, id, t, o).0;
      && WellFiled(p, id, u.active) && StillOpen(u.active, o.observedAt) == u.active
      && (forall key :: Updates(p, t, o, key) ==> key in u.active && u.active[key].id == t.active[key].id)
      && (forall key :: Raised(Candidates(p, t, o), key) ==> key in u.active)
  {
    hide Candidates, ApplyAll, WellFiled, Expirations, KeyOf;
    EventsTellTheWholeStory(p, id, t, o);
    OpenEvidenceIsCurrent(p, id, t, o);
    ApplyAllContinues(p, id, StillOpen(t.active, o.observedAt), o, Candidates(p, t, o));
  }

  /** Main result: with a positive lifetime an observation shares an event id with the next one of its track exactly
      when they have the same source time and both raise something that was open already.
    */
  lemma NextSharesExactly(p: Policy, id: TrackId, t: Track, o: Observation, q: Observation)
    requires p.Valid() && WellFiled(p, id, t.active) && EvaluatorsNameRulesOnce(p) && p.evidenceTtl > 0
    ensures
      var (u, first) := IngestTrack(p, id, t, o);
      !(EventIds(first) !! EventIds(IngestTrack(p, id, u, q).1)) <==> exists key :: Again(p, id, t, o, q, key)
  {
    hide IngestTrack, WellFiled, EvaluatorsNameRulesOnce, EventIds, Candidates, Raised;
    var u := IngestTrack(p, id, t, o).0;
    StillOpenAgain(p, id, t, o);
    SharedIdsExactly(p, id, t, o, u, q);
    forall key
      ensures Again(p, id, t, o, q, key) <==> o.observedAt == q.observedAt && Repeats(p, t, o, u, q, key)
    {
      RepeatsAgain(p, id, t, o, q, key);
    }
  }

  lemma RepeatsAgain(p: Policy, id: TrackId, t: Track, o: Observation, q: Observation, key: string)
    requires p.Valid() && WellFiled(p, id, t.active) && p.evidenceTtl > 0
    ensures Again(p, id, t, o, q, key)
            <==> o.observedAt == q.observedAt && Repeats(p, t, o, IngestTrack(p, id, t, o).0, q, key)
  {
    hide IngestTrack, WellFiled, Candidates, Raised;
    StillOpenAgain(p, id, t, o);
  }

  // ---------- what a store that keeps each id once shows ----------

  /** The first event of each id: what `remember` accepts while it forgets none of them. */
  function Stored(events: seq<Event>): seq<Event> {
    if events == [] then []
    else
      var n := |events| - 1;
      Stored(events[..n]) + if IdOf(events[n]) in EventIds(events[..n]) then [] else [events[n]]
  }

  /** The events `remember` accepts when it knows the ids of the last ones it accepted. */
  function StoredRecently(events: seq<Event>, memory: nat): seq<Event> {
    if events == [] then []
    else
      var n := |events| - 1;
      var before := StoredRecently(events[..n], memory);
      before + if IdOf(events[n]) in EventIds(LastN(before, memory)) then [] else [events[n]]
  }

  lemma {:induction false} StoredKeepsIds(events: seq<Event>)
    ensures EventIds(Stored(events)) == EventIds(events)
    decreases |events|
  {
    hide IdOf, EventIds;
    if events != [] {
      var n := |events| - 1;
      assert events == events[..n] + [events[n]];
      StoredKeepsIds(events[..n]);
      IdsOfSum(events[..n], [events[n]]);
      IdsOfSum(Stored(events[..n]), [events[n]]);
      IdsOfSum(Stored(events[..n]), []);
      NoIds();
      OneId(events[n]);
    }
  }

  /** Up to as many events as it remembers ids, nothing is forgotten. */
  lemma {:induction false} EnoughMemory(events: seq<Event>, memory: nat)
    requires |events| <= memory
    ensures StoredRecently(events, memory) == Stored(events) && |Stored(events)| <= |events|
    decreases |events|
  {
    hide IdOf, EventIds;
    if events != [] {
      var n := |events| - 1;
      EnoughMemory(events[..n], memory);
      StoredKeepsIds(events[..n]);
    }
  }

  function Skip(events: seq<Event>, known: set<EventId>): seq<Event> {
    if events == [] then []
    else
      var n := |events| - 1;
      Skip(events[..n], known) + if IdOf(events[n]) in known then [] else [events[n]]
  }

  lemma {:induction false} SkipNothing(events: seq<Event>, known: set<EventId>)
    requires EventIds(events) !! known
    ensures Skip(events, known) == events
    decreases |events|
  {
    hide IdOf;
    if events != [] {
      var n := |events| - 1;
      assert events == events[..n] + [events[n]];
      IdsOfSum(events[..n], [events[n]]);
      OneId(events[n]);
      hide EventIds;
      SkipNothing(events[..n], known);
    }
  }

  lemma {:induction false} StoredSum(a: seq<Event>, b: seq<Event>)
    requires IdsDiffer(b)
    ensures Stored(a + b) == Stored(a) + Skip(b, EventIds(a))
    decreases |b|
  {
    hide IdOf, EventIds, IdsDiffer;
    if b == [] {
      assert a + b == a && Stored(a) + [] == Stored(a);
    } else {
      var n := |b| - 1;
      assert (a + b)[..|a + b| - 1] == a + b[..n] && b == b[..n] + [b[n]];
      IdsDifferSum(b[..n], [b[n]]);
      OneId(b[n]);
      StoredSum(a, b[..n]);
      IdsOfSum(a, b[..n]);
      SumAssociates(Stored(a), Skip(b[..n], EventIds(a)), if IdOf(b[n]) in EventIds(a) then [] else [b[n]]);
    }
  }

  lemma SumAssociates<T>(a: seq<T>, b: seq<T>, c: seq<T>)
    ensures a + b + c == a + (b + c)
  {}

  /** Main result: the store keeps every event exactly when all ids differ. */
  lemma {:induction false} StoredIsAllExactly(events: seq<Event>)
    ensures Stored(events) == events <==> IdsDiffer(events)
    ensures |Stored(events)| <= |events|
    decreases |events|
  {
    hide IdOf, EventIds, IdsDiffer;
    if events == [] {
      NoIds();
    } else {
      var n := |events| - 1;
      var front, last := events[..n], events[n];
      assert events == front + [last];
      StoredIsAllExactly(front);
      IdsDifferSum(front, [last]);
      OneId(last);
    }
  }

  /** Two views say the same of one piece of evidence. */
  predicate SameAt(a: View, b: View, e: EvidenceId) {
    (e in a <==> e in b) && (e in a ==> a[e] == b[e])
  }

  predicate RaisedOnce(events: seq<Event>) {
    && (forall i :: 0 <= i < |events| ==> !events[i].eventType.Closed?)
    && (forall i, j :: 0 <= i < j < |events| ==> events[i].evidence.id != events[j].evidence.id)
  }

  predicate Tells(events: seq<Event>, e: EvidenceId) {
    exists i :: 0 <= i < |events| && events[i].evidence.id == e
  }

  predicate Skipped(events: seq<Event>, known: set<EventId>, e: EvidenceId) {
    exists i :: 0 <= i < |events| && events[i].evidence.id == e && IdOf(events[i]) in known
  }

  lemma LastTells(events: seq<Event>, known: set<EventId>, e: EvidenceId)
    requires events != [] && RaisedOnce(events)
    ensures
      var n := |events| - 1;
      && RaisedOnce(events[..n]) && !Tells(events[..n], events[n].evidence.id)
      && (Tells(events, e) <==> Tells(events[..n], e) || e == events[n].evidence.id)
      && (Skipped(events, known, e)
          <==> Skipped(events[..n], known, e) || (e == events[n].evidence.id && IdOf(events[n]) in known))
      && (Skipped(events[..n], known, e) ==> Tells(events[..n], e))
  {
    hide IdOf;
    var n := |events| - 1;
    forall i | 0 <= i < n
      ensures events[..n][i] == events[i]
    {}
  }

  lemma ReceiveAt(view: View, event: Event, e: EvidenceId)
    requires !event.eventType.Closed?
    ensures e != event.evidence.id ==> SameAt(Receive(view, event), view, e)
    ensures e == event.evidence.id ==> e in Receive(view, event) && Receive(view, event)[e] == event.evidence
  {}

  /** What is skipped stays as it was; everything else is told in full. */
  lemma {:induction false} SkippingKeeps(view: View, events: seq<Event>, known: set<EventId>, e: EvidenceId)
    requires RaisedOnce(events)
    ensures
      var some, all := ReceiveAll(view, Skip(events, known)), ReceiveAll(view, events);
      && SameAt(some, if Skipped(events, known, e) then view else all, e)
      && (!Tells(events, e) ==> SameAt(all, view, e))
    decreases |events|
  {
    hide IdOf, RaisedOnce, Receive, Tells, Skipped;
    if events == [] {
      NothingTold(known, e);
    } else {
      var n := |events| - 1;
      LastTells(events, known, e);
      LastIsRaised(events);
      SkippingKeeps(view, events[..n], known, e);
      var some := Skip(events[..n], known);
      ReceiveAt(ReceiveAll(view, some), events[n], e);
      ReceiveAt(ReceiveAll(view, events[..n]), events[n], e);
      assert (some + [events[n]])[..|some|] == some && some + [] == some;
    }
  }

  lemma NothingTold(known: set<EventId>, e: EvidenceId)
    ensures !Tells([], e) && !Skipped([], known, e)
  {}

  lemma LastIsRaised(events: seq<Event>)
    requires events != [] && RaisedOnce(events)
    ensures !events[|events| - 1].eventType.Closed?
  {}

  lemma ViewsEqual(a: View, b: View)
    ensures a == b <==> forall e :: SameAt(a, b, e)
  {
    if forall e :: SameAt(a, b, e) {
      forall e
        ensures (e in a <==> e in b) && (e in a ==> a[e] == b[e])
      {
        assert SameAt(a, b, e);
      }
    }
  }

  /** At the same source time the second observation closes nothing. */
  lemma SecondIsRaisedOnce(p: Policy, id: TrackId, t: Track, o: Observation, q: Observation)
    requires p.Valid() && WellFiled(p, id, t.active) && EvaluatorsNameRulesOnce(p) && p.evidenceTtl > 0
    requires o.observedAt == q.observedAt
    ensures RaisedOnce(IngestTrack(p, id, IngestTrack(p, id, t, o).0, q).1)
  {
    hide Candidates, ApplyAll, WellFiled, Expirations, KeyOf, EvaluatorsNameRulesOnce, StillOpen;
    var u := IngestTrack(p, id, t, o).0;
    StillOpenAgain(p, id, t, o);
    ExpirationsExactly(u.active, id, q.observedAt);
    EvidenceIsRaisedOnce(p, id, u, q);
    RaisedEventsFollowCandidates(p, id, u.active, q, Candidates(p, u, q));
  }

  lemma SkippedShares(events: seq<Event>, known: set<EventId>, e: EvidenceId)
    ensures Skipped(events, known, e) <==> exists x :: x in EventIds(events) && x in known && x.evidence == e
  {
    if Skipped(events, known, e) {
      var i :| 0 <= i < |events| && events[i].evidence.id == e && IdOf(events[i]) in known;
      assert IdOf(events[i]) in EventIds(events);
    }
  }

  lemma SharedIsUpdate(p: Policy, id: TrackId, t: Track, o: Observation, q: Observation, x: EventId)
    requires p.Valid() && WellFiled(p, id, t.active) && EvaluatorsNameRulesOnce(p) && p.evidenceTtl > 0
    ensures
      var u, key := IngestTrack(p, id, t, o).0, x.evidence.key;
      Announces(p, id, t, o, x) && Announces(p, id, u, q, x)
      <==> Again(p, id, t, o, q, key) && x == UpdateId(t, o, key)
  {
    hide IngestTrack, WellFiled, EvaluatorsNameRulesOnce, Candidates, Raised, Announces, Expired;
    var u, key := IngestTrack(p, id, t, o).0, x.evidence.key;
    StillOpenAgain(p, id, t, o);
    AnnouncesExactly(p, id, t, o, x);
    AnnouncesExactly(p, id, u, q, x);
    RepeatsAgain(p, id, t, o, q, key);
  }

  /** The evidence whose update is skipped is what is raised again. */
  lemma SkippedIsAgain(p: Policy, id: TrackId, t: Track, o: Observation, q: Observation, e: EvidenceId)
    requires p.Valid() && WellFiled(p, id, t.active) && EvaluatorsNameRulesOnce(p) && p.evidenceTtl > 0
    ensures
      var (u, first) := IngestTrack(p, id, t, o);
      Skipped(IngestTrack(p, id, u, q).1, EventIds(first), e)
      <==> Again(p, id, t, o, q, e.key) && e == t.active[e.key].id
  {
    hide IngestTrack, WellFiled, EvaluatorsNameRulesOnce, Announces, Skipped, EventIds,
        Candidates, Raised;
    var (u, first) := IngestTrack(p, id, t, o);
    var second := IngestTrack(p, id, u, q).1;
    StillOpenAgain(p, id, t, o);
    SentIdsAre(p, id, t, o);
    SentIdsAre(p, id, u, q);
    SkippedShares(second, EventIds(first), e);
    forall x
      ensures x in EventIds(second) && x in EventIds(first)
              <==> Again(p, id, t, o, q, x.evidence.key) && x == UpdateId(t, o, x.evidence.key)
    {
      SharedIsUpdate(p, id, t, o, q, x);
    }
    if Again(p, id, t, o, q, e.key) && e == t.active[e.key].id {
      var x := EventId(Updated, e, o.observedAt);
      assert x in EventIds(second) && x in EventIds(first);
    }
  }

  lemma ViewsAtKey(p: Policy, id: TrackId, before: map<string, Evidence>, after: map<string, Evidence>, key: string)
    requires WellFiled(p, id, before) && WellFiled(p, id, after)
    requires key in before && key in after && before[key].id == after[key].id
    ensures SameAt(ViewOf(p, id, before), ViewOf(p, id, after), before[key].id) <==> before[key] == after[key]
  {
    assert before[key].id in IdsOf(before) && after[key].id in IdsOf(after);
  }

  /** Both observations leave what they raise open, under the id it had. */
  lemma AgainIsOpen(p: Policy, id: TrackId, t: Track, o: Observation, q: Observation, key: string)
    requires p.Valid() && WellFiled(p, id, t.active) && p.evidenceTtl > 0 && Again(p, id, t, o, q, key)
    ensures
      var u := IngestTrack(p, id, t, o).0;
      var v := IngestTrack(p, id, u, q).0;
      && key in t.active && key in u.active && key in v.active
      && u.active[key].id == t.active[key].id == v.active[key].id
  {
    hide IngestTrack, WellFiled, Candidates, Raised;
    var u := IngestTrack(p, id, t, o).0;
    StillOpenAgain(p, id, t, o);
    StillOpenAgain(p, id, u, q);
  }

  predicate LeftAlike(u: Track, v: Track, key: string) {
    key in u.active && key in v.active && u.active[key] == v.active[key]
  }

  /** What the store shows of one piece of evidence after both observations. */
  lemma StoredTellsOne(p: Policy, id: TrackId, t: Track, o: Observation, q: Observation, e: EvidenceId)
    requires p.Valid() && WellFiled(p, id, t.active) && EvaluatorsNameRulesOnce(p) && p.evidenceTtl > 0
    requires o.observedAt == q.observedAt
    ensures
      var (u, first) := IngestTrack(p, id, t, o);
      var (v, second) := IngestTrack(p, id, u, q);
      && WellFiled(p, id, u.active) && WellFiled(p, id, v.active)
      && (SameAt(ReceiveAll(ViewOf(p, id, u.active), Skip(second, EventIds(first))), ViewOf(p, id, v.active), e)
          <==> (Again(p, id, t, o, q, e.key) && e == t.active[e.key].id ==> LeftAlike(u, v, e.key)))
  {
    hide IngestTrack, WellFiled, EvaluatorsNameRulesOnce, EventIds, Skip, ReceiveAll, ViewOf, Skipped, RaisedOnce,
        AllLegal, Tells, Candidates, Raised;
    var (u, first) := IngestTrack(p, id, t, o);
    var (v, second) := IngestTrack(p, id, u, q);
    EventsTellTheWholeStory(p, id, t, o);
    EventsTellTheWholeStory(p, id, u, q);
    var view := ViewOf(p, id, u.active);
    SecondIsRaisedOnce(p, id, t, o, q);
    SkippingKeeps(view, second, EventIds(first), e);
    SkippedIsAgain(p, id, t, o, q, e);
    if Again(p, id, t, o, q, e.key) && e == t.active[e.key].id {
      AgainIsOpen(p, id, t, o, q, e.key);
      ViewsAtKey(p, id, u.active, v.active, e.key);
    }
  }

  /** Main result: after two successive observations a store that keeps each id once shows what is open exactly when the
      second left what it raises again as the first had left it; the later severity, summary and measurement of such
      evidence are otherwise never stored.
    */
  lemma StoredTellsExactly(p: Policy, id: TrackId, t: Track, o: Observation, q: Observation)
    requires p.Valid() && WellFiled(p, id, t.active) && EvaluatorsNameRulesOnce(p) && p.evidenceTtl > 0
    ensures
      var (u, first) := IngestTrack(p, id, t, o);
      var (v, second) := IngestTrack(p, id, u, q);
      && WellFiled(p, id, v.active)
      && (ReceiveAll(ViewOf(p, id, t.active), Stored(first + second)) == ViewOf(p, id, v.active)
          <==> forall key :: Again(p, id, t, o, q, key) ==> LeftAlike(u, v, key))
  {
    hide IngestTrack, WellFiled, EvaluatorsNameRulesOnce, EventIds, IdsDiffer, Stored, Skip, ReceiveAll, ViewOf, SameAt,
        AllLegal, Announces, LeftAlike, Candidates, Raised;
    var (u, first) := IngestTrack(p, id, t, o);
    var (v, second) := IngestTrack(p, id, u, q);
    var known, view := EventIds(first), ViewOf(p, id, t.active);
    EventsTellTheWholeStory(p, id, t, o);
    EventsTellTheWholeStory(p, id, u, q);
    SentIdsAre(p, id, t, o);
    SentIdsAre(p, id, u, q);
    StoredSum(first, second);
    StoredIsAllExactly(first);
    ReceiveAppend(view, first, Skip(second, known));
    NextSharesExactly(p, id, t, o, q);
    if known !! EventIds(second) {
      SkipNothing(second, known);
    } else {
      var shared :| Again(p, id, t, o, q, shared);
      ViewsEqual(ReceiveAll(view, Stored(first + second)), ViewOf(p, id, v.active));
      forall e
        ensures SameAt(ReceiveAll(view, Stored(first + second)), ViewOf(p, id, v.active), e)
                <==> (Again(p, id, t, o, q, e.key) && e == t.active[e.key].id ==> LeftAlike(u, v, e.key))
      {
        StoredTellsOne(p, id, t, o, q, e);
      }
      forall key | Again(p, id, t, o, q, key)
        ensures t.active[key].id.key == key
      {
        FiledUnder(p, id, t.active, key);
      }
    }
  }

  /** A raised key carries the measurement of its candidate. */
  lemma {:induction false} MeasureIsLatest(p: Policy, id: TrackId, active: map<string, Evidence>, o: Observation,
                                           cs: seq<Candidate>, i: nat)
    requires KeysDiffer(cs) && i < |cs|
    ensures
      var after := ApplyAll(p, id, active, o, cs).0;
      KeyOf(cs[i]) in after && after[KeyOf(cs[i])].measured == cs[i].measured
    decreases |cs|
  {
    hide KeyOf, MaxSeverity;
    var n := |cs| - 1;
    if i < n {
      assert KeyOf(cs[i]) != KeyOf(cs[n]);
      MeasureIsLatest(p, id, active, o, cs[..n], i);
    }
  }

  const LATE_KEY := "TIMING_EXCESSIVE_LATENCY:source_latency"

  predicate IsLate(p: Policy, o: Observation) {
    !o.recordedReplay && o.receivedAt - o.observedAt > p.maximumLatency
  }

  lemma LateCandidate(p: Policy, o: Observation)
    requires IsLate(p, o)
    ensures |LatencyCandidates(p, o)| == 1 && KeyOf(LatencyCandidates(p, o)[0]) == LATE_KEY
    ensures LatencyCandidates(p, o)[0].measured == Seconds(o.receivedAt - o.observedAt)
  {
    hide Seconds;
  }

  lemma MiddleAt<T>(a: seq<T>, b: seq<T>, c: seq<T>, d: seq<T>)
    requires c != []
    ensures |a| + |b| < |a + b + c + d| && (a + b + c + d)[|a| + |b|] == c[0]
  {}

  lemma LateIsRaised(p: Policy, t: Track, o: Observation) returns (i: nat)
    requires p.Valid() && IsLate(p, o)
    ensures i < |Candidates(p, t, o)| && KeyOf(Candidates(p, t, o)[i]) == LATE_KEY
    ensures Candidates(p, t, o)[i].measured == Seconds(o.receivedAt - o.observedAt)
  {
    hide DuplicateCandidates, OrderCandidates, LatencyCandidates, WindowCandidates, Remember, KeyOf, Seconds;
    var order := if t.observations == [] then [] else OrderCandidates(p, t.observations[|t.observations| - 1], o);
    i := |DuplicateCandidates(t.seen, o)| + |order|;
    LateCandidate(p, o);
    MiddleAt(DuplicateCandidates(t.seen, o), order, LatencyCandidates(p, o),
             WindowCandidates(p, Remember(p, t.observations, o), o));
  }

  /** Main result: while latency evidence is open, of two successive late observations of the same source time that were
      received at different times the store never shows what the second one measured.
    */
  lemma LateRepeatIsNeverStored(p: Policy, id: TrackId, t: Track, o: Observation, q: Observation)
    requires p.Valid() && WellFiled(p, id, t.active) && EvaluatorsNameRulesOnce(p) && p.evidenceTtl > 0
    requires LATE_KEY in StillOpen(t.active, o.observedAt) && IsLate(p, o) && IsLate(p, q)
    requires o.observedAt == q.observedAt && o.receivedAt != q.receivedAt
    ensures
      var (u, first) := IngestTrack(p, id, t, o);
      var (v, second) := IngestTrack(p, id, u, q);
      WellFiled(p, id, v.active)
        && ReceiveAll(ViewOf(p, id, t.active), Stored(first + second)) != ViewOf(p, id, v.active)
  {
    hide WellFiled, EvaluatorsNameRulesOnce, Stored, ReceiveAll, ViewOf, Candidates, ApplyAll, Expirations, StillOpen,
        KeysDiffer, KeyOf;
    var u := IngestTrack(p, id, t, o).0;
    StoredTellsExactly(p, id, t, o, q);
    var i := LateIsRaised(p, t, o);
    var j := LateIsRaised(p, u, q);
    CandidateKeysDiffer(p, t, o);
    CandidateKeysDiffer(p, u, q);
    MeasureIsLatest(p, id, StillOpen(t.active, o.observedAt), o, Candidates(p, t, o), i);
    MeasureIsLatest(p, id, StillOpen(u.active, q.observedAt), q, Candidates(p, u, q), j);
    assert Again(p, id, t, o, q, LATE_KEY);
  }
}
