/** backend/integrity_core/engine.py as functions on values: what one observation does to a track
    and to the engine. Times are in microseconds.
  */
module IntegrityModel {
  import opened DedupRing
  import opened Ordering

  type Time = int
  type TrackId = nat

  datatype Kind = PairKinematic | WindowKinematic | TimingDuplicate | TimingNonIncreasing
                | TimingOutOfOrder | TimingExcessiveLatency | TimingGap
  datatype Severity = Info | Warning | Critical
  datatype EventType = Opened | Updated | Closed
  datatype TrackState = Nominal | Questionable | InsufficientData

  datatype Observation = Observation(id: string, source: string, recordedReplay: bool, rawId: string,
                                     observedAt: Time, receivedAt: Time, hasPosition: bool)

  /** Evidence ids are injective in the four parts the engine hashes. */
  datatype EvidenceId = EvidenceId(policyVersion: string, track: TrackId, key: string, observation: string)

  datatype Evidence = Evidence(id: EvidenceId, kind: Kind, severity: Severity, firstObservedAt: Time,
                               lastObservedAt: Time,
                               expiresAt: Time, summary: string, measured: real, threshold: real)

  datatype Event = Event(eventType: EventType, observedAt: Time, track: TrackId, state: TrackState, evidence: Evidence)

  datatype RuleResult = RuleResult(rule: string, explanation: string, value: real, threshold: real)

  datatype Candidate = Candidate(kind: Kind, discriminator: string, summary: string, measured: real, threshold: real,
                                 severity: Severity)

  /** The pair and window evaluators and the track hash are arbitrary functions. */
  datatype Policy = Policy(version: string,
                           maximumReordering: int, maximumLatency: int, gap: int, evidenceTtl: int,
                           minimumObservations: int, maximumTracks: int, maximumObservationsPerTrack: int,
                           inactiveTrack: int,
                           windowMinimum: int, windowMaximum: int, windowDuration: int,
                           evaluatePair: (Observation, Observation) -> seq<RuleResult>,
                           evaluateWindow: seq<Observation> -> seq<RuleResult>,
                           trackId: Observation -> TrackId)
  {
    /** What `policy_from_dict` insists on (backend/integrity_core/policy.py). */
    predicate Valid() {
      && minimumObservations >= 2 && maximumTracks >= 1 && maximumObservationsPerTrack >= 2
      && maximumReordering >= 0 && maximumLatency >= 0 && gap >= 0 && evidenceTtl >= 0
    }
  }

  datatype Track = Track(observations: seq<Observation>, active: map<string, Evidence>, seen: Ring<string>)

  const NEW_TRACK := Track([], map[], Ring([], {}))

  datatype Snapshot = Snapshot(track: TrackId, observedAt: Time, state: TrackState, observationCount: nat, window: int,
                               policyVersion: string, activeEvidence: set<Evidence>,
                               tooFew: bool, noPosition: bool, windowTooShort: bool)

  function KindName(kind: Kind): string {
    match kind
    case PairKinematic => "PAIR_KINEMATIC"
    case WindowKinematic => "WINDOW_KINEMATIC"
    case TimingDuplicate => "TIMING_DUPLICATE"
    case TimingNonIncreasing => "TIMING_NON_INCREASING"
    case TimingOutOfOrder => "TIMING_OUT_OF_ORDER"
    case TimingExcessiveLatency => "TIMING_EXCESSIVE_LATENCY"
    case TimingGap => "TIMING_GAP"
  }

  function KeyOf(c: Candidate): string {
    KindName(c.kind) + ":" + c.discriminator
  }

  function Rank(s: Severity): nat {
    match s case Info => 0 case Warning => 1 case Critical => 2
  }

  function MaxSeverity(a: Severity, b: Severity): Severity {
    if Rank(a) >= Rank(b) then a else b
  }

  function SeverityOf(value: real, threshold: real): Severity {
    if threshold > 0.0 && value >= 2.0 * threshold then Critical else Warning
  }

  function Seconds(t: int): real {
    t as real / 1000000.0
  }

  // ---------- candidates raised by one observation ----------

  predicate IsDuplicate(seen: Ring<string>, o: Observation) {
    o.rawId != "" && o.rawId in seen.ids
  }

  function RuleCandidates(kind: Kind, results: seq<RuleResult>): seq<Candidate> {
    if results == [] then []
    else
      var r := results[0];
      [Candidate(kind, r.rule, r.explanation, r.value, r.threshold, SeverityOf(r.value, r.threshold))]
      + RuleCandidates(kind, results[1..])
  }

  function DuplicateCandidates(seen: Ring<string>, o: Observation): seq<Candidate> {
    if IsDuplicate(seen, o) then [Candidate(TimingDuplicate, "message", "duplicate", 1.0, 0.0, Warning)] else []
  }

  function OrderCandidates(p: Policy, previous: Observation, o: Observation): seq<Candidate> {
    var delta := o.observedAt - previous.observedAt;
    (if delta <= 0 then [Candidate(TimingNonIncreasing, "source_time", "not advancing", Seconds(delta), 0.0, Warning)]
     else [])
    + (if delta < -p.maximumReordering
       then [Candidate(TimingOutOfOrder, "source_time", "out of order", Seconds(-delta), Seconds(p.maximumReordering),
                       Warning)]
       else [])
    + (if delta > p.gap then [Candidate(TimingGap, "continuity", "gap", Seconds(delta), Seconds(p.gap), Info)] else [])
    + RuleCandidates(PairKinematic, p.evaluatePair(previous, o))
  }

  function LatencyCandidates(p: Policy, o: Observation): seq<Candidate> {
    var latency := o.receivedAt - o.observedAt;
    if !o.recordedReplay && latency > p.maximumLatency
    then [Candidate(TimingExcessiveLatency, "source_latency", "late", Seconds(latency), Seconds(p.maximumLatency),
                    Warning)]
    else []
  }

  /** Python's `items[-n:]`: for n = 0 this is the whole sequence. */
  function SliceLast<T>(s: seq<T>, n: int): seq<T> {
    if n > 0 then LastN(s, n) else if -n <= |s| then s[-n..] else []
  }

  function InWindow(s: seq<Observation>, earliest: Time, latest: Time): seq<Observation> {
    if s == [] then []
    else (if earliest <= s[0].observedAt <= latest then [s[0]] else []) + InWindow(s[1..], earliest, latest)
  }

  /** The observations the window evaluator sees: those in the time range, the latest n of them. */
  function WindowItems(observations: seq<Observation>, now: Time, duration: int, n: int): seq<Observation> {
    SliceLast(InWindow(observations, now - duration, now), n)
  }

  function WindowCandidates(p: Policy, observations: seq<Observation>, o: Observation): seq<Candidate> {
    var items := WindowItems(observations, o.observedAt, p.windowDuration, p.windowMaximum);
    if |items| >= p.windowMinimum then RuleCandidates(WindowKinematic, p.evaluateWindow(items)) else []
  }

  function Remember(p: Policy, observations: seq<Observation>, o: Observation): seq<Observation>
    requires p.Valid()
  {
    LastN(observations + [o], p.maximumObservationsPerTrack)
  }

  function Candidates(p: Policy, t: Track, o: Observation): seq<Candidate>
    requires p.Valid()
  {
    DuplicateCandidates(t.seen, o)
    + (if t.observations == [] then [] else OrderCandidates(p, t.observations[|t.observations| - 1], o))
    + LatencyCandidates(p, o)
    + WindowCandidates(p, Remember(p, t.observations, o), o)
  }

  // ---------- evidence ----------

  function EventOf(eventType: EventType, track: TrackId, at: Time, e: Evidence): Event {
    Event(eventType, at, track, if eventType.Closed? then Nominal else Questionable, e)
  }

  /** The evidence a candidate leaves open: a fresh record, or the open one refreshed. */
  function Refreshed(p: Policy, track: TrackId, active: map<string, Evidence>, o: Observation, c: Candidate): Evidence {
    var key := KeyOf(c);
    if key in active then
      var open := active[key];
      open.(severity := MaxSeverity(open.severity, c.severity), lastObservedAt := o.observedAt,
           expiresAt := o.observedAt + p.evidenceTtl, summary := c.summary, measured := c.measured,
           threshold := c.threshold)
    else
      Evidence(EvidenceId(p.version, track, key, o.id), c.kind, c.severity, o.observedAt, o.observedAt,
               o.observedAt + p.evidenceTtl, c.summary, c.measured, c.threshold)
  }

  function OpenOrUpdate(p: Policy, track: TrackId, active: map<string, Evidence>, o: Observation, c: Candidate)
    : (map<string, Evidence>, Event)
  {
    var e := Refreshed(p, track, active, o, c);
    (active[KeyOf(c) := e], EventOf(if KeyOf(c) in active then Updated else Opened, track, o.observedAt, e))
  }

  function ApplyAll(p: Policy, track: TrackId, active: map<string, Evidence>, o: Observation, cs: seq<Candidate>)
    : (map<string, Evidence>, seq<Event>)
    decreases |cs|
  {
    if cs == [] then (active, [])
    else
      var (before, events) := ApplyAll(p, track, active, o, cs[..|cs| - 1]);
      var (after, event) := OpenOrUpdate(p, track, before, o, cs[|cs| - 1]);
      (after, events + [event])
  }

  predicate Expired(e: Evidence, now: Time) {
    e.expiresAt <= now
  }

  function StillOpen(active: map<string, Evidence>, now: Time): map<string, Evidence> {
    map key | key in active && !Expired(active[key], now) :: active[key]
  }

  /** Closings, in ascending order of their keys. */
  function ClosedEvents(active: map<string, Evidence>, track: TrackId, now: Time, keys: seq<string>): seq<Event>
    requires forall key :: key in keys ==> key in active
    decreases |keys|
  {
    if keys == [] then []
    else
      var n := |keys| - 1;
      ClosedEvents(active, track, now, keys[..n])
      + if Expired(active[keys[n]], now) then [EventOf(Closed, track, now, active[keys[n]])] else []
  }

  function Expirations(active: map<string, Evidence>, track: TrackId, now: Time): seq<Event> {
    SortedStringsIsSorted(active.Keys);
    ClosedEvents(active, track, now, SortedStrings(active.Keys))
  }

  // ---------- one track ----------

  function SeenAfter(p: Policy, seen: Ring<string>, o: Observation): Ring<string>
    requires p.Valid()
  {
    if o.rawId == "" then seen else seen.Offer(o.rawId, p.maximumObservationsPerTrack)
  }

  function IngestTrack(p: Policy, id: TrackId, t: Track, o: Observation): (Track, seq<Event>)
    requires p.Valid()
  {
    var closed := Expirations(t.active, id, o.observedAt);
    var (active, events) := ApplyAll(p, id, StillOpen(t.active, o.observedAt), o, Candidates(p, t, o));
    (Track(Remember(p, t.observations, o), active, SeenAfter(p, t.seen, o)), closed + events)
  }

  function BuildSnapshot(p: Policy, id: TrackId, t: Track): Snapshot
    requires t.observations != []
  {
    var n := |t.observations|;
    var current := t.observations[n - 1];
    var state :=
      if n < p.minimumObservations then InsufficientData
      else if t.active != map[] then Questionable
      else Nominal;
    var duration := current.observedAt - t.observations[0].observedAt;
    Snapshot(id, current.observedAt, state, n, if duration < 0 then 0 else duration, p.version, t.active.Values,
             n < p.minimumObservations, !current.hasPosition, n < p.windowMinimum)
  }

  // ---------- the engine ----------

  datatype Engine = Engine(tracks: map<TrackId, Track>, snapshots: map<TrackId, Snapshot>)

  const EMPTY := Engine(map[], map[])

  function LastTime(t: Track): Time {
    if t.observations == [] then 0 else t.observations[|t.observations| - 1].observedAt
  }

  function Without<V>(m: map<TrackId, V>, ids: set<TrackId>): map<TrackId, V> {
    map id | id in m && id !in ids :: m[id]
  }

  function Drop(e: Engine, ids: set<TrackId>): Engine {
    Engine(Without(e.tracks, ids), Without(e.snapshots, ids))
  }

  function Stale(p: Policy, tracks: map<TrackId, Track>, now: Time): set<TrackId> {
    set id | id in tracks && LastTime(tracks[id]) < now - p.inactiveTrack
  }

  predicate OlderOrSame(tracks: map<TrackId, Track>, a: TrackId, b: TrackId)
    requires a in tracks && b in tracks
  {
    LastTime(tracks[a]) < LastTime(tracks[b]) || (LastTime(tracks[a]) == LastTime(tracks[b]) && a <= b)
  }

  /** The track with the least (last time, id). */
  predicate IsOldest(tracks: map<TrackId, Track>, m: TrackId) {
    m in tracks && forall id :: id in tracks ==> OlderOrSame(tracks, m, id)
  }

  lemma {:induction false} OldestExists(tracks: map<TrackId, Track>)
    requires tracks != map[]
    ensures exists m :: IsOldest(tracks, m)
    decreases |tracks|
  {
    var x :| x in tracks;
    var rest := Without(tracks, {x});
    assert tracks.Keys == rest.Keys + {x};
    if rest == map[] {
      assert forall id :: id in tracks ==> id == x;
      assert IsOldest(tracks, x);
    } else {
      OldestExists(rest);
      var m :| IsOldest(rest, m);
      assert forall id :: id in tracks ==> id in rest || id == x;
      assert IsOldest(tracks, if OlderOrSame(tracks, x, m) then x else m);
    }
  }

  ghost function Oldest(tracks: map<TrackId, Track>): (m: TrackId)
    requires tracks != map[]
    ensures IsOldest(tracks, m)
  {
    OldestExists(tracks);
    var m :| IsOldest(tracks, m);
    m
  }

  /** `_evict_if_needed`, once the incoming track is known to be new. */
  ghost function Evicted(e: Engine, capacity: int): Engine
    requires capacity >= 1
    decreases |e.tracks|
  {
    if |e.tracks| < capacity then e
    else
      var m := Oldest(e.tracks);
      assert e.tracks.Keys == Without(e.tracks, {m}).Keys + {m};
      Evicted(Drop(e, {m}), capacity)
  }

  ghost function MakeRoom(p: Policy, e: Engine, o: Observation): Engine
    requires p.Valid()
  {
    var purged := Drop(e, Stale(p, e.tracks, o.observedAt));
    if p.trackId(o) in purged.tracks then purged else Evicted(purged, p.maximumTracks)
  }

  function TrackOrNew(e: Engine, id: TrackId): Track {
    if id in e.tracks then e.tracks[id] else NEW_TRACK
  }

  ghost function Ingest(p: Policy, e: Engine, o: Observation): (Engine, Snapshot, seq<Event>)
    requires p.Valid()
  {
    var id, room := p.trackId(o), MakeRoom(p, e, o);
    var (t, events) := IngestTrack(p, id, TrackOrNew(room, id), o);
    var snapshot := BuildSnapshot(p, id, t);
    (Engine(room.tracks[id := t], room.snapshots[id := snapshot]), snapshot, events)
  }

  /** The engine after any list of observations. */
  ghost function EngineAfter(p: Policy, os: seq<Observation>): Engine
    requires p.Valid()
    decreases |os|
  {
    if os == [] then EMPTY else Ingest(p, EngineAfter(p, os[..|os| - 1]), os[|os| - 1]).0
  }
}
