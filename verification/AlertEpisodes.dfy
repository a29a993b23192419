/** backend/app/evaluation/calibration.py: flagged evaluations grouped into alert episodes, and the observed time they
    are set against. Times are in microseconds; a track key is one string.
  */
module AlertEpisodes {
  import opened Ordering

  datatype AlertEvent = AlertEvent(track: string, at: int, evidenceType: string, rules: seq<string>)

  datatype Episode = Episode(track: string, startedAt: int, endedAt: int, evaluationCount: nat,
                             evidenceTypes: set<string>, rules: set<string>)

  function RuleSet(e: AlertEvent): set<string> {
    set rule | rule in e.rules
  }

  function Started(e: AlertEvent): Episode {
    Episode(e.track, e.at, e.at, 1, {e.evidenceType}, RuleSet(e))
  }

  function Extended(p: Episode, e: AlertEvent): Episode {
    p.(endedAt := e.at, evaluationCount := p.evaluationCount + 1,
       evidenceTypes := p.evidenceTypes + {e.evidenceType}, rules := p.rules + RuleSet(e))
  }

  /** The episodes once one more event of the track has been seen. */
  function Absorb(episodes: seq<Episode>, e: AlertEvent, gap: int): seq<Episode> {
    var n := |episodes|;
    if n == 0 || e.at - episodes[n - 1].endedAt > gap then episodes + [Started(e)]
    else episodes[..n - 1] + [Extended(episodes[n - 1], e)]
  }

  /** The episodes of one track, its events taken in the order given. */
  function Grouped(events: seq<AlertEvent>, gap: int): seq<Episode> {
    if events == [] then [] else Absorb(Grouped(events[..|events| - 1], gap), events[|events| - 1], gap)
  }

  predicate TimeSorted(events: seq<AlertEvent>) {
    forall i, j :: 0 <= i < j < |events| ==> events[i].at <= events[j].at
  }

  function InsertByTime(events: seq<AlertEvent>, e: AlertEvent): seq<AlertEvent> {
    var n := |events|;
    if n == 0 || events[n - 1].at <= e.at then events + [e] else InsertByTime(events[..n - 1], e) + [events[n - 1]]
  }

  /** Python's stable `sorted(..., key=observed_at)`. */
  function SortByTime(events: seq<AlertEvent>): seq<AlertEvent> {
    if events == [] then [] else InsertByTime(SortByTime(events[..|events| - 1]), events[|events| - 1])
  }

  function OfTrack(events: seq<AlertEvent>, track: string): seq<AlertEvent> {
    if events == [] then []
    else
      var n := |events| - 1;
      OfTrack(events[..n], track) + if events[n].track == track then [events[n]] else []
  }

  function TracksOf(events: seq<AlertEvent>): set<string> {
    set e | e in events :: e.track
  }

  /** The episodes of the given tracks, one track after the other. */
  function GroupedTracks(events: seq<AlertEvent>, tracks: seq<string>, gap: int): seq<Episode> {
    if tracks == [] then []
    else
      var n := |tracks| - 1;
      GroupedTracks(events, tracks[..n], gap) + Grouped(SortByTime(OfTrack(events, tracks[n])), gap)
  }

  // ---------- the grouping loop ----------

  class AlertEpisode {
    const track: string
    const startedAt: int
    var endedAt: int
    var evaluationCount: nat
    var evidenceTypes: set<string>
    var rules: set<string>

    constructor (e: AlertEvent)
      ensures Value() == Started(e)
    {
      track, startedAt, endedAt, evaluationCount := e.track, e.at, e.at, 1;
      evidenceTypes, rules := {e.evidenceType}, RuleSet(e);
    }

    function Value(): Episode
      reads this
    {
      Episode(track, startedAt, endedAt, evaluationCount, evidenceTypes, rules)
    }

    method Extend(e: AlertEvent)
      modifies this
      ensures Value() == Extended(old(Value()), e)
    {
      endedAt := e.at;
      evaluationCount := evaluationCount + 1;
      evidenceTypes := evidenceTypes + {e.evidenceType};
      rules := rules + RuleSet(e);
    }
  }

  function Values(episodes: seq<AlertEpisode>): (values: seq<Episode>)
    reads episodes
    ensures |values| == |episodes| && forall i :: 0 <= i < |episodes| ==> values[i] == episodes[i].Value()
  {
    if episodes == [] then [] else Values(episodes[..|episodes| - 1]) + [episodes[|episodes| - 1].Value()]
  }

  lemma ValuesAppend(a: seq<AlertEpisode>, b: seq<AlertEpisode>)
    ensures Values(a + b) == Values(a) + Values(b)
  {
    hide AlertEpisode.Value;
  }

  lemma ValuesOfOne(episode: AlertEpisode)
    ensures Values([episode]) == [episode.Value()] && Values([]) == []
  {}

  /** The grouping of one track: `current` is always the last episode of the list, updated in place. */
  method GroupTrack(events: seq<AlertEvent>, gap: int) returns (episodes: seq<AlertEpisode>)
    ensures fresh(episodes) && Distinct(episodes)
    ensures Values(episodes) == Grouped(events, gap)
  {
    hide AlertEpisode.Value, Absorb, Values, Started, Extended, Grouped;
    episodes := [];
    NothingGrouped(gap);
    for i := 0 to |events|
      invariant fresh(episodes) && Distinct(episodes)
      invariant Values(episodes) == Grouped(events[..i], gap)
    {
      var event := events[i];
      ghost var before := Values(episodes);
      GroupedStep(events, i, gap);
      LastValue(episodes);
      if episodes == [] || event.at - episodes[|episodes| - 1].endedAt > gap {
        AbsorbStarts(before, event, gap);
        var current := new AlertEpisode(event);
        ValuesAppend(episodes, [current]);
        ValuesOfOne(current);
        episodes := episodes + [current];
      } else {
        AbsorbExtends(before, event, gap);
        var n := |episodes| - 1;
        var current := episodes[n];
        assert episodes == episodes[..n] + [current];
        ValuesAppend(episodes[..n], [current]);
        ValuesOfOne(current);
        assert before[..n] == Values(episodes[..n]) && before[n] == current.Value();
        current.Extend(event);
        ValuesAppend(episodes[..n], [current]);
        ValuesOfOne(current);
      }
    }
    assert events[..|events|] == events;
  }

  lemma NothingGrouped(gap: int)
    ensures Grouped([], gap) == [] && Values([]) == []
  {}

  lemma LastValue(episodes: seq<AlertEpisode>)
    ensures episodes != [] ==> Values(episodes)[|episodes| - 1].endedAt == episodes[|episodes| - 1].endedAt
  {}

  lemma GroupedStep(events: seq<AlertEvent>, i: nat, gap: int)
    requires i < |events|
    ensures Grouped(events[..i + 1], gap) == Absorb(Grouped(events[..i], gap), events[i], gap)
  {
    hide Absorb;
    assert events[..i + 1][..i] == events[..i];
  }

  lemma AbsorbStarts(episodes: seq<Episode>, e: AlertEvent, gap: int)
    requires episodes == [] || e.at - episodes[|episodes| - 1].endedAt > gap
    ensures Absorb(episodes, e, gap) == episodes + [Started(e)]
  {}

  lemma AbsorbExtends(episodes: seq<Episode>, e: AlertEvent, gap: int)
    requires episodes != [] && e.at - episodes[|episodes| - 1].endedAt <= gap
    ensures Absorb(episodes, e, gap) == episodes[..|episodes| - 1] + [Extended(episodes[|episodes| - 1], e)]
  {}

  method CollectTracks(events: seq<AlertEvent>) returns (grouped: map<string, seq<AlertEvent>>)
    ensures grouped.Keys == TracksOf(events)
    ensures forall track :: track in grouped ==> grouped[track] == OfTrack(events, track)
  {
    hide TracksOf, OfTrack;
    grouped := map[];
    NothingCollected();
    for i := 0 to |events|
      invariant grouped.Keys == TracksOf(events[..i])
      invariant forall track :: track in grouped ==> grouped[track] == OfTrack(events[..i], track)
    {
      var e := events[i];
      OneMore(events, i);
      grouped := grouped[e.track := (if e.track in grouped then grouped[e.track] else []) + [e]];
    }
    assert events[..|events|] == events;
  }

  lemma NothingCollected()
    ensures TracksOf([]) == {}
  {}

  method GroupAlertEpisodes(events: seq<AlertEvent>, gap: int) returns (episodes: seq<AlertEpisode>)
    ensures fresh(episodes) && Distinct(episodes)
    ensures Values(episodes) == GroupedTracks(events, SortedStrings(TracksOf(events)), gap)
  {
    hide AlertEpisode.Value, SortedStrings, Grouped, SortByTime, Values, GroupedTracks, TracksOf, OfTrack;
    var grouped := CollectTracks(events);
    SortedStringsMembers(grouped.Keys);
    var keys := SortedStrings(grouped.Keys);
    episodes := [];
    NoTracks(events, gap);
    for k := 0 to |keys|
      invariant fresh(episodes) && Distinct(episodes)
      invariant Values(episodes) == GroupedTracks(events, keys[..k], gap)
    {
      var more := GroupTrack(SortByTime(grouped[keys[k]]), gap);
      NextTrack(events, keys, k, gap);
      ValuesAppend(episodes, more);
      episodes := episodes + more;
    }
    assert keys[..|keys|] == keys;
  }

  lemma NoTracks(events: seq<AlertEvent>, gap: int)
    ensures GroupedTracks(events, [], gap) == [] && Values([]) == []
  {}

  lemma NextTrack(events: seq<AlertEvent>, keys: seq<string>, k: nat, gap: int)
    requires k < |keys|
    ensures GroupedTracks(events, keys[..k + 1], gap)
            == GroupedTracks(events, keys[..k], gap) + Grouped(SortByTime(OfTrack(events, keys[k])), gap)
  {
    hide Grouped, SortByTime, OfTrack;
    assert keys[..k + 1][..k] == keys[..k];
  }

  lemma OneMore(events: seq<AlertEvent>, i: nat)
    requires i < |events|
    ensures TracksOf(events[..i + 1]) == TracksOf(events[..i]) + {events[i].track}
    ensures forall track ::
              OfTrack(events[..i + 1], track)
              == OfTrack(events[..i], track) + if events[i].track == track then [events[i]] else []
    ensures events[i].track !in TracksOf(events[..i]) ==> OfTrack(events[..i], events[i].track) == []
  {
    assert events[..i + 1][..i] == events[..i];
    assert events[..i + 1] == events[..i] + [events[i]];
    if events[i].track !in TracksOf(events[..i]) { NoneOfTrack(events[..i], events[i].track); }
  }

  lemma {:induction false} NoneOfTrack(events: seq<AlertEvent>, track: string)
    requires track !in TracksOf(events)
    ensures OfTrack(events, track) == []
  {
    if events != [] {
      var n := |events| - 1;
      assert events == events[..n] + [events[n]];
      assert events[n].track in TracksOf(events);
      NoneOfTrack(events[..n], track);
    }
  }
}
