/** Alert episodes are the maximal chains of a track's events, whatever order the events were listed in; observed time
    is what such chains span.
  */
module AlertEpisodeProofs {
  import opened Ordering
  import opened AlertEpisodes

  // ---------- the reference ----------

  predicate EventIn(events: seq<AlertEvent>, lo: int, hi: int) {
    exists e :: e in events && lo <= e.at <= hi
  }

  predicate Inside(e: AlertEvent, p: Episode) {
    p.startedAt <= e.at <= p.endedAt
  }

  ghost predicate NoneLater(events: seq<AlertEvent>, t: int) {
    forall e :: e in events ==> e.at <= t
  }

  /** From the first event to the last, no step is longer than the gap, and nothing is within the gap of either end. */
  ghost predicate IsMaximalChain(p: Episode, events: seq<AlertEvent>, gap: int) {
    && p.startedAt <= p.endedAt
    && EventIn(events, p.startedAt, p.startedAt) && EventIn(events, p.endedAt, p.endedAt)
    && !EventIn(events, p.startedAt - gap, p.startedAt - 1) && !EventIn(events, p.endedAt + 1, p.endedAt + gap)
    && (forall e :: e in events && Inside(e, p) && e.at != p.startedAt ==> EventIn(events, e.at - gap, e.at - 1))
    && (forall e :: e in events && Inside(e, p) && e.at != p.endedAt ==> EventIn(events, e.at + 1, e.at + gap))
  }

  function CountInside(events: seq<AlertEvent>, p: Episode): nat {
    if events == [] then 0
    else CountInside(events[..|events| - 1], p) + if Inside(events[|events| - 1], p) then 1 else 0
  }

  /** The episode reports what happened inside it and nothing else. */
  ghost predicate Accounts(p: Episode, events: seq<AlertEvent>) {
    && p.evaluationCount == CountInside(events, p)
    && (forall x :: x in p.evidenceTypes <==> exists e :: e in events && Inside(e, p) && e.evidenceType == x)
    && (forall x :: x in p.rules <==> exists e :: e in events && Inside(e, p) && x in e.rules)
    && (forall e :: e in events ==> p.track == e.track)
  }

  ghost predicate AllDescribed(episodes: seq<Episode>, events: seq<AlertEvent>, gap: int) {
    forall k :: 0 <= k < |episodes| ==> IsMaximalChain(episodes[k], events, gap) && Accounts(episodes[k], events)
  }

  ghost predicate Separated(episodes: seq<Episode>, gap: int) {
    forall k, l :: 0 <= k < l < |episodes| ==> episodes[k].endedAt + gap < episodes[l].startedAt
  }

  ghost predicate Covered(episodes: seq<Episode>, events: seq<AlertEvent>) {
    forall e :: e in events ==> exists k :: 0 <= k < |episodes| && Inside(e, episodes[k])
  }

  /** The episodes are the maximal chains of the events, each once and in order. */
  ghost predicate IsGrouping(episodes: seq<Episode>, events: seq<AlertEvent>, gap: int) {
    AllDescribed(episodes, events, gap) && Separated(episodes, gap) && Covered(episodes, events)
  }

  // ---------- the loop computes the reference ----------

  lemma CountAppend(events: seq<AlertEvent>, e: AlertEvent, p: Episode)
    ensures CountInside(events + [e], p) == CountInside(events, p) + if Inside(e, p) then 1 else 0
  {
    assert (events + [e])[..|events|] == events;
  }

  lemma {:induction false} NoneInside(events: seq<AlertEvent>, p: Episode)
    requires forall e :: e in events ==> !Inside(e, p)
    ensures CountInside(events, p) == 0
  {
    if events != [] { NoneInside(events[..|events| - 1], p); }
  }

  /** Widening an episode past the last event adds none. */
  lemma {:induction false} CountOfWider(events: seq<AlertEvent>, p: Episode, q: Episode)
    requires p.startedAt == q.startedAt && p.endedAt <= q.endedAt && forall e :: e in events ==> e.at <= p.endedAt
    ensures CountInside(events, p) == CountInside(events, q)
  {
    if events != [] { CountOfWider(events[..|events| - 1], p, q); }
  }

  lemma InMore(events: seq<AlertEvent>, e: AlertEvent)
    ensures forall x :: x in events + [e] <==> x in events || x == e
    ensures forall lo, hi :: EventIn(events + [e], lo, hi) <==> EventIn(events, lo, hi) || lo <= e.at <= hi
  {
    forall x ensures x in events + [e] <==> x in events || x == e {}
    forall lo, hi ensures EventIn(events + [e], lo, hi) <==> EventIn(events, lo, hi) || lo <= e.at <= hi {
      if lo <= e.at <= hi { assert e in events + [e]; }
      if EventIn(events, lo, hi) {
        var x :| x in events && lo <= x.at <= hi;
        assert x in events + [e];
      }
    }
  }

  /** An episode that ended more than the gap ago stays as it is. */
  lemma OlderEpisodeStays(p: Episode, events: seq<AlertEvent>, e: AlertEvent, gap: int)
    requires gap >= 0 && IsMaximalChain(p, events, gap) && Accounts(p, events) && p.endedAt + gap < e.at
    requires p.track == e.track
    ensures IsMaximalChain(p, events + [e], gap) && Accounts(p, events + [e])
  {
    hide EventIn, CountInside;
    InMore(events, e);
    CountAppend(events, e, p);
  }

  lemma NewEpisode(events: seq<AlertEvent>, e: AlertEvent, gap: int)
    requires gap >= 0 && forall x :: x in events ==> x.at + gap < e.at && x.track == e.track
    ensures IsMaximalChain(Started(e), events + [e], gap) && Accounts(Started(e), events + [e])
  {
    hide CountInside;
    InMore(events, e);
    CountAppend(events, e, Started(e));
    NoneInside(events, Started(e));
    assert e in events + [e];
    assert !EventIn(events, e.at - gap, e.at - 1) && !EventIn(events, e.at + 1, e.at + gap);
  }

  lemma ExtendedEpisode(p: Episode, events: seq<AlertEvent>, e: AlertEvent, gap: int)
    requires gap >= 0 && IsMaximalChain(p, events, gap) && Accounts(p, events) && p.track == e.track
    requires p.endedAt <= e.at <= p.endedAt + gap && NoneLater(events, p.endedAt)
    ensures IsMaximalChain(Extended(p, e), events + [e], gap)
    ensures Accounts(Extended(p, e), events + [e])
  {
    ExtendedChain(p, events, e, gap);
    ExtendedAccount(p, events, e);
  }

  lemma EventAt(events: seq<AlertEvent>, t: int) returns (e: AlertEvent)
    requires EventIn(events, t, t)
    ensures e in events && e.at == t
  {
    e :| e in events && t <= e.at <= t;
  }

  lemma EventInAt(events: seq<AlertEvent>, e: AlertEvent, lo: int, hi: int)
    requires e in events && lo <= e.at <= hi
    ensures EventIn(events, lo, hi)
  {}

  lemma NothingPast(events: seq<AlertEvent>, t: int, lo: int, hi: int)
    requires NoneLater(events, t) && lo > t
    ensures !EventIn(events, lo, hi)
  {}

  lemma ExtendedChain(p: Episode, events: seq<AlertEvent>, e: AlertEvent, gap: int)
    requires gap >= 0 && IsMaximalChain(p, events, gap)
    requires p.endedAt <= e.at <= p.endedAt + gap && NoneLater(events, p.endedAt)
    ensures IsMaximalChain(Extended(p, e), events + [e], gap)
  {
    hide EventIn;
    var q := Extended(p, e);
    InMore(events, e);
    NothingPast(events, p.endedAt, q.endedAt + 1, q.endedAt + gap);
    var last := EventAt(events, p.endedAt);
    forall x | x in events + [e] && Inside(x, q) && x.at != q.startedAt
      ensures EventIn(events + [e], x.at - gap, x.at - 1)
    {
      if x.at <= p.endedAt {
        assert Inside(last, p) && EventIn(events, x.at - gap, x.at - 1);
      } else {
        EventInAt(events, last, x.at - gap, x.at - 1);
      }
    }
    forall x | x in events + [e] && Inside(x, q) && x.at != q.endedAt
      ensures EventIn(events + [e], x.at + 1, x.at + gap)
    {
      if x.at < p.endedAt { assert Inside(x, p); }
    }
  }

  lemma ExtendedAccount(p: Episode, events: seq<AlertEvent>, e: AlertEvent)
    requires Accounts(p, events) && p.track == e.track && p.startedAt <= p.endedAt
    requires p.endedAt <= e.at && NoneLater(events, p.endedAt)
    ensures Accounts(Extended(p, e), events + [e])
  {
    hide CountInside;
    var q := Extended(p, e);
    InMore(events, e);
    CountAppend(events, e, q);
    CountOfWider(events, p, q);
    assert forall x :: x in events ==> (Inside(x, p) <==> Inside(x, q));
    assert Inside(e, q);
    forall x ensures x in q.evidenceTypes <==> exists y :: y in events + [e] && Inside(y, q) && y.evidenceType == x {
      if x in p.evidenceTypes {
        var y :| y in events && Inside(y, p) && y.evidenceType == x;
        assert y in events + [e];
      }
      if x == e.evidenceType { assert e in events + [e]; }
    }
    forall x ensures x in q.rules <==> exists y :: y in events + [e] && Inside(y, q) && x in y.rules {
      if x in p.rules {
        var y :| y in events && Inside(y, p) && x in y.rules;
        assert y in events + [e];
      }
      if x in e.rules { assert e in events + [e]; }
    }
  }

  lemma AbsorbGroups(episodes: seq<Episode>, events: seq<AlertEvent>, e: AlertEvent, gap: int)
    requires gap >= 0 && IsGrouping(episodes, events, gap) && episodes != []
    requires NoneLater(events, episodes[|episodes| - 1].endedAt) && e.at >= episodes[|episodes| - 1].endedAt
    requires episodes[|episodes| - 1].track == e.track && AllOn(events, e.track)
    ensures IsGrouping(Absorb(episodes, e, gap), events + [e], gap)
  {
    hide IsMaximalChain, Accounts;
    var n := |episodes| - 1;
    var last := episodes[n];
    ChainsAreForward(episodes, events, gap);
    forall k | 0 <= k < n
      ensures IsMaximalChain(episodes[k], events + [e], gap) && Accounts(episodes[k], events + [e])
    {
      assert episodes[k].endedAt + gap < last.startedAt;
      assert episodes[k].track == e.track by { TrackOf(episodes[k], events, gap, e.track); }
      OlderEpisodeStays(episodes[k], events, e, gap);
    }
    if e.at - last.endedAt > gap {
      OlderEpisodeStays(last, events, e, gap);
      NewEpisode(events, e, gap);
    } else {
      ExtendedEpisode(last, events, e, gap);
    }
    AbsorbCovers(episodes, events, e, gap);
  }

  lemma TrackOf(p: Episode, events: seq<AlertEvent>, gap: int, track: string)
    requires IsMaximalChain(p, events, gap) && Accounts(p, events) && AllOn(events, track)
    ensures p.track == track
  {
    var e :| e in events && e.at == p.startedAt;
  }

  lemma ChainsAreForward(episodes: seq<Episode>, events: seq<AlertEvent>, gap: int)
    requires AllDescribed(episodes, events, gap)
    ensures forall k :: 0 <= k < |episodes| ==> episodes[k].startedAt <= episodes[k].endedAt
  {}

  lemma AbsorbCovers(episodes: seq<Episode>, events: seq<AlertEvent>, e: AlertEvent, gap: int)
    requires episodes != [] && Covered(episodes, events)
    requires episodes[|episodes| - 1].startedAt <= episodes[|episodes| - 1].endedAt <= e.at
    ensures Covered(Absorb(episodes, e, gap), events + [e])
  {
    var after := Absorb(episodes, e, gap);
    forall x | x in events + [e]
      ensures exists k :: 0 <= k < |after| && Inside(x, after[k])
    {
      if x in events {
        var k :| 0 <= k < |episodes| && Inside(x, episodes[k]);
        assert Inside(x, after[k]);
      } else {
        assert x == e && Inside(e, after[|after| - 1]);
      }
    }
  }

  lemma FirstGroups(e: AlertEvent, gap: int)
    requires gap >= 0
    ensures IsGrouping([Started(e)], [e], gap)
  {
    hide IsMaximalChain, Accounts;
    NewEpisode([], e, gap);
    assert [] + [e] == [e];
    forall x | x in [e]
      ensures exists k :: 0 <= k < |[Started(e)]| && Inside(x, [Started(e)][k])
    {
      assert Inside(x, [Started(e)][0]);
    }
  }

  lemma AbsorbShape(episodes: seq<Episode>, e: AlertEvent, gap: int)
    ensures
      var after := Absorb(episodes, e, gap);
      var last := |after| - 1;
      && after != [] && after[last].endedAt == e.at
      && after[last].track == (if episodes != [] && |after| == |episodes| then episodes[last].track else e.track)
      && |episodes| <= |after|
  {}

  lemma GroupedGrows(events: seq<AlertEvent>, gap: int)
    requires events != []
    ensures Grouped(events, gap) == Absorb(Grouped(events[..|events| - 1], gap), events[|events| - 1], gap)
  {
    hide Absorb;
  }

  lemma SplitLast<T>(s: seq<T>)
    requires s != []
    ensures s == s[..|s| - 1] + [s[|s| - 1]]
  {}

  lemma SortedFront(events: seq<AlertEvent>)
    requires TimeSorted(events) && |events| > 1
    ensures
      var n := |events| - 1;
      TimeSorted(events[..n]) && events[..n][n - 1] == events[n - 1] && NoneLater(events[..n], events[n - 1].at)
          && events[n].at >= events[n - 1].at
  {}

  ghost predicate AllOn(events: seq<AlertEvent>, track: string) {
    forall e :: e in events ==> e.track == track
  }

  /** Main result: the episodes the loop builds for a track are exactly the maximal chains of its events: none missing,
      none split, none joined, each with its own count, evidence types and rules.
    */
  lemma {:induction false} GroupedIsGrouping(events: seq<AlertEvent>, track: string, gap: int)
    requires gap >= 0 && TimeSorted(events) && AllOn(events, track)
    ensures IsGrouping(Grouped(events, gap), events, gap)
    ensures events != [] ==>
              && Grouped(events, gap) != []
              && Grouped(events, gap)[|Grouped(events, gap)| - 1].endedAt == events[|events| - 1].at
              && Grouped(events, gap)[|Grouped(events, gap)| - 1].track == track
  {
    hide IsGrouping, Absorb, Grouped, Started, Extended, NoneLater, TimeSorted;
    if |events| == 0 {
      NothingToGroup(gap);
    } else if |events| == 1 {
      assert events == [events[0]] && events[0] in events;
      OneGrouped(events[0], gap);
      FirstGroups(events[0], gap);
    } else {
      var n := |events| - 1;
      SortedFront(events);
      SplitLast(events);
      GroupedGrows(events, gap);
      assert AllOn(events[..n], track) && events[n] in events;
      GroupedIsGrouping(events[..n], track, gap);
      AbsorbShape(Grouped(events[..n], gap), events[n], gap);
      AbsorbGroups(Grouped(events[..n], gap), events[..n], events[n], gap);
    }
  }

  lemma OneGrouped(e: AlertEvent, gap: int)
    ensures Grouped([e], gap) == [Started(e)] && Started(e).endedAt == e.at && Started(e).track == e.track
  {
    assert [e][..0] == [];
  }

  lemma NothingToGroup(gap: int)
    ensures Grouped([], gap) == [] && IsGrouping([], [], gap)
  {}

  // ---------- the reference is unique ----------

  lemma ChainStartsAreStarts(a: seq<Episode>, b: seq<Episode>, events: seq<AlertEvent>, gap: int, k: nat)
    requires IsGrouping(a, events, gap) && IsGrouping(b, events, gap) && k < |a|
    ensures a[k] in b
  {
    hide CountInside, EventIn, Separated, Accounts;
    var e := EventAt(events, a[k].startedAt);
    var l :| 0 <= l < |b| && Inside(e, b[l]);
    assert IsMaximalChain(a[k], events, gap) && IsMaximalChain(b[l], events, gap);
    assert b[l].startedAt == e.at;
    SameEnd(a[k], b[l], events, gap);
    SameAccount(a[k], b[l], events);
  }

  lemma SameEnd(p: Episode, q: Episode, events: seq<AlertEvent>, gap: int)
    requires IsMaximalChain(p, events, gap) && IsMaximalChain(q, events, gap) && p.startedAt == q.startedAt
    ensures p.endedAt == q.endedAt
  {
    var e :| e in events && e.at == p.endedAt;
    var f :| f in events && f.at == q.endedAt;
    if p.endedAt < q.endedAt { assert Inside(e, q); }
    if q.endedAt < p.endedAt { assert Inside(f, p); }
  }

  lemma {:induction false} SameCount(events: seq<AlertEvent>, p: Episode, q: Episode)
    requires p.startedAt == q.startedAt && p.endedAt == q.endedAt
    ensures CountInside(events, p) == CountInside(events, q)
  {
    if events != [] { SameCount(events[..|events| - 1], p, q); }
  }

  lemma SameAccount(p: Episode, q: Episode, events: seq<AlertEvent>)
    requires Accounts(p, events) && Accounts(q, events) && p.startedAt == q.startedAt && p.endedAt == q.endedAt
    requires EventIn(events, p.startedAt, p.startedAt)
    ensures p == q
  {
    SameCount(events, p, q);
    hide CountInside;
    assert forall e :: e in events ==> (Inside(e, p) <==> Inside(e, q));
    assert p.evidenceTypes == q.evidenceTypes;
    assert p.rules == q.rules;
  }

  /** Main result: the maximal chains determine the list of episodes. */
  lemma GroupingIsUnique(a: seq<Episode>, b: seq<Episode>, events: seq<AlertEvent>, gap: int)
    requires gap >= 0 && IsGrouping(a, events, gap) && IsGrouping(b, events, gap)
    ensures a == b
  {
    hide IsMaximalChain, Accounts;
    forall k | 0 <= k < |a| ensures a[k] in b { ChainStartsAreStarts(a, b, events, gap, k); }
    forall k | 0 <= k < |b| ensures b[k] in a { ChainStartsAreStarts(b, a, events, gap, k); }
    ChainsAreForward(a, events, gap);
    ChainsAreForward(b, events, gap);
    AscendingAreEqual(a, b);
  }

  ghost predicate StartsAscend(s: seq<Episode>) {
    forall k, l :: 0 <= k < l < |s| ==> s[k].startedAt < s[l].startedAt
  }

  ghost predicate Within(a: seq<Episode>, b: seq<Episode>) {
    forall k :: 0 <= k < |a| ==> a[k] in b
  }

  lemma WithinNonempty(a: seq<Episode>, b: seq<Episode>)
    requires a != [] && Within(a, b)
    ensures b != []
  {
    assert a[0] in b;
  }

  lemma LastsAgree(a: seq<Episode>, b: seq<Episode>)
    requires StartsAscend(a) && StartsAscend(b) && Within(a, b) && Within(b, a) && a != []
    ensures b != [] && a[|a| - 1] == b[|b| - 1]
  {
    var m := |a| - 1;
    assert a[m] in b;
    var n := |b| - 1;
    assert b[n] in a;
    var i :| 0 <= i < |b| && b[i] == a[m];
    var j :| 0 <= j < |a| && a[j] == b[n];
  }

  lemma FrontIsWithin(a: seq<Episode>, b: seq<Episode>)
    requires a != [] && b != [] && a[|a| - 1] == b[|b| - 1] && StartsAscend(a) && Within(a, b)
    ensures StartsAscend(a[..|a| - 1]) && Within(a[..|a| - 1], b[..|b| - 1])
  {
    var m, n := |a| - 1, |b| - 1;
    forall k | 0 <= k < m ensures a[..m][k] in b[..n] {
      var i :| 0 <= i < |b| && b[i] == a[k];
      assert a[k].startedAt < a[m].startedAt;
      assert b[..n][i] == a[k];
    }
  }

  lemma {:induction false} AscendingAreEqual(a: seq<Episode>, b: seq<Episode>)
    requires StartsAscend(a) && StartsAscend(b) && Within(a, b) && Within(b, a)
    ensures a == b
    decreases |a|
  {
    hide StartsAscend;
    if a == [] {
      if b != [] { WithinNonempty(b, a); }
    } else {
      LastsAgree(a, b);
      FrontIsWithin(a, b);
      FrontIsWithin(b, a);
      hide Within;
      AscendingAreEqual(a[..|a| - 1], b[..|b| - 1]);
      assert a == a[..|a| - 1] + [a[|a| - 1]] && b == b[..|b| - 1] + [b[|b| - 1]];
    }
  }

  // ---------- the order of the events ----------

  lemma SameMembers<T>(a: seq<T>, b: seq<T>)
    requires multiset(a) == multiset(b)
    ensures forall x :: x in a <==> x in b
  {
    forall x ensures x in a <==> x in b {
      assert x in a <==> x in multiset(a);
      assert x in b <==> x in multiset(b);
    }
  }

  lemma {:induction false} CountSplit(a: seq<AlertEvent>, b: seq<AlertEvent>, p: Episode)
    ensures CountInside(a + b, p) == CountInside(a, p) + CountInside(b, p)
    decreases |b|
  {
    if b == [] {
      assert a + b == a;
    } else {
      var n := |b| - 1;
      assert (a + b)[..|a + b| - 1] == a + b[..n];
      CountSplit(a, b[..n], p);
    }
  }

  lemma WithoutOne(b: seq<AlertEvent>, j: nat)
    requires j < |b|
    ensures multiset(b[..j] + b[j + 1..]) == multiset(b) - multiset{b[j]}
  {
    assert b == b[..j] + [b[j]] + b[j + 1..];
    assert multiset(b) == multiset(b[..j]) + multiset{b[j]} + multiset(b[j + 1..]);
  }

  /** Taking out one copy of the last event. */
  lemma TakeOut(a: seq<AlertEvent>, b: seq<AlertEvent>) returns (j: nat)
    requires a != [] && multiset(a) == multiset(b)
    ensures j < |b| && b[j] == a[|a| - 1]
    ensures multiset(a[..|a| - 1]) == multiset(b[..j] + b[j + 1..])
  {
    var n := |a| - 1;
    SameMembers(a, b);
    assert a[n] in b;
    var i :| 0 <= i < |b| && b[i] == a[n];
    j := i;
    WithoutOne(b, j);
    WithoutOne(a, n);
    assert a[..n] + a[n + 1..] == a[..n];
  }

  lemma {:induction false} CountOfPermutation(a: seq<AlertEvent>, b: seq<AlertEvent>, p: Episode)
    requires multiset(a) == multiset(b)
    ensures CountInside(a, p) == CountInside(b, p)
    decreases |a|
  {
    if a == [] {
      assert |b| == |multiset(b)| == |multiset(a)|;
    } else {
      var n := |a| - 1;
      var j := TakeOut(a, b);
      CountOfPermutation(a[..n], b[..j] + b[j + 1..], p);
      CountWithout(b, j, p);
    }
  }

  lemma CountWithout(b: seq<AlertEvent>, j: nat, p: Episode)
    requires j < |b|
    ensures CountInside(b, p) == CountInside(b[..j] + b[j + 1..], p) + if Inside(b[j], p) then 1 else 0
  {
    hide CountInside;
    assert b == b[..j] + [b[j]] + b[j + 1..];
    CountSplit(b[..j], b[j + 1..], p);
    CountSplit(b[..j] + [b[j]], b[j + 1..], p);
    CountAppend(b[..j], b[j], p);
  }

  lemma GroupingOfPermutation(episodes: seq<Episode>, a: seq<AlertEvent>, b: seq<AlertEvent>, gap: int)
    requires multiset(a) == multiset(b) && IsGrouping(episodes, a, gap)
    ensures IsGrouping(episodes, b, gap)
  {
    hide CountInside, IsMaximalChain, Accounts, Separated, Covered;
    SameMembers(a, b);
    forall k | 0 <= k < |episodes|
      ensures IsMaximalChain(episodes[k], b, gap) && Accounts(episodes[k], b)
    {
      CountOfPermutation(a, b, episodes[k]);
      ChainOfMembers(episodes[k], a, b, gap);
      AccountOfMembers(episodes[k], a, b);
    }
    CoveredMembers(episodes, a, b);
  }

  lemma CoveredMembers(episodes: seq<Episode>, a: seq<AlertEvent>, b: seq<AlertEvent>)
    requires Covered(episodes, a) && forall x :: x in a <==> x in b
    ensures Covered(episodes, b)
  {}

  lemma ChainOfMembers(p: Episode, a: seq<AlertEvent>, b: seq<AlertEvent>, gap: int)
    requires IsMaximalChain(p, a, gap) && forall x :: x in a <==> x in b
    ensures IsMaximalChain(p, b, gap)
  {
    assert forall lo, hi :: EventIn(a, lo, hi) <==> EventIn(b, lo, hi);
    hide EventIn;
  }

  lemma AccountOfMembers(p: Episode, a: seq<AlertEvent>, b: seq<AlertEvent>)
    requires Accounts(p, a) && CountInside(a, p) == CountInside(b, p) && forall x :: x in a <==> x in b
    ensures Accounts(p, b)
  {
    hide CountInside;
  }

  lemma AppendLater(events: seq<AlertEvent>, last: AlertEvent)
    requires TimeSorted(events) && NoneLater(events, last.at)
    ensures TimeSorted(events + [last])
  {}

  lemma LaterMembers(more: seq<AlertEvent>, events: seq<AlertEvent>, e: AlertEvent, t: int)
    requires multiset(more) == multiset(events) + multiset{e} && NoneLater(events, t) && e.at <= t
    ensures NoneLater(more, t)
  {
    forall x | x in more ensures x.at <= t {
      assert x in multiset(more);
      assert x in multiset(events) || x == e;
    }
  }

  lemma NoneAfterLast(events: seq<AlertEvent>)
    requires TimeSorted(events) && events != []
    ensures NoneLater(events, events[|events| - 1].at) && NoneLater(events[..|events| - 1], events[|events| - 1].at)
    ensures TimeSorted(events[..|events| - 1])
  {}

  lemma {:induction false} InsertKeepsOrder(events: seq<AlertEvent>, e: AlertEvent)
    requires TimeSorted(events)
    ensures TimeSorted(InsertByTime(events, e)) && multiset(InsertByTime(events, e)) == multiset(events) + multiset{e}
    decreases |events|
  {
    hide TimeSorted, NoneLater;
    var n := |events|;
    if n > 0 && events[n - 1].at > e.at {
      var front := InsertByTime(events[..n - 1], e);
      NoneAfterLast(events);
      InsertKeepsOrder(events[..n - 1], e);
      LaterMembers(front, events[..n - 1], e, events[n - 1].at);
      AppendLater(front, events[n - 1]);
      assert events == events[..n - 1] + [events[n - 1]];
    } else {
      NoneLaterThan(events, e);
      AppendLater(events, e);
    }
  }

  lemma NoneLaterThan(events: seq<AlertEvent>, e: AlertEvent)
    requires TimeSorted(events) && (events == [] || events[|events| - 1].at <= e.at)
    ensures NoneLater(events, e.at)
  {
    if events != [] { NoneAfterLast(events); }
  }

  lemma {:induction false} SortedByTime(events: seq<AlertEvent>)
    ensures TimeSorted(SortByTime(events)) && multiset(SortByTime(events)) == multiset(events)
    decreases |events|
  {
    if events != [] {
      var n := |events| - 1;
      SortedByTime(events[..n]);
      InsertKeepsOrder(SortByTime(events[..n]), events[n]);
      assert events == events[..n] + [events[n]];
    }
  }

  lemma {:induction false} OfTrackSelects(events: seq<AlertEvent>, track: string)
    ensures forall x :: multiset(OfTrack(events, track))[x] == if x.track == track then multiset(events)[x] else 0
    decreases |events|
  {
    if events != [] {
      var n := |events| - 1;
      OfTrackSelects(events[..n], track);
      assert events == events[..n] + [events[n]];
    }
  }

  lemma OfTrackOfPermutation(a: seq<AlertEvent>, b: seq<AlertEvent>, track: string)
    requires multiset(a) == multiset(b)
    ensures multiset(OfTrack(a, track)) == multiset(OfTrack(b, track))
  {
    OfTrackSelects(a, track);
    OfTrackSelects(b, track);
    hide OfTrack;
  }

  lemma OnlyOfTrack(events: seq<AlertEvent>, track: string)
    ensures AllOn(SortByTime(OfTrack(events, track)), track)
  {
    OfTrackSelects(events, track);
    SortedByTime(OfTrack(events, track));
    hide OfTrack, SortByTime;
    var selected := OfTrack(events, track);
    forall e | e in SortByTime(selected) ensures e.track == track {
      assert e in multiset(SortByTime(selected));
    }
  }

  /** The episodes of one track do not depend on the order its events were listed in. */
  lemma TrackIgnoresOrder(a: seq<AlertEvent>, b: seq<AlertEvent>, track: string, gap: int)
    requires gap >= 0 && multiset(a) == multiset(b)
    ensures Grouped(SortByTime(OfTrack(a, track)), gap) == Grouped(SortByTime(OfTrack(b, track)), gap)
  {
    hide OfTrack, SortByTime, Grouped, IsGrouping, TimeSorted;
    var x, y := SortByTime(OfTrack(a, track)), SortByTime(OfTrack(b, track));
    OfTrackOfPermutation(a, b, track);
    SortedByTime(OfTrack(a, track));
    SortedByTime(OfTrack(b, track));
    OnlyOfTrack(a, track);
    OnlyOfTrack(b, track);
    GroupedIsGrouping(x, track, gap);
    GroupedIsGrouping(y, track, gap);
    GroupingOfPermutation(Grouped(y, gap), y, x, gap);
    GroupingIsUnique(Grouped(x, gap), Grouped(y, gap), x, gap);
  }

  lemma {:induction false} TracksIgnoreOrder(a: seq<AlertEvent>, b: seq<AlertEvent>, tracks: seq<string>, gap: int)
    requires gap >= 0 && multiset(a) == multiset(b)
    ensures GroupedTracks(a, tracks, gap) == GroupedTracks(b, tracks, gap)
    decreases |tracks|
  {
    hide OfTrack, SortByTime, Grouped;
    if tracks != [] {
      var n := |tracks| - 1;
      TracksIgnoreOrder(a, b, tracks[..n], gap);
      TrackIgnoresOrder(a, b, tracks[n], gap);
    }
  }

  /** What `group_alert_episodes` returns. */
  function Report(events: seq<AlertEvent>, gap: int): seq<Episode> {
    GroupedTracks(events, SortedStrings(TracksOf(events)), gap)
  }

  ghost predicate IgnoresOrder(gap: int) {
    forall a, b :: multiset(a) == multiset(b) ==> Report(a, gap) == Report(b, gap)
  }

  lemma SortedSingleton(track: string)
    ensures SortedStrings({track}) == [track]
  {
    hide LexLeq;
    var m := LeastString({track});
    assert m == track && {track} - {m} == {};
    assert SortedStrings({}) == [];
  }

  lemma OneTrackReport(events: seq<AlertEvent>, track: string, gap: int)
    requires TracksOf(events) == {track}
    ensures Report(events, gap) == Grouped(SortByTime(OfTrack(events, track)), gap)
  {
    hide Grouped, SortByTime, OfTrack, SortedStrings, TracksOf;
    SortedSingleton(track);
    assert [track][..0] == [];
    assert GroupedTracks(events, [], gap) == [];
  }

  lemma TwoOfTrack(e: AlertEvent, f: AlertEvent)
    requires e.track == f.track
    ensures OfTrack([e, f], e.track) == [e, f] && TracksOf([e, f]) == {e.track}
  {
    assert [e, f][..1] == [e] && [e][..0] == [];
    assert OfTrack([e], e.track) == [e];
    assert forall x :: x in [e, f] <==> x == e || x == f;
  }

  lemma TwoSorted(e: AlertEvent, f: AlertEvent)
    requires e.at == f.at
    ensures SortByTime([e, f]) == [e, f]
  {
    assert [e, f][..1] == [e] && [e][..0] == [];
    assert SortByTime([e]) == [e];
  }

  lemma TwoGrouped(e: AlertEvent, f: AlertEvent, gap: int)
    requires gap < 0 && e.at == f.at
    ensures Grouped([e, f], gap) == [Started(e), Started(f)]
  {
    OneGrouped(e, gap);
    GroupedGrows([e, f], gap);
    assert [e, f][..1] == [e];
    hide Grouped;
  }

  lemma TwoEventsAreSplit(e: AlertEvent, f: AlertEvent, gap: int)
    requires gap < 0 && e.track == f.track && e.at == f.at
    ensures Report([e, f], gap) == [Started(e), Started(f)]
  {
    hide *;
    TwoOfTrack(e, f);
    OneTrackReport([e, f], e.track, gap);
    TwoSorted(e, f);
    TwoGrouped(e, f, gap);
  }

  /** Main result: the report depends only on which events there are, not on their order, exactly when the gap is not
      negative; with a negative one two simultaneous events come out in the order they were listed.
    */
  lemma ReportIgnoresOrderExactly(gap: int)
    ensures IgnoresOrder(gap) <==> gap >= 0
  {
    hide GroupedTracks, SortedStrings;
    if gap >= 0 {
      forall a, b | multiset(a) == multiset(b)
        ensures Report(a, gap) == Report(b, gap)
      {
        SameMembers(a, b);
        assert TracksOf(a) == TracksOf(b);
        TracksIgnoreOrder(a, b, SortedStrings(TracksOf(a)), gap);
      }
    } else {
      var e, f := AlertEvent("", 0, "PAIR", []), AlertEvent("", 0, "WINDOW", []);
      assert e.evidenceType[0] != f.evidenceType[0];
      TwoEventsAreSplit(e, f, gap);
      TwoEventsAreSplit(f, e, gap);
      assert multiset([e, f]) == multiset([f, e]);
      assert Started(e).evidenceTypes != Started(f).evidenceTypes by {
        assert e.evidenceType in Started(e).evidenceTypes;
      }
      assert Report([e, f], gap)[0] != Report([f, e], gap)[0];
    }
  }

  // ---------- observed time ----------

  /** The positive steps within the gap between consecutive times of a track, added up. */
  function Activity(times: seq<int>, gap: int): int {
    if |times| <= 1 then 0
    else
      var n := |times| - 1;
      var delta := times[n] - times[n - 1];
      Activity(times[..n], gap) + if 0 < delta <= gap then delta else 0
  }

  function Times(events: seq<AlertEvent>): (times: seq<int>)
    ensures |times| == |events| && forall i :: 0 <= i < |events| ==> times[i] == events[i].at
  {
    if events == [] then [] else Times(events[..|events| - 1]) + [events[|events| - 1].at]
  }

  function Span(episodes: seq<Episode>): int {
    if episodes == [] then 0
    else Span(episodes[..|episodes| - 1]) + episodes[|episodes| - 1].endedAt - episodes[|episodes| - 1].startedAt
  }

  /** `_activity_seconds`: the sum of the positive steps within the gap, over all tracks. */
  method ActivityTotal(tracks: seq<seq<int>>, gap: int) returns (total: int)
    ensures total == TotalActivity(tracks, |tracks|, gap)
  {
    total := 0;
    for t := 0 to |tracks|
      invariant total == TotalActivity(tracks, t, gap)
    {
      var track := tracks[t];
      ghost var before := total;
      var i := 1;
      while i < |track|
        invariant 1 <= i && (i <= |track| || i == 1)
        invariant total == before + if i <= |track| then Activity(track[..i], gap) else 0
      {
        ActivityStep(track, i, gap);
        var delta := track[i] - track[i - 1];
        if 0 < delta <= gap {
          total := total + delta;
        }
        i := i + 1;
      }
      assert track[..|track|] == track;
    }
  }

  lemma ActivityStep(track: seq<int>, i: nat, gap: int)
    requires 1 <= i < |track|
    ensures
      var delta := track[i] - track[i - 1];
      Activity(track[..i + 1], gap) == Activity(track[..i], gap) + if 0 < delta <= gap then delta else 0
  {
    assert track[..i + 1][..i] == track[..i];
  }

  function TotalActivity(tracks: seq<seq<int>>, n: nat, gap: int): int
    requires n <= |tracks|
  {
    if n == 0 then 0 else TotalActivity(tracks, n - 1, gap) + Activity(tracks[n - 1], gap)
  }

  /** Main result: the observed time of a track is what its chains of the same gap span, so gaps longer than that add
      nothing and nothing else is lost.
    */
  lemma {:induction false} ActivityIsSpanOfChains(events: seq<AlertEvent>, gap: int)
    requires TimeSorted(events)
    ensures Activity(Times(events), gap) == Span(Grouped(events, gap))
  {
    hide Absorb, Span, Grouped, TimeSorted, NoneLater, Activity, Times;
    if |events| == 0 {
      NoSpan(gap);
    } else if |events| == 1 {
      assert events == [events[0]];
      OneSpan(events[0], gap);
    } else {
      var n := |events| - 1;
      SortedFront(events);
      ActivityIsSpanOfChains(events[..n], gap);
      TimesGrow(events, gap);
      GroupedGrows(events[..n], gap);
      AbsorbShape(Grouped(events[..n - 1], gap), events[n - 1], gap);
      assert events[..n][..n - 1] == events[..n - 1];
      GroupedGrows(events, gap);
      AbsorbSpan(Grouped(events[..n], gap), events[n], gap);
    }
  }

  lemma NoSpan(gap: int)
    ensures Span([]) == 0 == Activity(Times([]), gap) && Grouped([], gap) == []
  {}

  lemma OneSpan(e: AlertEvent, gap: int)
    ensures Span(Grouped([e], gap)) == 0 == Activity(Times([e]), gap)
  {
    OneGrouped(e, gap);
    SpanAppend([], Started(e));
    assert [] + [Started(e)] == [Started(e)];
    hide Grouped;
  }

  lemma TimesGrow(events: seq<AlertEvent>, gap: int)
    requires |events| > 1
    ensures
      var n := |events| - 1;
      var delta := events[n].at - events[n - 1].at;
      Activity(Times(events), gap) == Activity(Times(events[..n]), gap) + if 0 < delta <= gap then delta else 0
  {
    assert Times(events)[..|events| - 1] == Times(events[..|events| - 1]);
    hide Times;
  }

  lemma SpanAppend(episodes: seq<Episode>, p: Episode)
    ensures Span(episodes + [p]) == Span(episodes) + p.endedAt - p.startedAt
  {
    assert (episodes + [p])[..|episodes|] == episodes;
  }

  lemma AbsorbSpan(episodes: seq<Episode>, e: AlertEvent, gap: int)
    requires episodes != [] && e.at >= episodes[|episodes| - 1].endedAt
    ensures
      var delta := e.at - episodes[|episodes| - 1].endedAt;
      Span(Absorb(episodes, e, gap)) == Span(episodes) + if 0 < delta <= gap then delta else 0
  {
    hide Span;
    var n := |episodes| - 1;
    assert episodes == episodes[..n] + [episodes[n]];
    SpanAppend(episodes, Started(e));
    SpanAppend(episodes[..n], episodes[n]);
    SpanAppend(episodes[..n], Extended(episodes[n], e));
  }

  // ---------- the whole report ----------

  /** The episodes of one track, in order. */
  function EpisodesOf(episodes: seq<Episode>, track: string): seq<Episode> {
    if episodes == [] then []
    else
      var n := |episodes| - 1;
      EpisodesOf(episodes[..n], track) + if episodes[n].track == track then [episodes[n]] else []
  }

  ghost predicate AllNamed(episodes: seq<Episode>, track: string) {
    forall k :: 0 <= k < |episodes| ==> episodes[k].track == track
  }

  ghost predicate TracksAscend(episodes: seq<Episode>) {
    forall k, l :: 0 <= k < l < |episodes| ==> LexLeq(episodes[k].track, episodes[l].track)
  }

  lemma {:induction false} EpisodesOfSum(a: seq<Episode>, b: seq<Episode>, track: string)
    ensures EpisodesOf(a + b, track) == EpisodesOf(a, track) + EpisodesOf(b, track)
    decreases |b|
  {
    if b == [] {
      assert a + b == a;
    } else {
      var n := |b| - 1;
      assert (a + b)[..|a + b| - 1] == a + b[..n];
      EpisodesOfSum(a, b[..n], track);
    }
  }

  lemma {:induction false} EpisodesOfNamed(episodes: seq<Episode>, name: string, track: string)
    requires AllNamed(episodes, name)
    ensures EpisodesOf(episodes, track) == if track == name then episodes else []
    decreases |episodes|
  {
    if episodes != [] {
      var n := |episodes| - 1;
      EpisodesOfNamed(episodes[..n], name, track);
      assert episodes == episodes[..n] + [episodes[n]];
    }
  }

  lemma {:induction false} GroupedAreNamed(events: seq<AlertEvent>, track: string, gap: int)
    requires AllOn(events, track)
    ensures AllNamed(Grouped(events, gap), track)
    decreases |events|
  {
    if events != [] {
      var n := |events| - 1;
      SplitLast(events);
      GroupedAreNamed(events[..n], track, gap);
      GroupedGrows(events, gap);
      assert events[n] in events;
    }
  }

  lemma {:induction false} TracksGrouped(events: seq<AlertEvent>, tracks: seq<string>, gap: int, track: string)
    requires Distinct(tracks) && Ascending(tracks)
    ensures EpisodesOf(GroupedTracks(events, tracks, gap), track)
            == if track in tracks then Grouped(SortByTime(OfTrack(events, track)), gap) else []
    ensures TracksAscend(GroupedTracks(events, tracks, gap))
    ensures forall p :: p in GroupedTracks(events, tracks, gap) ==> p.track in tracks
    decreases |tracks|
  {
    if tracks == [] {
      assert GroupedTracks(events, tracks, gap) == [];
    } else {
      hide OfTrack, SortByTime, Grouped, LexLeq, EpisodesOf, TracksAscend, AllNamed, AllOn, Distinct, Ascending;
      var n := |tracks| - 1;
      var before, more := GroupedTracks(events, tracks[..n], gap), Grouped(SortByTime(OfTrack(events, tracks[n])), gap);
      FrontOfTracks(tracks);
      TracksGrouped(events, tracks[..n], gap, track);
      OnlyOfTrack(events, tracks[n]);
      GroupedAreNamed(SortByTime(OfTrack(events, tracks[n])), tracks[n], gap);
      EpisodesOfSum(before, more, track);
      EpisodesOfNamed(more, tracks[n], track);
      LexReflexive(tracks[n]);
      AscendSum(before, more, tracks);
      NamedInTracks(before, more, tracks);
      assert before + [] == before && [] + more == more;
    }
  }

  lemma FrontOfTracks(tracks: seq<string>)
    requires Distinct(tracks) && Ascending(tracks) && tracks != []
    ensures
      var n := |tracks| - 1;
      && Distinct(tracks[..n]) && Ascending(tracks[..n]) && tracks[n] !in tracks[..n]
      && forall track :: track in tracks <==> track in tracks[..n] || track == tracks[n]
  {
    hide LexLeq;
    var n := |tracks| - 1;
    assert tracks == tracks[..n] + [tracks[n]];
  }

  lemma NamedInTracks(before: seq<Episode>, more: seq<Episode>, tracks: seq<string>)
    requires tracks != [] && AllNamed(more, tracks[|tracks| - 1])
    requires forall p :: p in before ==> p.track in tracks[..|tracks| - 1]
    ensures forall p :: p in before + more ==> p.track in tracks
  {}

  lemma LexReflexive(a: string)
    ensures LexLeq(a, a)
  {
    LexTotal(a, a);
  }

  lemma AscendSum(before: seq<Episode>, more: seq<Episode>, tracks: seq<string>)
    requires tracks != [] && Ascending(tracks) && LexLeq(tracks[|tracks| - 1], tracks[|tracks| - 1])
    requires TracksAscend(before) && AllNamed(more, tracks[|tracks| - 1])
    requires forall p :: p in before ==> p.track in tracks[..|tracks| - 1]
    ensures TracksAscend(before + more)
  {
    hide LexLeq;
    forall k, l | 0 <= k < |before| && 0 <= l < |more|
      ensures LexLeq(before[k].track, more[l].track)
    {
      assert before[k] in before;
    }
  }

  /** Main result: the report lists, for every track, the episodes of exactly its own events sorted by time, tracks in
      ascending order; nothing else is in it.
    */
  lemma ReportExactly(events: seq<AlertEvent>, gap: int, track: string)
    ensures EpisodesOf(Report(events, gap), track) == Grouped(SortByTime(OfTrack(events, track)), gap)
    ensures TracksAscend(Report(events, gap))
  {
    hide OfTrack, SortByTime, Grouped, GroupedTracks, SortedStrings, LexLeq, EpisodesOf, TracksAscend;
    var tracks := SortedStrings(TracksOf(events));
    SortedStringsIsSorted(TracksOf(events));
    TracksGrouped(events, tracks, gap, track);
    if track !in TracksOf(events) {
      NoneOfTrack(events, track);
      NothingSorted(gap);
    }
  }

  lemma NothingSorted(gap: int)
    ensures Grouped(SortByTime([]), gap) == []
  {}
}
