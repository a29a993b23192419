/** The incremental window of backend/app/evaluation/calibration.py, and when it is the window the
    integrity engine filters out of its ring.
  */
module CalibrationWindow {
  import opened DedupRing
  import opened IntegrityModel

  predicate TimeSorted(s: seq<Observation>) {
    forall i, j :: 0 <= i < j < |s| ==> s[i].observedAt <= s[j].observedAt
  }

  /** Pop from the left while the head is older than the cutoff. */
  function PopOld(s: seq<Observation>, cutoff: Time): seq<Observation> {
    if s != [] && s[0].observedAt < cutoff then PopOld(s[1..], cutoff) else s
  }

  /** The deque once the observations have been fed one by one. */
  function DequeAfter(s: seq<Observation>, duration: int, n: nat): seq<Observation>
    decreases |s|
  {
    if s == [] then []
    else
      var o := s[|s| - 1];
      LastN(PopOld(DequeAfter(s[..|s| - 1], duration, n), o.observedAt - duration) + [o], n)
  }

  /** The windows handed to the evaluator while the observations are fed. */
  function EvaluatedWindows(s: seq<Observation>, duration: int, n: nat, minimum: int): seq<seq<Observation>>
    decreases |s|
  {
    if s == [] then []
    else
      var window := DequeAfter(s, duration, n);
      EvaluatedWindows(s[..|s| - 1], duration, n, minimum) + if |window| >= minimum then [window] else []
  }

  function Evaluated(evaluate: seq<Observation> -> seq<RuleResult>,
                     windows: seq<seq<Observation>>): seq<seq<RuleResult>>
    decreases |windows|
  {
    if windows == [] then []
    else Evaluated(evaluate, windows[..|windows| - 1]) + [evaluate(windows[|windows| - 1])]
  }

  /** `_window_evaluations`. */
  method WindowEvaluations(observations: seq<Observation>, duration: int, n: nat, minimum: int,
                           evaluate: seq<Observation> -> seq<RuleResult>)
    returns (evaluations: seq<seq<RuleResult>>)
    ensures evaluations == Evaluated(evaluate, EvaluatedWindows(observations, duration, n, minimum))
  {
    hide PopOld, LastN, Evaluated, EvaluatedWindows, DequeAfter;
    NothingEvaluated(evaluate, duration, n, minimum);
    evaluations := [];
    var active: seq<Observation> := [];
    var k := 0;
    while k < |observations|
      invariant 0 <= k <= |observations|
      invariant active == DequeAfter(observations[..k], duration, n)
      invariant evaluations == Evaluated(evaluate, EvaluatedWindows(observations[..k], duration, n, minimum))
    {
      var o := observations[k];
      var cutoff := o.observedAt - duration;
      ghost var before := active;
      while active != [] && active[0].observedAt < cutoff
        invariant PopOld(active, cutoff) == PopOld(before, cutoff)
        decreases |active|
      {
        PopOne(active, cutoff);
        active := active[1..];
      }
      PopDone(active, cutoff);
      active := LastN(active + [o], n);
      assert observations[..k + 1] == observations[..k] + [o];
      FeedStep(evaluate, observations[..k], o, duration, n, minimum);
      if |active| >= minimum {
        evaluations := evaluations + [evaluate(active)];
      }
      k := k + 1;
    }
    assert observations[..k] == observations;
  }

  lemma NothingEvaluated(evaluate: seq<Observation> -> seq<RuleResult>, duration: int, n: nat, minimum: int)
    ensures Evaluated(evaluate, EvaluatedWindows([], duration, n, minimum)) == [] && DequeAfter([], duration, n) == []
  {}

  lemma PopOne(s: seq<Observation>, cutoff: Time)
    requires s != [] && s[0].observedAt < cutoff
    ensures PopOld(s, cutoff) == PopOld(s[1..], cutoff)
  {}

  lemma PopDone(s: seq<Observation>, cutoff: Time)
    requires s == [] || s[0].observedAt >= cutoff
    ensures PopOld(s, cutoff) == s
  {}

  lemma FeedStep(evaluate: seq<Observation> -> seq<RuleResult>, s: seq<Observation>, o: Observation, duration: int,
      n: nat, minimum: int)
    ensures
      var window := DequeAfter(s + [o], duration, n);
      && window == LastN(PopOld(DequeAfter(s, duration, n), o.observedAt - duration) + [o], n)
      && Evaluated(evaluate, EvaluatedWindows(s + [o], duration, n, minimum))
         == Evaluated(evaluate, EvaluatedWindows(s, duration, n, minimum))
             + (if |window| >= minimum then [evaluate(window)] else [])
  {
    assert (s + [o])[..|s|] == s;
    var windows, window := EvaluatedWindows(s, duration, n, minimum), DequeAfter(s + [o], duration, n);
    assert (windows + [window])[..|windows|] == windows;
    assert windows + [] == windows;
  }

  // ---------- the deque holds the declarative window ----------

  /** How many leading observations are older than the cutoff. */
  function OldCount(s: seq<Observation>, cutoff: Time): (i: nat)
    ensures i <= |s| && PopOld(s, cutoff) == s[i..]
  {
    if s != [] && s[0].observedAt < cutoff then OldCount(s[1..], cutoff) + 1 else 0
  }

  /** Exactly the first i observations are older than the cutoff. */
  ghost predicate SplitsAt(s: seq<Observation>, cutoff: Time, i: int) {
    0 <= i <= |s|
    && (forall k :: 0 <= k < i ==> s[k].observedAt < cutoff)
    && (forall k :: i <= k < |s| ==> s[k].observedAt >= cutoff)
  }

  lemma {:induction false} CountSplits(s: seq<Observation>, cutoff: Time)
    requires TimeSorted(s)
    ensures SplitsAt(s, cutoff, OldCount(s, cutoff))
  {
    if s != [] && s[0].observedAt < cutoff {
      var rest := s[1..];
      CountSplits(rest, cutoff);
      assert forall k :: 1 <= k < |s| ==> s[k] == rest[k - 1];
    }
  }

  lemma SplitIsCount(s: seq<Observation>, cutoff: Time, i: int)
    requires TimeSorted(s) && SplitsAt(s, cutoff, i)
    ensures OldCount(s, cutoff) == i && PopOld(s, cutoff) == s[i..]
  {
    hide OldCount, PopOld;
    CountSplits(s, cutoff);
    var j := OldCount(s, cutoff);
    if i != j {
      SplitDecides(s, cutoff, i, if i < j then i else j);
      SplitDecides(s, cutoff, j, if i < j then i else j);
    }
  }

  lemma SplitDecides(s: seq<Observation>, cutoff: Time, i: int, k: int)
    requires SplitsAt(s, cutoff, i) && 0 <= k < |s|
    ensures k < i <==> s[k].observedAt < cutoff
  {}

  lemma SplitOfDrop(s: seq<Observation>, cutoff: Time, i: int, c: int)
    requires SplitsAt(s, cutoff, i) && 0 <= c <= |s|
    ensures SplitsAt(s[c..], cutoff, if i > c then i - c else 0)
  {
    var t := s[c..];
    assert forall k :: 0 <= k < |t| ==> t[k] == s[c + k];
  }

  lemma LaterCutoffPopsMore(s: seq<Observation>, earlier: Time, cutoff: Time)
    requires TimeSorted(s) && earlier <= cutoff
    ensures OldCount(s, earlier) <= OldCount(s, cutoff)
  {
    hide OldCount;
    CountSplits(s, earlier);
    CountSplits(s, cutoff);
    var a, b := OldCount(s, earlier), OldCount(s, cutoff);
    if b < a {
      SplitDecides(s, earlier, a, b);
      SplitDecides(s, cutoff, b, b);
    }
  }

  lemma DropTwice(s: seq<Observation>, a: int, n: nat)
    requires 0 <= a <= |s|
    ensures LastN(s[a..], n) == s[if |s| - a <= n then a else |s| - n..]
  {}

  /** Trimming a sorted track to its last n before or after dropping old entries makes no difference. */
  lemma PopOldOfLastN(s: seq<Observation>, earlier: Time, cutoff: Time, n: nat)
    requires TimeSorted(s) && earlier <= cutoff
    ensures PopOld(LastN(PopOld(s, earlier), n), cutoff) == LastN(PopOld(s, cutoff), n)
  {
    hide OldCount, PopOld, LastN;
    var a, b := OldCount(s, earlier), OldCount(s, cutoff);
    LaterCutoffPopsMore(s, earlier, cutoff);
    CountSplits(s, cutoff);
    DropTwice(s, a, n);
    DropTwice(s, b, n);
    var c := if |s| - a <= n then a else |s| - n;
    var d := if b > c then b - c else 0;
    SplitOfDrop(s, cutoff, b, c);
    SortedDrop(s, c);
    SplitIsCount(s[c..], cutoff, d);
    assert s[c..][d..] == s[c + d..];
  }

  lemma SortedDrop(s: seq<Observation>, c: int)
    requires TimeSorted(s) && 0 <= c <= |s|
    ensures TimeSorted(s[c..])
  {}

  lemma PopOldAppend(s: seq<Observation>, o: Observation, cutoff: Time)
    requires TimeSorted(s + [o]) && cutoff <= o.observedAt
    ensures PopOld(s + [o], cutoff) == PopOld(s, cutoff) + [o]
  {
    hide OldCount, PopOld;
    var t, i := s + [o], OldCount(s, cutoff);
    SortedTake(t, |s|);
    assert t[..|s|] == s;
    CountSplits(s, cutoff);
    assert SplitsAt(t, cutoff, i) by {
      assert forall k :: 0 <= k < |s| ==> t[k] == s[k];
      assert t[|s|] == o;
    }
    SplitIsCount(t, cutoff, i);
    assert t[i..] == s[i..] + [o];
  }

  lemma SortedTake(s: seq<Observation>, c: int)
    requires TimeSorted(s) && 0 <= c <= |s|
    ensures TimeSorted(s[..c])
  {}

  /** At every step the deque is the newest n of the observations not older than the duration. */
  lemma {:induction false} DequeIsSuffix(s: seq<Observation>, duration: int, n: nat)
    requires TimeSorted(s) && s != [] && duration >= 0 && n >= 1
    ensures DequeAfter(s, duration, n) == LastN(PopOld(s, s[|s| - 1].observedAt - duration), n)
    decreases |s|
  {
    hide PopOld, LastN;
    var m := |s| - 1;
    var front, o := s[..m], s[m];
    var cutoff := o.observedAt - duration;
    assert s == front + [o];
    SortedTake(s, m);
    PopOldAppend(front, o, cutoff);
    LastNAppend(PopOld(front, cutoff), o, n);
    if front == [] {
      PopNothing(cutoff, n);
    } else {
      assert front[m - 1] == s[m - 1];
      DequeIsSuffix(front, duration, n);
      PopOldOfLastN(front, front[m - 1].observedAt - duration, cutoff, n);
    }
  }

  lemma PopNothing(cutoff: Time, n: nat)
    ensures PopOld([], cutoff) == [] && LastN<Observation>([], n) == []
  {}

  lemma {:induction false} InWindowOfSorted(s: seq<Observation>, earliest: Time, latest: Time)
    requires TimeSorted(s) && forall k :: 0 <= k < |s| ==> s[k].observedAt <= latest
    ensures InWindow(s, earliest, latest) == PopOld(s, earliest)
  {
    if s != [] {
      InWindowOfSorted(s[1..], earliest, latest);
      if s[0].observedAt >= earliest {
        SplitIsCount(s[1..], earliest, 0);
        assert s == [s[0]] + s[1..];
      }
    }
  }

  /** The window the engine evaluates when its ring holds the last `ring` observations. */
  function EngineWindow(s: seq<Observation>, ring: nat, duration: int, n: nat): seq<Observation>
    requires s != []
  {
    WindowItems(LastN(s, ring), s[|s| - 1].observedAt, duration, n)
  }

  /** Both windows agree on every time-sorted track. */
  ghost predicate WindowsAgree(ring: nat, duration: int, n: nat) {
    forall s: seq<Observation> :: s != [] && TimeSorted(s) ==>
      DequeAfter(s, duration, n) == EngineWindow(s, ring, duration, n)
  }

  lemma WindowsAgreeOn(s: seq<Observation>, ring: nat, duration: int, n: nat)
    requires s != [] && TimeSorted(s) && 1 <= n <= ring && duration >= 0
    ensures DequeAfter(s, duration, n) == EngineWindow(s, ring, duration, n)
  {
    hide PopOld, LastN, InWindow, DequeAfter;
    var now := s[|s| - 1].observedAt;
    var cutoff := now - duration;
    var kept := LastN(s, ring);
    DequeIsSuffix(s, duration, n);
    KeptIsSorted(s, ring, now);
    InWindowOfSorted(kept, cutoff, now);
    WholeTrackKept(s, cutoff);
    var never := if s[0].observedAt < cutoff then s[0].observedAt else cutoff;
    PopOldOfLastN(s, never, cutoff, ring);
    LastNOfLastN(PopOld(s, cutoff), ring, n);
  }

  lemma KeptIsSorted(s: seq<Observation>, ring: nat, now: Time)
    requires TimeSorted(s) && s != [] && now == s[|s| - 1].observedAt
    ensures TimeSorted(LastN(s, ring)) && forall k :: 0 <= k < |LastN(s, ring)| ==> LastN(s, ring)[k].observedAt <= now
  {
    hide LastN, TimeSorted;
    var c := if |s| <= ring then 0 else |s| - ring;
    DropTwice(s, 0, ring);
    assert s[0..] == s;
    SortedDrop(s, c);
    NoneLater(s, now);
    forall k | 0 <= k < |s[c..]|
      ensures s[c..][k].observedAt <= now
    {
      assert s[c..][k] == s[c + k];
    }
  }

  lemma NoneLater(s: seq<Observation>, now: Time)
    requires TimeSorted(s) && s != [] && now == s[|s| - 1].observedAt
    ensures forall k :: 0 <= k < |s| ==> s[k].observedAt <= now
  {
    var last := |s| - 1;
    assert forall k :: 0 <= k < last ==> s[k].observedAt <= s[last].observedAt;
  }

  lemma WholeTrackKept(s: seq<Observation>, cutoff: Time)
    requires TimeSorted(s) && s != []
    ensures PopOld(s, if s[0].observedAt < cutoff then s[0].observedAt else cutoff) == s
  {
    assert s[0..] == s;
    SplitIsCount(s, if s[0].observedAt < cutoff then s[0].observedAt else cutoff, 0);
  }

  lemma LastNOfLastN<T>(s: seq<T>, m: nat, n: nat)
    requires n <= m
    ensures LastN(LastN(s, m), n) == LastN(s, n)
  {}

  function Copies(o: Observation, n: nat): (s: seq<Observation>)
    ensures |s| == n && forall k :: 0 <= k < n ==> s[k] == o
  {
    if n == 0 then [] else Copies(o, n - 1) + [o]
  }

  lemma {:induction false} DequeOfCopies(o: Observation, k: nat, duration: int, n: nat)
    requires duration >= 0 && k <= n
    ensures DequeAfter(Copies(o, k), duration, n) == Copies(o, k)
  {
    hide PopOld, LastN, Copies, DequeAfter;
    if k == 0 {
      assert Copies(o, 0) == [];
      DequeOfNothing(duration, n);
    } else {
      var before := Copies(o, k - 1);
      assert Copies(o, k) == before + [o];
      DequeOfCopies(o, k - 1, duration, n);
      DequeStep(before, o, duration, n);
      PopDone(before, o.observedAt - duration);
      WholeIsKept(before + [o], n);
    }
  }

  lemma DequeOfNothing(duration: int, n: nat)
    ensures DequeAfter([], duration, n) == []
  {}

  lemma DequeStep(s: seq<Observation>, o: Observation, duration: int, n: nat)
    ensures DequeAfter(s + [o], duration, n)
            == LastN(PopOld(DequeAfter(s, duration, n), o.observedAt - duration) + [o], n)
  {
    hide PopOld, LastN;
    assert (s + [o])[..|s|] == s;
  }

  lemma WholeIsKept(s: seq<Observation>, n: nat)
    requires |s| <= n
    ensures LastN(s, n) == s
  {}

  /** Main result: the incremental window is the engine's window on every time-sorted track exactly when
      the ring is at least as long as a nonempty window and the duration is not negative (or both
      windows are empty throughout).
    */
  lemma WindowsAgreeExactly(ring: nat, duration: int, n: nat)
    requires ring >= 1
    ensures WindowsAgree(ring, duration, n) <==> (1 <= n <= ring && duration >= 0) || (n == 0 && duration < 0)
  {
    hide DequeAfter, EngineWindow, TimeSorted;
    if 1 <= n <= ring && duration >= 0 {
      forall s: seq<Observation> | s != [] && TimeSorted(s)
        ensures DequeAfter(s, duration, n) == EngineWindow(s, ring, duration, n)
      {
        WindowsAgreeOn(s, ring, duration, n);
      }
    } else if n == 0 && duration < 0 {
      forall s: seq<Observation> | s != []
        ensures DequeAfter(s, duration, n) == EngineWindow(s, ring, duration, n)
      {
        WindowsEmpty(s, ring, duration);
      }
    } else {
      var s := DisagreeingTrack(ring, duration, n);
    }
  }

  lemma WindowsEmpty(s: seq<Observation>, ring: nat, duration: int)
    requires s != [] && duration < 0
    ensures DequeAfter(s, duration, 0) == [] == EngineWindow(s, ring, duration, 0)
  {
    var now := s[|s| - 1].observedAt;
    EmptyWindow(LastN(s, ring), now - duration, now);
  }

  /** A time-sorted track on which the two windows differ. */
  lemma DisagreeingTrack(ring: nat, duration: int, n: nat) returns (s: seq<Observation>)
    requires ring >= 1 && !((1 <= n <= ring && duration >= 0) || (n == 0 && duration < 0))
    ensures s != [] && TimeSorted(s) && DequeAfter(s, duration, n) != EngineWindow(s, ring, duration, n)
  {
    hide DequeAfter, EngineWindow;
    var o := Observation("", "", false, "", 0, 0, true);
    if duration < 0 || n == 0 {
      s := [o];
      SingleObservation(o, ring, duration, n);
    } else {
      s := Copies(o, n);
      DequeOfCopies(o, n, duration, n);
      EngineWindowLength(s, ring, duration, n);
    }
  }

  lemma EngineWindowLength(s: seq<Observation>, ring: nat, duration: int, n: nat)
    requires s != [] && n >= 1
    ensures |EngineWindow(s, ring, duration, n)| <= ring
  {
    hide InWindow;
    var now := s[|s| - 1].observedAt;
    InWindowLength(LastN(s, ring), now - duration, now);
  }

  lemma SingleObservation(o: Observation, ring: nat, duration: int, n: nat)
    requires ring >= 1 && o.observedAt == 0
    ensures DequeAfter([o], duration, n) == if n == 0 then [] else [o]
    ensures EngineWindow([o], ring, duration, n) == if duration >= 0 then [o] else []
  {
    assert [o][..0] == [] && [o][1..] == [];
    assert InWindow([o], 0 - duration, 0) == if duration >= 0 then [o] else [];
  }

  lemma {:induction false} EmptyWindow(s: seq<Observation>, earliest: Time, latest: Time)
    requires earliest > latest
    ensures InWindow(s, earliest, latest) == []
  {
    if s != [] { EmptyWindow(s[1..], earliest, latest); }
  }

  lemma {:induction false} InWindowLength(s: seq<Observation>, earliest: Time, latest: Time)
    ensures |InWindow(s, earliest, latest)| <= |s|
  {
    if s != [] { InWindowLength(s[1..], earliest, latest); }
  }

  // ---------- which windows are evaluated ----------

  /** The places of the observations at which the deque is long enough. */
  ghost predicate AreLong(index: seq<nat>, s: seq<Observation>, duration: int, n: nat, minimum: int) {
    && (forall i :: 0 <= i < |index| ==> index[i] < |s|)
    && (forall i, j :: 0 <= i < j < |index| ==> index[i] < index[j])
    && (forall k: nat :: k < |s| ==> (k in index <==> |DequeAt(s, k, duration, n)| >= minimum))
  }

  /** The deque once observation k has been fed. */
  function DequeAt(s: seq<Observation>, k: nat, duration: int, n: nat): seq<Observation>
    requires k < |s|
  {
    DequeAfter(s[..k + 1], duration, n)
  }

  lemma DequeAtFront(s: seq<Observation>, k: nat, duration: int, n: nat)
    requires k < |s|
    ensures k < |s| - 1 ==> DequeAt(s[..|s| - 1], k, duration, n) == DequeAt(s, k, duration, n)
    ensures k == |s| - 1 ==> DequeAt(s, k, duration, n) == DequeAfter(s, duration, n)
  {
    hide DequeAfter;
    if k < |s| - 1 {
      assert s[..|s| - 1][..k + 1] == s[..k + 1];
    } else {
      assert s[..k + 1] == s;
    }
  }

  /** Main result: a window is evaluated for exactly the observations at which the deque is long enough, in order, and
      it is the deque then.
    */
  lemma {:induction false} EvaluatedWindowsAre(s: seq<Observation>, duration: int, n: nat, minimum: int)
    returns (index: seq<nat>)
    ensures AreLong(index, s, duration, n, minimum)
    ensures
      var windows := EvaluatedWindows(s, duration, n, minimum);
      |windows| == |index|
        && forall i :: 0 <= i < |index| ==> index[i] < |s| && windows[i] == DequeAt(s, index[i], duration, n)
    decreases |s|
  {
    hide DequeAfter, DequeAt;
    index := [];
    if s != [] {
      var m := |s| - 1;
      index := EvaluatedWindowsAre(s[..m], duration, n, minimum);
      forall k: nat | k < |s|
        ensures k < m ==> DequeAt(s[..m], k, duration, n) == DequeAt(s, k, duration, n)
        ensures k == m ==> DequeAt(s, k, duration, n) == DequeAfter(s, duration, n)
      {
        DequeAtFront(s, k, duration, n);
      }
      if |DequeAfter(s, duration, n)| >= minimum {
        index := index + [m];
      }
    }
  }

  /** Every window is evaluated once, in order. */
  lemma {:induction false} EvaluatedOneByOne(evaluate: seq<Observation> -> seq<RuleResult>,
                                             windows: seq<seq<Observation>>)
    ensures |Evaluated(evaluate, windows)| == |windows|
    ensures forall i :: 0 <= i < |windows| ==> Evaluated(evaluate, windows)[i] == evaluate(windows[i])
    decreases |windows|
  {
    if windows != [] {
      EvaluatedOneByOne(evaluate, windows[..|windows| - 1]);
    }
  }
}
