/** The playback clock on every run of commands, and its agreement with the per-client cursor. */
module ReplayProofs {
  import opened Rounding
  import opened ReplayModel

  lemma AdvanceAdds(a: real, b: real, c: real, speed: real)
    ensures Advance(a, b, speed) + Advance(b, c, speed) == Advance(a, c, speed)
  {
    assert (b - a) * 1000.0 * speed + (c - b) * 1000.0 * speed == (c - a) * 1000.0 * speed;
  }

  lemma AdvanceForward(a: real, b: real, speed: real)
    requires a <= b && speed > 0.0
    ensures Advance(a, b, speed) >= 0.0 && Advance(a, a, speed) == 0.0
  {}

  lemma AdvanceNowhere(a: real, speed: real)
    ensures Advance(a, a, speed) == 0.0
  {}

  // ---------- bisection ----------

  lemma {:induction false} BisectSplits(offsets: seq<int>, position: real)
    requires forall i, j :: 0 <= i < j < |offsets| ==> offsets[i] <= offsets[j]
    ensures forall i :: 0 <= i < Bisect(offsets, position) ==> offsets[i] as real < position
    ensures forall i :: Bisect(offsets, position) <= i < |offsets| ==> offsets[i] as real >= position
  {
    if offsets != [] && offsets[0] as real < position {
      var rest := offsets[1..];
      BisectSplits(rest, position);
      assert forall i :: 1 <= i < |offsets| ==> offsets[i] == rest[i - 1];
    }
  }

  // ---------- the invariant of every run ----------

  ghost predicate PlayerInv(offsets: seq<int>, p: Player, now: real)
    requires offsets != []
  {
    && p.anchor <= now
    && p.eventIndex <= |offsets|
    && 0.0 <= p.positionMs <= Duration(offsets) as real
    && (p.eventIndex > 0 ==> offsets[p.eventIndex - 1] as real <= Position(offsets, p, now))
  }

  lemma PositionMoves(offsets: seq<int>, p: Player, now: real, later: real)
    requires offsets != [] && now <= later
    ensures Position(offsets, p, now) <= Position(offsets, p, later)
  {
    AdvanceAdds(p.anchor, now, later, p.speed);
    AdvanceForward(now, later, p.speed);
    hide Advance;
  }

  lemma PositionInRange(offsets: seq<int>, p: Player, now: real)
    requires offsets != [] && PlayerInv(offsets, p, now)
    ensures 0.0 <= Position(offsets, p, now) <= Duration(offsets) as real
  {
    AdvanceForward(p.anchor, now, p.speed);
    hide Advance;
  }

  lemma InvPersists(offsets: seq<int>, p: Player, now: real, later: real)
    requires offsets != [] && PlayerInv(offsets, p, now) && now <= later
    ensures PlayerInv(offsets, p, later)
  {
    PositionMoves(offsets, p, now, later);
  }

  lemma StepKeepsInv(offsets: seq<int>, p: Player, command: Command, now: real)
    requires ValidOffsets(offsets) && PlayerInv(offsets, p, now) && now <= EndOf(command, now)
    ensures PlayerInv(offsets, Step(offsets, p, command, now).0, EndOf(command, now))
  {
    hide Advance;
    PositionInRange(offsets, p, now);
    AdvanceNowhere(now, p.speed);
    match command
    case Seek(seconds) =>
      BisectSplits(offsets, SoughtPosition(offsets, seconds));
    case SetSpeed(speed, anchored) => AdvanceNowhere(anchored, speed);
    case Pause(anchored) => InvPersists(offsets, p, now, anchored);
    case Resume =>
    case Restart =>
    case Poll =>
  }

  lemma {:induction false} EveryRunKeepsInv(offsets: seq<int>, t0: real, speed: Speed, run: seq<Timed>)
    requires ValidOffsets(offsets) && Monotone(t0, run)
    ensures PlayerInv(offsets, PlayerAfter(offsets, t0, speed, run), LastTime(t0, run))
    decreases |run|
  {
    hide Step;
    if run == [] {
      AdvanceNowhere(t0, speed);
    } else {
      var n := |run| - 1;
      var p := PlayerAfter(offsets, t0, speed, run[..n]);
      EveryRunKeepsInv(offsets, t0, speed, run[..n]);
      InvPersists(offsets, p, LastTime(t0, run[..n]), run[n].at);
      StepKeepsInv(offsets, p, run[n].command, run[n].at);
    }
  }

  /** Events are exhausted only at the end of the recording. */
  lemma ExhaustedAtEnd(offsets: seq<int>, p: Player, now: real)
    requires ValidOffsets(offsets) && PlayerInv(offsets, p, now) && p.eventIndex == |offsets|
    ensures Position(offsets, p, now) == Duration(offsets) as real
  {
    PositionInRange(offsets, p, now);
  }

  // ---------- position ----------

  lemma PlayTimeMoves(offsets: seq<int>, t0: real, speed: Speed, run: seq<Timed>, now: real, later: real)
    requires offsets != []
    ensures
      PlayTime(offsets, t0, speed, run, later)
      == PlayTime(offsets, t0, speed, run, now)
         + if StateAfter(offsets, t0, speed, run).Playing? then Advance(now, later, SpeedAfter(speed, run)) else 0.0
  {
    AdvanceAdds(LastTime(t0, run), now, later, SpeedAfter(speed, run));
    hide StateAfter, NextEvent, SpeedAfter, LastTime;
  }

  /** Capping first and adding afterwards is capping the sum. */
  lemma CapOnce(d: real, x: real, y: real)
    requires y >= 0.0
    ensures Min(d, Min(d, x) + y) == Min(d, x + y)
  {}

  /** Right after a command the position is the one the stopwatch gave before it, unless it restarts or seeks. */
  lemma StepPosition(offsets: seq<int>, p: Player, command: Command, now: real, total: real)
    requires ValidOffsets(offsets) && PlayerInv(offsets, p, now)
    requires Position(offsets, p, now) == Min(Duration(offsets) as real, total)
    ensures
      var after := Step(offsets, p, command, now).0;
      Position(offsets, after, EndOf(command, now))
      == if command.Restart? then 0.0
         else if Repositions(command) then SoughtPosition(offsets, command.seconds)
         else Min(Duration(offsets) as real, total)
  {
    hide Advance;
    PositionInRange(offsets, p, now);
    AdvanceNowhere(now, p.speed);
    match command
    case Seek(seconds) =>
    case SetSpeed(speed, anchored) => AdvanceNowhere(anchored, speed);
    case Pause(anchored) =>
    case Resume =>
    case Restart =>
    case Poll => if p.state.Playing? && p.eventIndex == |offsets| { ExhaustedAtEnd(offsets, p, now); }
  }

  /** As time passes without commands the position advances by the playing time, up to the end. */
  lemma PositionAdvances(offsets: seq<int>, p: Player, now: real, later: real, total: real)
    requires offsets != [] && PlayerInv(offsets, p, now) && now <= later
    requires Position(offsets, p, now) == Min(Duration(offsets) as real, total)
    ensures Position(offsets, p, later)
            == Min(Duration(offsets) as real, total + if p.state.Playing? then Advance(now, later, p.speed) else 0.0)
  {
    AdvanceAdds(p.anchor, now, later, p.speed);
    AdvanceForward(now, later, p.speed);
    hide Advance;
    if p.state.Playing? {
      CapOnce(Duration(offsets) as real, p.positionMs + Advance(p.anchor, now, p.speed), Advance(now, later, p.speed));
      CapOnce(Duration(offsets) as real, total, Advance(now, later, p.speed));
    }
  }

  /** The controller's state, speed and next event are those of the listener, who knows only commands and clock. */
  lemma {:induction false} ControllerAgrees(offsets: seq<int>, t0: real, speed: Speed, run: seq<Timed>)
    requires ValidOffsets(offsets) && Monotone(t0, run)
    ensures
      var p := PlayerAfter(offsets, t0, speed, run);
      && p.state == StateAfter(offsets, t0, speed, run)
      && p.speed == SpeedAfter(speed, run)
      && p.eventIndex == NextEvent(offsets, t0, speed, run)
    decreases |run|, 0
  {
    hide Advance, Position, PlayTime, Bisect;
    if run != [] {
      var n := |run| - 1;
      ControllerAgrees(offsets, t0, speed, run[..n]);
      PositionLaw(offsets, t0, speed, run[..n], run[n].at);
      SoughtIsStart(offsets, run);
    }
  }

  lemma SoughtIsStart(offsets: seq<int>, run: seq<Timed>)
    requires offsets != [] && run != []
    ensures
      var command := run[|run| - 1].command;
      Repositions(command) ==>
        StartPosition(offsets, run) == if command.Restart? then 0.0 else SoughtPosition(offsets, command.seconds)
    ensures
      !Repositions(run[|run| - 1].command) ==> StartPosition(offsets, run) == StartPosition(offsets, run[..|run| - 1])
  {}

  /** Main result: under any commands and a monotone clock the position is the start position plus speed times
      playing time since the last restart or seek, capped at the duration.
    */
  lemma {:induction false} PositionLaw(offsets: seq<int>, t0: real, speed: Speed, run: seq<Timed>, now: real)
    requires ValidOffsets(offsets) && Monotone(t0, run) && LastTime(t0, run) <= now
    ensures Position(offsets, PlayerAfter(offsets, t0, speed, run), now)
            == Min(Duration(offsets) as real, StartPosition(offsets, run) + PlayTime(offsets, t0, speed, run, now))
    decreases |run|, 1
  {
    hide Advance, Step, Position, PlayTime, StartPosition, StateAfter, SpeedAfter, NextEvent;
    var p, end := PlayerAfter(offsets, t0, speed, run), LastTime(t0, run);
    EveryRunKeepsInv(offsets, t0, speed, run);
    ControllerAgrees(offsets, t0, speed, run);
    if run == [] {
      PositionAtStart(offsets, t0, speed);
    } else {
      var n := |run| - 1;
      var q, at := PlayerAfter(offsets, t0, speed, run[..n]), run[n].at;
      EveryRunKeepsInv(offsets, t0, speed, run[..n]);
      InvPersists(offsets, q, LastTime(t0, run[..n]), at);
      PositionLaw(offsets, t0, speed, run[..n], at);
      StepPosition(offsets, q, run[n].command, at,
                   StartPosition(offsets, run[..n]) + PlayTime(offsets, t0, speed, run[..n], at));
      StopwatchAtCommand(offsets, t0, speed, run);
    }
    PositionAdvances(offsets, p, end, now, StartPosition(offsets, run) + PlayTime(offsets, t0, speed, run, end));
    PlayTimeMoves(offsets, t0, speed, run, end, now);
  }

  lemma PositionAtStart(offsets: seq<int>, t0: real, speed: Speed)
    requires ValidOffsets(offsets)
    ensures Position(offsets, Started(t0, speed), t0)
            == Min(Duration(offsets) as real, StartPosition(offsets, []) + PlayTime(offsets, t0, speed, [], t0))
  {
    AdvanceNowhere(t0, speed);
  }

  /** The stopwatch at the instant of a command: restarted by a restart or seek, untouched by anything else. */
  lemma StopwatchAtCommand(offsets: seq<int>, t0: real, speed: Speed, run: seq<Timed>)
    requires ValidOffsets(offsets) && run != []
    ensures
      var n := |run| - 1;
      var command, at := run[n].command, run[n].at;
      var total := StartPosition(offsets, run) + PlayTime(offsets, t0, speed, run, EndOf(command, at));
      Min(Duration(offsets) as real, total)
      == if command.Restart? then 0.0
         else if Repositions(command) then SoughtPosition(offsets, command.seconds)
         else Min(Duration(offsets) as real,
                  StartPosition(offsets, run[..n]) + PlayTime(offsets, t0, speed, run[..n], at))
  {
    hide StateAfter, NextEvent, SpeedAfter, StartPosition;
    SoughtIsStart(offsets, run);
    NothingPlayed(LastTime(t0, run), SpeedAfter(speed, run));
  }

  lemma NothingPlayed(at: real, speed: real)
    ensures (at - at) * 1000.0 * speed == 0.0
  {}

  /** Main result: on every run a poll hands out the listener's next event exactly when the stopwatch has reached it,
      and otherwise says how long that takes at the listener's speed; it ends when nothing is left and is idle unless
      playing.
    */
  lemma PollFollowsStopwatch(offsets: seq<int>, t0: real, speed: Speed, run: seq<Timed>, now: real)
    requires ValidOffsets(offsets) && Monotone(t0, run) && LastTime(t0, run) <= now
    ensures
      var played := StartPosition(offsets, run) + PlayTime(offsets, t0, speed, run, now);
      var next := NextEvent(offsets, t0, speed, run);
      Step(offsets, PlayerAfter(offsets, t0, speed, run), Poll, now).1
      == if !StateAfter(offsets, t0, speed, run).Playing? then Idle
         else if next == |offsets| then Ended
         else if offsets[next] as real <= played then Returned(next)
         else Wait((offsets[next] as real - played) / 1000.0 / SpeedAfter(speed, run))
  {
    ControllerAgrees(offsets, t0, speed, run);
    PositionLaw(offsets, t0, speed, run, now);
    hide PlayTime, StartPosition, PlayerAfter, StateAfter, SpeedAfter, NextEvent, Position;
  }

  // ---------- one command ----------

  /** Main result: a paused replay stays where it is and hands nothing out, whenever it is asked. */
  lemma PauseStops(offsets: seq<int>, p: Player, now: real, anchored: real, later: real)
    requires offsets != []
    ensures
      var q := Step(offsets, p, Pause(anchored), now).0;
      && Position(offsets, q, later) == Position(offsets, p, if p.state.Playing? then now else later)
      && !q.state.Playing? && Step(offsets, q, Poll, later) == (q, Idle)
  {
    hide Advance;
  }

  /** Main result: a paused replay goes on from its position at its speed; any other is left alone. */
  lemma ResumeGoesOn(offsets: seq<int>, p: Player, now: real, later: real)
    requires offsets != []
    ensures
      var q := Step(offsets, p, Resume, now).0;
      if p.state.Paused? then
        && q.state.Playing?
        && Position(offsets, q, later)
           == Min(Duration(offsets) as real, Position(offsets, p, now) + (later - now) * 1000.0 * p.speed)
      else q == p
  {}

  /** Main result: from an accepted change on, a replay that plays goes on from its position at the new speed. */
  lemma SpeedTakesEffect(offsets: seq<int>, p: Player, speed: real, now: real, anchored: real, later: real)
    requires offsets != [] && (speed == 0.5 || speed == 1.0 || speed == 2.0 || speed == 10.0)
    ensures
      var q := Step(offsets, p, SetSpeed(speed, anchored), now).0;
      && q.speed == speed && q.state == p.state && q.eventIndex == p.eventIndex
      && Position(offsets, q, later)
         == if p.state.Playing?
            then Min(Duration(offsets) as real, Position(offsets, p, now) + (later - anchored) * 1000.0 * speed)
            else Position(offsets, p, now)
  {}

  // ---------- events ----------

  /** The first event due from where the last restart or seek put the playhead. */
  function FirstEvent(offsets: seq<int>, run: seq<Timed>): nat
    requires offsets != []
    decreases |run|
  {
    if run == [] then 0
    else
      var command := run[|run| - 1].command;
      if command.Restart? then 0
      else if Repositions(command) then Bisect(offsets, SoughtPosition(offsets, command.seconds))
      else FirstEvent(offsets, run[..|run| - 1])
  }

  /** Main result: between restarts and seeks the events handed out are consecutive, with no gap and no repeat. */
  lemma {:induction false} ReturnedAreConsecutive(offsets: seq<int>, t0: real, speed: Speed, run: seq<Timed>)
    requires ValidOffsets(offsets)
    ensures
      var returned, first := ReturnedSince(offsets, t0, speed, run), FirstEvent(offsets, run);
      && (forall i :: 0 <= i < |returned| ==> returned[i] == first + i)
      && first + |returned| == PlayerAfter(offsets, t0, speed, run).eventIndex
    decreases |run|
  {
    hide Advance, Position, Bisect;
    if run != [] {
      ReturnedAreConsecutive(offsets, t0, speed, run[..|run| - 1]);
    }
  }

  /** Main result: an event is handed out only once start position plus playing time has reached its offset. */
  lemma NoEventIsEarly(offsets: seq<int>, t0: real, speed: Speed, run: seq<Timed>, now: real)
    requires ValidOffsets(offsets) && Monotone(t0, run) && LastTime(t0, run) <= now
    requires Step(offsets, PlayerAfter(offsets, t0, speed, run), Poll, now).1.Returned?
    ensures
      var k := Step(offsets, PlayerAfter(offsets, t0, speed, run), Poll, now).1.index;
      k < |offsets| && offsets[k] as real <= StartPosition(offsets, run) + PlayTime(offsets, t0, speed, run, now)
  {
    PositionLaw(offsets, t0, speed, run, now);
    hide Advance, Position, PlayTime, StartPosition, PlayerAfter;
  }

  lemma AdvanceInverse(gap: real, speed: real, now: real)
    requires speed > 0.0
    ensures Advance(now, now + gap / 1000.0 / speed, speed) == gap
  {
    var seconds := gap / 1000.0 / speed;
    assert seconds * speed == gap / 1000.0;
    assert seconds * 1000.0 * speed == gap;
  }

  lemma AdvanceGrows(from: real, a: real, b: real, speed: real)
    requires speed > 0.0 && a < b
    ensures Advance(from, a, speed) < Advance(from, b, speed)
  {
    AdvanceAdds(from, a, b, speed);
    var d := (b - a) * 1000.0;
    assert d * speed > 0.0;
  }

  /** A gap has been played exactly when its delay has passed. */
  lemma DelayIsExact(gap: real, speed: real, now: real, later: real)
    requires speed > 0.0
    ensures gap <= Advance(now, later, speed) <==> later >= now + gap / 1000.0 / speed
  {
    var delay := gap / 1000.0 / speed;
    AdvanceInverse(gap, speed, now);
    if later < now + delay { AdvanceGrows(now, later, now + delay, speed); }
    if later > now + delay { AdvanceGrows(now, now + delay, later, speed); }
    hide Advance;
  }

  /** Main result: the computed timeout is exact. If nothing happens in between, the event is handed out when the
      timeout has passed and not a moment before.
    */
  lemma TimeoutIsExact(offsets: seq<int>, p: Player, now: real, later: real)
    requires ValidOffsets(offsets) && PlayerInv(offsets, p, now) && now <= later
    requires Step(offsets, p, Poll, now).1.Wait?
    ensures
      var timeout := Step(offsets, p, Poll, now).1.seconds;
      Step(offsets, p, Poll, later).1.Returned? <==> later >= now + timeout
  {
    var due, position := offsets[p.eventIndex] as real, Position(offsets, p, now);
    hide Advance;
    DelayIsExact(due - position, p.speed, now, later);
    assert due <= Duration(offsets) as real;
    PositionAdvances(offsets, p, now, later, position) by { PositionInRange(offsets, p, now); }
  }

  // ---------- the cursor ----------

  /** The scheduled delays telescope: together they are the distance from the playhead to the event. */
  lemma {:induction false} DelaysTelescope(offsets: seq<int>, c: Cursor, k: nat)
    requires ValidOffsets(offsets) && c.position <= k < |offsets|
    requires c.playheadMs <= offsets[c.position]
    ensures TotalDelay(offsets, c, k) == (offsets[k] - c.playheadMs) as real / 1000.0 / c.speed
    decreases k - c.position
  {
    if c.position < k {
      var next := CursorNext(offsets, c);
      DelaysTelescope(offsets, next, k);
      DivisionAdds((offsets[c.position] - c.playheadMs) as real, (offsets[k] - offsets[c.position]) as real, c.speed);
    }
  }

  lemma DivisionAdds(a: real, b: real, speed: real)
    requires speed > 0.0
    ensures a / 1000.0 / speed + b / 1000.0 / speed == (a + b) / 1000.0 / speed
  {}

  /** Main result: after a seek to a whole millisecond inside the recording, controller and cursor name the same
      next event, and the controller's event k falls due exactly when the cursor's delays up to k have passed.
    */
  lemma ControllerMatchesCursor(offsets: seq<int>, p: Player, c: Cursor, ms: int, now: real, k: nat, later: real)
    requires ValidOffsets(offsets) && 0 <= ms <= Duration(offsets) && now <= later
    requires p.state.Playing? && p.speed == c.speed
    ensures
      var seconds := ms as real / 1000.0;
      var sought, cursor := Step(offsets, p, Seek(seconds), now).0, CursorSeek(offsets, c, seconds);
      && sought.eventIndex == cursor.position
      && (cursor.position <= k < |offsets| ==>
            (offsets[k] as real <= Position(offsets, sought, later) <==> later >= now + TotalDelay(offsets, cursor, k)))
  {
    hide Advance, Bisect, Round, TotalDelay;
    var seconds := ms as real / 1000.0;
    assert seconds * 1000.0 == ms as real;
    RoundOfInteger(ms);
    var cursor := CursorSeek(offsets, c, seconds);
    if cursor.position <= k < |offsets| {
      BisectSplits(offsets, ms as real);
      DelaysTelescope(offsets, cursor, k);
      DelayIsExact((offsets[k] - ms) as real, p.speed, now, later);
    }
  }

  /** Main result: after any seek that is accepted, controller and cursor agree on the next event exactly when the
      target rounds to a millisecond that is not past the end and rounding does not move the controller's position back
      onto an event.
    */
  lemma SeekAgreesExactly(offsets: seq<int>, p: Player, c: Cursor, seconds: real, now: real)
    requires ValidOffsets(offsets) && seconds >= 0.0
    ensures
      var target, last := seconds * 1000.0, Duration(offsets);
      Step(offsets, p, Seek(seconds), now).0.eventIndex == CursorSeek(offsets, c, seconds).position
      <==> Round(target) <= last && !(Round(target) as real < Min(target, last as real) && Round(target) in offsets)
  {
    hide Bisect;
    var target, last := seconds * 1000.0, Duration(offsets);
    var rounded := Round(target);
    if target <= last as real {
      SeekBetweenMilliseconds(offsets, p, c, seconds, now);
      IntegersApart(last, rounded);
    } else {
      IntegersApart(rounded, last);
      PastTheEnd(offsets, rounded);
    }
  }

  /** From the last offset on, the events left are those at that offset, and then none. */
  lemma PastTheEnd(offsets: seq<int>, position: int)
    requires ValidOffsets(offsets)
    ensures Bisect(offsets, Duration(offsets) as real) < |offsets|
    ensures position > Duration(offsets) ==> Bisect(offsets, position as real) == |offsets|
  {
    hide Bisect;
    var n := |offsets| - 1;
    BisectAt(offsets, Duration(offsets) as real, n);
    if position > Duration(offsets) && Bisect(offsets, position as real) < |offsets| {
      BisectAt(offsets, position as real, n);
    }
  }

  /** Inside the recording they agree exactly when rounding does not move the target back onto an event. */
  lemma SeekBetweenMilliseconds(offsets: seq<int>, p: Player, c: Cursor, seconds: real, now: real)
    requires ValidOffsets(offsets) && 0.0 <= seconds * 1000.0 <= Duration(offsets) as real
    ensures
      var target := seconds * 1000.0;
      Step(offsets, p, Seek(seconds), now).0.eventIndex == CursorSeek(offsets, c, seconds).position
      <==> !(Round(target) as real < target && Round(target) in offsets)
  {
    hide Bisect;
    var target := seconds * 1000.0;
    var rounded := Round(target);
    if rounded as real < target {
      RoundedDown(offsets, rounded, target);
    } else {
      RoundedUp(offsets, rounded, target);
    }
  }

  predicate Ordered(offsets: seq<int>) {
    forall i, j :: 0 <= i < j < |offsets| ==> offsets[i] <= offsets[j]
  }

  /** In an ordered list the events before the bisection point are those before the position. */
  lemma BisectAt(offsets: seq<int>, x: real, i: nat)
    requires Ordered(offsets) && i < |offsets|
    ensures i < Bisect(offsets, x) <==> offsets[i] as real < x
  {
    BisectSplits(offsets, x);
  }

  lemma BisectMonotone(offsets: seq<int>, x: real, y: real)
    requires Ordered(offsets) && x <= y
    ensures Bisect(offsets, x) <= Bisect(offsets, y)
  {
    hide Bisect;
    var b := Bisect(offsets, y);
    if b < Bisect(offsets, x) {
      BisectAt(offsets, x, b);
      BisectAt(offsets, y, b);
    }
  }

  lemma IntegersApart(a: int, b: int)
    ensures a as real < b as real ==> a as real + 1.0 <= b as real
    ensures a as real == b as real ==> a == b
  {}

  lemma RoundedDown(offsets: seq<int>, rounded: int, target: real)
    requires Ordered(offsets) && rounded as real < target < rounded as real + 1.0
    ensures Bisect(offsets, target) == Bisect(offsets, rounded as real) <==> rounded !in offsets
  {
    hide Bisect;
    BisectMonotone(offsets, rounded as real, target);
    var a, b := Bisect(offsets, target), Bisect(offsets, rounded as real);
    if rounded in offsets {
      var i :| 0 <= i < |offsets| && offsets[i] == rounded;
      BisectAt(offsets, target, i);
      BisectAt(offsets, rounded as real, i);
    } else if b < a {
      assert offsets[b] in offsets;
      IntegersApart(rounded, offsets[b]);
      BisectAt(offsets, target, b);
      BisectAt(offsets, rounded as real, b);
    }
  }

  lemma RoundedUp(offsets: seq<int>, rounded: int, target: real)
    requires Ordered(offsets) && target <= rounded as real < target + 1.0
    ensures Bisect(offsets, target) == Bisect(offsets, rounded as real)
  {
    hide Bisect;
    BisectMonotone(offsets, target, rounded as real);
    var a := Bisect(offsets, target);
    if a < Bisect(offsets, rounded as real) {
      IntegersApart(offsets[a], rounded);
      BisectAt(offsets, target, a);
      BisectAt(offsets, rounded as real, a);
    }
  }

  // ---------- runs of the cursor ----------

  /** The playhead is past every event handed out or skipped, and not past the next one. */
  ghost predicate CursorInv(offsets: seq<int>, c: Cursor) {
    && c.position <= |offsets|
    && (forall i :: 0 <= i < c.position ==> offsets[i] <= c.playheadMs)
    && (forall i :: c.position <= i < |offsets| ==> c.playheadMs <= offsets[i])
  }

  lemma CursorStepKeepsInv(offsets: seq<int>, c: Cursor, command: CursorCommand)
    requires ValidOffsets(offsets) && CursorInv(offsets, c)
    ensures CursorInv(offsets, CursorStep(offsets, c, command))
  {
    match command
    case CursorTo(seconds) => BisectSplits(offsets, Round(seconds * 1000.0) as real);
    case _ =>
  }

  lemma {:induction false} EveryCursorRunKeepsInv(offsets: seq<int>, speed: Speed, commands: seq<CursorCommand>)
    requires ValidOffsets(offsets)
    ensures CursorInv(offsets, CursorAfter(offsets, speed, commands))
    decreases |commands|
  {
    hide CursorStep, CursorInv;
    if commands == [] {
      CursorStarts(offsets, speed);
    } else {
      var n := |commands| - 1;
      EveryCursorRunKeepsInv(offsets, speed, commands[..n]);
      CursorStepKeepsInv(offsets, CursorAfter(offsets, speed, commands[..n]), commands[n]);
    }
  }

  lemma CursorStarts(offsets: seq<int>, speed: Speed)
    requires ValidOffsets(offsets)
    ensures CursorInv(offsets, Cursor(0, 0, speed))
  {}

  /** Main result: a delay is never negative, and on every run it is exactly the time from the playhead to the next
      event at the cursor's speed: the guard against events behind the playhead is never needed.
    */
  lemma CursorDelayExactly(offsets: seq<int>, speed: Speed, commands: seq<CursorCommand>, any: Cursor)
    requires ValidOffsets(offsets)
    ensures any.position < |offsets| ==> CursorDelay(offsets, any) >= 0.0
    ensures
      var c := CursorAfter(offsets, speed, commands);
      c.position < |offsets| ==>
        CursorDelay(offsets, c) * 1000.0 * c.speed == (offsets[c.position] - c.playheadMs) as real >= 0.0
  {
    hide CursorAfter;
    EveryCursorRunKeepsInv(offsets, speed, commands);
    var c := CursorAfter(offsets, speed, commands);
    if c.position < |offsets| {
      DelayScales((offsets[c.position] - c.playheadMs) as real, c.speed);
    }
    if any.position < |offsets| {
      var gap := offsets[any.position] - any.playheadMs;
      DelayScales((if gap > 0 then gap else 0) as real, any.speed);
    }
  }

  lemma DelayScales(gap: real, speed: real)
    requires speed > 0.0 && gap >= 0.0
    ensures gap / 1000.0 / speed * 1000.0 * speed == gap && gap / 1000.0 / speed >= 0.0
  {
    var delay := gap / 1000.0 / speed;
    assert delay * speed == gap / 1000.0;
  }
}
