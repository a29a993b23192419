/** services/replay/controller.py and recording.py as functions on values. Positions are in milliseconds
    and clock readings in seconds, both exact reals. A command that freezes the position reads the clock a second time,
    to anchor it.
  */
module ReplayModel {
  import opened Rounding

  datatype PlayState = Playing | Paused | Completed

  /** A playback speed: a positive factor. */
  type Speed = s: real | s > 0.0 witness 1.0

  datatype Player = Player(state: PlayState, speed: Speed, positionMs: real, anchor: real, eventIndex: nat)

  datatype Command = Pause(anchored: real) | Resume | Restart | Seek(seconds: real)
                   | SetSpeed(speed: real, anchored: real) | Poll

  /** What a command gives back; Poll is one pass of `next_event`. */
  datatype Outcome = Accepted | Rejected | Returned(index: nat) | Wait(seconds: real) | Ended | Idle

  datatype Timed = Timed(at: real, command: Command)

  predicate SupportedSpeed(speed: real) {
    speed == 0.5 || speed == 1.0 || speed == 2.0 || speed == 10.0
  }

  /** What `Recording.from_dict` accepts as event offsets. */
  predicate ValidOffsets(offsets: seq<int>) {
    offsets != [] && offsets[0] >= 0 && forall i, j :: 0 <= i < j < |offsets| ==> offsets[i] <= offsets[j]
  }

  function Duration(offsets: seq<int>): int
    requires offsets != []
  {
    offsets[|offsets| - 1]
  }

  function Min(a: real, b: real): real {
    if a <= b then a else b
  }

  /** Milliseconds played between two clock readings. */
  function Advance(from: real, to: real, speed: real): real {
    (to - from) * 1000.0 * speed
  }

  /** `bisect_left`: the first event at or after the position. */
  function Bisect(offsets: seq<int>, position: real): (i: nat)
    ensures i <= |offsets|
  {
    if offsets != [] && offsets[0] as real < position then 1 + Bisect(offsets[1..], position) else 0
  }

  function Position(offsets: seq<int>, p: Player, now: real): real
    requires offsets != []
  {
    if !p.state.Playing? then p.positionMs
    else Min(Duration(offsets) as real, p.positionMs + Advance(p.anchor, now, p.speed))
  }

  function Started(now: real, speed: Speed): Player {
    Player(Playing, speed, 0.0, now, 0)
  }

  /** `_freeze_position`: the position at one reading of the clock, anchored at the next. */
  function Frozen(offsets: seq<int>, p: Player, now: real, anchored: real): Player
    requires offsets != []
  {
    p.(positionMs := Position(offsets, p, now), anchor := anchored)
  }

  function SoughtPosition(offsets: seq<int>, seconds: real): real
    requires offsets != []
  {
    Min(seconds * 1000.0, Duration(offsets) as real)
  }

  function Step(offsets: seq<int>, p: Player, command: Command, now: real): (Player, Outcome)
    requires offsets != []
  {
    match command
    case Pause(anchored) =>
      (if p.state.Playing? then Frozen(offsets, p, now, anchored).(state := Paused) else p, Accepted)
    case Resume => (if p.state.Paused? then p.(anchor := now, state := Playing) else p, Accepted)
    case Restart => (Started(now, p.speed), Accepted)
    case Seek(seconds) =>
      if seconds < 0.0 then (p, Rejected)
      else
        var position := SoughtPosition(offsets, seconds);
        (p.(positionMs := position, eventIndex := Bisect(offsets, position), anchor := now,
            state := if p.state.Completed? then Paused else p.state), Accepted)
    case SetSpeed(speed, anchored) =>
      if !SupportedSpeed(speed) then (p, Rejected) else (Frozen(offsets, p, now, anchored).(speed := speed), Accepted)
    case Poll =>
      if !p.state.Playing? then (p, Idle)
      else if p.eventIndex >= |offsets| then (p.(positionMs := Duration(offsets) as real, state := Completed), Ended)
      else
        var position := Position(offsets, p, now);
        var due := offsets[p.eventIndex] as real;
        if due <= position then (p.(eventIndex := p.eventIndex + 1), Returned(p.eventIndex))
        else (p, Wait((due - position) / 1000.0 / p.speed))
  }

  /** The controller after a run of commands, started at time t0. */
  function PlayerAfter(offsets: seq<int>, t0: real, speed: Speed, run: seq<Timed>): Player
    requires offsets != []
    decreases |run|
  {
    if run == [] then Started(t0, speed)
    else
      var last := run[|run| - 1];
      Step(offsets, PlayerAfter(offsets, t0, speed, run[..|run| - 1]), last.command, last.at).0
  }

  /** The last clock reading of a command made at this time. */
  function EndOf(command: Command, at: real): real {
    match command
    case Pause(anchored) => anchored
    case SetSpeed(speed, anchored) => if SupportedSpeed(speed) then anchored else at
    case _ => at
  }

  function LastTime(t0: real, run: seq<Timed>): real {
    if run == [] then t0 else EndOf(run[|run| - 1].command, run[|run| - 1].at)
  }

  /** The clock never goes back. */
  predicate Monotone(t0: real, run: seq<Timed>)
    decreases |run|
  {
    run == []
    || (var last := run[|run| - 1];
        Monotone(t0, run[..|run| - 1]) && LastTime(t0, run[..|run| - 1]) <= last.at <= EndOf(last.command, last.at))
  }

  predicate Repositions(command: Command) {
    command.Restart? || (command.Seek? && command.seconds >= 0.0)
  }

  // ---------- the reference: what a listener with a stopwatch would say ----------

  /** Where the last restart or accepted seek put the playhead. */
  function StartPosition(offsets: seq<int>, run: seq<Timed>): real
    requires offsets != []
    decreases |run|
  {
    if run == [] then 0.0
    else
      match run[|run| - 1].command
      case Restart => 0.0
      case Seek(seconds) =>
        if seconds < 0.0 then StartPosition(offsets, run[..|run| - 1])
        else if seconds * 1000.0 > Duration(offsets) as real then Duration(offsets) as real
        else seconds * 1000.0
      case _ => StartPosition(offsets, run[..|run| - 1])
  }

  /** The last speed that was accepted. */
  function SpeedAfter(speed: Speed, run: seq<Timed>): Speed
    decreases |run|
  {
    if run == [] then speed
    else
      match run[|run| - 1].command
      case SetSpeed(asked, _) => if SupportedSpeed(asked) then asked else SpeedAfter(speed, run[..|run| - 1])
      case _ => SpeedAfter(speed, run[..|run| - 1])
  }

  /** Whether the stopwatch runs: what the commands say, and whether a poll has found nothing left to hand out. */
  function StateAfter(offsets: seq<int>, t0: real, speed: Speed, run: seq<Timed>): PlayState
    requires offsets != []
    decreases |run|, 0
  {
    if run == [] then Playing
    else
      var n := |run| - 1;
      var before := StateAfter(offsets, t0, speed, run[..n]);
      match run[n].command
      case Pause(_) => if before.Playing? then Paused else before
      case Resume => if before.Paused? then Playing else before
      case Restart => Playing
      case Seek(seconds) => if seconds >= 0.0 && before.Completed? then Paused else before
      case SetSpeed(_, _) => before
      case Poll =>
        if before.Playing? && NextEvent(offsets, t0, speed, run[..n]) == |offsets| then Completed else before
  }

  /** Speed times playing time since the last restart or accepted seek, in milliseconds. What passes between the two
      readings of a command that freezes the position is not played.
    */
  function PlayTime(offsets: seq<int>, t0: real, speed: Speed, run: seq<Timed>, now: real): real
    requires offsets != []
    decreases |run|, 1
  {
    var recent :=
      if StateAfter(offsets, t0, speed, run).Playing?
      then (now - LastTime(t0, run)) * 1000.0 * SpeedAfter(speed, run) else 0.0;
    if run == [] || Repositions(run[|run| - 1].command) then recent
    else PlayTime(offsets, t0, speed, run[..|run| - 1], run[|run| - 1].at) + recent
  }

  /** The event to hand out next: the first one from the start position on, and one more for every poll that found its
      event due on the stopwatch.
    */
  function NextEvent(offsets: seq<int>, t0: real, speed: Speed, run: seq<Timed>): (k: nat)
    requires offsets != []
    ensures k <= |offsets|
    decreases |run|, 0
  {
    if run == [] then 0
    else
      var n := |run| - 1;
      var before := NextEvent(offsets, t0, speed, run[..n]);
      match run[n].command
      case Restart => 0
      case Seek(seconds) => if seconds >= 0.0 then Bisect(offsets, StartPosition(offsets, run)) else before
      case Poll =>
        var played := StartPosition(offsets, run[..n]) + PlayTime(offsets, t0, speed, run[..n], run[n].at);
        if StateAfter(offsets, t0, speed, run[..n]).Playing? && before < |offsets| && offsets[before] as real <= played
        then before + 1 else before
      case _ => before
  }

  /** The events handed out since the last restart or accepted seek. */
  function ReturnedSince(offsets: seq<int>, t0: real, speed: Speed, run: seq<Timed>): seq<nat>
    requires offsets != []
    decreases |run|
  {
    if run == [] || Repositions(run[|run| - 1].command) then []
    else
      var n := |run| - 1;
      var outcome := Step(offsets, PlayerAfter(offsets, t0, speed, run[..n]), run[n].command, run[n].at).1;
      ReturnedSince(offsets, t0, speed, run[..n]) + if outcome.Returned? then [outcome.index] else []
  }

  // ---------- the per-client cursor ----------

  datatype Cursor = Cursor(position: nat, playheadMs: int, speed: Speed)

  function CursorSeek(offsets: seq<int>, c: Cursor, seconds: real): Cursor {
    var playhead := Round(seconds * 1000.0);
    Cursor(Bisect(offsets, playhead as real), playhead, c.speed)
  }

  /** The delay `next_event` schedules before the cursor's event. */
  function CursorDelay(offsets: seq<int>, c: Cursor): real
    requires c.position < |offsets|
  {
    var gap := offsets[c.position] - c.playheadMs;
    (if gap > 0 then gap else 0) as real / 1000.0 / c.speed
  }

  function CursorNext(offsets: seq<int>, c: Cursor): Cursor
    requires c.position < |offsets|
  {
    Cursor(c.position + 1, offsets[c.position], c.speed)
  }

  datatype CursorCommand = CursorTo(seconds: real) | CursorRestart | CursorSpeed(speed: real) | CursorTake

  /** What a command does to a cursor; refused ones and a cursor at its end change nothing. */
  function CursorStep(offsets: seq<int>, c: Cursor, command: CursorCommand): Cursor {
    match command
    case CursorTo(seconds) => if seconds >= 0.0 then CursorSeek(offsets, c, seconds) else c
    case CursorRestart => Cursor(0, 0, c.speed)
    case CursorSpeed(speed) => if SupportedSpeed(speed) then c.(speed := speed) else c
    case CursorTake => if c.position < |offsets| then CursorNext(offsets, c) else c
  }

  function CursorAfter(offsets: seq<int>, speed: Speed, commands: seq<CursorCommand>): Cursor
    decreases |commands|
  {
    if commands == [] then Cursor(0, 0, speed)
    else
      var n := |commands| - 1;
      CursorStep(offsets, CursorAfter(offsets, speed, commands[..n]), commands[n])
  }

  /** The delays up to and including event k, added up. */
  function TotalDelay(offsets: seq<int>, c: Cursor, k: nat): real
    requires c.position <= k < |offsets|
    decreases k - c.position
  {
    if c.position == k then CursorDelay(offsets, c)
    else CursorDelay(offsets, c) + TotalDelay(offsets, CursorNext(offsets, c), k)
  }
}
