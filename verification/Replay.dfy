/** services/replay/controller.py and services/replay/recording.py: the shared controller, the per-client
    cursor and the ordering check of a recording. Each command takes the clock readings it makes.
  */
module Replay {
  import opened ReplayModel
  import opened Rounding
  import opened Wrappers

  /** The offset checks of `Recording.from_dict`: a nonempty list of nonnegative, nondecreasing offsets. */
  method CheckOffsets(offsets: seq<int>) returns (ok: bool)
    ensures ok <==> ValidOffsets(offsets)
  {
    if offsets == [] {
      return false;
    }
    var previousOffset := -1;
    var i := 0;
    while i < |offsets|
      invariant 0 <= i <= |offsets|
      invariant previousOffset == if i == 0 then -1 else offsets[i - 1]
      invariant i > 0 ==> offsets[0] >= 0
      invariant forall j, k :: 0 <= j < k < i ==> offsets[j] <= offsets[k]
    {
      if offsets[i] < 0 || offsets[i] < previousOffset {
        return false;
      }
      previousOffset := offsets[i];
      i := i + 1;
    }
    return true;
  }

  class ReplayController {
    const offsets: seq<int>
    const loop: bool
    const loopDelay: real
    var state: PlayState
    var speed: Speed
    var positionMs: real
    var anchorTime: real
    var eventIndex: nat

    function Value(): Player
      reads this
    {
      Player(state, speed, positionMs, anchorTime, eventIndex)
    }

    constructor (offsets: seq<int>, speed: Speed, loop: bool, loopDelay: real, now: real)
      requires ValidOffsets(offsets) && loopDelay >= 0.0
      ensures Value() == Started(now, speed)
      ensures this.offsets == offsets && this.loop == loop && this.loopDelay == loopDelay
    {
      this.offsets, this.loop, this.loopDelay := offsets, loop, loopDelay;
      state, this.speed, positionMs, anchorTime, eventIndex := Playing, speed, 0.0, now, 0;
    }

    /** Refuses the speeds and delays the source refuses. */
    static method Create(offsets: seq<int>, speed: real, loop: bool, loopDelay: real, now: real)
      returns (c: ReplayController?)
      requires ValidOffsets(offsets)
      ensures c != null <==> SupportedSpeed(speed) && loopDelay >= 0.0
      ensures c != null ==>
                && fresh(c) && c.Value() == Started(now, speed)
                && c.offsets == offsets && c.loop == loop && c.loopDelay == loopDelay
    {
      if !SupportedSpeed(speed) || loopDelay < 0.0 {
        return null;
      }
      c := new ReplayController(offsets, speed, loop, loopDelay, now);
    }

    method CurrentPosition(now: real) returns (position: real)
      requires offsets != []
      ensures position == Position(offsets, Value(), now)
    {
      if state != Playing {
        return positionMs;
      }
      var elapsed := Advance(anchorTime, now, speed);
      return Min(Duration(offsets) as real, positionMs + elapsed);
    }

    method FreezePosition(now: real, anchored: real)
      requires offsets != []
      modifies this`positionMs, this`anchorTime
      ensures Value() == Frozen(offsets, old(Value()), now, anchored)
    {
      positionMs := CurrentPosition(now);
      anchorTime := anchored;
    }

    method Pause(now: real, anchored: real)
      requires offsets != []
      modifies this
      ensures Value() == Step(offsets, old(Value()), ReplayModel.Pause(anchored), now).0
    {
      if state == Playing {
        FreezePosition(now, anchored);
        state := Paused;
      }
    }

    method Resume(now: real)
      requires offsets != []
      modifies this
      ensures Value() == Step(offsets, old(Value()), ReplayModel.Resume, now).0
    {
      if state == Paused {
        anchorTime := now;
        state := Playing;
      }
    }

    method Restart(now: real)
      requires offsets != []
      modifies this
      ensures Value() == Step(offsets, old(Value()), ReplayModel.Restart, now).0
    {
      positionMs, eventIndex, anchorTime, state := 0.0, 0, now, Playing;
    }

    method Seek(seconds: real, now: real) returns (outcome: Outcome)
      requires offsets != []
      modifies this
      ensures (Value(), outcome) == Step(offsets, old(Value()), ReplayModel.Seek(seconds), now)
    {
      if seconds < 0.0 {
        return Rejected;
      }
      positionMs := Min(seconds * 1000.0, Duration(offsets) as real);
      eventIndex := Bisect(offsets, positionMs);
      anchorTime := now;
      if state == Completed {
        state := Paused;
      }
      return Accepted;
    }

    method SetSpeed(newSpeed: real, now: real, anchored: real) returns (outcome: Outcome)
      requires offsets != []
      modifies this
      ensures (Value(), outcome) == Step(offsets, old(Value()), ReplayModel.SetSpeed(newSpeed, anchored), now)
    {
      if !SupportedSpeed(newSpeed) {
        return Rejected;
      }
      FreezePosition(now, anchored);
      speed := newSpeed;
      return Accepted;
    }

    /** One pass of `next_event`; `timeout` is how long it then waits (None: until the next command), and
        `loopWait` whether the end of that wait restarts the recording.
      */
    method Poll(now: real) returns (outcome: Outcome, timeout: Option<real>, loopWait: bool)
      requires offsets != []
      modifies this
      ensures (Value(), outcome) == Step(offsets, old(Value()), ReplayModel.Poll, now)
      ensures timeout == match outcome
                         case Wait(seconds) => Some(seconds)
                         case Ended => if loop then Some(loopDelay) else None
                         case _ => None
      ensures loopWait <==> outcome.Ended? && loop
    {
      timeout, loopWait := None, false;
      if state == Playing {
        var position := CurrentPosition(now);
        if eventIndex < |offsets| {
          if offsets[eventIndex] as real <= position {
            eventIndex := eventIndex + 1;
            return Returned(eventIndex - 1), None, false;
          }
          var seconds := (offsets[eventIndex] as real - position) / 1000.0 / speed;
          return Wait(seconds), Some(seconds), false;
        }
        positionMs := Duration(offsets) as real;
        state := Completed;
        return Ended, if loop then Some(loopDelay) else None, loop;
      }
      return Idle, None, false;
    }
  }

  class PlaybackCursor {
    const offsets: seq<int>
    var position: nat
    var playheadMs: int
    var speed: Speed

    function Value(): Cursor
      reads this
    {
      Cursor(position, playheadMs, speed)
    }

    constructor (offsets: seq<int>, speed: Speed)
      ensures Value() == Cursor(0, 0, speed) && this.offsets == offsets
    {
      this.offsets, position, playheadMs, this.speed := offsets, 0, 0, speed;
    }

    method SetSpeed(newSpeed: real) returns (ok: bool)
      modifies this`speed
      ensures ok <==> SupportedSpeed(newSpeed)
      ensures Value() == if ok then old(Value()).(speed := newSpeed) else old(Value())
    {
      if !SupportedSpeed(newSpeed) {
        return false;
      }
      speed := newSpeed;
      return true;
    }

    method Seek(seconds: real) returns (ok: bool)
      modifies this`position, this`playheadMs
      ensures ok <==> seconds >= 0.0
      ensures Value() == if ok then CursorSeek(offsets, old(Value()), seconds) else old(Value())
    {
      if seconds < 0.0 {
        return false;
      }
      playheadMs := Round(seconds * 1000.0);
      position := Bisect(offsets, playheadMs as real);
      return true;
    }

    method Restart()
      modifies this`position, this`playheadMs
      ensures Value() == Cursor(0, 0, old(speed))
    {
      position, playheadMs := 0, 0;
    }

    /** The next event and the delay scheduled before it. */
    method NextEvent() returns (scheduled: Option<(real, nat)>)
      modifies this`position, this`playheadMs
      ensures scheduled.None? <==> old(position) >= |offsets|
      ensures scheduled.None? ==> Value() == old(Value())
      ensures scheduled.Some? ==>
                && scheduled.value == (CursorDelay(offsets, old(Value())), old(position))
                && Value() == CursorNext(offsets, old(Value()))
    {
      if position >= |offsets| {
        return None;
      }
      var gap := offsets[position] - playheadMs;
      var delay := (if gap > 0 then gap else 0) as real / 1000.0 / speed;
      var index := position;
      position := position + 1;
      playheadMs := offsets[index];
      return Some((delay, index));
    }
  }
}
