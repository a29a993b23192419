/** sidecar/store.py as a function on the files of its directory, crashes included, and the log of
    records it refines.
  */
module EventStoreModel {
  import opened EventLog

  /** `events-NNNNNNNN.jsonl`; the directory lists segments by ascending number. */
  datatype Segment = Segment(number: nat, data: bytes)

  type Files = seq<Segment>

  /** The listing of a directory is in ascending order of segment numbers. */
  ghost predicate AscendingNumbers(files: Files) {
    forall i, j :: 0 <= i < j < |files| ==> files[i].number < files[j].number
  }

  const MIB := 1024 * 1024

  /** The segment size used when none is configured. */
  function DefaultSegmentBytes(maxBytes: int): int {
    var share := maxBytes / 8;
    var floor := if share > 64 * 1024 then share else 64 * 1024;
    if floor < 8 * MIB then floor else 8 * MIB
  }

  function NextSequence(files: Files): nat {
    if files == [] then 1 else files[|files| - 1].number + 1
  }

  function Opened(files: Files, number: nat): Files {
    files + [Segment(number, [])]
  }

  function Written(files: Files, chunk: bytes): Files
    requires files != []
  {
    var n := |files| - 1;
    files[..n] + [files[n].(data := files[n].data + chunk)]
  }

  /** The segment a line of this size goes to: a fresh one when the open one has no room for it. */
  function RoomFor(files: Files, size: nat, segmentBytes: int): (r: Files)
    requires files != []
    ensures r != []
  {
    if |files[|files| - 1].data| + size > segmentBytes then Opened(files, NextSequence(files)) else files
  }

  function TotalBytes(files: Files): nat {
    if files == [] then 0 else TotalBytes(files[..|files| - 1]) + |files[|files| - 1].data|
  }

  lemma {:induction false} TotalTail(files: Files)
    requires files != []
    ensures TotalBytes(files) == |files[0].data| + TotalBytes(files[1..])
    decreases |files|
  {
    var n := |files| - 1;
    if n == 0 {
      assert files[..0] == [] && files[1..] == [];
    } else {
      TotalTail(files[..n]);
      assert files[..n][1..] == files[1..][..n - 1];
    }
  }

  /** Retention: closed segments that are too old go; the open one, the last, stays. */
  function Retained(files: Files, stale: set<nat>): Files {
    if |files| <= 1 then files
    else (if files[0].number in stale then [] else [files[0]]) + Retained(files[1..], stale)
  }

  lemma {:induction false} RetainedIsPart(files: Files, stale: set<nat>)
    ensures forall s :: s in Retained(files, stale) ==> s in files
    ensures files != [] ==>
              Retained(files, stale) != [] && Retained(files, stale)[|Retained(files, stale)| - 1] == files[|files| - 1]
    decreases |files|
  {
    if |files| > 1 {
      RetainedIsPart(files[1..], stale);
    }
  }

  lemma {:induction false} RetainedIsSorted(files: Files, stale: set<nat>)
    requires AscendingNumbers(files)
    ensures AscendingNumbers(Retained(files, stale))
    ensures files != [] ==>
              Retained(files, stale) != [] && Retained(files, stale)[|Retained(files, stale)| - 1] == files[|files| - 1]
    decreases |files|
  {
    hide AscendingNumbers;
    RetainedIsPart(files, stale);
    if |files| > 1 {
      var rest := Retained(files[1..], stale);
      HeadIsLeast(files);
      RetainedIsSorted(files[1..], stale);
      RetainedIsPart(files[1..], stale);
      AscendingCons(files[0], rest);
      assert [] + rest == rest;
    }
  }

  lemma HeadIsLeast(files: Files)
    requires files != [] && AscendingNumbers(files)
    ensures AscendingNumbers(files[1..]) && forall s :: s in files[1..] ==> files[0].number < s.number
  {}

  lemma AscendingCons(s: Segment, files: Files)
    requires AscendingNumbers(files) && forall t :: t in files ==> s.number < t.number
    ensures AscendingNumbers([s] + files)
  {}

  /** The size bound: the oldest closed segments go until the rest fits. */
  function Trimmed(files: Files, maxBytes: int): Files
    decreases |files|
  {
    if |files| <= 1 || TotalBytes(files) <= maxBytes then files else Trimmed(files[1..], maxBytes)
  }

  function Enforced(files: Files, stale: set<nat>, maxBytes: int): Files {
    Trimmed(Retained(files, stale), maxBytes)
  }

  predicate Readable<R(!new)>(c: Codec<R>, s: Segment) {
    ReadLines(c, SplitLines(s.data)).Some?
  }

  /** Recovery sets segments it cannot read aside. */
  function Kept<R(!new)>(c: Codec<R>, files: Files): Files {
    if files == [] then []
    else Kept(c, files[..|files| - 1]) + if Readable(c, files[|files| - 1]) then [files[|files| - 1]] else []
  }

  /** The ones set aside, in order. */
  function Refused<R(!new)>(c: Codec<R>, files: Files): Files {
    if files == [] then []
    else Refused(c, files[..|files| - 1]) + if Readable(c, files[|files| - 1]) then [] else [files[|files| - 1]]
  }

  function Recovered<R(!new)>(c: Codec<R>, files: Files): seq<R> {
    if files == [] then []
    else
      Recovered(c, files[..|files| - 1]) +
      match ReadLines(c, SplitLines(files[|files| - 1].data)) case None => [] case Some(rs) => rs
  }

  // ---------- runs, with crashes ----------

  datatype Limits = Limits(segmentBytes: int, maxBytes: int)

  /** One thing that happens to a store. A crash while a record is being written leaves k bytes of
      its line on disk, and possibly some of the closed segments already removed when the line was whole.
    */
  datatype Op<R> = Append(record: R, stale: set<nat>)
                 | Crash(record: R, k: nat, gone: set<nat>)
                 | Stop
                 | Restart(stale: set<nat>)

  /** The directory, and whether a process has its last segment open. */
  datatype Disk = Disk(files: Files, up: bool)

  function Step<R(!new)>(c: Codec<R>, l: Limits, d: Disk, op: Op<R>): Disk {
    match op
    case Append(r, stale) =>
      if !d.up || d.files == [] || |c.Line(r)| > l.segmentBytes then d
      else Disk(Enforced(Written(RoomFor(d.files, |c.Line(r)|, l.segmentBytes), c.Line(r)), stale, l.maxBytes), true)
    case Crash(r, k, gone) =>
      if !d.up || d.files == [] || |c.Line(r)| > l.segmentBytes then d
      else
        var line := c.Line(r);
        var written := Written(RoomFor(d.files, |line|, l.segmentBytes), if k < |line| then line[..k] else line);
        Disk(if k < |line| then written else Retained(written, gone), false)
    case Stop => d.(up := false)
    case Restart(stale) =>
      Disk(Enforced(Opened(Kept(c, d.files), NextSequence(d.files)), stale, l.maxBytes), true)
  }

  function RunDisk<R(!new)>(c: Codec<R>, l: Limits, ops: seq<Op<R>>): Disk
    decreases |ops|
  {
    if ops == [] then Disk([], false) else Step(c, l, RunDisk(c, l, ops[..|ops| - 1]), ops[|ops| - 1])
  }

  // ---------- the log the directory stands for ----------

  /** Whole records and the tail a crash tore off. */
  datatype Chapter<R> = Chapter(number: nat, records: seq<R>, torn: bytes)

  type Log<R> = seq<Chapter<R>>

  function Render<R(!new)>(c: Codec<R>, ch: Chapter<R>): Segment {
    Segment(ch.number, c.Lines(ch.records) + ch.torn)
  }

  function RenderAll<R(!new)>(c: Codec<R>, log: Log<R>): (files: Files)
    ensures |files| == |log| && forall i :: 0 <= i < |log| ==> files[i] == Render(c, log[i])
  {
    if log == [] then [] else RenderAll(c, log[..|log| - 1]) + [Render(c, log[|log| - 1])]
  }

  function Records<R>(log: Log<R>): seq<R> {
    if log == [] then [] else Records(log[..|log| - 1]) + log[|log| - 1].records
  }

  function LogRoom<R(!new)>(c: Codec<R>, log: Log<R>, size: nat, segmentBytes: int): (r: Log<R>)
    requires log != []
    ensures r != []
  {
    var last := log[|log| - 1];
    if |Render(c, last).data| + size > segmentBytes then log + [Chapter(last.number + 1, [], [])] else log
  }

  function LogWritten<R>(log: Log<R>, records: seq<R>, torn: bytes): Log<R>
    requires log != []
  {
    var n := |log| - 1;
    log[..n] + [log[n].(records := log[n].records + records, torn := log[n].torn + torn)]
  }

  function LogRetained<R>(log: Log<R>, stale: set<nat>): Log<R> {
    if |log| <= 1 then log
    else (if log[0].number in stale then [] else [log[0]]) + LogRetained(log[1..], stale)
  }

  function LogTrimmed<R(!new)>(c: Codec<R>, log: Log<R>, maxBytes: int): Log<R>
    decreases |log|
  {
    if |log| <= 1 || TotalBytes(RenderAll(c, log)) <= maxBytes then log else LogTrimmed(c, log[1..], maxBytes)
  }

  function LogKept<R(!new)>(c: Codec<R>, log: Log<R>): Log<R> {
    if log == [] then []
    else LogKept(c, log[..|log| - 1]) + if c.AllOk(log[|log| - 1].records) then [log[|log| - 1]] else []
  }

  datatype State<R> = State(log: Log<R>, up: bool)

  /** What an operation means for the log: records are appended whole or not at all, segments vanish whole. */
  function LogStep<R(!new)>(c: Codec<R>, l: Limits, s: State<R>, op: Op<R>): State<R> {
    match op
    case Append(r, stale) =>
      if !s.up || s.log == [] || |c.Line(r)| > l.segmentBytes then s
      else
        var room := LogRoom(c, s.log, |c.Line(r)|, l.segmentBytes);
        State(LogTrimmed(c, LogRetained(LogWritten(room, [r], []), stale), l.maxBytes), true)
    case Crash(r, k, gone) =>
      if !s.up || s.log == [] || |c.Line(r)| > l.segmentBytes then s
      else
        var room := LogRoom(c, s.log, |c.Line(r)|, l.segmentBytes);
        if k < |c.Line(r)| then State(LogWritten(room, [], c.Line(r)[..k]), false)
        else State(LogRetained(LogWritten(room, [r], []), gone), false)
    case Stop => s.(up := false)
    case Restart(stale) =>
      var number := if s.log == [] then 1 else s.log[|s.log| - 1].number + 1;
      State(LogTrimmed(c, LogRetained(LogKept(c, s.log) + [Chapter(number, [], [])], stale), l.maxBytes), true)
  }

  function RunLog<R(!new)>(c: Codec<R>, l: Limits, ops: seq<Op<R>>): State<R>
    decreases |ops|
  {
    if ops == [] then State([], false) else LogStep(c, l, RunLog(c, l, ops[..|ops| - 1]), ops[|ops| - 1])
  }
}
