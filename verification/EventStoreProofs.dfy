/** The directory of the event store is, on every run with crashes, the rendering of a log of whole
    records; recovery reads that log back.
  */
module EventStoreProofs {
  import opened Wrappers
  import opened EventLog
  import opened EventStoreModel

  function LastNumber<R>(log: Log<R>): nat {
    if log == [] then 0 else log[|log| - 1].number
  }

  /** Segments ascend; torn tails contain no line end, and the open segment has none. */
  ghost predicate WellFormed<R>(s: State<R>) {
    && (forall i, j :: 0 <= i < j < |s.log| ==> s.log[i].number < s.log[j].number)
    && (forall i :: 0 <= i < |s.log| ==> s.log[i].number >= 1 && IsTorn(s.log[i].torn))
    && (s.up ==> s.log != [] && s.log[|s.log| - 1].torn == [])
  }

  // ---------- rendering commutes with every operation ----------

  lemma RenderIsUnique<R(!new)>(c: Codec<R>, log: Log<R>, files: Files)
    requires |files| == |log| && forall i :: 0 <= i < |log| ==> files[i] == Render(c, log[i])
    ensures RenderAll(c, log) == files
  {
    hide Render;
    assert forall i :: 0 <= i < |log| ==> RenderAll(c, log)[i] == files[i];
  }

  lemma RenderTail<R(!new)>(c: Codec<R>, log: Log<R>)
    requires log != []
    ensures RenderAll(c, log)[1..] == RenderAll(c, log[1..])
  {
    hide Render;
    RenderIsUnique(c, log[1..], RenderAll(c, log)[1..]);
  }

  lemma RenderSplit<R(!new)>(c: Codec<R>, log: Log<R>)
    requires log != []
    ensures RenderAll(c, log) == RenderAll(c, log[..|log| - 1]) + [Render(c, log[|log| - 1])]
  {
    hide Render;
  }

  lemma RenderOpened<R(!new)>(c: Codec<R>, log: Log<R>, number: nat)
    ensures RenderAll(c, log + [Chapter(number, [], [])]) == Opened(RenderAll(c, log), number)
  {
    var longer := log + [Chapter(number, [], [])];
    RenderSplit(c, longer);
    assert longer[..|log|] == log;
    var blank: Chapter<R> := Chapter(number, [], []);
    assert Render(c, blank) == Segment(number, []);
  }

  lemma RenderRoom<R(!new)>(c: Codec<R>, log: Log<R>, size: nat, segmentBytes: int)
    requires log != []
    ensures RenderAll(c, LogRoom(c, log, size, segmentBytes)) == RoomFor(RenderAll(c, log), size, segmentBytes)
  {
    RenderOpened(c, log, log[|log| - 1].number + 1);
  }

  lemma LinesAppend<R(!new)>(c: Codec<R>, a: seq<R>, b: seq<R>)
    requires |b| <= 1
    ensures c.Lines(a + b) == c.Lines(a) + c.Lines(b)
  {
    if |b| == 1 {
      assert (a + b)[..|a|] == a && b[..0] == [];
      assert c.Lines(b) == c.Line(b[0]);
    } else {
      assert a + b == a;
    }
  }

  lemma RenderMore<R(!new)>(c: Codec<R>, ch: Chapter<R>, records: seq<R>, torn: bytes, chunk: bytes)
    requires ch.torn == [] && chunk == c.Lines(records) + torn && |records| <= 1
    ensures Render(c, ch.(records := ch.records + records, torn := ch.torn + torn))
        == Segment(ch.number, Render(c, ch).data + chunk)
  {
    hide Codec.Lines;
    LinesAppend(c, ch.records, records);
    BytesAssociate(c.Lines(ch.records), c.Lines(records), torn);
  }

  lemma BytesAssociate(a: bytes, b: bytes, t: bytes)
    ensures a + b + ([] + t) == a + [] + (b + t)
  {}

  lemma RenderWritten<R(!new)>(c: Codec<R>, log: Log<R>, records: seq<R>, torn: bytes, chunk: bytes)
    requires log != [] && log[|log| - 1].torn == []
    requires chunk == c.Lines(records) + torn && |records| <= 1
    ensures RenderAll(c, LogWritten(log, records, torn)) == Written(RenderAll(c, log), chunk)
  {
    hide Render;
    var n := |log| - 1;
    var after := LogWritten(log, records, torn);
    RenderMore(c, log[n], records, torn, chunk);
    RenderSplit(c, log);
    RenderSplit(c, after);
    assert after[..n] == log[..n];
    assert Render(c, log[n]).number == log[n].number by { RenderNumber(c, log[n]); }
  }

  lemma RenderNumber<R(!new)>(c: Codec<R>, ch: Chapter<R>)
    ensures Render(c, ch).number == ch.number
  {}

  lemma {:induction false} RenderRetained<R(!new)>(c: Codec<R>, log: Log<R>, stale: set<nat>)
    ensures RenderAll(c, LogRetained(log, stale)) == Retained(RenderAll(c, log), stale)
    decreases |log|
  {
    if |log| > 1 {
      assert RenderAll(c, log)[0].number == log[0].number;
      RenderTail(c, log);
      RenderRetained(c, log[1..], stale);
      if log[0].number !in stale {
        var rest := LogRetained(log[1..], stale);
        hide Render;
        RenderIsUnique(c, [log[0]] + rest, [RenderAll(c, log)[0]] + RenderAll(c, rest));
      }
    }
  }

  lemma {:induction false} RenderTrimmed<R(!new)>(c: Codec<R>, log: Log<R>, maxBytes: int)
    ensures RenderAll(c, LogTrimmed(c, log, maxBytes)) == Trimmed(RenderAll(c, log), maxBytes)
    decreases |log|
  {
    hide Render, TotalBytes;
    if |log| > 1 && TotalBytes(RenderAll(c, log)) > maxBytes {
      RenderTail(c, log);
      RenderTrimmed(c, log[1..], maxBytes);
    }
  }

  lemma RenderReadable<R(!new)>(c: Codec<R>, ch: Chapter<R>)
    requires c.Lawful() && IsTorn(ch.torn)
    ensures ReadLines(c, SplitLines(Render(c, ch).data)) == if c.AllOk(ch.records) then Some(ch.records) else None
  {
    ReadBack(c, ch.records, ch.torn);
  }

  lemma {:induction false} RenderKept<R(!new)>(c: Codec<R>, log: Log<R>)
    requires c.Lawful() && forall i :: 0 <= i < |log| ==> IsTorn(log[i].torn)
    ensures RenderAll(c, LogKept(c, log)) == Kept(c, RenderAll(c, log))
    ensures Recovered(c, RenderAll(c, log)) == Records(LogKept(c, log))
    decreases |log|
  {
    hide Render, ReadLines, SplitLines, IsTorn;
    if log != [] {
      var n := |log| - 1;
      var front, ch := log[..n], log[n];
      RenderSplit(c, log);
      RenderReadable(c, ch);
      RenderKept(c, front);
      assert RenderAll(c, log)[..n] == RenderAll(c, front);
      var kept := LogKept(c, front);
      if c.AllOk(ch.records) {
        RenderSplit(c, kept + [ch]);
        assert (kept + [ch])[..|kept|] == kept;
      } else {
        assert kept + [] == kept;
        assert Kept(c, RenderAll(c, front)) + [] == Kept(c, RenderAll(c, front));
      }
    }
  }

  // ---------- how the log evolves ----------

  /** Surviving segments keep their records, at most adding some; new segments get numbers never used before. */
  ghost predicate Evolves<R>(a: Log<R>, b: Log<R>) {
    && LastNumber(a) <= LastNumber(b)
    && forall j :: 0 <= j < |b| ==> b[j].number > LastNumber(a) || ContinuesSome(a, b[j])
  }

  ghost predicate ContinuesSome<R>(a: Log<R>, ch: Chapter<R>) {
    exists i :: 0 <= i < |a| && a[i].number == ch.number && a[i].records <= ch.records
  }

  /** b is obtained from a by dropping chapters, the last one excepted. */
  ghost predicate DropsSome<R>(a: Log<R>, b: Log<R>) {
    && |b| <= |a| && (a != [] ==> b != [] && b[|b| - 1] == a[|a| - 1])
    && (forall j :: 0 <= j < |b| ==> b[j] in a)
    && (WellNumbered(a) ==> WellNumbered(b))
  }

  ghost predicate WellNumbered<R>(a: Log<R>) {
    forall i, j :: 0 <= i < j < |a| ==> a[i].number < a[j].number
  }

  lemma PrependDrops<R>(log: Log<R>, rest: Log<R>, keep: bool)
    requires |log| > 1 && DropsSome(log[1..], rest)
    ensures DropsSome(log, (if keep then [log[0]] else []) + rest)
  {
    var all := (if keep then [log[0]] else []) + rest;
    assert WellNumbered(log) ==> WellNumbered(log[1..]);
    assert forall j :: 0 <= j < |rest| ==> rest[j] in log[1..];
    assert forall j :: 0 <= j < |all| ==> all[j] == log[0] || all[j] in rest;
  }

  lemma {:induction false} RetainedDrops<R>(log: Log<R>, stale: set<nat>)
    ensures DropsSome(log, LogRetained(log, stale))
    decreases |log|
  {
    if |log| > 1 {
      hide DropsSome;
      RetainedDrops(log[1..], stale);
      PrependDrops(log, LogRetained(log[1..], stale), log[0].number !in stale);
    }
  }

  lemma {:induction false} TrimmedDrops<R(!new)>(c: Codec<R>, log: Log<R>, maxBytes: int)
    ensures DropsSome(log, LogTrimmed(c, log, maxBytes))
    decreases |log|
  {
    hide RenderAll, TotalBytes;
    if |log| > 1 && TotalBytes(RenderAll(c, log)) > maxBytes {
      TrimmedDrops(c, log[1..], maxBytes);
    }
  }

  lemma DropsTwice<R>(a: Log<R>, b: Log<R>, d: Log<R>)
    requires DropsSome(a, b) && DropsSome(b, d)
    ensures DropsSome(a, d)
  {}

  lemma EnforcedDrops<R(!new)>(c: Codec<R>, log: Log<R>, stale: set<nat>, maxBytes: int)
    ensures DropsSome(log, LogTrimmed(c, LogRetained(log, stale), maxBytes))
  {
    hide DropsSome, LogRetained, LogTrimmed;
    RetainedDrops(log, stale);
    TrimmedDrops(c, LogRetained(log, stale), maxBytes);
    DropsTwice(log, LogRetained(log, stale), LogTrimmed(c, LogRetained(log, stale), maxBytes));
  }

  lemma {:induction false} KeptIsSubset<R(!new)>(c: Codec<R>, log: Log<R>)
    ensures forall j :: 0 <= j < |LogKept(c, log)| ==> LogKept(c, log)[j] in log && c.AllOk(LogKept(c, log)[j].records)
    ensures |LogKept(c, log)| <= |log|
    decreases |log|
  {
    hide Codec.AllOk;
    if log != [] {
      var n := |log| - 1;
      KeptIsSubset(c, log[..n]);
      var kept := LogKept(c, log[..n]);
      assert forall j :: 0 <= j < |kept| ==> kept[j] in log[..n];
      assert log == log[..n] + [log[n]];
    }
  }

  lemma {:induction false} KeptIsNumbered<R(!new)>(c: Codec<R>, log: Log<R>)
    requires WellNumbered(log)
    ensures WellNumbered(LogKept(c, log))
    decreases |log|
  {
    hide Codec.AllOk;
    if log != [] {
      var n := |log| - 1;
      KeptIsNumbered(c, log[..n]);
      KeptIsSubset(c, log[..n]);
      var kept := LogKept(c, log[..n]);
      assert forall j :: 0 <= j < |kept| ==> kept[j] in log[..n];
    }
  }

  lemma {:induction false} AllOkKeepsAll<R(!new)>(c: Codec<R>, log: Log<R>)
    requires forall i :: 0 <= i < |log| ==> c.AllOk(log[i].records)
    ensures LogKept(c, log) == log
    decreases |log|
  {
    hide Codec.AllOk;
    if log != [] {
      var n := |log| - 1;
      var front := log[..n];
      assert c.AllOk(log[n].records) && log == front + [log[n]];
      AllOkKeepsAll(c, front);
    }
  }

  /** Recovery sets nothing aside exactly when every record on disk carries the accepted schema. */
  lemma KeptIsAll<R(!new)>(c: Codec<R>, log: Log<R>)
    ensures LogKept(c, log) == log <==> forall i :: 0 <= i < |log| ==> c.AllOk(log[i].records)
  {
    hide Codec.AllOk;
    KeptIsSubset(c, log);
    if forall i :: 0 <= i < |log| ==> c.AllOk(log[i].records) {
      AllOkKeepsAll(c, log);
    }
  }

  // ---------- one operation ----------

  ghost predicate Stands<R(!new)>(c: Codec<R>, d: Disk, s: State<R>) {
    d == Disk(RenderAll(c, s.log), s.up)
  }

  lemma RenderLast<R(!new)>(c: Codec<R>, log: Log<R>)
    ensures NextSequence(RenderAll(c, log)) == LastNumber(log) + 1
  {}

  lemma RoomKeepsShape<R(!new)>(c: Codec<R>, s: State<R>, size: nat, segmentBytes: int)
    requires WellFormed(s) && s.up
    ensures WellFormed(State(LogRoom(c, s.log, size, segmentBytes), true))
  {
    hide Render;
    assert IsTorn([]);
  }

  lemma DropsKeepShape<R>(a: Log<R>, b: Log<R>, up: bool)
    requires WellFormed(State(a, up)) && DropsSome(a, b)
    ensures WellFormed(State(b, up))
  {
    hide IsTorn;
    assert WellNumbered(a);
  }

  lemma WrittenKeepsShape<R>(log: Log<R>, records: seq<R>, torn: bytes, up: bool)
    requires WellFormed(State(log, true)) && IsTorn(torn) && (up ==> torn == [])
    ensures WellFormed(State(LogWritten(log, records, torn), up))
  {
    assert [] + torn == torn;
    hide IsTorn;
  }

  lemma TornPrefix<R(!new)>(c: Codec<R>, r: R, k: nat)
    requires c.Lawful() && k < |c.Line(r)|
    ensures IsTorn(c.Line(r)[..k])
  {
    assert c.Line(r)[..k] == c.encode(r)[..k];
  }

  lemma OneLine<R(!new)>(c: Codec<R>, r: R)
    ensures c.Lines([r]) == c.Line(r) == c.Lines([r]) + [] && c.Lines([]) == []
  {
    assert [r][..0] == [];
  }

  lemma AppendRefines<R(!new)>(c: Codec<R>, l: Limits, s: State<R>, r: R, stale: set<nat>)
    requires WellFormed(s) && s.up && |c.Line(r)| <= l.segmentBytes
    ensures Stands(c, Step(c, l, Disk(RenderAll(c, s.log), true), Append(r, stale)), LogStep(c, l, s, Append(r, stale)))
    ensures WellFormed(LogStep(c, l, s, Append(r, stale)))
  {
    hide WellFormed, Render, Written, LogWritten, RoomFor, LogRoom, Retained, LogRetained, Trimmed, LogTrimmed;
    UpIsOpen(s);
    var size := |c.Line(r)|;
    var room := LogRoom(c, s.log, size, l.segmentBytes);
    RenderRoom(c, s.log, size, l.segmentBytes);
    RoomKeepsShape(c, s, size, l.segmentBytes);
    UpIsOpen(State(room, true));
    OneLine(c, r);
    RenderWritten(c, room, [r], [], c.Line(r));
    TornNothing();
    WrittenKeepsShape(room, [r], [], true);
    var written := LogWritten(room, [r], []);
    RenderRetained(c, written, stale);
    RenderTrimmed(c, LogRetained(written, stale), l.maxBytes);
    EnforcedDrops(c, written, stale, l.maxBytes);
    DropsKeepShape(written, LogTrimmed(c, LogRetained(written, stale), l.maxBytes), true);
  }

  lemma TornNothing()
    ensures IsTorn([])
  {}

  lemma UpIsOpen<R>(s: State<R>)
    requires WellFormed(s) && s.up
    ensures s.log != [] && s.log[|s.log| - 1].torn == []
  {}

  lemma CrashRefines<R(!new)>(c: Codec<R>, l: Limits, s: State<R>, r: R, k: nat, gone: set<nat>)
    requires c.Lawful() && WellFormed(s) && s.up && |c.Line(r)| <= l.segmentBytes
    ensures Stands(c, Step(c, l, Disk(RenderAll(c, s.log), true), Crash(r, k, gone)),
                   LogStep(c, l, s, Crash(r, k, gone)))
    ensures WellFormed(LogStep(c, l, s, Crash(r, k, gone)))
  {
    hide WellFormed, Render, Written, LogWritten, RoomFor, LogRoom, Retained, LogRetained, Codec.Lawful;
    UpIsOpen(s);
    var size := |c.Line(r)|;
    var room := LogRoom(c, s.log, size, l.segmentBytes);
    RenderRoom(c, s.log, size, l.segmentBytes);
    RoomKeepsShape(c, s, size, l.segmentBytes);
    UpIsOpen(State(room, true));
    OneLine(c, r);
    TornNothing();
    if k < size {
      var torn := c.Line(r)[..k];
      TornPrefix(c, r, k);
      assert c.Lines([]) + torn == torn;
      RenderWritten(c, room, [], torn, torn);
      WrittenKeepsShape(room, [], torn, false);
    } else {
      RenderWritten(c, room, [r], [], c.Line(r));
      WrittenKeepsShape(room, [r], [], false);
      var written := LogWritten(room, [r], []);
      RenderRetained(c, written, gone);
      RetainedDrops(written, gone);
      DropsKeepShape(written, LogRetained(written, gone), false);
    }
  }

  /** What restarting leaves: the readable segments and, after them, a fresh one. */
  function Reopened<R(!new)>(c: Codec<R>, log: Log<R>): Log<R> {
    LogKept(c, log) + [Chapter(LastNumber(log) + 1, [], [])]
  }

  lemma ReopenedShape<R(!new)>(c: Codec<R>, log: Log<R>, up: bool)
    requires WellFormed(State(log, up))
    ensures WellFormed(State(Reopened(c, log), true))
  {
    hide IsTorn, Codec.AllOk;
    TornNothing();
    assert WellNumbered(log);
    KeptIsSubset(c, log);
    KeptIsNumbered(c, log);
    var kept := LogKept(c, log);
    assert forall j :: 0 <= j < |kept| ==> kept[j] in log && kept[j].number <= LastNumber(log);
  }

  lemma RenderReopened<R(!new)>(c: Codec<R>, s: State<R>)
    requires c.Lawful() && WellFormed(s)
    ensures RenderAll(c, Reopened(c, s.log)) == Opened(Kept(c, RenderAll(c, s.log)), NextSequence(RenderAll(c, s.log)))
  {
    hide WellFormed, Render, Kept, LogKept, Codec.Lawful, IsTorn;
    AllTorn(s);
    RenderLast(c, s.log);
    RenderKept(c, s.log);
    RenderOpened(c, LogKept(c, s.log), LastNumber(s.log) + 1);
  }

  lemma RestartNumber<R>(log: Log<R>)
    ensures (if log == [] then 1 else log[|log| - 1].number + 1) == LastNumber(log) + 1
  {}

  lemma RestartRefines<R(!new)>(c: Codec<R>, l: Limits, s: State<R>, stale: set<nat>)
    requires c.Lawful() && WellFormed(s)
    ensures Stands(c, Step(c, l, Disk(RenderAll(c, s.log), s.up), Restart(stale)), LogStep(c, l, s, Restart(stale)))
    ensures WellFormed(LogStep(c, l, s, Restart(stale)))
  {
    hide WellFormed, Render, Retained, LogRetained, Trimmed, LogTrimmed, Kept, LogKept, Opened, NextSequence,
        RenderAll, Codec.Lawful;
    RenderReopened(c, s);
    RestartNumber(s.log);
    var log := Reopened(c, s.log);
    ReopenedShape(c, s.log, s.up);
    RenderRetained(c, log, stale);
    RenderTrimmed(c, LogRetained(log, stale), l.maxBytes);
    EnforcedDrops(c, log, stale, l.maxBytes);
    DropsKeepShape(log, LogTrimmed(c, LogRetained(log, stale), l.maxBytes), true);
  }

  lemma AllTorn<R>(s: State<R>)
    requires WellFormed(s)
    ensures forall i :: 0 <= i < |s.log| ==> IsTorn(s.log[i].torn)
  {}

  lemma StopKeepsShape<R>(s: State<R>)
    requires WellFormed(s)
    ensures WellFormed(s.(up := false))
  {}

  lemma StepRefines<R(!new)>(c: Codec<R>, l: Limits, d: Disk, s: State<R>, op: Op<R>)
    requires c.Lawful() && WellFormed(s) && Stands(c, d, s)
    ensures Stands(c, Step(c, l, d, op), LogStep(c, l, s, op)) && WellFormed(LogStep(c, l, s, op))
  {
    hide WellFormed, Codec.Lawful;
    match op
    case Append(r, stale) => if s.up && |c.Line(r)| <= l.segmentBytes { AppendRefines(c, l, s, r, stale); }
    case Crash(r, k, gone) => if s.up && |c.Line(r)| <= l.segmentBytes { CrashRefines(c, l, s, r, k, gone); }
    case Stop => StopKeepsShape(s);
    case Restart(stale) => RestartRefines(c, l, s, stale);
  }

  /** Main result: on every run of appends, rotations, removals, crashes and restarts the directory is the
      rendering of the log of whole records that the same run builds.
    */
  lemma {:induction false} DirectoryRefinesLog<R(!new)>(c: Codec<R>, l: Limits, ops: seq<Op<R>>)
    requires c.Lawful()
    ensures Stands(c, RunDisk(c, l, ops), RunLog(c, l, ops)) && WellFormed(RunLog(c, l, ops))
    decreases |ops|
  {
    hide Step, LogStep, Codec.Lawful;
    if ops != [] {
      var n := |ops| - 1;
      DirectoryRefinesLog(c, l, ops[..n]);
      hide WellFormed, Stands;
      StepRefines(c, l, RunDisk(c, l, ops[..n]), RunLog(c, l, ops[..n]), ops[n]);
    }
  }

  /** Main result: after any run recovery returns, in order, exactly the whole records of the readable
      surviving segments, and it sets no segment aside exactly when every record on disk has the
      accepted schema: torn tails never cost a segment.
    */
  lemma RecoveryIsExact<R(!new)>(c: Codec<R>, l: Limits, ops: seq<Op<R>>)
    requires c.Lawful()
    ensures Recovered(c, RunDisk(c, l, ops).files) == Records(LogKept(c, RunLog(c, l, ops).log))
    ensures Kept(c, RunDisk(c, l, ops).files) == RunDisk(c, l, ops).files
            <==> forall i :: 0 <= i < |RunLog(c, l, ops).log| ==> c.AllOk(RunLog(c, l, ops).log[i].records)
  {
    hide RunDisk, RunLog, Codec.Lawful, Codec.AllOk, IsTorn, Render;
    var log := RunLog(c, l, ops).log;
    DirectoryRefinesLog(c, l, ops);
    AllTorn(RunLog(c, l, ops));
    RenderKept(c, log);
    KeptIsSubset(c, log);
    KeptIsAll(c, log);
    assert Kept(c, RenderAll(c, log)) == RenderAll(c, LogKept(c, log));
    if |LogKept(c, log)| < |log| {
      assert |RenderAll(c, LogKept(c, log))| < |RenderAll(c, log)|;
    } else {
      KeptOfSameLength(c, log);
    }
  }

  /** Each segment is either kept or refused, and refused exactly when it cannot be read. */
  ghost predicate Partition<R(!new)>(c: Codec<R>, kept: Files, refused: Files, files: Files) {
    && multiset(kept) + multiset(refused) == multiset(files)
    && (forall s :: s in kept <==> s in files && Readable(c, s))
    && (forall s :: s in refused <==> s in files && !Readable(c, s))
  }

  lemma PartitionGrows<R(!new)>(c: Codec<R>, kept: Files, refused: Files, files: Files, s: Segment)
    requires Partition(c, kept, refused, files)
    ensures Readable(c, s) ==> Partition(c, kept + [s], refused, files + [s])
    ensures !Readable(c, s) ==> Partition(c, kept, refused + [s], files + [s])
  {
    hide Readable;
    assert multiset(kept + [s]) == multiset(kept) + multiset{s};
    assert multiset(refused + [s]) == multiset(refused) + multiset{s};
    assert multiset(files + [s]) == multiset(files) + multiset{s};
  }

  lemma NothingToPartition<R(!new)>(c: Codec<R>)
    ensures Partition(c, Kept(c, []), Refused(c, []), [])
  {
    hide Readable;
  }

  /** Main result: recovery deletes nothing: each segment is either kept or set aside, and set aside exactly when it
      cannot be read.
    */
  lemma {:induction false} RecoveryLosesNothing<R(!new)>(c: Codec<R>, files: Files)
    ensures Partition(c, Kept(c, files), Refused(c, files), files)
    decreases |files|
  {
    hide Readable, Kept, Refused, Partition;
    if files == [] {
      NothingToPartition(c);
    } else {
      var n := |files| - 1;
      RecoveryLosesNothing(c, files[..n]);
      NextKept(c, files);
      PartitionGrows(c, Kept(c, files[..n]), Refused(c, files[..n]), files[..n], files[n]);
      assert files == files[..n] + [files[n]];
    }
  }

  lemma NextKept<R(!new)>(c: Codec<R>, files: Files)
    requires files != []
    ensures
      var n := |files| - 1;
      if Readable(c, files[n]) then
        Kept(c, files) == Kept(c, files[..n]) + [files[n]] && Refused(c, files) == Refused(c, files[..n])
      else
        Kept(c, files) == Kept(c, files[..n]) && Refused(c, files) == Refused(c, files[..n]) + [files[n]]
  {
    hide Readable;
    var n := |files| - 1;
    assert Kept(c, files[..n]) + [] == Kept(c, files[..n]) && Refused(c, files[..n]) + [] == Refused(c, files[..n]);
  }

  lemma {:induction false} KeptOfSameLength<R(!new)>(c: Codec<R>, log: Log<R>)
    requires |LogKept(c, log)| == |log|
    ensures LogKept(c, log) == log
    decreases |log|
  {
    hide Codec.AllOk;
    if log != [] {
      var n := |log| - 1;
      KeptIsSubset(c, log[..n]);
      KeptOfSameLength(c, log[..n]);
      assert log == log[..n] + [log[n]];
    }
  }

  // ---------- permanence ----------

  lemma EvolvesSelf<R>(a: Log<R>)
    ensures Evolves(a, a)
  {
    forall j | 0 <= j < |a| ensures ContinuesSome(a, a[j]) {
      assert a[j].records <= a[j].records;
    }
  }

  /** Dropping and extending chapters is evolution as long as the last number does not go back. */
  lemma EvolvesBy<R>(a: Log<R>, b: Log<R>)
    requires LastNumber(a) <= LastNumber(b)
    requires forall j :: 0 <= j < |b| ==>
               (b[j] in a || b[j].number > LastNumber(a)
                || (a != [] && b[j].number == LastNumber(a) && a[|a| - 1].records <= b[j].records))
    ensures Evolves(a, b)
  {
    forall j | 0 <= j < |b| && b[j].number <= LastNumber(a)
      ensures ContinuesSome(a, b[j])
    {
      if b[j] in a {
        var i :| 0 <= i < |a| && a[i] == b[j];
        assert a[i].records <= b[j].records;
      } else {
        assert a[|a| - 1].number == b[j].number;
      }
    }
  }

  lemma EvolvesTwice<R>(a: Log<R>, b: Log<R>, d: Log<R>)
    requires Evolves(a, b) && Evolves(b, d)
    ensures Evolves(a, d)
  {
    forall j | 0 <= j < |d| && d[j].number <= LastNumber(a)
      ensures ContinuesSome(a, d[j])
    {
      assert ContinuesSome(b, d[j]);
      var i :| 0 <= i < |b| && b[i].number == d[j].number && b[i].records <= d[j].records;
      assert ContinuesSome(a, b[i]);
      var h :| 0 <= h < |a| && a[h].number == b[i].number && a[h].records <= b[i].records;
      assert a[h].records <= d[j].records;
    }
  }

  lemma DropsEvolve<R>(a: Log<R>, b: Log<R>)
    requires DropsSome(a, b)
    ensures Evolves(a, b)
  {
    EvolvesBy(a, b);
  }

  lemma WrittenEvolves<R(!new)>(c: Codec<R>, log: Log<R>, size: nat, segmentBytes: int, records: seq<R>, torn: bytes)
    requires log != []
    ensures Evolves(log, LogWritten(LogRoom(c, log, size, segmentBytes), records, torn))
  {
    hide Render;
    var room := LogRoom(c, log, size, segmentBytes);
    var after := LogWritten(room, records, torn);
    assert forall j :: 0 <= j < |after| - 1 ==> after[j] == room[j];
    assert room == log || room[..|log|] == log;
    EvolvesBy(log, after);
  }

  lemma ReopenedEvolves<R(!new)>(c: Codec<R>, log: Log<R>)
    ensures Evolves(log, Reopened(c, log))
  {
    hide Codec.AllOk;
    KeptIsSubset(c, log);
    EvolvesBy(log, Reopened(c, log));
  }

  lemma StepEvolves<R(!new)>(c: Codec<R>, l: Limits, s: State<R>, op: Op<R>)
    ensures Evolves(s.log, LogStep(c, l, s, op).log)
  {
    hide Evolves, DropsSome, LogWritten, LogRoom, LogRetained, LogTrimmed, LogKept;
    EvolvesSelf(s.log);
    match op
    case Append(r, stale) =>
      if s.up && s.log != [] && |c.Line(r)| <= l.segmentBytes {
        var written := LogWritten(LogRoom(c, s.log, |c.Line(r)|, l.segmentBytes), [r], []);
        WrittenEvolves(c, s.log, |c.Line(r)|, l.segmentBytes, [r], []);
        EnforcedDrops(c, written, stale, l.maxBytes);
        DropsEvolve(written, LogTrimmed(c, LogRetained(written, stale), l.maxBytes));
        EvolvesTwice(s.log, written, LogTrimmed(c, LogRetained(written, stale), l.maxBytes));
      }
    case Crash(r, k, gone) =>
      if s.up && s.log != [] && |c.Line(r)| <= l.segmentBytes {
        if k < |c.Line(r)| {
          WrittenEvolves(c, s.log, |c.Line(r)|, l.segmentBytes, [], c.Line(r)[..k]);
        } else {
          var written := LogWritten(LogRoom(c, s.log, |c.Line(r)|, l.segmentBytes), [r], []);
          WrittenEvolves(c, s.log, |c.Line(r)|, l.segmentBytes, [r], []);
          RetainedDrops(written, gone);
          DropsEvolve(written, LogRetained(written, gone));
          EvolvesTwice(s.log, written, LogRetained(written, gone));
        }
      }
    case Stop =>
    case Restart(stale) =>
      RestartNumber(s.log);
      var log := Reopened(c, s.log);
      ReopenedEvolves(c, s.log);
      EnforcedDrops(c, log, stale, l.maxBytes);
      DropsEvolve(log, LogTrimmed(c, LogRetained(log, stale), l.maxBytes));
      EvolvesTwice(s.log, log, LogTrimmed(c, LogRetained(log, stale), l.maxBytes));
  }

  lemma {:induction false} RunEvolves<R(!new)>(c: Codec<R>, l: Limits, before: seq<Op<R>>, later: seq<Op<R>>)
    ensures Evolves(RunLog(c, l, before).log, RunLog(c, l, before + later).log)
    decreases |later|
  {
    hide Evolves, LogStep;
    if later == [] {
      assert before + later == before;
      EvolvesSelf(RunLog(c, l, before).log);
    } else {
      var n := |later| - 1;
      assert (before + later)[..|before + later| - 1] == before + later[..n];
      RunEvolves(c, l, before, later[..n]);
      StepEvolves(c, l, RunLog(c, l, before + later[..n]), later[n]);
      EvolvesTwice(RunLog(c, l, before).log, RunLog(c, l, before + later[..n]).log, RunLog(c, l, before + later).log);
    }
  }

  /** The record is the i-th of the segment with this number, if that segment still exists. */
  ghost predicate StillThere<R>(log: Log<R>, number: nat, i: nat, r: R) {
    forall j :: 0 <= j < |log| && log[j].number == number ==> i < |log[j].records| && log[j].records[i] == r
  }

  /** The last record written is r, and a later log has it where it was. */
  ghost predicate KeepsLast<R>(log: Log<R>, later: Log<R>, r: R) {
    && log != []
    && var last := log[|log| - 1];
       last.records != [] && last.records[|last.records| - 1] == r
       && StillThere(later, last.number, |last.records| - 1, r)
  }

  /** Main result: a record whose append returned keeps its place, through any later appends, crashes and
      restarts, for as long as its segment exists.
    */
  lemma AppendedRecordIsPermanent<R(!new)>(c: Codec<R>, l: Limits, before: seq<Op<R>>, r: R, stale: set<nat>,
                                           later: seq<Op<R>>)
    requires c.Lawful() && RunLog(c, l, before).up && |c.Line(r)| <= l.segmentBytes
    ensures
      var ops := before + [Append(r, stale)];
      KeepsLast(RunLog(c, l, ops).log, RunLog(c, l, ops + later).log, r)
  {
    hide WellFormed, Evolves, LogStep, Codec.Lawful, RunLog, StillThere;
    var ops := before + [Append(r, stale)];
    DirectoryRefinesLog(c, l, before);
    DirectoryRefinesLog(c, l, ops);
    RunLogSnoc(c, l, before, Append(r, stale));
    AppendEndsWith(c, l, RunLog(c, l, before), r, stale);
    RunEvolves(c, l, ops, later);
    EvolvedKeepsRecord(RunLog(c, l, ops), RunLog(c, l, ops + later).log);
  }

  lemma RunLogSnoc<R(!new)>(c: Codec<R>, l: Limits, before: seq<Op<R>>, op: Op<R>)
    ensures RunLog(c, l, before + [op]) == LogStep(c, l, RunLog(c, l, before), op)
  {
    hide LogStep;
    assert (before + [op])[..|before|] == before;
  }

  lemma AppendEndsWith<R(!new)>(c: Codec<R>, l: Limits, s: State<R>, r: R, stale: set<nat>)
    requires WellFormed(s) && s.up && |c.Line(r)| <= l.segmentBytes
    ensures
      var log := LogStep(c, l, s, Append(r, stale)).log;
      log != [] && log[|log| - 1].records != [] && log[|log| - 1].records[|log[|log| - 1].records| - 1] == r
  {
    UpIsOpen(s);
    hide WellFormed, LogRoom, LogRetained, LogTrimmed;
    var written := LogWritten(LogRoom(c, s.log, |c.Line(r)|, l.segmentBytes), [r], []);
    EnforcedDrops(c, written, stale, l.maxBytes);
  }

  lemma EvolvedKeepsRecord<R>(s: State<R>, later: Log<R>)
    requires WellFormed(s) && s.log != [] && s.log[|s.log| - 1].records != [] && Evolves(s.log, later)
    ensures
      var last := s.log[|s.log| - 1];
      StillThere(later, last.number, |last.records| - 1, last.records[|last.records| - 1])
  {
    var last := s.log[|s.log| - 1];
    forall j | 0 <= j < |later| && later[j].number == last.number
      ensures last.records <= later[j].records
    {
      assert ContinuesSome(s.log, later[j]);
      var i :| 0 <= i < |s.log| && s.log[i].number == later[j].number && s.log[i].records <= later[j].records;
      assert i == |s.log| - 1;
    }
  }

  // ---------- size bounds ----------

  /** Main result: the size loop removes the oldest closed segments, only as many as needed, never the open one;
      the rest fits exactly when the open segment alone does.
    */
  lemma {:induction false} TrimmedIsMinimal(files: Files, maxBytes: int) returns (dropped: nat)
    requires files != []
    ensures dropped < |files| && Trimmed(files, maxBytes) == files[dropped..]
    ensures dropped > 0 ==> TotalBytes(files[dropped - 1..]) > maxBytes
    ensures TotalBytes(files[dropped..]) <= maxBytes || dropped == |files| - 1
    ensures TotalBytes(Trimmed(files, maxBytes)) <= maxBytes <==> |files[|files| - 1].data| <= maxBytes
    decreases |files|
  {
    hide TotalBytes, Trimmed;
    LastIsPart(files);
    TrimmedUnfolds(files, maxBytes);
    if |files| <= 1 || TotalBytes(files) <= maxBytes {
      dropped := 0;
      assert files[0..] == files;
      if |files| == 1 { SingleTotal(files[0]); assert files == [files[0]]; }
    } else {
      var rest := TrimmedIsMinimal(files[1..], maxBytes);
      dropped := rest + 1;
      SuffixOfTail(files, rest);
      if rest > 0 { SuffixOfTail(files, rest - 1); } else { assert files[0..] == files; }
    }
  }

  lemma TrimmedUnfolds(files: Files, maxBytes: int)
    ensures Trimmed(files, maxBytes)
            == if |files| <= 1 || TotalBytes(files) <= maxBytes then files else Trimmed(files[1..], maxBytes)
  {}

  lemma SuffixOfTail(files: Files, k: nat)
    requires k < |files|
    ensures files[1..][k..] == files[k + 1..]
  {}

  lemma SingleTotal(s: Segment)
    ensures TotalBytes([s]) == |s.data|
  {
    assert [s][..0] == [];
  }

  lemma LastIsPart(files: Files)
    requires files != []
    ensures TotalBytes(files) >= |files[|files| - 1].data|
  {}

  lemma DefaultFits(maxBytes: int)
    ensures DefaultSegmentBytes(maxBytes) <= maxBytes <==> maxBytes >= 64 * 1024
    ensures 64 * 1024 <= DefaultSegmentBytes(maxBytes) <= 8 * MIB
  {}

  /** The directory after a run that found these files. */
  function RunFrom<R(!new)>(c: Codec<R>, l: Limits, start: Files, ops: seq<Op<R>>): Disk
    decreases |ops|
  {
    if ops == [] then Disk(start, false) else Step(c, l, RunFrom(c, l, start, ops[..|ops| - 1]), ops[|ops| - 1])
  }

  /** Segments from `first` on fit the segment size; older ones are as they were found. */
  ghost predicate SegmentsFit(files: Files, start: Files, first: nat, segmentBytes: int) {
    forall i :: 0 <= i < |files| ==>
      if files[i].number >= first then |files[i].data| <= segmentBytes else files[i] in start
  }

  lemma {:induction false} RetainedFits(files: Files, stale: set<nat>, start: Files, first: nat, segmentBytes: int)
    requires SegmentsFit(files, start, first, segmentBytes)
    ensures SegmentsFit(Retained(files, stale), start, first, segmentBytes)
    ensures files != [] ==>
              Retained(files, stale) != [] && Retained(files, stale)[|Retained(files, stale)| - 1] == files[|files| - 1]
    decreases |files|
  {
    if |files| > 1 {
      RetainedFits(files[1..], stale, start, first, segmentBytes);
    }
  }

  lemma {:induction false} KeptFits<R(!new)>(c: Codec<R>, files: Files, start: Files, first: nat, segmentBytes: int)
    requires SegmentsFit(files, start, first, segmentBytes)
    ensures SegmentsFit(Kept(c, files), start, first, segmentBytes)
    decreases |files|
  {
    if files != [] { KeptFits(c, files[..|files| - 1], start, first, segmentBytes); }
  }

  /** What holds between operations; the open segment is always a new one. */
  ghost predicate DiskFits(d: Disk, start: Files, first: nat, l: Limits) {
    && SegmentsFit(d.files, start, first, l.segmentBytes)
    && NextSequence(d.files) >= first
    && (d.up ==> d.files != [] && d.files[|d.files| - 1].number >= first)
    && (d.up && l.segmentBytes <= l.maxBytes ==> TotalBytes(d.files) <= l.maxBytes)
  }

  lemma EnforcedFits(files: Files, stale: set<nat>, start: Files, first: nat, l: Limits)
    requires files != [] && SegmentsFit(files, start, first, l.segmentBytes) && files[|files| - 1].number >= first
    ensures DiskFits(Disk(Enforced(files, stale, l.maxBytes), true), start, first, l)
  {
    hide TotalBytes, Trimmed, Retained;
    RetainedFits(files, stale, start, first, l.segmentBytes);
    var dropped := TrimmedIsMinimal(Retained(files, stale), l.maxBytes);
  }

  lemma WrittenFits(files: Files, chunk: bytes, size: nat, start: Files, first: nat, segmentBytes: int)
    requires files != [] && SegmentsFit(files, start, first, segmentBytes) && files[|files| - 1].number >= first
    requires |chunk| <= size <= segmentBytes
    ensures
      var written := Written(RoomFor(files, size, segmentBytes), chunk);
      written != [] && written[|written| - 1].number >= first && SegmentsFit(written, start, first, segmentBytes)
  {}

  lemma StepFits<R(!new)>(c: Codec<R>, l: Limits, d: Disk, op: Op<R>, start: Files, first: nat)
    requires l.segmentBytes >= 0 && DiskFits(d, start, first, l)
    ensures DiskFits(Step(c, l, d, op), start, first, l)
  {
    hide TotalBytes, Enforced, Written, RoomFor, Retained, Kept;
    match op
    case Append(r, stale) =>
      if d.up && |c.Line(r)| <= l.segmentBytes {
        WrittenFits(d.files, c.Line(r), |c.Line(r)|, start, first, l.segmentBytes);
        EnforcedFits(Written(RoomFor(d.files, |c.Line(r)|, l.segmentBytes), c.Line(r)), stale, start, first, l);
      }
    case Crash(r, k, gone) =>
      if d.up && |c.Line(r)| <= l.segmentBytes {
        var chunk := if k < |c.Line(r)| then c.Line(r)[..k] else c.Line(r);
        WrittenFits(d.files, chunk, |c.Line(r)|, start, first, l.segmentBytes);
        RetainedFits(Written(RoomFor(d.files, |c.Line(r)|, l.segmentBytes), chunk), gone, start, first, l.segmentBytes);
      }
    case Stop =>
    case Restart(stale) =>
      KeptFits(c, d.files, start, first, l.segmentBytes);
      EnforcedFits(Opened(Kept(c, d.files), NextSequence(d.files)), stale, start, first, l);
  }

  lemma {:induction false} RunFits<R(!new)>(c: Codec<R>, l: Limits, start: Files, ops: seq<Op<R>>)
    requires l.segmentBytes >= 0 && AscendingNumbers(start)
    ensures DiskFits(RunFrom(c, l, start, ops), start, NextSequence(start), l)
    decreases |ops|
  {
    hide Step, DiskFits;
    if ops == [] {
      StartFits(start, l);
    } else {
      RunFits(c, l, start, ops[..|ops| - 1]);
      StepFits(c, l, RunFrom(c, l, start, ops[..|ops| - 1]), ops[|ops| - 1], start, NextSequence(start));
    }
  }

  lemma StartFits(start: Files, l: Limits)
    requires AscendingNumbers(start)
    ensures DiskFits(Disk(start, false), start, NextSequence(start), l)
  {
    hide TotalBytes;
  }

  /** Main result: whatever an earlier store left in the directory, with other limits perhaps, on every run the segments
      this one writes never exceed the segment size, all others are as they were found, and once the segment size is
      within the limit every completed append and every restart leaves the directory within it.
    */
  lemma DirectoryIsBounded<R(!new)>(c: Codec<R>, l: Limits, start: Files, ops: seq<Op<R>>)
    requires l.segmentBytes >= 0 && AscendingNumbers(start)
    ensures SegmentsFit(RunFrom(c, l, start, ops).files, start, NextSequence(start), l.segmentBytes)
    ensures l.segmentBytes <= l.maxBytes && RunFrom(c, l, start, ops).up ==>
              TotalBytes(RunFrom(c, l, start, ops).files) <= l.maxBytes
  {
    hide RunFrom, TotalBytes, SegmentsFit;
    RunFits(c, l, start, ops);
  }

  // ---------- what an append, retention and the sizes mean ----------

  /** The bytes of all segments, one after the other. */
  function AllBytes(files: Files): bytes {
    if files == [] then [] else files[0].data + AllBytes(files[1..])
  }

  lemma {:induction false} TotalIsLength(files: Files)
    ensures TotalBytes(files) == |AllBytes(files)|
    decreases |files|
  {
    if files != [] {
      TotalTail(files);
      TotalIsLength(files[1..]);
    }
  }

  /** Main result: retention removes exactly the closed segments that are too old. */
  lemma {:induction false} RetainedExactly(files: Files, stale: set<nat>, s: Segment)
    requires AscendingNumbers(files)
    ensures s in Retained(files, stale)
            <==> s in files && (s.number !in stale || s == files[|files| - 1])
    decreases |files|
  {
    if |files| > 1 {
      var rest := files[1..];
      assert files == [files[0]] + rest;
      RetainedExactly(rest, stale, s);
    }
  }

  /** Main result: a line longer than a segment changes nothing. Any other goes to the end of the open segment when it
      fits there, and otherwise starts the next one; every segment before that is one of those that were there, and all
      of them are while nothing is too old and everything fits.
    */
  lemma AppendPlacesRecord<R(!new)>(c: Codec<R>, l: Limits, files: Files, r: R, stale: set<nat>)
    requires files != []
    ensures
      var after := Step(c, l, Disk(files, true), Append(r, stale)).files;
      var n, line := |files| - 1, c.Line(r);
      var fits := |files[n].data| + |line| <= l.segmentBytes;
      var older := if fits then files[..n] else files;
      var last := if fits then Segment(files[n].number, files[n].data + line) else Segment(files[n].number + 1, line);
      if |line| > l.segmentBytes then after == files
      else
        && after != [] && after[|after| - 1] == last
        && (forall s :: s in after[..|after| - 1] ==> s in older && s.number !in stale)
        && ((forall s :: s in older ==> s.number !in stale) && |AllBytes(older + [last])| <= l.maxBytes ==>
              after == older + [last])
  {
    hide TotalBytes, Trimmed, Retained, Codec.Line, AllBytes;
    var n, line := |files| - 1, c.Line(r);
    if |line| <= l.segmentBytes {
      var fits := |files[n].data| + |line| <= l.segmentBytes;
      var older := if fits then files[..n] else files;
      var last := if fits then Segment(files[n].number, files[n].data + line) else Segment(files[n].number + 1, line);
      WrittenIs(files, line, l.segmentBytes);
      EnforcedKeeps(older, last, stale, l.maxBytes);
    }
  }

  lemma WrittenIs(files: Files, line: bytes, segmentBytes: int)
    requires files != []
    ensures
      var n := |files| - 1;
      Written(RoomFor(files, |line|, segmentBytes), line)
      == if |files[n].data| + |line| <= segmentBytes then files[..n] + [Segment(files[n].number, files[n].data + line)]
         else files + [Segment(files[n].number + 1, line)]
  {
    assert [] + line == line;
  }

  lemma EnforcedKeeps(older: Files, last: Segment, stale: set<nat>, maxBytes: int)
    ensures
      var after := Enforced(older + [last], stale, maxBytes);
      && after != [] && after[|after| - 1] == last
      && (forall s :: s in after[..|after| - 1] ==> s in older && s.number !in stale)
      && ((forall s :: s in older ==> s.number !in stale) && |AllBytes(older + [last])| <= maxBytes ==>
            after == older + [last])
  {
    hide TotalBytes, Trimmed, Retained, AllBytes;
    var files := older + [last];
    RetainedBefore(older, last, stale);
    var retained := Retained(files, stale);
    var dropped := TrimmedIsMinimal(retained, maxBytes);
    DroppedBefore(retained, dropped);
    TotalIsLength(files);
    TrimmedUnfolds(files, maxBytes);
  }

  lemma DroppedBefore(files: Files, dropped: nat)
    requires dropped < |files|
    ensures
      var before := files[..|files| - 1];
      && files[dropped..][..|files| - dropped - 1] == before[dropped..]
      && (forall s :: s in before[dropped..] ==> s in before)
    ensures files[dropped..][|files| - dropped - 1] == files[|files| - 1]
  {}

  /** After retention `last` is still there, and everything before it is among `older` and not too old. */
  ghost predicate IsRetained(retained: Files, older: Files, last: Segment, stale: set<nat>) {
    && retained != [] && retained[|retained| - 1] == last
    && (forall s :: s in retained[..|retained| - 1] ==> s in older && s.number !in stale)
    && ((forall s :: s in older ==> s.number !in stale) ==> retained == older + [last])
  }

  lemma {:induction false} RetainedBefore(older: Files, last: Segment, stale: set<nat>)
    ensures IsRetained(Retained(older + [last], stale), older, last, stale)
    decreases |older|
  {
    hide IsRetained, Retained;
    if older == [] {
      OnlyRetained(last, stale);
      assert [] + [last] == [last];
    } else {
      RetainedBefore(older[1..], last, stale);
      RetainedHead(older, last, stale);
      RetainedCons(older, last, stale, Retained(older[1..] + [last], stale));
    }
  }

  lemma OnlyRetained(last: Segment, stale: set<nat>)
    ensures IsRetained(Retained([last], stale), [], last, stale)
  {}

  lemma RetainedHead(older: Files, last: Segment, stale: set<nat>)
    requires older != []
    ensures Retained(older + [last], stale)
            == (if older[0].number in stale then [] else [older[0]]) + Retained(older[1..] + [last], stale)
  {
    assert (older + [last])[1..] == older[1..] + [last];
  }

  lemma RetainedCons(older: Files, last: Segment, stale: set<nat>, rest: Files)
    requires older != [] && IsRetained(rest, older[1..], last, stale)
    ensures IsRetained((if older[0].number in stale then [] else [older[0]]) + rest, older, last, stale)
  {
    hide IsRetained;
    HeadGoes(older[0], older[1..], last, stale, rest);
    HeadStays(older[0], older[1..], last, stale, rest);
    assert older == [older[0]] + older[1..] && [] + rest == rest;
  }

  lemma HeadGoes(head: Segment, older: Files, last: Segment, stale: set<nat>, rest: Files)
    requires IsRetained(rest, older, last, stale)
    ensures head.number in stale ==> IsRetained(rest, [head] + older, last, stale)
  {
    var all := [head] + older;
    assert head in all && forall s :: s in older ==> s in all;
  }

  lemma HeadStays(head: Segment, older: Files, last: Segment, stale: set<nat>, rest: Files)
    requires IsRetained(rest, older, last, stale)
    ensures head.number !in stale ==> IsRetained([head] + rest, [head] + older, last, stale)
  {
    var all, front := [head] + older, rest[..|rest| - 1];
    assert ([head] + rest)[..|rest|] == [head] + front;
    assert all + [last] == [head] + (older + [last]);
    assert forall s :: s in older ==> s in all;
  }

  /** Main result: the default segment size is an eighth of the limit, but at least 64 KiB and at most 8 MiB. */
  lemma DefaultIsAnEighth(maxBytes: int)
    ensures
      var size := DefaultSegmentBytes(maxBytes);
      if maxBytes < 8 * 64 * 1024 then size == 64 * 1024
      else if maxBytes >= 64 * MIB then size == 8 * MIB
      else 8 * size <= maxBytes < 8 * size + 8
  {}

  /** Main result: of the segments that are not too old, the open one included, the newest ones stay that fit the size
      limit together, and at least the open one.
    */
  lemma EnforcedExactly(files: Files, stale: set<nat>, maxBytes: int) returns (kept: Files, dropped: nat)
    requires files != [] && AscendingNumbers(files)
    ensures AscendingNumbers(kept)
    ensures forall s :: s in kept <==> s in files && (s.number !in stale || s == files[|files| - 1])
    ensures dropped < |kept| && Enforced(files, stale, maxBytes) == kept[dropped..]
    ensures dropped > 0 ==> |AllBytes(kept[dropped - 1..])| > maxBytes
    ensures |AllBytes(kept[dropped..])| <= maxBytes || dropped == |kept| - 1
  {
    hide TotalBytes, Trimmed, Retained, AllBytes, AscendingNumbers;
    kept := Retained(files, stale);
    forall s
      ensures s in kept <==> s in files && (s.number !in stale || s == files[|files| - 1])
    {
      RetainedExactly(files, stale, s);
    }
    RetainedIsSorted(files, stale);
    dropped := TrimmedIsMinimal(kept, maxBytes);
    TotalIsLength(kept[dropped..]);
    if dropped > 0 { TotalIsLength(kept[dropped - 1..]); }
  }
}
