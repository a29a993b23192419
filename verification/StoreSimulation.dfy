/** Every run of the store, with its directory and its index, is a run of the index machine over event ids. */
module StoreSimulation {
  import opened DedupRing
  import opened EventLog
  import opened EventStoreModel
  import opened EventStoreProofs
  import opened EventStore
  import Index = StoreDedup

  const NEW_STORE := Store(Disk([], false), Ring([], {}))

  /** The store after a run over a new directory. */
  function StoreRun<R(!new)>(c: Codec<R>, l: Limits, ops: seq<Op<R>>): Store
    decreases |ops|
  {
    if ops == [] then NEW_STORE else StoreStep(c, l, StoreRun(c, l, ops[..|ops| - 1]), ops[|ops| - 1])
  }

  /** What one operation does to the directory: a refused record leaves it alone. */
  function DiskOp<R(!new)>(c: Codec<R>, l: Limits, s: Store, op: Op<R>): seq<Op<R>> {
    match op
    case Append(r, _) => if s.disk.up && Answer(c, l, s.ring, r).Stored? then [op] else []
    case Crash(r, _, _) => if s.disk.up && Answer(c, l, s.ring, r).Stored? then [op] else [Stop]
    case _ => [op]
  }

  function DiskOps<R(!new)>(c: Codec<R>, l: Limits, ops: seq<Op<R>>): seq<Op<R>>
    decreases |ops|
  {
    if ops == [] then []
    else
      var n := |ops| - 1;
      DiskOps(c, l, ops[..n]) + DiskOp(c, l, StoreRun(c, l, ops[..n]), ops[n])
  }

  /** The log the directory stands for. */
  function LogAfter<R(!new)>(c: Codec<R>, l: Limits, ops: seq<Op<R>>): State<R> {
    RunLog(c, l, DiskOps(c, l, ops))
  }

  lemma RunDiskSnoc<R(!new)>(c: Codec<R>, l: Limits, ops: seq<Op<R>>, op: Op<R>)
    ensures RunDisk(c, l, ops + [op]) == Step(c, l, RunDisk(c, l, ops), op)
  {
    hide Step;
    assert (ops + [op])[..|ops|] == ops;
  }

  lemma {:induction false} StoreRunIsDiskRun<R(!new)>(c: Codec<R>, l: Limits, ops: seq<Op<R>>)
    ensures StoreRun(c, l, ops).disk == RunDisk(c, l, DiskOps(c, l, ops))
    decreases |ops|
  {
    hide Answer, RunDisk, Enforced, Written, RoomFor, Retained, Kept, Admit, IndexOf;
    if ops == [] {
      NothingDone(c, l);
    } else {
      var n := |ops| - 1;
      var before, s := DiskOps(c, l, ops[..n]), StoreRun(c, l, ops[..n]);
      StoreRunIsDiskRun(c, l, ops[..n]);
      RunDiskSnoc(c, l, before, ops[n]);
      RunDiskSnoc(c, l, before, Stop);
      assert before + [] == before;
    }
  }

  lemma NothingDone<R(!new)>(c: Codec<R>, l: Limits)
    ensures RunDisk(c, l, []) == NEW_STORE.disk
  {}

  // ---------- what each operation does to the records ----------

  ghost predicate LogOk<R(!new)>(c: Codec<R>, log: Log<R>) {
    forall i :: 0 <= i < |log| ==> c.AllOk(log[i].records)
  }

  predicate RecordOk<R(!new)>(c: Codec<R>, op: Op<R>) {
    match op
    case Append(r, _) => c.schemaOk(r)
    case Crash(r, _, _) => c.schemaOk(r)
    case _ => true
  }

  function WrittenLog<R(!new)>(c: Codec<R>, l: Limits, log: Log<R>, records: seq<R>, torn: bytes, size: nat): Log<R>
    requires log != []
  {
    LogWritten(LogRoom(c, log, size, l.segmentBytes), records, torn)
  }

  lemma RecordsSnoc<R>(log: Log<R>, ch: Chapter<R>)
    ensures Records(log + [ch]) == Records(log) + ch.records
  {
    assert (log + [ch])[..|log|] == log;
  }

  lemma WrittenRecords<R(!new)>(c: Codec<R>, l: Limits, log: Log<R>, records: seq<R>, torn: bytes, size: nat)
    requires log != []
    ensures Records(WrittenLog(c, l, log, records, torn, size)) == Records(log) + records
  {
    var room := LogRoom(c, log, size, l.segmentBytes);
    var n := |room| - 1;
    assert Records(room) == Records(log) by { RoomRecords(c, log, size, l.segmentBytes); }
    hide Records, LogRoom;
    assert room == room[..n] + [room[n]];
    RecordsSnoc(room[..n], room[n]);
    RecordsSnoc(room[..n], room[n].(records := room[n].records + records, torn := room[n].torn + torn));
    assert Records(room[..n]) + (room[n].records + records) == Records(room[..n]) + room[n].records + records;
  }

  lemma RoomRecords<R(!new)>(c: Codec<R>, log: Log<R>, size: nat, segmentBytes: int)
    requires log != []
    ensures Records(LogRoom(c, log, size, segmentBytes)) == Records(log)
  {
    hide Records, Render;
    RecordsSnoc(log, Chapter(log[|log| - 1].number + 1, [], []));
    assert Records(log) + [] == Records(log);
  }

  lemma WrittenOk<R(!new)>(c: Codec<R>, l: Limits, log: Log<R>, records: seq<R>, torn: bytes, size: nat)
    requires log != [] && LogOk(c, log) && forall i :: 0 <= i < |records| ==> c.schemaOk(records[i])
    ensures LogOk(c, WrittenLog(c, l, log, records, torn, size))
  {
    hide Render;
  }

  lemma DropsOk<R(!new)>(c: Codec<R>, a: Log<R>, b: Log<R>)
    requires LogOk(c, a) && DropsSome(a, b)
    ensures LogOk(c, b)
  {
    hide Codec.AllOk;
  }

  /** The segments a store may remove are the oldest ones: the bounds meet segments that age in order. */
  ghost predicate AgesWell<R(!new)>(c: Codec<R>, l: Limits, log: Log<R>, op: Op<R>) {
    match op
    case Append(r, stale) => log != [] ==> Index.AgesInOrder(WrittenLog(c, l, log, [r], [], |c.Line(r)|), stale)
    case Crash(r, _, gone) => log != [] ==> Index.AgesInOrder(WrittenLog(c, l, log, [r], [], |c.Line(r)|), gone)
    case Stop => true
    case Restart(stale) => Index.AgesInOrder(Reopened(c, log), stale)
  }

  /** Segments modified in the order of their numbers age in order, whatever the cutoff. */
  lemma AscendingTimesAgeInOrder<R>(log: Log<R>, modified: nat -> int, cutoff: int, bound: nat)
    requires WellNumbered(log)
    requires forall m: nat, n: nat :: m <= n ==> modified(m) <= modified(n)
    ensures Index.AgesInOrder(log, Aged(modified, cutoff, bound))
  {
    forall i, j | 0 <= i < j < |log| && log[j].number in Aged(modified, cutoff, bound)
      ensures log[i].number in Aged(modified, cutoff, bound)
    {
      assert modified(log[i].number) <= modified(log[j].number);
    }
  }

  lemma AppendEffect<R(!new)>(c: Codec<R>, l: Limits, s: State<R>, r: R, stale: set<nat>) returns (n: nat)
    requires s.up && s.log != [] && |c.Line(r)| <= l.segmentBytes && LogOk(c, s.log) && c.schemaOk(r)
    requires AgesWell(c, l, s.log, Append(r, stale))
    ensures
      var after := LogStep(c, l, s, Append(r, stale));
      && after.up && LogOk(c, after.log)
      && n <= |Records(s.log)| + 1 && Records(after.log) == (Records(s.log) + [r])[n..]
  {
    hide LogOk, Records, LogRoom, LogWritten, LogRetained, LogTrimmed, Index.AgesInOrder, DropsSome;
    var written := WrittenLog(c, l, s.log, [r], [], |c.Line(r)|);
    WrittenRecords(c, l, s.log, [r], [], |c.Line(r)|);
    WrittenOk(c, l, s.log, [r], [], |c.Line(r)|);
    n := Index.EnforcingForgetsOldest(c, written, stale, l.maxBytes);
    EnforcedDrops(c, written, stale, l.maxBytes);
    DropsOk(c, written, LogTrimmed(c, LogRetained(written, stale), l.maxBytes));
  }

  lemma CrashEffect<R(!new)>(c: Codec<R>, l: Limits, s: State<R>, r: R, k: nat, gone: set<nat>) returns (n: nat)
    requires s.up && s.log != [] && |c.Line(r)| <= l.segmentBytes && LogOk(c, s.log) && c.schemaOk(r)
    requires AgesWell(c, l, s.log, Crash(r, k, gone))
    ensures
      var after := LogStep(c, l, s, Crash(r, k, gone));
      && !after.up && LogOk(c, after.log)
      && if k < |c.Line(r)| then Records(after.log) == Records(s.log)
         else n <= |Records(s.log)| + 1 && Records(after.log) == (Records(s.log) + [r])[n..]
  {
    hide LogOk, Records, LogRoom, LogWritten, LogRetained, Index.AgesInOrder, DropsSome;
    n := 0;
    if k < |c.Line(r)| {
      WrittenRecords(c, l, s.log, [], c.Line(r)[..k], |c.Line(r)|);
      WrittenOk(c, l, s.log, [], c.Line(r)[..k], |c.Line(r)|);
      assert Records(s.log) + [] == Records(s.log);
    } else {
      var written := WrittenLog(c, l, s.log, [r], [], |c.Line(r)|);
      WrittenRecords(c, l, s.log, [r], [], |c.Line(r)|);
      WrittenOk(c, l, s.log, [r], [], |c.Line(r)|);
      var j := Index.RetainedIsSuffix(written, gone);
      n := Index.RecordsOfSuffix(written, j);
      RetainedDrops(written, gone);
      DropsOk(c, written, LogRetained(written, gone));
    }
  }

  lemma RestartEffect<R(!new)>(c: Codec<R>, l: Limits, s: State<R>, stale: set<nat>) returns (n: nat)
    requires LogOk(c, s.log) && AgesWell(c, l, s.log, Restart(stale))
    ensures
      var after := LogStep(c, l, s, Restart(stale));
      && after.up && LogOk(c, after.log) && LogKept(c, s.log) == s.log
      && n <= |Records(s.log)| && Records(after.log) == Records(s.log)[n..]
  {
    hide Records, LogRetained, LogTrimmed, LogKept, Index.AgesInOrder, DropsSome, Codec.AllOk;
    AllOkKeepsAll(c, s.log);
    RestartNumber(s.log);
    var blank: Chapter<R> := Chapter(LastNumber(s.log) + 1, [], []);
    var log := Reopened(c, s.log);
    RecordsSnoc(s.log, blank);
    assert Records(s.log) + [] == Records(s.log);
    assert LogOk(c, log) by { BlankIsOk(c, blank); }
    n := Index.EnforcingForgetsOldest(c, log, stale, l.maxBytes);
    EnforcedDrops(c, log, stale, l.maxBytes);
    DropsOk(c, log, LogTrimmed(c, LogRetained(log, stale), l.maxBytes));
  }

  lemma BlankIsOk<R(!new)>(c: Codec<R>, ch: Chapter<R>)
    requires ch.records == []
    ensures c.AllOk(ch.records)
  {}

  // ---------- the simulation ----------

  /** The index machine after some more of its operations. */
  function Follow(x: Index.Indexed, more: seq<Index.Op>): Index.Indexed
    decreases |more|
  {
    if more == [] then x else Index.Step(Follow(x, more[..|more| - 1]), more[|more| - 1], MEMORY)
  }

  lemma {:induction false} RunFollows(trace: seq<Index.Op>, more: seq<Index.Op>)
    ensures Index.Run(trace + more, MEMORY) == Follow(Index.Run(trace, MEMORY), more)
    decreases |more|
  {
    hide Index.Step;
    if more == [] {
      assert trace + more == trace;
    } else {
      var n := |more| - 1;
      assert (trace + more)[..|trace + more| - 1] == trace + more[..n];
      RunFollows(trace, more[..n]);
    }
  }

  lemma FollowTwo(x: Index.Indexed, a: Index.Op, b: Index.Op)
    ensures Follow(x, [a, b]) == Index.Step(Index.Step(x, a, MEMORY), b, MEMORY)
    ensures Follow(x, []) == x
  {
    hide Index.Step;
    assert [a, b][..1] == [a] && [a][..0] == [];
    assert Follow(x, [a]) == Index.Step(x, a, MEMORY);
  }

  /** The machine knows the ids on disk and, while a process is up, its index. */
  ghost predicate Knows<R(!new)>(c: Codec<R>, x: Index.Indexed, log: Log<R>, up: bool, ring: Ring<string>) {
    x.log == Index.EventIds(c, Records(log)) && (up ==> x.ring == ring)
  }

  ghost predicate Simulates<R(!new)>(c: Codec<R>, s: Store, st: State<R>, x: Index.Indexed) {
    Stands(c, s.disk, st) && WellFormed(st) && LogOk(c, st.log) && Knows(c, x, st.log, s.disk.up, s.ring)
  }

  lemma IdsAfter<R(!new)>(c: Codec<R>, rs: seq<R>, r: R, n: nat)
    requires n <= |rs| + 1
    ensures Index.EventIds(c, (rs + [r])[n..]) == (Index.EventIds(c, rs) + [c.eventId(r)])[n..]
  {
    assert (rs + [r])[..|rs|] == rs;
    assert Index.EventIds(c, rs + [r]) == Index.EventIds(c, rs) + [c.eventId(r)];
    Index.EventIdsOfSuffix(c, rs + [r], n);
  }

  lemma PresentIsKnown<R(!new)>(c: Codec<R>, x: Index.Indexed, log: Log<R>, after: Log<R>, ring: Ring<string>, r: R,
                                n: nat)
    requires Knows(c, x, log, true, ring) && !(c.eventId(r) != "" && c.eventId(r) in ring.ids)
    requires n <= |Records(log)| + 1 && Records(after) == (Records(log) + [r])[n..]
    ensures Knows(c, Follow(x, [Index.Present(c.eventId(r)), Index.Forget(n)]), after, true, Admit(ring, c.eventId(r)))
  {
    hide Follow, Records;
    FollowTwo(x, Index.Present(c.eventId(r)), Index.Forget(n));
    IdsAfter(c, Records(log), r, n);
  }

  lemma CrashIsKnown<R(!new)>(c: Codec<R>, x: Index.Indexed, log: Log<R>, after: Log<R>, ring: Ring<string>, r: R,
                              n: nat)
    requires Knows(c, x, log, true, ring) && !(c.eventId(r) != "" && c.eventId(r) in ring.ids)
    requires n <= |Records(log)| + 1 && Records(after) == (Records(log) + [r])[n..]
    ensures Knows(c, Follow(x, [Index.CrashWrite(c.eventId(r)), Index.Forget(n)]), after, false, ring)
  {
    hide Follow, Records, Index.Rebuilt;
    FollowTwo(x, Index.CrashWrite(c.eventId(r)), Index.Forget(n));
    IdsAfter(c, Records(log), r, n);
  }

  lemma RestartIsKnown<R(!new)>(c: Codec<R>, x: Index.Indexed, log: Log<R>, after: Log<R>, up: bool, ring: Ring<string>,
                                n: nat)
    requires Knows(c, x, log, up, ring)
    requires n <= |Records(log)| && Records(after) == Records(log)[n..]
    ensures Knows(c, Follow(x, [Index.Restart, Index.Forget(n)]), after, true, IndexOf(c, Records(log)))
  {
    hide Follow, Records, Index.Rebuilt, IndexOf;
    FollowTwo(x, Index.Restart, Index.Forget(n));
    Index.EventIdsOfSuffix(c, Records(log), n);
    Index.RebuiltIsStoreIndex(c, Records(log));
  }

  lemma SameIsKnown<R(!new)>(c: Codec<R>, x: Index.Indexed, log: Log<R>, after: Log<R>, up: bool, still: bool,
                             ring: Ring<string>)
    requires Knows(c, x, log, up, ring) && (still ==> up) && Records(after) == Records(log)
    ensures Knows(c, Follow(x, []), after, still, ring)
  {
    hide Records;
  }

  /** The log after one operation of the store. */
  function LogNext<R(!new)>(c: Codec<R>, l: Limits, s: Store, st: State<R>, op: Op<R>): State<R> {
    var done := DiskOp(c, l, s, op);
    if done == [] then st else LogStep(c, l, st, done[0])
  }

  lemma AppendSimulates<R(!new)>(c: Codec<R>, l: Limits, s: Store, st: State<R>, x: Index.Indexed, r: R,
                                 stale: set<nat>)
    returns (more: seq<Index.Op>)
    requires c.Lawful() && Simulates(c, s, st, x) && c.schemaOk(r) && AgesWell(c, l, st.log, Append(r, stale))
    ensures Simulates(c, StoreStep(c, l, s, Append(r, stale)), LogNext(c, l, s, st, Append(r, stale)), Follow(x, more))
  {
    hide WellFormed, LogOk, Codec.Lawful, Knows, AgesWell, Follow, LogStep, Step, Admit;
    if s.disk.up && Answer(c, l, s.ring, r).Stored? {
      UpIsOpen(st);
      StepRefines(c, l, s.disk, st, Append(r, stale));
      var n := AppendEffect(c, l, st, r, stale);
      PresentIsKnown(c, x, st.log, LogStep(c, l, st, Append(r, stale)).log, s.ring, r, n);
      more := [Index.Present(c.eventId(r)), Index.Forget(n)];
    } else {
      SameIsKnown(c, x, st.log, st.log, s.disk.up, s.disk.up, s.ring);
      more := [];
    }
  }

  lemma CrashSimulates<R(!new)>(c: Codec<R>, l: Limits, s: Store, st: State<R>, x: Index.Indexed, r: R, k: nat,
                                gone: set<nat>)
    returns (more: seq<Index.Op>)
    requires c.Lawful() && Simulates(c, s, st, x) && c.schemaOk(r) && AgesWell(c, l, st.log, Crash(r, k, gone))
    ensures Simulates(c, StoreStep(c, l, s, Crash(r, k, gone)), LogNext(c, l, s, st, Crash(r, k, gone)),
                      Follow(x, more))
  {
    hide WellFormed, LogOk, Codec.Lawful, Knows, AgesWell, Follow;
    more := [];
    if s.disk.up && Answer(c, l, s.ring, r).Stored? {
      UpIsOpen(st);
      StepRefines(c, l, s.disk, st, Crash(r, k, gone));
      var n := CrashEffect(c, l, st, r, k, gone);
      var after := LogStep(c, l, st, Crash(r, k, gone)).log;
      if k < |c.Line(r)| {
        SameIsKnown(c, x, st.log, after, true, false, s.ring);
      } else {
        CrashIsKnown(c, x, st.log, after, s.ring, r, n);
        more := [Index.CrashWrite(c.eventId(r)), Index.Forget(n)];
      }
    } else {
      StepRefines(c, l, s.disk, st, Stop);
      SameIsKnown(c, x, st.log, st.log, s.disk.up, false, s.ring);
    }
  }

  lemma RestartSimulates<R(!new)>(c: Codec<R>, l: Limits, s: Store, st: State<R>, x: Index.Indexed, stale: set<nat>)
    returns (more: seq<Index.Op>)
    requires c.Lawful() && Simulates(c, s, st, x) && AgesWell(c, l, st.log, Restart(stale))
    ensures Simulates(c, StoreStep(c, l, s, Restart(stale)), LogNext(c, l, s, st, Restart(stale)), Follow(x, more))
  {
    hide WellFormed, LogOk, Codec.Lawful, Knows, AgesWell, Follow, IndexOf, IsTorn;
    StepRefines(c, l, s.disk, st, Restart(stale));
    AllTorn(st);
    RenderKept(c, st.log);
    var n := RestartEffect(c, l, st, stale);
    RestartIsKnown(c, x, st.log, LogStep(c, l, st, Restart(stale)).log, s.disk.up, s.ring, n);
    more := [Index.Restart, Index.Forget(n)];
  }

  /** The machine's answer to one operation of the store. */
  lemma StepSimulates<R(!new)>(c: Codec<R>, l: Limits, s: Store, st: State<R>, x: Index.Indexed, op: Op<R>)
    returns (more: seq<Index.Op>)
    requires c.Lawful() && Simulates(c, s, st, x) && RecordOk(c, op) && AgesWell(c, l, st.log, op)
    ensures Simulates(c, StoreStep(c, l, s, op), LogNext(c, l, s, st, op), Follow(x, more))
  {
    hide WellFormed, LogOk, Codec.Lawful, Knows, AgesWell, Follow, Answer;
    match op
    case Append(r, stale) => more := AppendSimulates(c, l, s, st, x, r, stale);
    case Crash(r, k, gone) => more := CrashSimulates(c, l, s, st, x, r, k, gone);
    case Restart(stale) => more := RestartSimulates(c, l, s, st, x, stale);
    case Stop =>
      StepRefines(c, l, s.disk, st, Stop);
      SameIsKnown(c, x, st.log, st.log, s.disk.up, false, s.ring);
      more := [];
  }

  // ---------- runs ----------

  /** Every record carries the accepted schema, and only the oldest segments are ever past retention. */
  ghost predicate RunIsOrderly<R(!new)>(c: Codec<R>, l: Limits, ops: seq<Op<R>>)
    decreases |ops|
  {
    ops == []
    || (var n := |ops| - 1;
        RunIsOrderly(c, l, ops[..n]) && RecordOk(c, ops[n]) && AgesWell(c, l, LogAfter(c, l, ops[..n]).log, ops[n]))
  }

  lemma LogAfterGrows<R(!new)>(c: Codec<R>, l: Limits, ops: seq<Op<R>>)
    requires ops != []
    ensures
      var n := |ops| - 1;
      LogAfter(c, l, ops) == LogNext(c, l, StoreRun(c, l, ops[..n]), LogAfter(c, l, ops[..n]), ops[n])
  {
    hide LogStep, Answer, RunLog, StoreRun;
    var n := |ops| - 1;
    var before, done := DiskOps(c, l, ops[..n]), DiskOp(c, l, StoreRun(c, l, ops[..n]), ops[n]);
    if done == [] {
      assert before + [] == before;
    } else {
      assert done == [done[0]];
      RunLogSnoc(c, l, before, done[0]);
    }
  }

  /** Main result: every orderly run of the store, through duplicates, rotations, removals, crashes and restarts, is a
      run of the index machine: the ids on disk are the machine's, and so is the index while a process is up.
    */
  lemma {:induction false} StoreIsIndexMachine<R(!new)>(c: Codec<R>, l: Limits, ops: seq<Op<R>>)
    returns (trace: seq<Index.Op>)
    requires c.Lawful() && RunIsOrderly(c, l, ops)
    ensures Simulates(c, StoreRun(c, l, ops), LogAfter(c, l, ops), Index.Run(trace, MEMORY))
    decreases |ops|
  {
    hide StoreStep, LogAfter, LogNext, Simulates, AgesWell, RecordOk, Follow, Index.Run, Codec.Lawful;
    if ops == [] {
      trace := [];
      NewStoreSimulates(c, l);
    } else {
      var n := |ops| - 1;
      trace := StoreIsIndexMachine(c, l, ops[..n]);
      var more := StepSimulates(c, l, StoreRun(c, l, ops[..n]), LogAfter(c, l, ops[..n]), Index.Run(trace, MEMORY),
                                ops[n]);
      LogAfterGrows(c, l, ops);
      RunFollows(trace, more);
      trace := trace + more;
    }
  }

  lemma NewStoreSimulates<R(!new)>(c: Codec<R>, l: Limits)
    ensures Simulates(c, StoreRun(c, l, []), LogAfter(c, l, []), Index.Run([], MEMORY))
  {}

  /** Main result: on every orderly run the index in memory is in agreement, never repeats an id, and refuses every id
      among the last 10,000 records on disk.
    */
  lemma StoreIndexIsSound<R(!new)>(c: Codec<R>, l: Limits, ops: seq<Op<R>>)
    requires c.Lawful() && RunIsOrderly(c, l, ops)
    ensures
      var s, recent := StoreRun(c, l, ops), LastN(Records(LogAfter(c, l, ops).log), MEMORY);
      && Stands(c, s.disk, LogAfter(c, l, ops))
      && (s.disk.up ==>
            && s.ring.Valid(MEMORY)
            && forall i :: 0 <= i < |recent| && c.eventId(recent[i]) != "" ==>
               Answer(c, l, s.ring, recent[i]).Duplicate?)
  {
    hide StoreRun, LogAfter, Records, Index.Run, WellFormed, LogOk, RunIsOrderly, Codec.Lawful, Stands, Ring.Valid;
    var trace := StoreIsIndexMachine(c, l, ops);
    Index.IndexIsSoundOnEveryRun(trace, MEMORY);
    var rs := Records(LogAfter(c, l, ops).log);
    LastIds(c, rs);
  }

  lemma LastIds<R(!new)>(c: Codec<R>, rs: seq<R>)
    ensures LastN(Index.EventIds(c, rs), MEMORY) == Index.EventIds(c, LastN(rs, MEMORY))
  {
    hide Index.EventIds;
    if |rs| > MEMORY { Index.EventIdsOfSuffix(c, rs, |rs| - MEMORY); }
  }

  // ---------- what is refused, exactly ----------

  /** The store after some records have been presented to `remember`. */
  function StoreAfter<R(!new)>(c: Codec<R>, l: Limits, s: Store, rs: seq<R>, stale: nat -> set<nat>): Store
    decreases |rs|
  {
    if rs == [] then s
    else
      var n := |rs| - 1;
      StoreStep(c, l, StoreAfter(c, l, s, rs[..n], stale), Append(rs[n], stale(n)))
  }

  /** The ids of the records presented, those without an id or too long for a segment left out. */
  function PresentedIds<R(!new)>(c: Codec<R>, l: Limits, rs: seq<R>): seq<string> {
    if rs == [] then []
    else
      var r := rs[|rs| - 1];
      PresentedIds(c, l, rs[..|rs| - 1])
      + if c.eventId(r) != "" && |c.Line(r)| <= l.segmentBytes then [c.eventId(r)] else []
  }

  lemma {:induction false} RememberIsOffer<R(!new)>(c: Codec<R>, l: Limits, s: Store, rs: seq<R>,
                                                   stale: nat -> set<nat>)
    requires s.disk.up
    ensures StoreAfter(c, l, s, rs, stale).disk.up
    ensures StoreAfter(c, l, s, rs, stale).ring == Run(s.ring, PresentedIds(c, l, rs), MEMORY)
    decreases |rs|
  {
    hide Ring.Push, Enforced, Written, RoomFor, Codec.Line;
    if rs != [] {
      var n := |rs| - 1;
      var ids, id := PresentedIds(c, l, rs[..n]), c.eventId(rs[n]);
      RememberIsOffer(c, l, s, rs[..n], stale);
      assert ids + [] == ids && (ids + [id])[..|ids|] == ids;
    }
  }

  /** Main result: from any store that is up with a sound index, after any records have been presented, `remember`
      refuses a record as known exactly when its id is among the last 10,000 admitted ones, those of the start included.
    */
  lemma DuplicateIsRecentlyAdmitted<R(!new)>(c: Codec<R>, l: Limits, s: Store, rs: seq<R>, stale: nat -> set<nat>, r: R)
    requires s.disk.up && s.ring.Valid(MEMORY)
    ensures Answer(c, l, StoreAfter(c, l, s, rs, stale).ring, r).Duplicate?
            <==> c.eventId(r) != "" && c.eventId(r) in LastN(Admitted(s.ring, PresentedIds(c, l, rs), MEMORY), MEMORY)
  {
    hide StoreAfter, PresentedIds, Run, Admitted, LastN;
    RememberIsOffer(c, l, s, rs, stale);
    RingAgreesOnEveryRun(s.ring, PresentedIds(c, l, rs), MEMORY);
  }
}
