/** A run of the store, over its own bytes and limits, after which recovery starts the index from a repeated id. */
module StoreQuarantine {
  import opened Wrappers
  import opened Ordering
  import opened DedupRing
  import opened EventLog
  import opened EventStoreModel
  import opened EventStoreProofs
  import opened EventStore
  import opened StoreSimulation

  // ---------- single operations of a store with room to spare ----------

  /** The store is up, over this log and with this index. */
  ghost predicate IsAt<R(!new)>(c: Codec<R>, l: Limits, ops: seq<Op<R>>, log: Log<R>, ring: Ring<string>) {
    LogAfter(c, l, ops) == State(log, true) && StoreRun(c, l, ops).ring == ring
  }

  lemma StoreStands<R(!new)>(c: Codec<R>, l: Limits, ops: seq<Op<R>>)
    requires c.Lawful()
    ensures Stands(c, StoreRun(c, l, ops).disk, LogAfter(c, l, ops)) && WellFormed(LogAfter(c, l, ops))
  {
    hide *;
    StoreRunIsDiskRun(c, l, ops);
    DirectoryRefinesLog(c, l, DiskOps(c, l, ops));
    LogAfterIs(c, l, ops);
  }

  lemma LogAfterIs<R(!new)>(c: Codec<R>, l: Limits, ops: seq<Op<R>>)
    ensures LogAfter(c, l, ops) == RunLog(c, l, DiskOps(c, l, ops))
  {}

  lemma StoreRunSnoc<R(!new)>(c: Codec<R>, l: Limits, ops: seq<Op<R>>, op: Op<R>)
    ensures StoreRun(c, l, ops + [op]) == StoreStep(c, l, StoreRun(c, l, ops), op)
    ensures LogAfter(c, l, ops + [op]) == LogNext(c, l, StoreRun(c, l, ops), LogAfter(c, l, ops), op)
  {
    hide StoreStep, LogAfter, LogNext;
    assert (ops + [op])[..|ops|] == ops;
    LogAfterGrows(c, l, ops + [op]);
  }

  ghost predicate Fits<R(!new)>(c: Codec<R>, log: Log<R>, l: Limits) {
    TotalBytes(RenderAll(c, log)) <= l.maxBytes
  }

  lemma NothingIsRemoved<R(!new)>(c: Codec<R>, log: Log<R>, l: Limits)
    requires Fits(c, log, l)
    ensures LogTrimmed(c, LogRetained(log, {}), l.maxBytes) == log
  {
    hide TotalBytes, RenderAll;
    Index.FreshLogStays(log, {});
  }

  lemma AppendGoes<R(!new)>(c: Codec<R>, l: Limits, ops: seq<Op<R>>, log: Log<R>, ring: Ring<string>, r: R)
    requires c.Lawful() && log != [] && IsAt(c, l, ops, log, ring) && Answer(c, l, ring, r).Stored?
    requires Fits(c, WrittenLog(c, l, log, [r], [], |c.Line(r)|), l)
    ensures IsAt(c, l, ops + [Append(r, {})], WrittenLog(c, l, log, [r], [], |c.Line(r)|), Admit(ring, c.eventId(r)))
  {
    hide StoreRun, LogAfter, WellFormed, Codec.Lawful, LogTrimmed, LogRetained, LogRoom, LogWritten, Step, RenderAll,
         Admit, Fits;
    StoreStands(c, l, ops);
    StoreRunSnoc(c, l, ops, Append(r, {}));
    NothingIsRemoved(c, WrittenLog(c, l, log, [r], [], |c.Line(r)|), l);
  }

  lemma RestartGoes<R(!new)>(c: Codec<R>, l: Limits, ops: seq<Op<R>>, log: Log<R>)
    requires c.Lawful() && LogAfter(c, l, ops).log == log && Fits(c, Reopened(c, log), l)
    ensures IsAt(c, l, ops + [Restart({})], Reopened(c, log), IndexOf(c, Records(LogKept(c, log))))
  {
    hide StoreRun, LogAfter, WellFormed, Codec.Lawful, LogTrimmed, LogRetained, LogKept, Step, RenderAll, Fits, IndexOf,
         Records, Recovered, IsTorn;
    StoreStands(c, l, ops);
    StoreRunSnoc(c, l, ops, Restart({}));
    AllTorn(LogAfter(c, l, ops));
    RenderKept(c, log);
    RestartNumber(log);
    NothingIsRemoved(c, Reopened(c, log), l);
  }

  // ---------- sizes ----------

  lemma TotalSnoc<R(!new)>(c: Codec<R>, log: Log<R>, ch: Chapter<R>)
    ensures TotalBytes(RenderAll(c, log + [ch])) == TotalBytes(RenderAll(c, log)) + |c.Lines(ch.records)| + |ch.torn|
  {
    RenderSplit(c, log + [ch]);
    assert (log + [ch])[..|log|] == log;
    var files := RenderAll(c, log);
    assert (files + [Render(c, ch)])[..|files|] == files;
    hide RenderAll;
  }

  lemma TotalOfNothing<R(!new)>(c: Codec<R>)
    ensures TotalBytes(RenderAll<R>(c, [])) == 0
  {}

  lemma LinesSnoc<R(!new)>(c: Codec<R>, rs: seq<R>, r: R)
    ensures |c.Lines(rs + [r])| == |c.Lines(rs)| + |c.Line(r)| && |c.Line(r)| >= 1
  {
    assert (rs + [r])[..|rs|] == rs;
  }

  lemma {:induction false} LinesOfPrefix<R(!new)>(c: Codec<R>, rs: seq<R>, i: nat)
    requires i <= |rs|
    ensures |c.Lines(rs[..i])| <= |c.Lines(rs)|
    decreases |rs|
  {
    var n := |rs| - 1;
    if i == |rs| {
      assert rs[..i] == rs;
    } else {
      assert rs == rs[..n] + [rs[n]] && rs[..n][..i] == rs[..i];
      LinesSnoc(c, rs[..n], rs[n]);
      LinesOfPrefix(c, rs[..n], i);
    }
  }

  // ---------- the run ----------

  /** One record, the others in a segment of their own, and the record again. */
  function Appends<R>(rs: seq<R>): seq<Op<R>> {
    if rs == [] then [] else Appends(rs[..|rs| - 1]) + [Append(rs[|rs| - 1], {})]
  }

  function FirstOps<R>(r: R): seq<Op<R>> {
    [Restart({})] + [Append(r, {})] + [Restart({})]
  }

  function QuarantineRun<R>(r: R, others: seq<R>): seq<Op<R>> {
    FirstOps(r) + Appends(others) + [Append(r, {})] + [Restart({})]
  }

  /** The others fill a segment: they fit in one, but not with the record too; and nothing is ever trimmed. */
  ghost predicate FillsASegment<R(!new)>(c: Codec<R>, l: Limits, r: R, others: seq<R>) {
    && |c.Line(r)| <= l.segmentBytes
    && |c.Lines(others)| <= l.segmentBytes < |c.Lines(others)| + |c.Line(r)|
    && |c.Lines(others)| + 2 * |c.Line(r)| <= l.maxBytes
  }

  /** All ids are given and different. */
  ghost predicate IdsDiffer<R(!new)>(c: Codec<R>, r: R, others: seq<R>) {
    var ids := [c.eventId(r)] + Index.EventIds(c, others);
    Distinct(ids) && "" !in ids
  }

  function Beside<R>(r: R, rs: seq<R>): Log<R> {
    [Chapter(1, [r], []), Chapter(2, rs, [])]
  }

  lemma BesideBytes<R(!new)>(c: Codec<R>, r: R, rs: seq<R>)
    ensures TotalBytes(RenderAll(c, Beside(r, rs))) == |c.Line(r)| + |c.Lines(rs)|
  {
    var a, b: Chapter<R> := Chapter(1, [r], []), Chapter(2, rs, []);
    hide TotalBytes, RenderAll, Codec.Lines;
    assert Beside(r, rs) == [] + [a] + [b];
    TotalOfNothing(c);
    TotalSnoc(c, [], a);
    TotalSnoc(c, [] + [a], b);
    OneLine(c, r);
  }

  lemma FirstSegments<R(!new)>(c: Codec<R>, l: Limits, r: R)
    requires c.Lawful() && c.schemaOk(r) && c.eventId(r) != "" && |c.Line(r)| <= l.segmentBytes
    requires |c.Line(r)| <= l.maxBytes
    ensures IsAt(c, l, FirstOps(r), Beside(r, []), RingOf([c.eventId(r)], MEMORY))
  {
    hide IsAt, Codec.Lawful, Fits, LogAfter, StoreRun, IndexOf, RingOf, Reopened, Records, LogKept, WrittenLog;
    var blank: Chapter<R> := Chapter(1, [], []);
    EmptyLogReopens(c, l);
    var none: seq<Op<R>> := [];
    RestartGoes(c, l, none, []);
    assert none + [Restart({})] == [Restart({})];
    FirstAppend(c, l, r);
    NewIndex(c);
    AppendGoes(c, l, [Restart({})], [blank], RingOf([], MEMORY), r);
    FirstIsAdmitted(c.eventId(r));
    AtMeans(c, l, [Restart({})] + [Append(r, {})], [Chapter(1, [r], [])], RingOf([c.eventId(r)], MEMORY));
    OneSegmentReopens(c, l, r);
    RestartGoes(c, l, [Restart({})] + [Append(r, {})], [Chapter(1, [r], [])]);
    OneIsIndexed(c, r);
  }

  lemma AtMeans<R(!new)>(c: Codec<R>, l: Limits, ops: seq<Op<R>>, log: Log<R>, ring: Ring<string>)
    requires IsAt(c, l, ops, log, ring)
    ensures LogAfter(c, l, ops) == State(log, true)
  {}

  lemma EmptyLogReopens<R(!new)>(c: Codec<R>, l: Limits)
    requires l.maxBytes >= 0
    ensures LogAfter<R>(c, l, []).log == [] && Reopened<R>(c, []) == [Chapter(1, [], [])]
    ensures Records<R>(LogKept<R>(c, [])) == []
    ensures Fits<R>(c, Reopened<R>(c, []), l)
  {
    hide TotalBytes, RenderAll, LogStep;
    var blank: Chapter<R> := Chapter(1, [], []);
    TotalOfNothing(c);
    TotalSnoc(c, [], blank);
    assert c.Lines([]) == [];
    assert [] + [blank] == [blank];
  }

  lemma NewIndex<R(!new)>(c: Codec<R>)
    ensures IndexOf<R>(c, []) == RingOf([], MEMORY)
  {}

  lemma FirstAppend<R(!new)>(c: Codec<R>, l: Limits, r: R)
    requires |c.Line(r)| <= l.segmentBytes && |c.Line(r)| <= l.maxBytes
    ensures WrittenLog(c, l, [Chapter(1, [], [])], [r], [], |c.Line(r)|) == [Chapter(1, [r], [])]
    ensures Fits(c, [Chapter(1, [r], [])], l)
    ensures Answer(c, l, RingOf([], MEMORY), r).Stored?
  {
    hide Codec.Line, TotalBytes, RenderAll;
    var blank, first: Chapter<R> := Chapter(1, [], []), Chapter(1, [r], []);
    TotalOfNothing(c);
    TotalSnoc(c, [], first);
    OneLine(c, r);
    assert Render(c, blank).data == [];
    assert [blank][..0] == [] && [] + [first] == [first] && [] + [r] == [r];
    NothingTorn();
  }

  lemma FirstIsAdmitted(id: string)
    requires id != ""
    ensures Admit(RingOf([], MEMORY), id) == RingOf([id], MEMORY)
  {
    assert [] + [id] == [id];
    NewIdIsPushed([], id, MEMORY);
  }

  lemma OneSegmentReopens<R(!new)>(c: Codec<R>, l: Limits, r: R)
    requires c.schemaOk(r) && |c.Line(r)| <= l.maxBytes
    ensures
      var log: Log<R> := [Chapter(1, [r], [])];
      LogKept(c, log) == log && Reopened(c, log) == Beside(r, []) && Records(LogKept(c, log)) == [r]
        && Fits(c, Reopened(c, log), l)
  {
    var log: Log<R> := [Chapter(1, [r], [])];
    Index.OneIsOk(c, r);
    AllOkKeepsAll(c, log) by { assert log[0].records == [r]; hide Codec.AllOk; }
    BesideBytes(c, r, []);
    Index.RecordsTail(log);
    assert log[1..] == [] && [r] + [] == [r];
    hide TotalBytes, RenderAll, LogKept, Codec.AllOk;
  }

  lemma OneIsIndexed<R(!new)>(c: Codec<R>, r: R)
    requires c.eventId(r) != ""
    ensures IndexOf(c, [r]) == RingOf([c.eventId(r)], MEMORY)
  {
    assert [r][..0] == [];
    assert Ids(c, [r]) == [c.eventId(r)];
  }

  // ---------- the others ----------

  lemma BesideGrows<R(!new)>(c: Codec<R>, l: Limits, r: R, rs: seq<R>, y: R)
    requires |c.Lines(rs)| + |c.Line(y)| <= l.segmentBytes
    ensures WrittenLog(c, l, Beside(r, rs), [y], [], |c.Line(y)|) == Beside(r, rs + [y])
  {
    hide Codec.Lines, Codec.Line;
    assert Render(c, Beside(r, rs)[1]).data == c.Lines(rs);
    assert Beside(r, rs)[..1] == [Chapter(1, [r], [])];
    NothingTorn();
  }

  lemma NothingTorn()
    ensures var torn: bytes := []; torn + torn == torn
  {}

  lemma {:induction false} OthersGo<R(!new)>(c: Codec<R>, l: Limits, r: R, others: seq<R>, i: nat)
    requires c.Lawful() && c.schemaOk(r) && i <= |others| && IdsDiffer(c, r, others) && FillsASegment(c, l, r, others)
    ensures IsAt(c, l, FirstOps(r) + Appends(others[..i]), Beside(r, others[..i]),
                 RingOf([c.eventId(r)] + Index.EventIds(c, others[..i]), MEMORY))
    decreases i
  {
    hide IsAt, Codec.Lawful, Fits, RingOf, WrittenLog, FirstOps, Codec.Lines, Codec.Line, Index.EventIds, TotalBytes,
         RenderAll, Beside, Admit;
    if i == 0 {
      assert others[..0] == [];
      assert Appends<R>([]) == [] && FirstOps(r) + [] == FirstOps(r);
      IdsOfFirst(c, r, others);
      FirstSegments(c, l, r);
    } else {
      var before, y := others[..i - 1], others[i - 1];
      assert others[..i] == before + [y] && (before + [y])[..i - 1] == before;
      OthersGo(c, l, r, others, i - 1);
      LinesSnoc(c, before, y);
      LinesOfPrefix(c, others, i);
      BesideGrows(c, l, r, before, y);
      BesideBytes(c, r, before + [y]);
      assert Fits(c, Beside(r, before + [y]), l) by { FitsMeans(c, Beside(r, before + [y]), l); }
      NextIsNew(c, l, r, others, i);
      BesideIsSomething(r, before);
      AppendGoes(c, l, FirstOps(r) + Appends(before), Beside(r, before),
                 RingOf([c.eventId(r)] + Index.EventIds(c, before), MEMORY), y);
      assert FirstOps(r) + Appends(before) + [Append(y, {})] == FirstOps(r) + (Appends(before) + [Append(y, {})]);
      assert Appends(before + [y]) == Appends(before) + [Append(y, {})];
    }
  }

  lemma FitsMeans<R(!new)>(c: Codec<R>, log: Log<R>, l: Limits)
    requires TotalBytes(RenderAll(c, log)) <= l.maxBytes
    ensures Fits(c, log, l)
  {}

  lemma IdsOfFirst<R(!new)>(c: Codec<R>, r: R, others: seq<R>)
    requires IdsDiffer(c, r, others)
    ensures Index.EventIds(c, []) == [] && [c.eventId(r)] + [] == [c.eventId(r)] && c.eventId(r) != ""
  {
    var ids := [c.eventId(r)] + Index.EventIds(c, others);
    assert ids[0] in ids;
  }

  lemma NextIsNew<R(!new)>(c: Codec<R>, l: Limits, r: R, others: seq<R>, i: nat)
    requires 0 < i <= |others| && IdsDiffer(c, r, others) && |c.Line(others[i - 1])| <= l.segmentBytes
    ensures
      var before, y := others[..i - 1], others[i - 1];
      var ring := RingOf([c.eventId(r)] + Index.EventIds(c, before), MEMORY);
      && Answer(c, l, ring, y).Stored?
      && Admit(ring, c.eventId(y)) == RingOf([c.eventId(r)] + Index.EventIds(c, others[..i]), MEMORY)
  {
    hide RingOf, Ring.Push;
    var all := [c.eventId(r)] + Index.EventIds(c, others);
    var before, y := others[..i - 1], others[i - 1];
    var ids := [c.eventId(r)] + Index.EventIds(c, before);
    assert ids == all[..i] && all[i] == c.eventId(y) && ids + [all[i]] == all[..i + 1];
    assert [c.eventId(r)] + Index.EventIds(c, others[..i]) == all[..i + 1];
    assert all[i] in all;
    NewIdIsPushed(ids, c.eventId(y), MEMORY) by {
      forall j, k | 0 <= j < k < |ids + [all[i]]|
        ensures (ids + [all[i]])[j] != (ids + [all[i]])[k]
      {
        assert all[j] != all[k];
      }
    }
  }

  // ---------- the record again ----------

  lemma BesideRotates<R(!new)>(c: Codec<R>, l: Limits, r: R, others: seq<R>)
    requires FillsASegment(c, l, r, others)
    ensures WrittenLog(c, l, Beside(r, others), [r], [], |c.Line(r)|) == Index.SandwichLog(r, others)
    ensures Fits(c, Index.SandwichLog(r, others), l)
  {
    hide Codec.Lines, Codec.Line, TotalBytes, RenderAll;
    var log := Beside(r, others);
    assert Render(c, log[1]).data == c.Lines(others);
    var last: Chapter<R> := Chapter(3, [r], []);
    assert LogRoom(c, log, |c.Line(r)|, l.segmentBytes) == log + [Chapter(3, [], [])];
    assert (log + [Chapter(3, [], [])])[..2] == log;
    NothingTorn();
    assert [] + [r] == [r];
    assert Index.SandwichLog(r, others) == log + [last];
    BesideBytes(c, r, others);
    TotalSnoc(c, log, last);
    OneLine(c, r);
  }

  lemma AgainIsNew<R(!new)>(c: Codec<R>, l: Limits, r: R, others: seq<R>)
    requires |others| == MEMORY && IdsDiffer(c, r, others) && |c.Line(r)| <= l.segmentBytes
    ensures Answer(c, l, RingOf([c.eventId(r)] + Index.EventIds(c, others), MEMORY), r).Stored?
  {
    Index.OldestIsForgotten(c.eventId(r), Index.EventIds(c, others));
  }

  lemma SandwichReopens<R(!new)>(c: Codec<R>, l: Limits, r: R, others: seq<R>)
    requires c.schemaOk(r) && !c.AllOk(others) && FillsASegment(c, l, r, others)
    ensures Fits(c, Reopened(c, Index.SandwichLog(r, others)), l)
  {
    hide Codec.AllOk, Codec.Lines, Codec.Line, TotalBytes, RenderAll;
    var log := Index.SandwichLog(r, others);
    var a, b, blank: Chapter<R> := Chapter(1, [r], []), Chapter(3, [r], []), Chapter(4, [], []);
    Index.SandwichSegments(c, r, others);
    assert Reopened(c, log) == [] + [a] + [b] + [blank];
    TotalOfNothing(c);
    TotalSnoc(c, [], a);
    TotalSnoc(c, [] + [a], b);
    TotalSnoc(c, [] + [a] + [b], blank);
    OneLine(c, r);
  }

  lemma TwiceIsIndexed<R(!new)>(c: Codec<R>, r: R)
    requires c.eventId(r) != ""
    ensures IndexOf(c, [r, r]).order == [c.eventId(r), c.eventId(r)] && !IndexOf(c, [r, r]).Valid(MEMORY)
  {
    assert [r, r][..1] == [r] && [r][..0] == [];
    assert Ids(c, [r]) == [c.eventId(r)];
    assert Ids(c, [r, r]) == [c.eventId(r), c.eventId(r)];
    var order := IndexOf(c, [r, r]).order;
    assert order[0] == order[1];
  }

  /** Main result: a store that writes a record, then 10,000 others among which one lacks the accepted schema, then the
      forgotten record again, each group in its own segments, comes back from a restart with an index that repeats an
      id.
    */
  lemma QuarantineRepeatsAnId<R(!new)>(c: Codec<R>, l: Limits, r: R, others: seq<R>)
    requires c.Lawful() && |others| == MEMORY && IdsDiffer(c, r, others) && FillsASegment(c, l, r, others)
    requires c.schemaOk(r) && !c.AllOk(others)
    ensures
      var s := StoreRun(c, l, QuarantineRun(r, others));
      s.disk.up && s.ring.order == [c.eventId(r), c.eventId(r)] && !s.ring.Valid(MEMORY)
  {
    hide IsAt, Codec.Lawful, Codec.AllOk, Fits, RingOf, WrittenLog, FirstOps, Appends, Index.EventIds, Beside, Reopened,
         IndexOf,
         Records, LogKept, Index.SandwichLog, Answer;
    var ops := FirstOps(r) + Appends(others);
    assert others[..|others|] == others;
    OthersGo(c, l, r, others, |others|);
    BesideRotates(c, l, r, others);
    AgainIsNew(c, l, r, others);
    BesideIsSomething(r, others);
    AppendGoes(c, l, ops, Beside(r, others), RingOf([c.eventId(r)] + Index.EventIds(c, others), MEMORY), r);
    IdsOfFirst(c, r, others);
    SandwichReopens(c, l, r, others);
    var again := ops + [Append(r, {})];
    AtMeans(c, l, again, Index.SandwichLog(r, others),
            Admit(RingOf([c.eventId(r)] + Index.EventIds(c, others), MEMORY), c.eventId(r)));
    RestartGoes(c, l, again, Index.SandwichLog(r, others));
    Index.SandwichKept(c, r, others);
    TwiceIsIndexed(c, r);
    AtIsUp(c, l, again + [Restart({})], Reopened(c, Index.SandwichLog(r, others)), IndexOf(c, [r, r]));
    assert QuarantineRun(r, others) == again + [Restart({})];
  }

  lemma BesideIsSomething<R>(r: R, rs: seq<R>)
    ensures Beside(r, rs) != []
  {}

  lemma AtIsUp<R(!new)>(c: Codec<R>, l: Limits, ops: seq<Op<R>>, log: Log<R>, ring: Ring<string>)
    requires c.Lawful() && IsAt(c, l, ops, log, ring)
    ensures StoreRun(c, l, ops).disk.up && StoreRun(c, l, ops).ring == ring
  {
    hide StoreRun, LogAfter, WellFormed, Codec.Lawful;
    StoreStands(c, l, ops);
  }

  // ---------- such a run exists ----------

  /** The smallest records that will do: a number for an id, and whether the schema is accepted. */
  datatype Plain = Plain(id: nat, ok: bool)

  function Ones(n: nat): (ones: bytes)
    ensures |ones| == n && forall i :: 0 <= i < n ==> ones[i] == 1
  {
    if n == 0 then [] else Ones(n - 1) + [1]
  }

  function EncodePlain(r: Plain): bytes {
    [if r.ok then 2 else 3] + Ones(r.id)
  }

  function ParsePlain(line: bytes): Option<Plain> {
    if |line| >= 2 then Some(Plain(|line| - 2, line[0] == 2)) else None
  }

  function PlainCodec(): Codec<Plain> {
    Codec(EncodePlain, ParsePlain, (r: Plain) => r.ok, (r: Plain) => Dashes(r.id + 1))
  }

  /** Records 1 to n, the first of them with another schema. */
  function Others(n: nat): (rs: seq<Plain>)
    ensures |rs| == n && forall i :: 0 <= i < n ==> rs[i] == Plain(i + 1, i != 0)
  {
    if n == 0 then [] else Others(n - 1) + [Plain(n, n != 1)]
  }

  lemma PlainIsLawful()
    ensures PlainCodec().Lawful()
  {
    forall r: Plain
      ensures LF !in EncodePlain(r) && CR !in EncodePlain(r) && ParsePlain(EncodePlain(r) + [LF]) == Some(r)
    {
    }
  }

  lemma PlainIdsDiffer(n: nat)
    ensures IdsDiffer(PlainCodec(), Plain(0, true), Others(n))
  {
    var ids := [Dashes(1)] + Index.EventIds(PlainCodec(), Others(n));
    assert forall i :: 0 <= i < |ids| ==> |ids[i]| == i + 1;
  }

  lemma PlainFills(n: nat, l: Limits)
    requires n >= 1
    requires l.segmentBytes == |PlainCodec().Lines(Others(n))| && l.maxBytes == l.segmentBytes + 4
    ensures FillsASegment(PlainCodec(), l, Plain(0, true), Others(n))
  {
    var c, rs := PlainCodec(), Others(n);
    assert |c.Line(Plain(0, true))| == 2;
    assert rs == rs[..n - 1] + [rs[n - 1]] && |c.Line(rs[n - 1])| >= 2;
    LinesSnoc(c, rs[..n - 1], rs[n - 1]);
    hide Codec.Lines;
  }

  /** A store does come back with an index that repeats an id. */
  lemma QuarantineHappens()
    ensures
      var c, r, others := PlainCodec(), Plain(0, true), Others(MEMORY);
      var l := Limits(|c.Lines(others)|, |c.Lines(others)| + 4);
      c.Lawful() && StoreRun(c, l, QuarantineRun(r, others)).disk.up
      && !StoreRun(c, l, QuarantineRun(r, others)).ring.Valid(MEMORY)
  {
    hide Codec.Lines, StoreRun, QuarantineRun, FillsASegment, IdsDiffer, Others, Codec.Lawful;
    var c, r, others := PlainCodec(), Plain(0, true), Others(MEMORY);
    var l := Limits(|c.Lines(others)|, |c.Lines(others)| + 4);
    PlainIsLawful();
    PlainIdsDiffer(MEMORY);
    PlainFills(MEMORY, l);
    assert !c.AllOk(others) by { assert !c.schemaOk(others[0]); }
    QuarantineRepeatsAnId(c, l, r, others);
  }
}
