/** The deduplication index of sidecar/store.py across removals of old segments, crashes and restarts. */
module StoreDedup {
  import opened Ordering
  import opened DedupRing
  import opened EventLog
  import opened EventStore

  /** The event ids on disk, oldest first, "" for a record without one; and the index in memory. */
  datatype Indexed = Indexed(log: seq<string>, ring: Ring<string>)

  datatype Op = Present(id: string)        // `remember` of a record with this id
              | CrashWrite(id: string)     // its line reached the disk, then the process died and restarted
              | Forget(n: nat)             // the n oldest records went with their segments
              | Restart

  function Named(log: seq<string>): seq<string> {
    if log == [] then []
    else Named(log[..|log| - 1]) + if log[|log| - 1] == "" then [] else [log[|log| - 1]]
  }

  /** The index recovery builds. */
  function Rebuilt(log: seq<string>, cap: nat): Ring<string> {
    var order := LastN(Named(LastN(log, cap)), cap);
    Ring(order, Elements(order))
  }

  function Step(s: Indexed, op: Op, cap: nat): Indexed {
    match op
    case Present(id) =>
      if id == "" then s.(log := s.log + [id])
      else if id in s.ring.ids then s
      else Indexed(s.log + [id], s.ring.Push(id, cap))
    case CrashWrite(id) =>
      if id != "" && id in s.ring.ids then s.(ring := Rebuilt(s.log, cap))
      else Indexed(s.log + [id], Rebuilt(s.log + [id], cap))
    case Forget(n) => s.(log := if n <= |s.log| then s.log[n..] else [])
    case Restart => s.(ring := Rebuilt(s.log, cap))
  }

  function Run(ops: seq<Op>, cap: nat): Indexed
    decreases |ops|
  {
    if ops == [] then Indexed([], Ring([], {})) else Step(Run(ops[..|ops| - 1], cap), ops[|ops| - 1], cap)
  }

  predicate IsSuffix<T(==)>(a: seq<T>, b: seq<T>) {
    |a| <= |b| && b[|b| - |a|..] == a
  }

  /** The index is sound and still knows every id among the last `cap` records on disk. */
  ghost predicate Sound(s: Indexed, cap: nat) {
    s.ring.Valid(cap) && IsSuffix(Named(LastN(s.log, cap)), s.ring.order)
  }

  lemma {:induction false} NamedAppend(a: seq<string>, b: seq<string>)
    ensures Named(a + b) == Named(a) + Named(b)
    decreases |b|
  {
    if b == [] {
      assert a + b == a;
    } else {
      assert (a + b)[..|a + b| - 1] == a + b[..|b| - 1];
      NamedAppend(a, b[..|b| - 1]);
    }
  }

  lemma {:induction false} NamedLength(log: seq<string>)
    ensures |Named(log)| <= |log|
    decreases |log|
  {
    if log != [] { NamedLength(log[..|log| - 1]); }
  }

  lemma NamedOfSuffix(a: seq<string>, b: seq<string>)
    requires IsSuffix(a, b)
    ensures IsSuffix(Named(a), Named(b))
  {
    var front := b[..|b| - |a|];
    assert b == front + a;
    NamedAppend(front, a);
  }

  lemma SuffixOfLast<T>(s: seq<T>, x: T, n: nat)
    requires n >= 1
    ensures LastN(s + [x], n) == LastN(s, n - 1) + [x]
    ensures IsSuffix(LastN(s, n - 1), LastN(s, n))
  {}

  lemma SuffixTransitive<T>(a: seq<T>, b: seq<T>, d: seq<T>)
    requires IsSuffix(a, b) && IsSuffix(b, d)
    ensures IsSuffix(a, d)
  {
    assert d[|d| - |a|..] == d[|d| - |b|..][|b| - |a|..];
  }

  lemma SuffixIsDistinct<T>(a: seq<T>, b: seq<T>)
    requires IsSuffix(a, b) && Distinct(b)
    ensures Distinct(a)
  {
    assert forall i :: 0 <= i < |a| ==> a[i] == b[|b| - |a| + i];
  }

  /** One more record: its name extends what the index must still know. */
  lemma NamedAfter(s: Indexed, id: string, cap: nat)
    requires cap >= 1 && Sound(s, cap)
    ensures IsSuffix(Named(LastN(s.log + [id], cap)), s.ring.order + (if id == "" then [] else [id]))
    ensures |Named(LastN(s.log + [id], cap))| <= cap
  {
    var older := LastN(s.log, cap - 1);
    var name := if id == "" then [] else [id];
    SuffixOfLast(s.log, id, cap);
    NamedOfSuffix(older, LastN(s.log, cap));
    SuffixTransitive(Named(older), Named(LastN(s.log, cap)), s.ring.order);
    NamedAppend(older, [id]);
    assert [id][..0] == [] && Named([id]) == name;
    NamedLength(LastN(s.log + [id], cap));
    SuffixExtends(Named(older), s.ring.order, name);
  }

  lemma SuffixExtends<T>(a: seq<T>, b: seq<T>, t: seq<T>)
    requires IsSuffix(a, b)
    ensures IsSuffix(a + t, b + t)
  {
    assert (b + t)[|b| - |a|..] == b[|b| - |a|..] + t;
  }

  lemma SuffixOfLastN<T>(a: seq<T>, b: seq<T>, n: nat)
    requires IsSuffix(a, b) && |a| <= n
    ensures IsSuffix(a, LastN(b, n)) && LastN(a, n) == a
  {}

  /** An index rebuilt from names that are a suffix of distinct ones is sound. */
  lemma RebuiltIsSound(log: seq<string>, order: seq<string>, cap: nat)
    requires IsSuffix(Named(LastN(log, cap)), order) && Distinct(order)
    ensures Sound(Indexed(log, Rebuilt(log, cap)), cap)
  {
    var names := Named(LastN(log, cap));
    NamedLength(LastN(log, cap));
    SuffixIsDistinct(names, order);
    assert LastN(names, cap) == names;
    assert names[|names| - |names|..] == names;
  }

  lemma AppendIsDistinct<T>(s: seq<T>, x: T)
    requires Distinct(s) && x !in s
    ensures Distinct(s + [x])
  {}

  lemma StepKeepsSound(s: Indexed, op: Op, cap: nat)
    requires cap >= 1 && Sound(s, cap)
    ensures Sound(Step(s, op, cap), cap)
  {
    hide LastN, Named, IsSuffix, Rebuilt, Distinct;
    match op
    case Present(id) =>
      NamedAfter(s, id, cap);
      if id == "" {
        assert s.ring.order + [] == s.ring.order;
      } else if id !in s.ring.ids {
        PushKeepsValid(s.ring, id, cap);
        SuffixOfLastN(Named(LastN(s.log + [id], cap)), s.ring.order + [id], cap);
      }
    case CrashWrite(id) =>
      if id != "" && id in s.ring.ids {
        RebuiltIsSound(s.log, s.ring.order, cap);
      } else {
        NamedAfter(s, id, cap);
        if id == "" {
          assert s.ring.order + [] == s.ring.order;
          RebuiltIsSound(s.log + [id], s.ring.order, cap);
        } else {
          AppendIsDistinct(s.ring.order, id);
          RebuiltIsSound(s.log + [id], s.ring.order + [id], cap);
        }
      }
    case Forget(n) =>
      var kept := if n <= |s.log| then s.log[n..] else [];
      ForgetIsSuffix(s.log, n, cap);
      NamedOfSuffix(LastN(kept, cap), LastN(s.log, cap));
      SuffixTransitive(Named(LastN(kept, cap)), Named(LastN(s.log, cap)), s.ring.order);
    case Restart => RebuiltIsSound(s.log, s.ring.order, cap);
  }

  lemma ForgetIsSuffix(log: seq<string>, n: nat, cap: nat)
    ensures IsSuffix(LastN(if n <= |log| then log[n..] else [], cap), LastN(log, cap))
  {}

  /** Main result: through any run of records, removals of the oldest segments, crashes and restarts the look-up
      set is the deque, the deque repeats no id, and every id among the last `cap` records on disk is
      still refused.
    */
  lemma {:induction false} IndexIsSoundOnEveryRun(ops: seq<Op>, cap: nat)
    requires cap >= 1
    ensures Sound(Run(ops, cap), cap)
    ensures forall i :: 0 <= i < |LastN(Run(ops, cap).log, cap)| && LastN(Run(ops, cap).log, cap)[i] != "" ==>
              LastN(Run(ops, cap).log, cap)[i] in Run(ops, cap).ring.ids
    decreases |ops|
  {
    if ops == [] {
      assert Run(ops, cap).log == [];
    } else {
      IndexIsSoundOnEveryRun(ops[..|ops| - 1], cap);
      StepKeepsSound(Run(ops[..|ops| - 1], cap), ops[|ops| - 1], cap);
      SoundKnowsRecent(Run(ops, cap), cap);
    }
  }

  lemma SoundKnowsRecent(s: Indexed, cap: nat)
    requires Sound(s, cap)
    ensures forall i :: 0 <= i < |LastN(s.log, cap)| && LastN(s.log, cap)[i] != "" ==>
              LastN(s.log, cap)[i] in s.ring.ids
  {
    var recent := LastN(s.log, cap);
    forall i | 0 <= i < |recent| && recent[i] != "" ensures recent[i] in s.ring.ids {
      NamedContains(recent, i);
      var k :| 0 <= k < |Named(recent)| && Named(recent)[k] == recent[i];
      assert s.ring.order[|s.ring.order| - |Named(recent)| + k] == recent[i];
    }
  }

  lemma NamedContains(log: seq<string>, i: nat)
    requires i < |log| && log[i] != ""
    ensures log[i] in Named(log)
    decreases |log|
  {
    if i < |log| - 1 { NamedContains(log[..|log| - 1], i); }
  }

  // ---------- removal from the middle ----------

  function Presents(ids: seq<string>): (ops: seq<Op>)
    ensures |ops| == |ids| && forall i :: 0 <= i < |ids| ==> ops[i] == Present(ids[i])
  {
    if ids == [] then [] else Presents(ids[..|ids| - 1]) + [Present(ids[|ids| - 1])]
  }

  lemma RunPresents(ids: seq<string>, id: string, cap: nat)
    ensures Run(Presents(ids + [id]), cap) == Step(Run(Presents(ids), cap), Present(id), cap)
  {
    hide Step;
    assert Presents(ids + [id])[..|ids|] == Presents(ids);
  }

  /** Distinct ids are all admitted. */
  lemma {:induction false} DistinctAreAdmitted(ids: seq<string>, cap: nat)
    requires Distinct(ids) && "" !in ids && cap >= 1
    ensures Run(Presents(ids), cap) == Indexed(ids, RingOf(ids, cap))
    decreases |ids|
  {
    hide Run, Presents, Ring.Push, RingOf;
    if ids == [] {
      NothingPresented(cap);
    } else {
      var n := |ids| - 1;
      assert ids == ids[..n] + [ids[n]] && ids[n] in ids;
      DistinctAreAdmitted(ids[..n], cap);
      NewIdIsPushed(ids[..n], ids[n], cap);
      RunPresents(ids[..n], ids[n], cap);
    }
  }

  lemma NothingPresented(cap: nat)
    ensures Run(Presents([]), cap) == Indexed([], RingOf([], cap))
  {}

  /** An id is forgotten once cap others have followed it. */
  lemma OldestIsForgotten(id: string, others: seq<string>)
    requires Distinct([id] + others)
    ensures LastN([id] + others, |others|) == others && id !in RingOf([id] + others, |others|).ids
  {
    var all := [id] + others;
    assert all[1..] == others;
    forall i | 0 <= i < |others|
      ensures others[i] != id
    {
      assert all[0] != all[i + 1];
    }
  }

  /** A segment with a record of another schema between two copies of a record. */
  function SandwichLog<R>(r: R, others: seq<R>): EventStoreModel.Log<R> {
    [EventStoreModel.Chapter(1, [r], []), EventStoreModel.Chapter(2, others, []), EventStoreModel.Chapter(3, [r], [])]
  }

  lemma SandwichRecords<R>(r: R, others: seq<R>)
    ensures EventStoreModel.Records(SandwichLog(r, others)) == [r] + others + [r]
  {
    var log := SandwichLog(r, others);
    RecordsTail(log);
    RecordsTail(log[1..]);
    RecordsTail(log[1..][1..]);
    assert log[1..][1..][1..] == [] && log[1..][0] == log[1] && log[1..][1..][0] == log[2];
    assert EventStoreModel.Records(log[1..][1..]) == [r];
    assert EventStoreModel.Records(log) == [r] + (others + [r]);
  }

  lemma SandwichSegments<R(!new)>(c: Codec<R>, r: R, others: seq<R>)
    requires c.schemaOk(r) && !c.AllOk(others)
    ensures EventStoreModel.LogKept(c, SandwichLog(r, others))
            == [EventStoreModel.Chapter(1, [r], []), EventStoreModel.Chapter(3, [r], [])]
  {
    hide Codec.AllOk;
    var log := SandwichLog(r, others);
    OneIsOk(c, r);
    assert log[..2][..1][..0] == [] && log[..2][..1] == [log[0]] && log[..2] == [log[0], log[1]];
    assert EventStoreModel.LogKept(c, log[..2][..1]) == [log[0]];
    assert EventStoreModel.LogKept(c, log[..2]) == [log[0]];
  }

  lemma SandwichKept<R(!new)>(c: Codec<R>, r: R, others: seq<R>)
    requires c.schemaOk(r) && !c.AllOk(others)
    ensures EventStoreModel.Records(EventStoreModel.LogKept(c, SandwichLog(r, others))) == [r, r]
  {
    hide Codec.AllOk, EventStoreModel.LogKept;
    SandwichSegments(c, r, others);
    var kept: EventStoreModel.Log<R> := [EventStoreModel.Chapter(1, [r], []), EventStoreModel.Chapter(3, [r], [])];
    assert kept[..1] == [kept[0]] && kept[..1][..0] == [];
    assert EventStoreModel.Records(kept[..1]) == [r];
  }

  lemma OneIsOk<R(!new)>(c: Codec<R>, r: R)
    ensures c.AllOk([r]) <==> c.schemaOk(r)
  {
    assert [r][0] == r;
  }

  lemma TwiceIsNotValid(id: string, cap: nat)
    requires id != "" && cap >= 2
    ensures Rebuilt([id, id], cap).order == [id, id] && !Rebuilt([id, id], cap).Valid(cap)
  {
    assert [id, id][..1] == [id] && [id][..0] == [];
    assert Named([id]) == [id] && Named([id, id]) == [id, id];
    assert [id, id][0] == [id, id][1];
  }

  /** Main result: for every capacity, a record presented again once that many others have followed it is admitted, and
      if recovery then sets the segment between the copies aside, the rebuilt index starts from a repeated id.
    */
  lemma MiddleRemovalBreaks<R(!new)>(c: Codec<R>, r: R, others: seq<R>, cap: nat)
    requires cap >= 2 && |others| == cap
    requires Distinct([c.eventId(r)] + EventIds(c, others)) && "" !in [c.eventId(r)] + EventIds(c, others)
    requires c.schemaOk(r) && !c.AllOk(others)
    ensures
      var log := SandwichLog(r, others);
      var ids := EventIds(c, EventStoreModel.Records(log));
      && Run(Presents(ids), cap).log == ids
      && Rebuilt(EventIds(c, EventStoreModel.Records(EventStoreModel.LogKept(c, log))), cap).order
         == [c.eventId(r), c.eventId(r)]
      && !Rebuilt(EventIds(c, EventStoreModel.Records(EventStoreModel.LogKept(c, log))), cap).Valid(cap)
  {
    hide Run, Presents, EventStoreModel.Records, EventStoreModel.LogKept, SandwichLog, Rebuilt, Codec.AllOk, RingOf;
    var id, ids := c.eventId(r), [c.eventId(r)] + EventIds(c, others);
    SandwichRecords(r, others);
    SandwichKept(c, r, others);
    assert EventIds(c, [r] + others + [r]) == ids + [id];
    assert EventIds(c, [r, r]) == [id, id];
    assert ids[0] == id;
    DistinctAreAdmitted(ids, cap);
    OldestIsForgotten(id, EventIds(c, others));
    RunPresents(ids, id, cap);
    TwiceIsNotValid(id, cap);
  }

  /** Main result: the index a restart builds is sound exactly when no id repeats among the last 10,000 recovered
      records.
    */
  lemma StartIsValidExactly<R(!new)>(c: Codec<R>, rs: seq<R>)
    ensures IndexOf(c, rs).Valid(MEMORY) <==> Distinct(Ids(c, LastN(rs, MEMORY)))
  {
    hide Ids, Distinct;
    IdsLength(c, LastN(rs, MEMORY));
  }

  lemma {:induction false} IdsLength<R(!new)>(c: Codec<R>, rs: seq<R>)
    ensures |Ids(c, rs)| <= |rs|
    decreases |rs|
  {
    if rs != [] { IdsLength(c, rs[..|rs| - 1]); }
  }

  /** The model's index is the one the store builds. */
  lemma {:induction false} RebuiltIsStoreIndex<R(!new)>(c: Codec<R>, rs: seq<R>)
    ensures IndexOf(c, rs) == Rebuilt(EventIds(c, rs), MEMORY)
  {
    var recent := LastN(rs, MEMORY);
    EventIdsOfSuffix(c, rs, |rs| - |recent|);
    NamedIsIds(c, recent);
  }

  function EventIds<R(!new)>(c: Codec<R>, rs: seq<R>): (ids: seq<string>)
    ensures |ids| == |rs| && forall i :: 0 <= i < |rs| ==> ids[i] == c.eventId(rs[i])
  {
    if rs == [] then [] else EventIds(c, rs[..|rs| - 1]) + [c.eventId(rs[|rs| - 1])]
  }

  lemma EventIdsOfSuffix<R(!new)>(c: Codec<R>, rs: seq<R>, k: nat)
    requires k <= |rs|
    ensures EventIds(c, rs)[k..] == EventIds(c, rs[k..])
  {}

  lemma {:induction false} NamedIsIds<R(!new)>(c: Codec<R>, rs: seq<R>)
    ensures Named(EventIds(c, rs)) == Ids(c, rs)
    decreases |rs|
  {
    if rs != [] {
      NamedIsIds(c, rs[..|rs| - 1]);
      assert EventIds(c, rs)[..|rs| - 1] == EventIds(c, rs[..|rs| - 1]);
    }
  }

  // ---------- enforcing the bounds forgets the oldest records ----------

  lemma {:induction false} RecordsTail<R>(log: EventStoreModel.Log<R>)
    requires log != []
    ensures EventStoreModel.Records(log) == log[0].records + EventStoreModel.Records(log[1..])
  {
    var n := |log| - 1;
    if n > 0 {
      RecordsTail(log[..n]);
      assert log[..n][1..] == log[1..][..n - 1];
    }
  }

  lemma {:induction false} RecordsOfSuffix<R>(log: EventStoreModel.Log<R>, k: nat) returns (n: nat)
    requires k <= |log|
    ensures n <= |EventStoreModel.Records(log)|
    ensures EventStoreModel.Records(log[k..]) == EventStoreModel.Records(log)[n..]
  {
    if k == 0 {
      n := 0;
      assert log[0..] == log;
    } else {
      var m := RecordsOfSuffix(log[1..], k - 1);
      RecordsTail(log);
      n := |log[0].records| + m;
      assert log[1..][k - 1..] == log[k..];
    }
  }

  /** Everything older than a stale segment is stale. */
  ghost predicate AgesInOrder<R>(log: EventStoreModel.Log<R>, stale: set<nat>) {
    forall i, j :: 0 <= i < j < |log| && log[j].number in stale ==> log[i].number in stale
  }

  lemma {:induction false} FreshLogStays<R>(log: EventStoreModel.Log<R>, stale: set<nat>)
    requires forall i :: 0 <= i < |log| ==> log[i].number !in stale
    ensures EventStoreModel.LogRetained(log, stale) == log
  {
    if |log| > 1 { FreshLogStays(log[1..], stale); }
  }

  lemma {:induction false} RetainedIsSuffix<R>(log: EventStoreModel.Log<R>, stale: set<nat>) returns (k: nat)
    requires AgesInOrder(log, stale)
    ensures k <= |log| && EventStoreModel.LogRetained(log, stale) == log[k..]
  {
    k := 0;
    if |log| > 1 {
      if log[0].number in stale {
        var m := RetainedIsSuffix(log[1..], stale);
        k := m + 1;
      } else {
        FreshLogStays(log, stale);
      }
    }
  }

  lemma {:induction false} TrimmedIsSuffix<R(!new)>(c: Codec<R>, log: EventStoreModel.Log<R>, maxBytes: int)
    returns (k: nat)
    ensures k <= |log| && EventStoreModel.LogTrimmed(c, log, maxBytes) == log[k..]
    decreases |log|
  {
    hide EventStoreModel.TotalBytes, EventStoreModel.RenderAll;
    k := 0;
    if |log| > 1 && EventStoreModel.TotalBytes(EventStoreModel.RenderAll(c, log)) > maxBytes {
      var m := TrimmedIsSuffix(c, log[1..], maxBytes);
      k := m + 1;
    }
  }

  /** Main result: when segments age in the order they were written, enforcing the bounds removes just the n oldest
      records, so it is one of the removals under which the index stays sound.
    */
  lemma EnforcingForgetsOldest<R(!new)>(c: Codec<R>, log: EventStoreModel.Log<R>, stale: set<nat>, maxBytes: int)
    returns (n: nat)
    requires AgesInOrder(log, stale)
    ensures n <= |EventStoreModel.Records(log)|
    ensures EventStoreModel.Records(EventStoreModel.LogTrimmed(c, EventStoreModel.LogRetained(log, stale), maxBytes))
            == EventStoreModel.Records(log)[n..]
  {
    hide EventStoreModel.Records, EventStoreModel.LogTrimmed, EventStoreModel.LogRetained, AgesInOrder;
    var j := RetainedIsSuffix(log, stale);
    var k := TrimmedIsSuffix(c, log[j..], maxBytes);
    assert log[j..][k..] == log[j + k..];
    n := RecordsOfSuffix(log, j + k);
  }
}
