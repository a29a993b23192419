/** sidecar/store.py: the rotating store over a directory that outlives it. */
module EventStore {
  import opened DedupRing
  import opened EventLog
  import opened EventStoreModel

  const MEMORY := 10_000

  class Directory {
    var files: Files

    /** Segments renamed to `.invalid`. */
    var setAside: Files

    /** The listing is in ascending order of segment numbers. */
    ghost predicate Sorted()
      reads this
    {
      AscendingNumbers(files)
    }
  }

  function Ids<R(!new)>(c: Codec<R>, rs: seq<R>): seq<string>
    decreases |rs|
  {
    if rs == [] then []
    else
      var id := c.eventId(rs[|rs| - 1]);
      Ids(c, rs[..|rs| - 1]) + if id == "" then [] else [id]
  }

  /** The deduplication index recovery builds from the records it found. */
  function IndexOf<R(!new)>(c: Codec<R>, rs: seq<R>): Ring<string> {
    var order := LastN(Ids(c, LastN(rs, MEMORY)), MEMORY);
    Ring(order, Elements(order))
  }

  datatype Remembered = Stored | Duplicate | TooLarge

  /** The segments last modified before the cutoff, among those numbered below a bound. */
  function Aged(modified: nat -> int, cutoff: int, bound: nat): set<nat> {
    set n: nat | n < bound && modified(n) < cutoff
  }

  /** A store: its directory and the index in memory. */
  datatype Store = Store(disk: Disk, ring: Ring<string>)

  /** What `remember` answers for this record. */
  function Answer<R(!new)>(c: Codec<R>, l: Limits, ring: Ring<string>, record: R): Remembered {
    var id := c.eventId(record);
    if id != "" && id in ring.ids then Duplicate
    else if |c.Line(record)| > l.segmentBytes then TooLarge
    else Stored
  }

  function Admit(ring: Ring<string>, id: string): Ring<string> {
    if id == "" then ring else ring.Push(id, MEMORY)
  }

  /** One operation on a store: an append is a `remember`, a crash cuts one short, a restart rebuilds the index. */
  function StoreStep<R(!new)>(c: Codec<R>, l: Limits, s: Store, op: Op<R>): Store {
    match op
    case Append(r, _) =>
      if s.disk.up && Answer(c, l, s.ring, r).Stored? then Store(Step(c, l, s.disk, op), Admit(s.ring, c.eventId(r)))
        else s
    case Crash(r, _, _) =>
      if s.disk.up && Answer(c, l, s.ring, r).Stored? then Store(Step(c, l, s.disk, op), s.ring)
      else s.(disk := s.disk.(up := false))
    case Stop => s.(disk := s.disk.(up := false))
    case Restart(_) => Store(Step(c, l, s.disk, op), IndexOf(c, Recovered(c, s.disk.files)))
  }

  class RotatingEventStore<R(!new)> {
    const codec: Codec<R>
    const limits: Limits
    const directory: Directory
    const retention: int
    var sequence: nat
    var path: nat
    var recoveredEvents: seq<R>
    var eventIdOrder: seq<string>
    var eventIds: set<string>

    /** A segment is open, it is the last one listed, and its number is one below the next. */
    ghost predicate Valid()
      reads this, directory
    {
      && directory.Sorted() && directory.files != []
      && path == directory.files[|directory.files| - 1].number && sequence == path + 1
    }

    function Index(): Ring<string>
      reads this
    {
      Ring(eventIdOrder, eventIds)
    }

    /** Opening a directory, whatever a previous process left in it. */
    constructor (codec: Codec<R>, limits: Limits, directory: Directory, retention: int, modified: nat -> int, now: int)
      requires directory.Sorted()
      modifies directory
      ensures Valid() && this.codec == codec && this.limits == limits
      ensures this.directory == directory && this.retention == retention
      ensures recoveredEvents == LastN(Recovered(codec, old(directory.files)), MEMORY)
      ensures directory.setAside == old(directory.setAside) + Refused(codec, old(directory.files))
      ensures Store(Disk(directory.files, true), Index())
              == StoreStep(codec, limits, Store(Disk(old(directory.files), false), Ring([], {})),
                           Restart(Aged(modified, now - retention, sequence)))
    {
      hide Recovered, Kept, Refused, Enforced, Ids, LastN, Elements;
      this.codec, this.limits, this.directory, this.retention := codec, limits, directory, retention;
      sequence := NextSequence(directory.files);
      path, recoveredEvents, eventIdOrder, eventIds := 0, [], [], {};
      new;
      ghost var before := directory.files;
      var recovered := Recover();
      recoveredEvents := LastN(recovered, MEMORY);
      eventIdOrder := LastN(Ids(codec, recoveredEvents), MEMORY);
      eventIds := Elements(eventIdOrder);
      KeptIsAscending(codec, before);
      OpenSegment();
      EnforceBounds(modified, now);
    }

    method OpenSegment()
      requires directory.Sorted() && forall i :: 0 <= i < |directory.files| ==> directory.files[i].number < sequence
      modifies this`path, this`sequence, directory`files
      ensures Valid() && directory.files == Opened(old(directory.files), old(sequence))
    {
      path := sequence;
      sequence := sequence + 1;
      directory.files := directory.files + [Segment(path, [])];
    }

    /** Reads every segment in order; the ones that cannot be read are renamed out of the listing. */
    method Recover() returns (recovered: seq<R>)
      modifies directory
      ensures recovered == Recovered(codec, old(directory.files))
      ensures directory.files == Kept(codec, old(directory.files))
      ensures directory.setAside == old(directory.setAside) + Refused(codec, old(directory.files))
    {
      hide ReadLines, SplitLines;
      var segments := directory.files;
      ghost var all := directory.files;
      recovered := [];
      var kept: Files := [];
      var i := 0;
      while i < |segments|
        invariant 0 <= i <= |segments| && segments == all && directory.files == kept + segments[i..]
        invariant recovered == Recovered(codec, all[..i]) && kept == Kept(codec, all[..i])
        invariant directory.setAside == old(directory.setAside) + Refused(codec, all[..i])
      {
        var segment := segments[i];
        assert all[..i + 1][..i] == all[..i];
        SliceHead(segments, i);
        Associate(kept, [segment], segments[i + 1..]);
        Associate(old(directory.setAside), Refused(codec, all[..i]), [segment]);
        var records, valid := ReadSegment(codec, segment.data);
        if valid {
          recovered := recovered + records;
          kept := kept + [segment];
        } else {
          directory.setAside := directory.setAside + [segment];
          directory.files := kept + segments[i + 1..];
        }
        i := i + 1;
      }
      assert all[..i] == all;
    }

    /** `modified` gives the modification times the file system reports when the bounds are enforced. */
    method Append(record: R, modified: nat -> int, now: int) returns (ok: bool)
      requires Valid()
      modifies this`path, this`sequence, directory`files
      ensures Valid() && (ok <==> |codec.Line(record)| <= limits.segmentBytes)
      ensures !ok ==> directory.files == old(directory.files)
      ensures Disk(directory.files, true)
              == Step(codec, limits, Disk(old(directory.files), true),
                      EventStoreModel.Append(record, Aged(modified, now - retention, sequence)))
    {
      var line := codec.Line(record);
      if |line| > limits.segmentBytes {
        return false;
      }
      var last := directory.files[|directory.files| - 1];
      if |last.data| + |line| > limits.segmentBytes {
        OpenSegment();
      }
      var n := |directory.files| - 1;
      directory.files := directory.files[..n] + [directory.files[n].(data := directory.files[n].data + line)];
      EnforceBounds(modified, now);
      return true;
    }

    /** Deletes the closed segments past retention, then the oldest closed ones until the size bound holds. */
    method EnforceBounds(modified: nat -> int, now: int)
      requires Valid()
      modifies directory`files
      ensures Valid()
      ensures directory.files
              == Enforced(old(directory.files), Aged(modified, now - retention, sequence), limits.maxBytes)
    {
      hide TotalBytes, Trimmed, Retained, AscendingNumbers, Aged, From;
      RetainRecent(modified, now - retention);
      var segments := directory.files;
      var total := SumOfSizes(segments);
      ghost var first := 0;
      FromAll(segments);
      var i := 0;
      while i < |segments|
        invariant 0 <= i <= |segments| && first == if i < |segments| then i else |segments| - 1
        invariant directory.files == From(segments, first) && segments[|segments| - 1].number == path
        invariant i < |segments| ==> total == TotalBytes(From(segments, i))
        invariant AscendingNumbers(segments)
        invariant Trimmed(segments, limits.maxBytes) == Trimmed(From(segments, first), limits.maxBytes)
      {
        if total <= limits.maxBytes {
          break;
        }
        OpenIsLast(segments, i);
        if segments[i].number != path {
          TrimHead(segments, i, limits.maxBytes);
          directory.files := directory.files[1..];
          total := total - |segments[i].data|;
          first := first + 1;
        }
        i := i + 1;
      }
      FromKeeps(segments, first);
      LastOfAll(segments);
      TrimDone(From(segments, first), limits.maxBytes);
    }

    /** The sum of the sizes as listed. */
    method SumOfSizes(segments: Files) returns (total: nat)
      ensures total == TotalBytes(segments)
    {
      total := 0;
      var i := 0;
      while i < |segments|
        invariant 0 <= i <= |segments| && total == TotalBytes(segments[..i])
      {
        assert segments[..i + 1][..i] == segments[..i];
        total := total + |segments[i].data|;
        i := i + 1;
      }
      assert segments[..i] == segments;
    }

    method RetainRecent(modified: nat -> int, cutoff: int)
      requires Valid()
      modifies directory`files
      ensures Valid() && directory.files == Retained(old(directory.files), Aged(modified, cutoff, sequence))
    {
      hide Retained, AscendingNumbers, Aged, From, RetainedFrom;
      var segments := directory.files;
      ghost var stale := Aged(modified, cutoff, sequence);
      RetainedIsSorted(segments, stale);
      WholeListing(segments, stale);
      var kept: Files := [];
      var i := 0;
      while i < |segments|
        invariant 0 <= i <= |segments| && directory.files == kept + From(segments, i)
        invariant AscendingNumbers(segments) && segments[|segments| - 1].number == path < sequence
        invariant Retained(segments, stale) == kept + RetainedFrom(segments, i, stale)
      {
        var segment := segments[i];
        AgedAt(segments, i, modified, cutoff, sequence);
        OpenIsLast(segments, i);
        RetainHead(segments, i, stale, kept);
        if segment.number != path && modified(segment.number) < cutoff {
          directory.files := kept + From(segments, i + 1);
        } else {
          kept := kept + [segment];
        }
        i := i + 1;
      }
      NothingFrom(segments, stale, kept);
    }

    method Remember(record: R, modified: nat -> int, now: int) returns (result: Remembered)
      requires Valid()
      modifies this`path, this`sequence, this`recoveredEvents, this`eventIdOrder, this`eventIds, directory`files
      ensures Valid()
      ensures result == Answer(codec, limits, old(Index()), record)
      ensures Store(Disk(directory.files, true), Index())
              == StoreStep(codec, limits, Store(Disk(old(directory.files), true), old(Index())),
                           EventStoreModel.Append(record, Aged(modified, now - retention, sequence)))
      ensures result != Stored ==>
                && directory.files == old(directory.files) && Index() == old(Index())
                && recoveredEvents == old(recoveredEvents)
      ensures result == Stored ==> recoveredEvents == LastN(old(recoveredEvents) + [record], MEMORY)
    {
      var id := codec.eventId(record);
      if id != "" && id in eventIds {
        return Duplicate;
      }
      var ok := Append(record, modified, now);
      if !ok {
        return TooLarge;
      }
      recoveredEvents := LastN(recoveredEvents + [record], MEMORY);
      if id != "" {
        if |eventIdOrder| == MEMORY {
          eventIds := eventIds - {eventIdOrder[0]};
        }
        eventIdOrder := LastN(eventIdOrder + [id], MEMORY);
        eventIds := eventIds + {id};
      }
      return Stored;
    }
  }

  lemma Associate<T>(a: seq<T>, b: seq<T>, c: seq<T>)
    ensures a + (b + c) == a + b + c && a + [] == a
  {}

  lemma SliceHead<T>(s: seq<T>, i: nat)
    requires i < |s|
    ensures s[i..] == [s[i]] + s[i + 1..] && s[i..][1..] == s[i + 1..]
  {}

  lemma AgedAt(files: Files, i: nat, modified: nat -> int, cutoff: int, bound: nat)
    requires i < |files| && AscendingNumbers(files) && files[|files| - 1].number < bound
    ensures files[i].number in Aged(modified, cutoff, bound) <==> modified(files[i].number) < cutoff
  {}

  lemma OpenIsLast(files: Files, i: nat)
    requires i < |files| && AscendingNumbers(files)
    ensures files[i].number == files[|files| - 1].number <==> i == |files| - 1
  {}

  lemma FromAll(files: Files)
    ensures From(files, 0) == files
  {}

  lemma LastOfAll(files: Files)
    requires files != []
    ensures |From(files, |files| - 1)| == 1
  {}

  lemma FromKeeps(files: Files, i: nat)
    requires i < |files| && AscendingNumbers(files)
    ensures AscendingNumbers(From(files, i)) && From(files, i) != []
    ensures From(files, i)[|From(files, i)| - 1] == files[|files| - 1]
  {}

  /** Dropping the first of several segments that do not fit together. */
  lemma TrimHead(files: Files, i: nat, maxBytes: int)
    requires i < |files| - 1 && TotalBytes(From(files, i)) > maxBytes
    ensures From(files, i) != [] && From(files, i)[1..] == From(files, i + 1)
    ensures TotalBytes(From(files, i)) == |files[i].data| + TotalBytes(From(files, i + 1))
    ensures Trimmed(From(files, i), maxBytes) == Trimmed(From(files, i + 1), maxBytes)
  {
    hide TotalBytes;
    var rest := files[i..];
    assert rest[0] == files[i] && rest[1..] == files[i + 1..];
    TotalTail(rest);
  }

  lemma TrimDone(files: Files, maxBytes: int)
    requires |files| <= 1 || TotalBytes(files) <= maxBytes
    ensures Trimmed(files, maxBytes) == files
  {}

  function From(files: Files, i: nat): Files
    requires i <= |files|
  {
    files[i..]
  }

  function RetainedFrom(files: Files, i: nat, stale: set<nat>): Files
    requires i <= |files|
  {
    if i < |files| then Retained(files[i..], stale) else []
  }

  lemma WholeListing(files: Files, stale: set<nat>)
    ensures [] + From(files, 0) == files && [] + RetainedFrom(files, 0, stale) == Retained(files, stale)
  {
    assert files[0..] == files;
  }

  lemma NothingFrom(files: Files, stale: set<nat>, kept: Files)
    ensures kept + From(files, |files|) == kept == kept + RetainedFrom(files, |files|, stale)
  {}

  lemma FromStep(files: Files, i: nat)
    requires i < |files|
    ensures From(files, i) == [files[i]] + From(files, i + 1)
  {}

  lemma RetainedFromStep(files: Files, i: nat, stale: set<nat>)
    requires i < |files|
    ensures RetainedFrom(files, i, stale)
            == (if i < |files| - 1 && files[i].number in stale then [] else [files[i]])
               + RetainedFrom(files, i + 1, stale)
  {
    var rest := files[i..];
    assert rest[0] == files[i] && rest[1..] == files[i + 1..];
    if i == |files| - 1 { assert rest == [files[i]]; }
  }

  /** What retention does to the i-th segment of a listing. */
  lemma RetainHead(files: Files, i: nat, stale: set<nat>, kept: Files)
    requires i < |files|
    ensures kept + From(files, i) == kept + [files[i]] + From(files, i + 1)
    ensures kept + RetainedFrom(files, i, stale)
            == (if i < |files| - 1 && files[i].number in stale then kept else kept + [files[i]])
               + RetainedFrom(files, i + 1, stale)
  {
    hide From, RetainedFrom;
    FromStep(files, i);
    RetainedFromStep(files, i, stale);
    Associate(kept, [files[i]], From(files, i + 1));
    Associate(kept, [files[i]], RetainedFrom(files, i + 1, stale));
    Associate(kept, [], RetainedFrom(files, i + 1, stale));
  }

  lemma {:induction false} KeptIsAscending<R(!new)>(c: Codec<R>, files: Files)
    requires AscendingNumbers(files)
    ensures AscendingNumbers(Kept(c, files))
    ensures forall i :: 0 <= i < |Kept(c, files)| ==> Kept(c, files)[i].number < NextSequence(files)
    decreases |files|
  {
    if files != [] {
      KeptIsAscending(c, files[..|files| - 1]);
      hide Readable;
    }
  }
}
