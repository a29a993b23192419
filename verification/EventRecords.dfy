/** sidecar/service.py: every event of the engine is handed to the store, which keeps each event id once. */
module EventRecords {
  import opened DedupRing
  import opened EventLog
  import opened EventStoreModel
  import opened EventStore
  import opened StoreSimulation
  import Engine = IntegrityModel
  import Ids = IntegrityEventIds

  const NO_INDEX: Ring<string> := Ring([], {})

  /** The events as records, in order. */
  function AsRecords<R>(record: Engine.Event -> R, events: seq<Engine.Event>): (rs: seq<R>)
    ensures |rs| == |events|
  {
    if events == [] then [] else AsRecords(record, events[..|events| - 1]) + [record(events[|events| - 1])]
  }

  /** The events whose records `remember` appends, presented in this order to this store. */
  function KeptEvents<R(!new)>(c: Codec<R>, l: Limits, s: Store, stale: nat -> set<nat>, record: Engine.Event -> R,
                         events: seq<Engine.Event>): seq<Engine.Event>
  {
    if events == [] then []
    else
      var n := |events| - 1;
      var before := StoreAfter(c, l, s, AsRecords(record, events[..n]), stale);
      KeptEvents(c, l, s, stale, record, events[..n])
      + if Answer(c, l, before.ring, record(events[n])).Stored? then [events[n]] else []
  }

  /** A record carries the event's id, names it faithfully, and fits a segment. */
  ghost predicate Faithful<R(!new)>(c: Codec<R>, l: Limits, record: Engine.Event -> R, events: seq<Engine.Event>) {
    && (forall e :: e in events ==> c.eventId(record(e)) != "" && |c.Line(record(e))| <= l.segmentBytes)
    && (forall e, f :: e in events && f in events ==>
          (c.eventId(record(e)) == c.eventId(record(f)) <==> Ids.IdOf(e) == Ids.IdOf(f)))
  }

  lemma FrontIsFaithful<R(!new)>(c: Codec<R>, l: Limits, record: Engine.Event -> R, events: seq<Engine.Event>)
    requires events != [] && Faithful(c, l, record, events)
    ensures Faithful(c, l, record, events[..|events| - 1])
  {
    hide Codec.Line, Ids.IdOf;
  }

  /** Ids and events in step. */
  ghost predicate InStep<R(!new)>(c: Codec<R>, record: Engine.Event -> R, events: seq<Engine.Event>,
                                  ids: seq<string>)
  {
    |ids| == |events| && forall i :: 0 <= i < |events| ==> ids[i] == c.eventId(record(events[i]))
  }

  /** One more event presents one more id. */
  lemma PresentedSnoc<R(!new)>(c: Codec<R>, l: Limits, record: Engine.Event -> R, events: seq<Engine.Event>)
    requires events != [] && Faithful(c, l, record, events)
    ensures
      var n := |events| - 1;
      PresentedIds(c, l, AsRecords(record, events))
      == PresentedIds(c, l, AsRecords(record, events[..n])) + [c.eventId(record(events[n]))]
  {
    hide Codec.Line, Ids.IdOf;
    var n := |events| - 1;
    var front := AsRecords(record, events[..n]);
    assert (front + [record(events[n])])[..n] == front;
  }

  lemma AdmittedSnoc(ids: seq<string>, id: string)
    ensures Admitted(NO_INDEX, ids + [id], MEMORY)
            == Admitted(NO_INDEX, ids, MEMORY) + if id in Run(NO_INDEX, ids, MEMORY).ids then [] else [id]
  {
    assert (ids + [id])[..|ids|] == ids;
    hide Run;
    assert Admitted(NO_INDEX, ids, MEMORY) + [] == Admitted(NO_INDEX, ids, MEMORY);
  }

  lemma InStepSnoc<R(!new)>(c: Codec<R>, record: Engine.Event -> R, events: seq<Engine.Event>, ids: seq<string>,
                            e: Engine.Event)
    requires InStep(c, record, events, ids)
    ensures InStep(c, record, events + [e], ids + [c.eventId(record(e))])
    ensures InStep(c, record, events + [], ids + [])
  {
    assert events + [] == events && ids + [] == ids;
  }

  /** The index admits the ids of the events kept, and so knows the last ones of these. */
  lemma {:induction false} AdmittedAreKept<R(!new)>(c: Codec<R>, l: Limits, s: Store, stale: nat -> set<nat>,
                                                    record: Engine.Event -> R, events: seq<Engine.Event>)
    requires s.disk.up && s.ring == NO_INDEX && Faithful(c, l, record, events)
    ensures
      var kept := KeptEvents(c, l, s, stale, record, events);
      && (forall e :: e in kept ==> e in events)
      && InStep(c, record, kept, Admitted(NO_INDEX, PresentedIds(c, l, AsRecords(record, events)), MEMORY))
    decreases |events|
  {
    if events != [] {
      hide Codec.Line, Ids.IdOf, StoreAfter, Run, AsRecords, PresentedIds, Admitted, InStep, Faithful;
      var n := |events| - 1;
      var front := AsRecords(record, events[..n]);
      FrontIsFaithful(c, l, record, events);
      FitsAndIsNamed(c, l, record, events, events[n]);
      AdmittedAreKept(c, l, s, stale, record, events[..n]);
      RememberIsOffer(c, l, s, front, stale);
      PresentedSnoc(c, l, record, events);
      AdmittedSnoc(PresentedIds(c, l, front), c.eventId(record(events[n])));
      InStepSnoc(c, record, KeptEvents(c, l, s, stale, record, events[..n]),
                 Admitted(NO_INDEX, PresentedIds(c, l, front), MEMORY), events[n]);
    } else {
      NothingKept(c, l, record);
    }
  }

  lemma NothingKept<R(!new)>(c: Codec<R>, l: Limits, record: Engine.Event -> R)
    ensures InStep(c, record, [], Admitted(NO_INDEX, PresentedIds(c, l, AsRecords(record, [])), MEMORY))
  {}

  /** The index knows an event exactly when one of the last events kept has its id. */
  lemma KnownExactly<R(!new)>(c: Codec<R>, l: Limits, record: Engine.Event -> R, events: seq<Engine.Event>,
                              kept: seq<Engine.Event>, admitted: seq<string>, last: Engine.Event)
    requires Faithful(c, l, record, events) && last in events && forall e :: e in kept ==> e in events
    requires InStep(c, record, kept, admitted)
    ensures c.eventId(record(last)) in LastN(admitted, MEMORY)
            <==> Ids.IdOf(last) in Ids.EventIds(LastN(kept, MEMORY))
  {
    hide Codec.Line, Ids.IdOf;
    var recent, ids := LastN(kept, MEMORY), LastN(admitted, MEMORY);
    assert InStep(c, record, recent, ids);
    forall i | 0 <= i < |recent|
      ensures ids[i] == c.eventId(record(last)) <==> Ids.IdOf(recent[i]) == Ids.IdOf(last)
    {
      assert recent[i] in kept;
    }
    if Ids.IdOf(last) in Ids.EventIds(recent) {
      var e :| e in recent && Ids.IdOf(e) == Ids.IdOf(last);
      var i :| 0 <= i < |recent| && recent[i] == e;
      assert ids[i] == c.eventId(record(last));
    }
  }

  /** Main result: of any events handed to it a fresh store keeps exactly those whose id none of the last 10,000 events
      it kept has; while there are no more than that, exactly the first of each id.
    */
  lemma {:induction false} StoreKeepsFirstOfEachId<R(!new)>(c: Codec<R>, l: Limits, s: Store, stale: nat -> set<nat>,
                                                            record: Engine.Event -> R, events: seq<Engine.Event>)
    requires s.disk.up && s.ring == NO_INDEX && Faithful(c, l, record, events)
    ensures KeptEvents(c, l, s, stale, record, events) == Ids.StoredRecently(events, MEMORY)
    ensures |events| <= MEMORY ==> KeptEvents(c, l, s, stale, record, events) == Ids.Stored(events)
    decreases |events|
  {
    hide Codec.Line, Ids.IdOf, StoreAfter, PresentedIds, AsRecords, Faithful, Ids.EventIds, Admitted, LastN, InStep,
        Run, Ids.Stored;
    if events != [] {
      var n := |events| - 1;
      var front := AsRecords(record, events[..n]);
      var kept := KeptEvents(c, l, s, stale, record, events[..n]);
      FrontIsFaithful(c, l, record, events);
      StoreKeepsFirstOfEachId(c, l, s, stale, record, events[..n]);
      AdmittedAreKept(c, l, s, stale, record, events[..n]);
      RememberIsOffer(c, l, s, front, stale);
      RingAgreesOnEveryRun(NO_INDEX, PresentedIds(c, l, front), MEMORY);
      KnownExactly(c, l, record, events, kept, Admitted(NO_INDEX, PresentedIds(c, l, front), MEMORY), events[n]);
      FitsAndIsNamed(c, l, record, events, events[n]);
    }
    if |events| <= MEMORY {
      Ids.EnoughMemory(events, MEMORY);
    }
  }

  lemma FitsAndIsNamed<R(!new)>(c: Codec<R>, l: Limits, record: Engine.Event -> R, events: seq<Engine.Event>,
                                e: Engine.Event)
    requires Faithful(c, l, record, events) && e in events
    ensures c.eventId(record(e)) != "" && |c.Line(record(e))| <= l.segmentBytes
  {}
}
