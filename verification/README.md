# ADS-B flight intelligence: verified models

Dafny models of the parts of the platform that keep state or do exact arithmetic, with proofs of what they are for.
`dafny verify dfyconfig.toml` checks everything. Code that the platform writes as objects and loops is modelled by classes
and methods, each tied to a function on values; what the code promises is then proved about those functions, over all
inputs and all runs.

| part | files | what is proved |
|---|---|---|
| CPR positions (`decoder/src/cpr.cpp`) | `Cpr.dfy`, `CprRecovery.dfy`, `CprGuards.dfy` | The decoder inverts the encoder of RTCA DO-260B, Appendix A, section A.1.7, over exact reals and for any zone-count function: globally for two frames within an explicit motion bound, across the antimeridian too, locally within half a zone of the reference. What it accepts is characterised for every frame and pair of frames. |
| Mode S parity (`decoder/src/crc.cpp`) | `Crc.dfy`, `CrcTheory.dfy`, `CrcErrors.dfy`, `CrcDecoder.dfy` | The table-driven CRC is schoolbook division by the generator of ICAO Annex 10, Volume IV, section 3.1.2.3.3; codewords are characterised; the corrector repairs exactly the flipped bit of any message up to 112 bits, and never "repairs" a double error. |
| Integrity engine (`backend/integrity_core/engine.py`) | `IntegrityModel.dfy`, `IntegrityProofs.dfy`, `IntegrityCandidates.dfy`, `IntegrityEvidence.dfy`, `IntegrityEventIds.dfy`, `EventRecords.dfy`, `IntegrityEngine.dfy` | An observation raises exactly the evidence the policy warrants; the events of every run are legal and reproduce the open evidence; tracks stay bounded; cached snapshots are current; eviction is minimal; an observation is reported as a duplicate exactly when its id is among the last ones admitted; two events share an id exactly under a stated condition, and the store then keeps the first. |
| Ring and set (engine and store) | `Collections.dfy`, `StoreDedup.dfy`, `StoreSimulation.dfy`, `StoreQuarantine.dfy` | Look-ups in the set answer for the bounded deque on every run, and exactly when they would not; every orderly run of the store is a run of the index machine this is proved of. |
| Calibration (`backend/app/evaluation/calibration.py`) | `CalibrationWindow.dfy`, `AlertEpisodes.dfy`, `AlertEpisodeProofs.dfy` | The sliding deque is the engine's filtered window exactly when the ring is long enough; alert episodes are the maximal chains of the events, whatever their order. |
| Event store (`sidecar/store.py`) | `EventLog.dfy`, `EventStoreModel.dfy`, `EventStoreProofs.dfy`, `EventStore.dfy` | On every run with crashes the bytes on disk render a log of whole records, recovery reads it back and refuses exactly what it must, appended records are permanent while their segment lives, and sizes are bounded. |
| Replay (`services/replay/`) | `Rounding.dfy`, `ReplayModel.dfy`, `ReplayProofs.dfy`, `Replay.dfy` | State, speed, position and next event are those of a listener who knows only commands and clock; events are consecutive and never early; timeouts are exact; controller and per-client cursor agree, and exactly when they do not. |
| Rate limiter (`backend/app/auth/rate_limiter.py`) | `RateLimiter.dfy` | A call is admitted exactly when the last minute has room; every interval of a minute is bounded although the history is pruned; exactly when the reported remainder is right, and exactly which endpoints the login limit protects. |
| OpenSky source (`backend/app/services/external_observations.py`) | `ExternalSource.dfy` | Counters are the tallies of the attempts; attempts are spaced by backoff and circuit; every answer is determined by the attempts before it, cached results fresh or labelled. |
| Pilot report (`evaluation/pilot/report.py`) | `PilotReport.dfy` | Validation accepts exactly orderly evidence; totals count every session once; totals never fall; ratios are fractions. |

## Where the code does less than one might expect

Each of these is a theorem giving the exact condition, or a concrete run.

- A zone of odd latitude frames is wider than the local decoder's three-degree guard, so some odd frames that name the
  nearest latitude are refused (`OddLatitudeCanBeRefused`); even frames never are (`EvenLatitudeIsPlausible`).
- For a reference longitude beyond 180 degrees the local guard only looks in one direction (`LocalDecodeExactly`).
- An evidence lifetime of zero passes the policy loader and leaves freshly raised evidence open although it has already
  expired (`OpenEvidenceIsCurrent`).
- The state in a closing event is NOMINAL even when other evidence keeps the track questionable
  (`LastEventStateAgrees`, `ClosingCanContradictSnapshot`).
- An event id names only the kind of event, the evidence and the source time, so two updates of one piece of evidence at
  the same source time share an id (`RunIdsDifferExactly`, `NextSharesExactly`); subscribers get both, the store keeps the
  first, and what it shows can then differ from what is open (`StoredTellsExactly`, `LateRepeatIsNeverStored`).
- A window of zero observations is the whole filtered history in the engine and empty in calibration; a ring shorter than
  the window loses observations (`WindowsAgreeExactly`).
- A negative episode gap makes the calibration report depend on the order of simultaneous events (`ReportIgnoresOrderExactly`).
- Recovery sets a whole segment aside when any record in it lacks the accepted schema version, which `append` does not check
  (`RecoveryIsExact`). A segment set aside from the middle can leave a repeated id among the last 10,000
  (`QuarantineRepeatsAnId`), and exactly from such a start deque and set can drift apart (`StartIsValidExactly`,
  `StartKeepsAgreementExactly`).
- The default segment size exceeds the size limit below 64 KiB (`DefaultFits`), and an open segment larger than the limit is
  never trimmed (`TrimmedIsMinimal`).
- Seeking past the end leaves the controller on the events at the last offset and the cursor finished; between milliseconds
  the cursor may round back onto an event the controller has passed (`SeekAgreesExactly`).
- Logins at a path without "/login" are never limited unless no logins are allowed at all (`LoginLimitHoldsExactly`), and
  the remainder reported for them is wrong (`RemainderIsExact`); the middleware only marks paths that contain it
  (`MiddlewareNamesLogins`).
- A failure or a rate-limit answer replaces the minimum poll interval by its own, possibly shorter, wait: with the default
  settings two seconds, or the one second the provider asks for, instead of ten (`PollIntervalAfterAttempt`,
  `DefaultsUndercutInterval`). The reported retry time is too early once the backoff outgrows the circuit's opening time,
  and stale after an exception that escapes (`RetryAfterIsReported`, `DefaultsMisreportRetry`).
- Without validation a session that comes back would be counted twice (`TotalCountsSessionsOnce`,
  `ReturningSessionIsCountedTwice`).

## Model

| member | source | states |
|---|---|---|
| `CprArithmetic.Mod` | decoder/src/cpr.cpp:53-57 | For a positive modulus the truncating remainder, once adjusted, is the floored one: it lies in [0, y) and differs from x by a whole multiple of y, for negative x too. |
| `CprEncoder.GridPointOfZone` | decoder/src/cpr.cpp:87-91 | The 17-bit fraction a frame carries, together with its zone number (the wrap at 2^17 carried into the zone), is the transmitted coordinate, at most half a bin from the encoded one. |
| `CprEncoder.IndexIsExact` | decoder/src/cpr.cpp:93-94 | For any number of zones, under the motion bound the rounded index is exactly n times the odd zone minus n-1 times the even zone, in spite of quantisation and motion. |
| `CprEncoder.IndexResidues` | decoder/src/cpr.cpp:96-98 | The remainders of that index modulo n and n-1 are the remainders of the even and the odd zone number. |
| `CprRecovery.LatitudeRecovered` | decoder/src/cpr.cpp:93-102 | For latitudes in [-90, 90] whose distance d satisfies 59/6 d + 119/2^18 < 1/2, both decoded latitudes are exactly the transmitted ones, in either hemisphere, each within half a bin of the position it was encoded from. |
| `CprRecovery.LongitudeRecovered` | decoder/src/cpr.cpp:120-130 | For every number of zones shared by both frames, one zone included, and motion measured any number of turns around, the decoded longitude is the transmitted even one plus whole turns, in [0, 360). |
| `CprRecovery.EncodeIgnoresTurns` | decoder/src/cpr.cpp:87-91 | Positions that differ by whole turns of longitude are sent alike. |
| `CprRecovery.GlobalDecodeInvertsEncode` | decoder/src/cpr.cpp:78-147 | Two frames encoded from positions within the motion bound, the odd longitude taken any number of turns around so that crossing the antimeridian is covered, decode to the transmitted even position, longitude in (-180, 180] and equal up to whole turns; they are refused exactly when the transmitted latitudes have different zone counts. |
| `CprDecoder.DecodeGlobal` | decoder/src/cpr.cpp:78-147 | Writes the global solution into both frames, or returns false and leaves both untouched (wrong formats, zone-count mismatch, out of range). |
| `CprGuards.GlobalDecodeExactly` | decoder/src/cpr.cpp:78-147 | Any two frames, from one position or not, are accepted if and only if they are an even and an odd one, the NL of the two latitudes named by the rounded index agrees, and the even latitude is not beyond the pole; the result is that latitude and the longitude named by the rounded longitude index, in (-180, 180]. |
| `CprRecovery.NearestIsUnique` | decoder/src/cpr.cpp:174-179 | Among all zones, the chosen index is the only one that puts the fraction within half a zone of the reference, upper end included. |
| `CprRecovery.LocalDecodeInvertsEncode` | decoder/src/cpr.cpp:160-223 | A frame whose transmitted point lies within half a zone of the reference, longitudes any number of turns around, decodes to that point, within half a bin of the encoded position; only the final plausibility check can refuse it. |
| `CprRecovery.LocalDecodeAccepts` | decoder/src/cpr.cpp:203-217 | With at most 60 longitude zones, every valid point within three degrees of the reference is accepted. |
| `CprRecovery.EvenLatitudeIsPlausible` | decoder/src/cpr.cpp:210-217 | The three-degree guard never refuses the latitude of an even frame. |
| `CprRecovery.OddLatitudeCanBeRefused` | decoder/src/cpr.cpp:210-217 | A concrete odd frame names a latitude within half a zone of the reference and is refused. |
| `CprDecoder.DecodeLocal` | decoder/src/cpr.cpp:160-223 | Writes the local solution into the frame, or returns false and leaves it untouched. |
| `CprGuards.LocalDecodeExactly` | decoder/src/cpr.cpp:160-223 | Any frame is accepted if and only if the transmitted latitude nearest to the reference is a latitude, and it and the nearest longitude are within three degrees of the reference, for reference longitudes within 180 degrees; for others the exact condition is given too. The result is these coordinates, the longitude brought into [-180, 180]. |
| `CrcTheory.TableStepIsByteStep` | decoder/src/crc.cpp:50-53 | For every 24-bit register and byte one table look-up does what eight single-bit shifts do. |
| `CrcTheory.DivideIsRegister` | decoder/src/crc.cpp:42-57 | Long division of a bit string followed by 24 zeros leaves what the feedback shift register holds after the bits. |
| `CrcTheory.CrcIsParity` | decoder/src/crc.cpp:42-57 | For every byte string the byte-wise value is the remainder of M(x) x^24 by the generator, and is below 2^24. |
| `CrcTheory.ParityIsLinear` | decoder/src/crc.cpp:42-57 | The CRC of the bitwise sum of two messages of equal length is the sum of their CRCs. |
| `CrcTheory.CodewordCharacterised` | decoder/src/crc.cpp:42-95 | For at least three bytes the CRC over the whole message is 0 if and only if the last 24 bits are the CRC of the rest. |
| `CrcPolynomial.StepsAreInjective` | decoder/src/crc.cpp:28-34 | No number of shifts maps two different 24-bit words to the same one, because the generator has constant term 1. |
| `CrcErrors.FlipChangesCrc` | decoder/src/crc.cpp:97-127 | Flipping a bit changes the CRC by a word that depends only on how many bits follow it, whatever the message. |
| `CrcErrors.SyndromesDiffer` | decoder/src/crc.cpp:97-127 | Those words differ for any two bits less than 112 positions apart: the generator's period is long enough. |
| `CrcErrors.OrbitIsLong` | decoder/include/crc.h:28 | None of the first 112 powers of x is 1 modulo the generator, each computed from its constant. |
| `CrcErrors.FixPositionMeaning` | decoder/src/crc.cpp:97-127 | -1 is reported if and only if the message was already divisible or no one-bit flip makes it so; any other position is in range and its flip makes the message divisible. |
| `CrcErrors.SingleErrorIsLocated` | decoder/src/crc.cpp:97-127 | A codeword of up to 112 bits with any one bit flipped is located at that bit, and flipping it back restores the codeword. |
| `CrcErrors.FlipTogglesParity` | decoder/src/crc.cpp:97-127 | Every flip makes an odd CRC even and an even one odd, in messages of any length, because the generator is a multiple of x + 1. |
| `CrcErrors.OnlyOddErrorsAreRepaired` | decoder/src/crc.cpp:97-127 | In codewords of any length any odd number of flips is detected, and after any even number the corrector leaves the message alone. |
| `CrcErrors.DoubleErrorIsLeftAlone` | decoder/src/crc.cpp:97-127 | In a codeword of up to 112 bits every double error is detected and left alone. |
| `CrcDecoder.ToggleBit` | decoder/src/crc.cpp:113-121 | Toggling a bit of a byte flips the message bit of that position, counted from the first one sent, and no other. |
| `CrcErrors.FlipIsOneBit` | decoder/src/crc.cpp:113-121 | In the order in which the bits are sent, a flip at position k changes bit k and no other. |
| `CrcDecoder.Crc24.InitTable` | decoder/src/crc.cpp:22-40 | Afterwards all 256 entries are the remainders of their bytes. |
| `CrcDecoder.Crc24.Compute` | decoder/src/crc.cpp:42-57 | Returns the parity defined by long division, below 2^24, for any number of bytes. |
| `CrcDecoder.Crc24.Validate` | decoder/src/crc.cpp:59-63 | The syndrome is the parity of the whole message. |
| `CrcDecoder.Crc24.IsValid` | decoder/src/crc.cpp:65-86 | Except for DF11, a message of three bytes or more is accepted if and only if its parity field is the parity of the rest. |
| `CrcDecoder.Crc24.Extract` | decoder/src/crc.cpp:88-95 | Returns the parity field, 0 for fewer than three bytes. |
| `CrcDecoder.Crc24.FixSingleBitError` | decoder/src/crc.cpp:97-127 | The buffer ends as received when -1 is returned, and with exactly the returned bit flipped otherwise; the position is the one characterised above. |
| `DedupRing.PushKeepsAgreement` | backend/integrity_core/engine.py:101-108 | Admitting a new id keeps set and deque in agreement if and only if the id pushed out has no second copy in the deque. |
| `DedupRing.RingAgreesOnEveryRun` | backend/integrity_core/engine.py:88-108 | From distinct ids, after any presentations, the set holds exactly the last cap admitted ids and the deque never repeats one. |
| `DedupRing.RepeatedStartBreaksAgreement` | sidecar/store.py:33-41 | From any start that repeats an id, at any capacity, it gives ids after which set and deque disagree. |
| `DedupRing.StartKeepsAgreementExactly` | sidecar/store.py:33-41 | Set and deque agree after every list of presented ids if and only if the start repeats none. |
| `IntegrityProofs.DuplicateIsRecent` | backend/integrity_core/engine.py:88-108 | For the fold of any observations of one track a message id is known if and only if it is among the last admitted ones, as many as the track keeps observations. |
| `IntegrityProofs.EngineTrackIsFold` | backend/integrity_core/engine.py:65-108 | On every run of the engine, through purges and evictions, each track is the fold of its own observations from the last one on that started it. |
| `IntegrityCandidates.DuplicateOnEveryRun` | backend/integrity_core/engine.py:65-108 | On every run of the engine an observation is reported as a duplicate if and only if its message id is not empty and among the last ids its track has admitted since it was last started. |
| `IntegrityProofs.EventsTellTheWholeStory` | backend/integrity_core/engine.py:84-204 | The events of one observation are each legal for a subscriber holding the evidence open before (openings are new, updates keep id and first time and never lower the severity, closings close expired evidence as last seen), and applied in order yield exactly the evidence open afterwards. |
| `IntegrityProofs.OpenEvidenceIsCurrent` | backend/integrity_core/engine.py:212-267 | Unexpired evidence stays open with its id and first time and no lower severity; and nothing left open has expired if and only if the lifetime is positive or nothing was raised. |
| `IntegrityProofs.ApplyAllContinues` | backend/integrity_core/engine.py:212-259 | Exactly the raised keys are dated to the observation and expire one lifetime later; every other key is untouched. |
| `IntegrityCandidates.EvidenceIsRaisedOnce` | backend/integrity_core/engine.py:87-202 | When the evaluators name every rule once, one observation opens or updates any piece of evidence at most once. |
| `IntegrityEvidence.CandidatesAre` | backend/integrity_core/engine.py:87-204 | An observation raises exactly the evidence the policy warrants, kind by kind, with its measurement, threshold and severity: duplicates, order, gap and latency on their conditions; a pair rule when there is a previous observation; a window rule when the window is long enough; a failed rule is critical if and only if its threshold is positive and its value at least twice that. |
| `IntegrityEvidence.CandidateCount` | backend/integrity_core/engine.py:87-204 | It raises each of them once: one for every timing condition that holds and one for every rule the two evaluators report. |
| `IntegrityEvidence.WindowItemsAre` | backend/integrity_core/engine.py:176-184 | The window evaluator sees, in order, the newest n of the kept observations that are not older than the duration and not newer than the current one. |
| `IntegrityEvidence.OpenAfterwards` | backend/integrity_core/engine.py:212-267 | After an observation exactly what it raises and what had not expired is open: raised evidence says what its candidate says, keeps id, kind and first time if it was open and the higher of both severities; everything else is unchanged. |
| `IntegrityEvidence.EventsCarry` | backend/integrity_core/engine.py:269-285 | Every event names its track, the observation's time and the state of its type; openings and updates carry the evidence as it is left, closings as it was. |
| `IntegrityCandidates.KeysAreInjective` | backend/integrity_core/engine.py:224-224 | Different kinds or discriminators never share a key, whatever the discriminators contain. |
| `IntegrityCandidates.OrderEvidenceIsExact` | backend/integrity_core/engine.py:110-146 | A first observation raises no order evidence; later ones raise each kind exactly on its condition, so out-of-order implies not advancing and a gap excludes both. |
| `IntegrityCandidates.SnapshotMatchesView` | backend/integrity_core/engine.py:287-319 | The snapshot lists exactly what a subscriber to the events believes open, and is QUESTIONABLE if and only if there are enough observations and that is not empty. |
| `IntegrityEvidence.SnapshotOnEveryRun` | backend/integrity_core/engine.py:287-319 | On every run the snapshot is about the current observation and as many of the newest of its track, since that was last started, as a track keeps: their number, the time they span, and the limitations that follow. |
| `IntegrityCandidates.LastEventStateAgrees` | backend/integrity_core/engine.py:269-285 | An observation sends events if and only if it raises something or something has expired; the state the last one carries is then the snapshot's if and only if the track keeps enough observations, this one included, and the observation raises something or leaves nothing open. All of it is decided before the call. |
| `IntegrityCandidates.LastEventClosing` | backend/integrity_core/engine.py:269-285 | Whenever a quiet observation leaves something open, its last event is a closing that says NOMINAL while the snapshot says QUESTIONABLE. |
| `IntegrityCandidates.ClosingCanContradictSnapshot` | backend/integrity_core/engine.py:269-285 | A concrete policy, track and observation of that kind. |
| `IntegrityCandidates.ExpirationsExactly` | backend/integrity_core/engine.py:261-267 | Nothing is closed if and only if everything open stays open. |
| `IntegrityEventIds.SentIdsAre` | backend/integrity_core/engine.py:212-285 | When the evaluators name every rule once, the events of one observation have different ids, and these are exactly the closings of what has expired, the updates of what is raised while open and the openings of what else is raised. |
| `IntegrityEventIds.SharedIdsExactly` | backend/integrity_core/engine.py:269-285 | Two observations of a track, whatever lies between them, share an event id if and only if they have the same source time and both update the same evidence, close it, or open it under one observation id. |
| `IntegrityEventIds.RunIdsDifferExactly` | backend/integrity_core/engine.py:65-285 | On every run of the engine, over all tracks, all events have different ids if and only if no two of its observations do that. |
| `IntegrityEventIds.NextSharesExactly` | backend/integrity_core/engine.py:261-285 | With a positive lifetime an observation shares an event id with the next one of its track if and only if they have the same source time and both raise something that was open already. |
| `IntegrityEventIds.StoredIsAllExactly` | sidecar/store.py:149-160 | Keeping each id once keeps every event if and only if all ids differ. |
| `IntegrityEventIds.StoredTellsExactly` | sidecar/service.py:178-181 | Of two successive observations the stored events yield what is open afterwards if and only if the second leaves whatever it raises again at the same source time as the first had left it. |
| `IntegrityEventIds.LateRepeatIsNeverStored` | sidecar/service.py:178-181 | While latency evidence is open, of any two successive late observations of the same source time but different receipt times the second measurement is published and never stored. |
| `EventRecords.StoreKeepsFirstOfEachId` | sidecar/service.py:178-181 | Of any events handed to a fresh store, `remember` appends exactly those whose id none of the last 10,000 events it kept has, whatever the bounds remove; of up to 10,000 events, exactly the first of each id. |
| `IntegrityProofs.EvictionIsMinimal` | backend/integrity_core/engine.py:321-333 | Eviction changes nothing below capacity and at capacity removes just the track with the least (last time, id). |
| `IntegrityProofs.OldestIsUnique` | backend/integrity_core/engine.py:325-331 | That track is unique, so the choice does not depend on the iteration order. |
| `IntegrityProofs.EveryRunKeepsInv` | backend/integrity_core/engine.py:65-344 | After any observations in any order: at most the maximum number of tracks, each with 1 to maximum observations and an agreeing id ring, and a snapshot map with the same keys whose every entry is what its track would give now and is dated to its last observation. |
| `IntegrityProofs.IngestOnEveryRun` | backend/integrity_core/engine.py:65-344 | On any run an observation removes another track if and only if that is past the inactivity cutoff, or the incoming track is unknown, the others fill the engine and it is the oldest of them; it leaves every other surviving track alone; and its events account for its own track, starting from nothing if that was new, purged or evicted. |
| `IntegrityEngineClass.TrackRecord.RememberId` | backend/integrity_core/engine.py:101-108 | Ring and set after the in-place updates are those of one admission. |
| `Ordering.SortedStringsIsSorted` | backend/integrity_core/engine.py:263-263 | Sorting a set of keys lists each once, in ascending order of code points. |
| `Ordering.LexExactly` | backend/integrity_core/engine.py:263-263 | The order is that of Python strings: at the first place where they differ, the smaller code point or the end comes first. |
| `IntegrityEngineClass.TrackRecord.Expire` | backend/integrity_core/engine.py:261-267 | Deletes exactly the expired evidence and returns its closings in ascending key order. |
| `IntegrityEngineClass.TrackRecord.Raise` | backend/integrity_core/engine.py:212-259 | Opens or refreshes one key in place and returns the matching event. |
| `IntegrityEngineClass.TrackRecord.Observe` | backend/integrity_core/engine.py:84-204 | The mutated track and the events are those of the function the event theorems are about. |
| `IntegrityEngineClass.IntegrityEngine.PurgeInactive` | backend/integrity_core/engine.py:335-344 | Removes exactly the tracks and snapshots last observed before the cutoff. |
| `IntegrityEngineClass.IntegrityEngine.OldestTrack` | backend/integrity_core/engine.py:325-331 | Finds the track with the least (last time, id). |
| `IntegrityEngineClass.IntegrityEngine.EvictIfNeeded` | backend/integrity_core/engine.py:321-333 | Leaves the engine alone for a known track; otherwise evicts the oldest tracks until there is room. |
| `IntegrityEngineClass.IntegrityEngine.Ingest` | backend/integrity_core/engine.py:65-204 | The mutable engine, its snapshot and its events follow the function the run theorems are about, and its invariant is kept. |
| `CalibrationWindow.WindowEvaluations` | backend/app/evaluation/calibration.py:192-202 | Evaluates the deque's content after every observation at which it is long enough, in order. |
| `CalibrationWindow.EvaluatedWindowsAre` | backend/app/evaluation/calibration.py:192-202 | A window is evaluated for exactly the observations at which the deque is long enough, in order, and is the deque then. |
| `CalibrationWindow.EvaluatedOneByOne` | backend/app/evaluation/calibration.py:201-202 | Each of these windows is evaluated once, in order. |
| `CalibrationWindow.DequeIsSuffix` | backend/app/evaluation/calibration.py:192-202 | On a time-sorted track the deque is at every step the newest n of the observations not older than the duration. |
| `CalibrationWindow.WindowsAgreeExactly` | backend/integrity_core/engine.py:176-184 | The engine's filter-and-slice window over its ring equals the incremental window on every time-sorted track if and only if 1 <= n <= ring length and the duration is not negative (or both windows are always empty). |
| `CalibrationWindow.DisagreeingTrack` | backend/integrity_core/engine.py:176-184 | For every other setting it gives a track on which they differ. |
| `AlertEpisodes.GroupTrack` | backend/app/evaluation/calibration.py:241-264 | The loop that extends the last episode object in place returns distinct fresh objects holding the grouping of the track. |
| `AlertEpisodes.GroupAlertEpisodes` | backend/app/evaluation/calibration.py:232-265 | The episodes of every track, tracks in ascending order, each from its own events sorted by time. |
| `AlertEpisodes.CollectTracks` | backend/app/evaluation/calibration.py:235-237 | Files every event under its track, in the order listed, and nothing under any other. |
| `AlertEpisodes.AlertEpisode.Extend` | backend/app/evaluation/calibration.py:261-264 | Moves the end, counts the evaluation and adds its evidence type and rules, in place. |
| `AlertEpisodeProofs.SortedByTime` | backend/app/evaluation/calibration.py:242-242 | Sorting a track's events orders them by time and keeps every one of them. |
| `AlertEpisodeProofs.GroupedIsGrouping` | backend/app/evaluation/calibration.py:241-264 | On sorted events the episodes are exactly the maximal chains: inside one no step exceeds the gap, nothing lies within the gap of its ends, every event is in one, and count, evidence types and rules are those of the events inside. |
| `AlertEpisodeProofs.GroupingIsUnique` | backend/app/evaluation/calibration.py:232-265 | The maximal chains determine the whole list of episodes. |
| `AlertEpisodeProofs.ReportExactly` | backend/app/evaluation/calibration.py:232-265 | The report lists for every track the episodes of exactly its own events sorted by time, tracks in ascending order, and nothing else. |
| `AlertEpisodeProofs.ReportIgnoresOrderExactly` | backend/app/evaluation/calibration.py:232-265 | The report depends only on the multiset of events if and only if the gap is not negative. |
| `AlertEpisodeProofs.ActivityTotal` | backend/app/evaluation/calibration.py:179-189 | Adds up, over all tracks, the positive steps that do not exceed the gap. |
| `AlertEpisodeProofs.ActivityIsSpanOfChains` | backend/app/evaluation/calibration.py:179-189 | The observed time of a sorted track is the total span of its chains of the same gap. |
| `EventLog.ReadSegment` | sidecar/store.py:89-104 | Returns the records of the readable lines, skipping an unterminated last line, or refuses the whole segment. |
| `EventLog.ReadLinesExactly` | sidecar/store.py:89-104 | A segment is refused if and only if some line other than an unfinished last one does not parse or lacks the accepted schema; otherwise the records are what the lines parse to, in order. |
| `EventLog.SplitLinesExactly` | sidecar/store.py:91-92 | The lines are the only ones that make up the bytes, each ending at its first LF, CR or CR LF, with no CR LF cut in two. |
| `EventLog.ReadBack` | sidecar/store.py:89-104 | Whole records followed by a torn tail read back as exactly those records if and only if all carry the accepted schema; otherwise the segment is refused. |
| `EventStoreProofs.DirectoryRefinesLog` | sidecar/store.py:48-104 | On every run of appends, rotations, removals, crashes at any byte, and restarts, the bytes on disk render the log in which records are appended whole or not at all. |
| `EventStoreProofs.RecoveryIsExact` | sidecar/store.py:79-104 | After any run recovery returns, in order, exactly the whole records of the surviving readable segments, and sets none aside if and only if every record on disk has the accepted schema: torn tails never cost a segment. |
| `EventStoreProofs.RecoveryLosesNothing` | sidecar/store.py:79-87 | Recovery deletes nothing: every segment is kept or set aside, and set aside if and only if it cannot be read. |
| `EventStoreProofs.AppendedRecordIsPermanent` | sidecar/store.py:62-72 | A record whose append returned keeps its place through any later appends, crashes and restarts for as long as its segment exists. |
| `EventStoreProofs.TrimmedIsMinimal` | sidecar/store.py:171-180 | The size loop removes the oldest closed segments, as few as possible, never the open one; the rest fits if and only if the open segment does. |
| `EventStoreProofs.EnforcedExactly` | sidecar/store.py:162-180 | Of the segments that are not too old, the open one included, the newest stay that fit the limit together, and at least the open one. |
| `EventStoreProofs.AppendPlacesRecord` | sidecar/store.py:62-77 | A line longer than a segment changes nothing; any other goes to the end of the open segment if and only if it fits there, and otherwise starts the next one; the segments before are among those that were there, and all of them while nothing is too old and everything fits. |
| `EventStoreProofs.TotalIsLength` | sidecar/store.py:172-172 | The total size is the number of bytes in all segments. |
| `EventStoreProofs.DefaultFits` | sidecar/store.py:25-25 | The default segment size is within the size limit if and only if the limit is at least 64 KiB. |
| `EventStoreProofs.DefaultIsAnEighth` | sidecar/store.py:25-25 | The default segment size is an eighth of the limit, but at least 64 KiB and at most 8 MiB. |
| `EventStoreProofs.DirectoryIsBounded` | sidecar/store.py:62-77 | Whatever an earlier store left, with other limits perhaps, on every run the segments written since never exceed the segment size, the others are as they were found, and when the segment size is within the limit every append and restart ends with the directory within it. |
| `EventStore.RotatingEventStore.constructor` | sidecar/store.py:27-43 | Opening any directory is the restart of the model: a fresh segment after the kept ones, the recovered records, the index built from them before the bounds are enforced, and the unreadable segments set aside. |
| `EventStore.RotatingEventStore.OpenSegment` | sidecar/store.py:57-60 | Adds an empty segment with a number above all listed ones. |
| `EventStore.RotatingEventStore.Recover` | sidecar/store.py:79-87 | Collects the readable segments' records in order, leaves exactly these segments listed, and renames exactly the unreadable ones, which are added in order to those set aside before. |
| `EventStore.RotatingEventStore.Append` | sidecar/store.py:62-77 | Refuses a line longer than a segment without touching the directory; otherwise leaves it as the model's append does. |
| `EventStore.RotatingEventStore.EnforceBounds` | sidecar/store.py:162-180 | Removes the closed segments last modified before the retention cutoff, then the oldest closed ones until the bound holds. |
| `EventStore.RotatingEventStore.SumOfSizes` | sidecar/store.py:172-172 | The total the size loop starts from is the number of bytes of all listed segments. |
| `EventStore.RotatingEventStore.RetainRecent` | sidecar/store.py:163-170 | Removes exactly the segments last modified before the cutoff, the open one excepted. |
| `EventStoreProofs.RetainedExactly` | sidecar/store.py:163-170 | A segment survives retention if and only if it is the open one or not too old. |
| `EventStore.RotatingEventStore.Remember` | sidecar/store.py:149-160 | A known id changes nothing; a record that does not fit changes nothing; any other is appended, listed, and its id admitted: directory and index together take the step the simulation is about. |
| `StoreDedup.IndexIsSoundOnEveryRun` | sidecar/store.py:33-41 | Through any run of the index machine (records, removals of the oldest, crashes, restarts), set and deque agree, no id is repeated, and every id among the last cap records on disk is still refused. |
| `StoreDedup.RebuiltIsStoreIndex` | sidecar/store.py:33-41 | The index those runs rebuild is the one the constructor builds from the recovered records. |
| `StoreDedup.EnforcingForgetsOldest` | sidecar/store.py:162-180 | When segments age in the order they were written, enforcing the bounds removes just the oldest records, whatever the sizes. |
| `StoreSimulation.AscendingTimesAgeInOrder` | sidecar/store.py:164-170 | When later segments are not modified earlier, segments age in order, whatever the cutoff. |
| `StoreDedup.MiddleRemovalBreaks` | sidecar/store.py:79-87 | For every capacity from 2 on, a record presented again once that many others have followed it is admitted, and if recovery sets the segment between the copies aside, the rebuilt deque repeats its id. |
| `StoreDedup.StartIsValidExactly` | sidecar/store.py:33-41 | The index a restart builds is in agreement and free of repeats if and only if no id repeats among the last 10,000 recovered records. |
| `StoreSimulation.StoreIsIndexMachine` | sidecar/store.py:27-180 | On every run of the store over its bytes and limits in which all records carry the accepted schema and segments age in order, through duplicates, rotations, removals, crashes at any byte and restarts, the ids on disk and the index in memory are those of a run of the index machine. |
| `StoreSimulation.StoreIndexIsSound` | sidecar/store.py:149-160 | On every such run, while the store is up, set and deque agree, no id is repeated, and `remember` refuses every id among the last 10,000 records on disk. |
| `StoreSimulation.DuplicateIsRecentlyAdmitted` | sidecar/store.py:149-160 | From any store that is up with a sound index, after any records have been presented, `remember` refuses a record as known if and only if its id is not empty and among the last 10,000 admitted ones, those of the start included. |
| `StoreSimulation.StoreRunIsDiskRun` | sidecar/store.py:149-160 | The directory of a store run is that of the appends that were not refused. |
| `StoreQuarantine.QuarantineRepeatsAnId` | sidecar/store.py:79-87 | A run of the store, for any record, any 10,000 others that fill a segment and among which one lacks the accepted schema, and limits to match: the record is admitted again, and the next restart starts the index from a repeated id. |
| `StoreQuarantine.QuarantineHappens` | sidecar/store.py:79-87 | A concrete record form, limits and records for which such a run exists. |
| `ReplayProofs.EveryRunKeepsInv` | services/replay/controller.py:67-169 | On every run with a monotone clock the position is in range and has reached every event handed out. |
| `ReplayProofs.PositionLaw` | services/replay/controller.py:67-138 | Under any commands the position is where the last restart or seek put it plus speed times playing time since, capped at the duration, with state and speed those of a listener who knows only commands and clock; what passes between the two clock readings of a speed change is not played. |
| `ReplayProofs.ControllerAgrees` | services/replay/controller.py:67-169 | On every run state, speed and next event are the listener's: paused by a pause, played by a resume or restart, paused by a seek once completed, completed by a poll that finds nothing left. |
| `ReplayProofs.PollFollowsStopwatch` | services/replay/controller.py:140-169 | On every run a poll hands out the listener's next event if and only if the stopwatch has reached it, otherwise says how long that takes, ends when nothing is left, and is idle unless playing. |
| `ReplayProofs.PauseStops` | services/replay/controller.py:94-100 | A paused replay stays where it is and hands nothing out, at any later time. |
| `ReplayProofs.ResumeGoesOn` | services/replay/controller.py:102-108 | A resumed replay goes on from where it was paused, at its speed; any other is left alone. |
| `ReplayProofs.SpeedTakesEffect` | services/replay/controller.py:131-138 | After an accepted change a playing replay goes on from its position at the new speed. |
| `ReplayProofs.StepPosition` | services/replay/controller.py:94-138 | No command other than a restart or seek moves the position, from its first clock reading to its last. |
| `ReplayProofs.ReturnedAreConsecutive` | services/replay/controller.py:140-169 | Between restarts and seeks the events handed out are consecutive, starting with the first at or after the sought position. |
| `ReplayProofs.NoEventIsEarly` | services/replay/controller.py:147-152 | An event is handed out only once start position plus playing time has reached its offset. |
| `ReplayProofs.TimeoutIsExact` | services/replay/controller.py:153-153 | With nothing in between, the awaited event is handed out if and only if the computed timeout has passed. |
| `ReplayProofs.DelaysTelescope` | services/replay/recording.py:207-214 | The cursor's delays up to an event add up to the distance from the playhead, at the cursor's speed. |
| `ReplayProofs.CursorDelayExactly` | services/replay/recording.py:191-214 | On every run of seeks, restarts, speed changes and events the cursor's delay is exactly the time from its playhead to its next event at its speed; a delay is never negative, and the guard against that is never needed. |
| `ReplayProofs.ControllerMatchesCursor` | services/replay/controller.py:119-153 | After a seek to a whole millisecond inside the recording, controller and cursor name the same next event, and event k is due in the controller if and only if the cursor's delays up to k have passed. |
| `ReplayProofs.SeekAgreesExactly` | services/replay/recording.py:197-201 | After any accepted seek, fractional or past the end, controller and cursor name the same next event if and only if the target rounds to a millisecond that is not past the end and rounding does not move the controller's position back onto an event. |
| `Replay.CheckOffsets` | services/replay/recording.py:91-98 | Accepts exactly the nonempty lists of nonnegative, nondecreasing offsets. |
| `Replay.ReplayController.Create` | services/replay/controller.py:40-65 | Fails exactly for an unsupported speed or a negative loop delay; otherwise starts playing at zero. |
| `Replay.ReplayController.CurrentPosition` | services/replay/controller.py:67-71 | Returns the position the run theorems are about. |
| `Replay.ReplayController.FreezePosition` | services/replay/controller.py:73-75 | Stores the position at one clock reading and anchors it at the next, so that what passes in between is not played. |
| `Replay.ReplayController.Pause` | services/replay/controller.py:94-100 | A playing replay stops at its position at the first clock reading; any other is left alone, as in the run theorems. |
| `Replay.ReplayController.Resume` | services/replay/controller.py:102-108 | A paused replay goes on from its stored position at this clock reading; any other is left alone. |
| `Replay.ReplayController.Restart` | services/replay/controller.py:110-117 | Plays from zero and the first event, whatever the state, at the same speed. |
| `Replay.ReplayController.Seek` | services/replay/controller.py:119-129 | Rejects negative offsets without a change; otherwise the fields are those of the model's step, a completed replay becoming paused. |
| `Replay.ReplayController.SetSpeed` | services/replay/controller.py:131-138 | Rejects unsupported speeds without a change; otherwise freezes the position before changing speed, losing what passes between its two clock readings. |
| `Replay.ReplayController.Poll` | services/replay/controller.py:140-169 | One pass: hands out the next event when due, else gives the exact wait, else completes and arms the loop delay. |
| `Replay.PlaybackCursor.Seek` | services/replay/recording.py:197-201 | Rejects negative offsets without a change; otherwise rounds half to even and moves to the first event at or after. |
| `Replay.PlaybackCursor.NextEvent` | services/replay/recording.py:207-214 | Returns the next event with its delay and moves past it, or nothing once all have been returned. |
| `Replay.PlaybackCursor.SetSpeed` | services/replay/recording.py:191-195 | Changes the speed exactly for the supported values. |
| `Replay.PlaybackCursor.Restart` | services/replay/recording.py:203-205 | Goes back to the first event at the same speed. |
| `RateLimiterModel.RateLimiter.CheckRateLimit` | backend/app/auth/rate_limiter.py:36-85 | One call prunes and extends only its own client's history and returns the verdict of the model; a refused call is not recorded. |
| `RateLimiterModel.RateLimiter.CountLogins` | backend/app/auth/rate_limiter.py:68-68 | Counts the entries whose endpoint contains "/login". |
| `RateLimiterModel.HistoryIsRecentAdmitted` | backend/app/auth/rate_limiter.py:52-85 | After any run the pruned history is exactly the admitted calls of the last minute: repeated pruning loses nothing. |
| `RateLimiterModel.AdmittedExactly` | backend/app/auth/rate_limiter.py:36-85 | On every run a call is admitted if and only if fewer than its limit were admitted in the minute before, of all calls for a general one and of those with "/login" in their path for a login; the remainder is what is left. |
| `RateLimiterModel.ContainsExactly` | backend/app/auth/rate_limiter.py:68-68 | The test is that the text stands somewhere in the path. |
| `RateLimiterModel.EveryMinuteIsBounded` | backend/app/auth/rate_limiter.py:52-85 | With a clock that never goes back every interval of a minute holds at most the general limit of admitted non-logins and, when logins are named so, at most the login limit of logins and at most the sum of both limits in all. |
| `RateLimiterModel.RemainderIsExact` | backend/app/auth/rate_limiter.py:66-85 | Of an admitted call repeated at once exactly as many more are admitted as the returned remainder says, if and only if the call is not a login at an endpoint without "/login". |
| `RateLimiterModel.LoginLimitHoldsExactly` | backend/app/auth/rate_limiter.py:66-75 | The login limit holds for logins at an endpoint if and only if its path contains "/login" or the limit is 0. |
| `RateLimiterModel.UnnamedLoginsAreUnlimited` | backend/app/auth/rate_limiter.py:66-75 | Under a positive limit any number of simultaneous logins at any other endpoint is admitted. |
| `RateLimiterModel.MiddlewareNamesLogins` | backend/app/auth/rate_limiter.py:112-120 | Every path the middleware marks as a login also counts as one. |
| `ExternalSource.OpenSkyObservationSource.CountFailure` | backend/app/services/external_observations.py:273-296 | One failure is counted, the streak grows, the backoff doubles with it and the circuit opens from the threshold on: the state is the one the spacing theorems are about. |
| `ExternalSource.OpenSkyObservationSource.FetchStates` | backend/app/services/external_observations.py:134-234 | For every answer of the provider, and for exceptions that escape, the fields and the result are those of the function the run theorems are about; nothing else changes. |
| `ExternalSource.CountersTally` | backend/app/services/external_observations.py:162-296 | On every run the counters are the tallies of the attempts: requests = successes + failures + rate limits + escaped exceptions, and the streak is the failures since the last success. |
| `ExternalSource.AttemptsAreSpaced` | backend/app/services/external_observations.py:150-303 | On every run the next attempt starts no earlier than the last one's wait; after the k-th failure in a row that is at least backoff 2^(k-1), and at least the circuit's opening time once k reaches the threshold. |
| `ExternalSource.AttemptReleasesExactly` | backend/app/services/external_observations.py:162-303 | After any attempt, whatever the provider answered or threw, exactly the times from the attempt's own wait on are unblocked. |
| `ExternalSource.PollIntervalAfterAttempt` | backend/app/services/external_observations.py:162-303 | The minimum poll interval survives an attempt if and only if the attempt's own wait (interval, backoff and circuit, or the time a rate-limit answer asks for) is at least as long. |
| `ExternalSource.DefaultsUndercutInterval` | backend/app/services/external_observations.py:162-303 | With the default settings a first failure, and a rate-limit answer that asks for one second, both undercut the interval. |
| `ExternalSource.RetryAfterIsReported` | backend/app/services/external_observations.py:162-303 | The reported retry time is when requests are taken again if and only if the attempt was not a failure whose backoff exceeds the time it opens the circuit for, and not an escaped exception after which the time still reported differs from the next request time without both being past. |
| `ExternalSource.DefaultsMisreportRetry` | backend/app/services/external_observations.py:162-303 | With the default settings both happen: from the sixth failure in a row, and for an exception one interval after a success. |
| `ExternalSource.EveryRunDatesItsCache` | backend/app/services/external_observations.py:223-233 | On every run cached results are successful ones without a reason and expire one lifetime after they were fetched. |
| `ExternalSource.CachedResultsAreFreshOrLabelled` | backend/app/services/external_observations.py:141-158 | On every run a cached result carries no reason if and only if it is younger than the lifetime; an older one is served only while blocked, with the reason. |
| `ExternalSource.AnswersFollowAttempts` | backend/app/services/external_observations.py:134-303 | On every run a fetch answers with the last data fetched for its key while that is fresh; with the same and a reason, or with nothing, while the last attempts block the source; and otherwise with exactly what the provider sent, which is when it makes an attempt. |
| `ExternalSource.HealthFollowsAttempts` | backend/app/services/external_observations.py:141-296 | On every run the report names the last success, the last error since it, the credits last told, and how many calls the cache answered. |
| `PilotReport.ValidateSessions` | evaluation/pilot/report.py:191-207 | Accepts exactly the evidence in which no session returns after another, no counter falls within a session and the policy never changes; a refusal names the first day and field at fault. |
| `PilotReport.HasOnePolicy` | evaluation/pilot/report.py:205-207 | True exactly when all days carry the same policy version. |
| `PilotReport.FindDecrease` | evaluation/pilot/report.py:200-203 | Names the first listed counter that fell, or none exactly when no counter fell. |
| `PilotReport.AddDay` | evaluation/pilot/report.py:349-352 | Adds to every total the day's value less what its session had already reported. |
| `PilotReport.AggregateCounters` | evaluation/pilot/report.py:332-365 | Returns every total, the connected share of the uptime rounded to six digits, the largest memory reading rounded to three, and the number of days with questionable tracks. |
| `PilotReport.ConnectedRatioExactly` | evaluation/pilot/report.py:354-358 | The ratio before rounding is the only number that, times the total uptime, is the total connected time, and 0 without uptime. |
| `PilotReport.QuestionableDaysAreCounted` | evaluation/pilot/report.py:341-352 | Every day of every participant with questionable tracks is counted once. |
| `Rounding.RoundExactly` | evaluation/pilot/report.py:353-365 | Rounding gives the nearest integer, and the even one of two. |
| `PilotReport.TotalCountsSessionsOnce` | evaluation/pilot/report.py:341-352 | A total is the sum, over the distinct sessions, of the last value each reported if and only if no day at which a later returning session was interrupted had reported anything. |
| `PilotReport.AcceptedTotalsAreSessionSums` | evaluation/pilot/report.py:332-358 | The totals over all participants, as aggregated, are the sums over all their sessions of the last values reported if and only if no participant has a day at which a later returning session was interrupted and had reported anything; so they are for all accepted evidence. |
| `PilotReport.ReturningSessionIsCountedTwice` | evaluation/pilot/report.py:191-199 | A three-day history that validation refuses and the totals would count twice. |
| `PilotReport.TotalsGrowExactly` | evaluation/pilot/report.py:341-352 | The running total never falls as days are added if and only if the counter never falls within a session. |
| `PilotReport.ReportingMoreNeverLowers` | evaluation/pilot/report.py:332-358 | Further accepted days of one participant lower no counter summed over all participants (the connected ratio, a quotient of two of them, may fall). |
| `PilotReport.AggregatesStayConsistent` | evaluation/pilot/report.py:138-146 | When every daily summary is consistent, total connected time is at most total uptime, the ratio is in [0, 1] before and after rounding, and evaluated observations are at most parsed messages. |
| `PilotReport.DropsAgreeWithTotal` | evaluation/pilot/report.py:325-329 | For accepted evidence some day reports drops if and only if the aggregated drop counter is positive. |

## Left out

- CPR zone count: the trigonometric formula of `calc_nl` is an arbitrary function of the latitude; nothing proved depends on its values beyond being at least 1 (at most 60 for `LocalDecodeAccepts`).
- Floating point: CPR and the replay clock use exact reals; whole times are integers of microseconds; rounding of measurements in evidence and snapshots is not modelled.
- Gillham altitudes, DF11 and other downlink formats that the decoder itself cannot fully validate.
- Identifiers and hashes: UUID5 ids of evidence and events are injective constructors, a track id is an arbitrary function of the observation, SHA-256 checks are absent.
- JSON: an abstract encoder and parser that are inverse and free of line ends; everything else a line may hold is arbitrary.
- Evaluators: the pair and window kinematics, and with them WindowPolicy's contents, are arbitrary functions; measured values are one number each.
- Evidence in a snapshot is a set: the order of the reported list and the `snapshots()` listing are not modelled.
- Closing of evidence on purge or eviction: the engine sends no events for it, and neither does the model.
- Track keys of alert events are single strings in place of tuples; the reported subset of the key is not modelled.
- Calibration percentiles and rates: expressions over the modelled totals.
- Concurrency: lock-protected methods are atomic steps, a fetch is atomic, and overlapping OpenSky fetches are not modelled.
- Clock readings that only enter a returned status are not modelled.
- Looping: the wait that ends in a restart is the caller's; a command that arrives while COMPLETED is a step like any other.
- Modification times are whatever the file system reports, a function of the segment; how a write sets them is not modelled.
- Segment names: numbers up to 99,999,999, for which sorting names is sorting numbers; files that do not carry a number are not modelled.
- Crashes inside recovery, and cuts of bytes that had been synced.
- StoreSimulation.StoreIsIndexMachine: segments disappear oldest first, as they do when modification times ascend (`AscendingTimesAgeInOrder`); quarantine, or altered modification times, can remove one from the middle, which `QuarantineRepeatsAnId` shows is different.
- Store queries (`query`, `_matches`): filters over the recovered records.
- Retry headers are nonnegative integers or absent; the OpenSky token request, parsing of states, units and cache keys are not modelled, and neither is overflow of very long backoffs.
- RateLimiter storage for clients that never return, and proxies that hide the client address.
- Pilot summaries: pattern and range checks of the fields, the parse-failure and stored-event maps, day numbering, and the success criteria other than drops.
- Restarts between events: `StoreKeepsFirstOfEachId` is about a store that stays up; a restart rebuilds the index as `RebuiltIsStoreIndex` says.
- HTTP, MQTT and WebSocket servers, FastAPI routes, persistence, the agent, ML baselines, frontend and scripts.
