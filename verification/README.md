# GemaCast in Dafny

A model, with machine-checked proofs, of the parts of GemaCast whose behaviour is hard to see from
reading one function: the phone-side jitter pipeline (reorder buffer, network statistics, playback
callbacks) and five smaller algorithms (crash-log clock, capture resampler, trusted-device store,
device-auth transcript, stereo carry). `dafny verify dfyconfig.toml` checks the whole project
(Dafny 4.11).

Each stateful component appears twice. A plain value with functions on it says what the component
*is* (a finite map with a playhead, a vector of masses, a list of per-second maxima, a record of
counters). A class with the source's own fields, loops and in-place updates is proved to take
exactly the steps of that value. The properties are then lemmas about the value, over every input,
every state or every run.

The class methods that only take the step of their value are not listed below one by one: all of
`PlaybackLifecycle.PlaybackFlow`, and in `JitterManager.JitterBufferManager` the phases of a callback
(configuration, no-buffer, startup and static flush, prebuffering, playing, shedding, missing, reset).
Their contracts equate the new state with the function of the same name; what is proved of it is in
the rows of that function's lemmas.

| file | content |
|---|---|
| `ReorderRing`, `JitterBuffer` | the 512-slot reorder buffer: value, and slot array in place |
| `RingRuns`, `RingCache` | runs of the buffer: order, provenance, bursts; the cached minimum |
| `DelayHistogram`, `HistogramAging` | one histogram update; runs of samples |
| `RelativeDelay`, `GapWindow` | the floored running sum; the 24-second gap window |
| `JitterStats`, `NetworkObserver` | arrivals end to end: value, and arrays in place |
| `FlowState`, `PlaybackFlow` | playback counters, concealment window, recovery guard |
| `PlaybackStep`, `JitterManager` | one frame callback: value, and in place |
| `PlaybackRuns`, `PlaybackSessions` | what one callback and whole sessions guarantee |
| `CallbackOutcomes`, `PlaybackHolds` | depth, ending and every counter of a callback as a table; holds, releases and waits over sessions |
| `PlaybackGuards`, `StarvationStorm` | the recovery guard and the under-delivery hold over sessions; a session that keeps the guard shut |
| `PlaybackLedger`, `FlushDecoding` | where every packet ends up; what a flush decodes |
| `PacketIngest`, `JointSessions` | draining the network's channel; packets, callbacks and resets of the statistics together |
| `CrashClock`, `Chunking`, `CaptureResampler`, `TrustStore`, `AuthTranscript`, `StereoCarry` | the smaller algorithms |

## Where the code and its comments disagree

The model follows the code. Four statements made in comments are not true of it; each has a
concrete run that shows it and the exact condition under which it holds.

- `lowest_available_seq` is documented as the lowest sequence number in the buffer
  (gemacast-core/src/jitter/buffer.rs:28-30, 223-224). `insert` (line 87) treats an invalidated cache
  as an empty buffer, so the answer can be a later packet, and the fast-forward over a hole then
  drops the packets before it. `RingCache.MinimumIsMissed` is a run of five operations; an insert keeps
  the cache exact if and only if it does not file a packet under an invalid cache above an older
  resident (`StepExactness`, `RunExactness`); the repaired insert is exact on every run and changes
  nothing else (`RepairedIsExact`).
- The recovery guard is documented to guarantee that the stretch actuators come back
  (gemacast-core/src/jitter/flow.rs:243-257). A window that is found expired on a callback which
  itself recovers from a starvation is re-armed on the spot. A session holds the actuators off for its
  whole length if and only if every callback on which a window falls due, at least 500 ms after the one
  before it opened, is the first to play after a starvation (`PlaybackGuards.StretchingStaysOff`, for
  any callback times). `StarvationStorm.GuardCanLatch` is such a session from a new player, of any
  length: packets every 10 ms, one starved callback every half second.
- The flush is documented to decode every skipped packet
  (gemacast-core/src/jitter/manager.rs:2007-2010). After a hole it drops the next packet undecoded
  (`FlushDecoding.FlushSkipsTheDecoder`); it decodes a packet it removes if and only if the run of holes
  just below that packet is of even length (`FlushDecodesExactly`), and all of them if and only if that
  holds of each (`FlushDecodesAll`).
- The ledger of the log line (gemacast-core/src/jitter/manager.rs:410-414) counts the numbers skipped at
  holes as packets, and knows neither duplicates nor packets that are cleared unseen. In every session
  it balances if and only if the holes jumped are together as wide as there are duplicates, growth of
  the buffer, and packets lost at a hole, a reset, a restart or a far-ahead skip
  (`PlaybackLedger.DocumentedLedgerExactly`); so a session without duplicates, losses and growth balances
  it if and only if no callback jumps across a hole (`DocumentedLedgerByHoles`). One lost packet is
  enough to upset it (`LostPacketIsNotInTheLedger`). `LedgerCloses` is the ledger that balances in every
  session.

Also modelled as the code has it: the histogram seed sums to 2^30 - 1
(`DelayHistogram.SeedIsOneShort`) and is wiped by the first in-range sample; a prebuffering hold counts a miss only on an empty ring.

## Model

| member | source | states |
|---|---|---|
| SlotBuffer.JitterBuffer.constructor | gemacast-core/src/jitter/buffer.rs:40-56 | a new buffer is empty and uninitialised |
| SlotBuffer.JitterBuffer.Insert | gemacast-core/src/jitter/buffer.rs:59-94 | accept, duplicate, stale, far-ahead skip and restart act on the slots as the map operation of the ring, with the matching result |
| SlotBuffer.JitterBuffer.PopNext | gemacast-core/src/jitter/buffer.rs:101-132 | takes the packet at the playhead or steps over a hole; the branch for a wrong packet in the slot is dead |
| SlotBuffer.JitterBuffer.AdvanceOne | gemacast-core/src/jitter/buffer.rs:134-145 | moves the playhead by one and drops exactly the packet there, if any |
| SlotBuffer.JitterBuffer.OccupiedCount | gemacast-core/src/jitter/buffer.rs:147-153 | the O(1) counter is the number of resident packets |
| SlotBuffer.JitterBuffer.HasNext | gemacast-core/src/jitter/buffer.rs:155-164 | true exactly when the packet at the playhead is resident |
| SlotBuffer.JitterBuffer.ContiguousDepth | gemacast-core/src/jitter/buffer.rs:166-182 | the full scan of the window agrees with the counter and with the number of residents |
| SlotBuffer.FilledIsResident | gemacast-core/src/jitter/buffer.rs:166-182 | any prefix of the window has as many filled slots as residents |
| SlotBuffer.JitterBuffer.SkipTo | gemacast-core/src/jitter/buffer.rs:184-205 | leaves exactly the packets at or beyond the new playhead, whichever of its two branches clears the slots; a target behind the playhead rewinds and clears nothing, and the buffer stays valid if and only if its ring is well-formed |
| SlotBuffer.JitterBuffer.Reset | gemacast-core/src/jitter/buffer.rs:207-216 | back to the empty buffer |
| SlotBuffer.JitterBuffer.LowestAvailableSeq | gemacast-core/src/jitter/buffer.rs:223-238 | answers the cache when valid, else the least resident of the full scan, and caches it |
| SlotBuffer.JitterBuffer.FastForward | gemacast-core/src/jitter/buffer.rs:240-248 | the same for any target |
| ReorderRing.SkipKeeps | gemacast-core/src/jitter/buffer.rs:184-205 | a skip forward always leaves a well-formed ring, a rewind if and only if every resident is within 512 of the new playhead |
| ReorderRing.SlotIsUnique | gemacast-core/src/jitter/buffer.rs:81-86 | two sequence numbers of one window never share a slot |
| RingRuns.ReachableIsWellFormed | gemacast-core/src/jitter/buffer.rs:59-216 | after any run every resident lies within 512 of the playhead under its own number, and a cached minimum is the number of a packet still resident |
| RingRuns.DeliveryIsOrdered | gemacast-core/src/jitter/buffer.rs:59-132 | between restarts delivered numbers strictly increase, so none is delivered twice |
| RingRuns.InsertResidents | gemacast-core/src/jitter/buffer.rs:59-94 | an arrival, number by number: rejected one to 512 behind the playhead, a restart further behind, a skip to 256 before it 512 or more ahead, filed in place otherwise; who is resident after each |
| RingRuns.FirstInsert | gemacast-core/src/jitter/buffer.rs:59-66 | the first packet sets the playhead to its own number |
| RingRuns.CacheAfter | gemacast-core/src/jitter/buffer.rs:84-216 | what each operation leaves in the cached minimum |
| RingRuns.ResidentIsLatest | gemacast-core/src/jitter/buffer.rs:59-132 | over every history with any restarts a resident packet is the latest one offered under its number |
| RingRuns.PoppedIsLatest | gemacast-core/src/jitter/buffer.rs:101-115 | a popped packet sits at the playhead and is the latest one offered under its number |
| RingRuns.BurstIsReordered | gemacast-core/src/jitter/buffer.rs:14-18 | any permutation of up to 512 consecutive numbers that starts with the first comes back in order, complete |
| RingCache.StepExactness | gemacast-core/src/jitter/buffer.rs:77-87 | one operation keeps an exact cache exact if and only if it is not an insert under an invalid cache above an older resident |
| RingCache.RunExactness | gemacast-core/src/jitter/buffer.rs:28-30 | the cache is exact throughout a run if and only if no insert of it is of that kind |
| RingCache.LowestAnswer | gemacast-core/src/jitter/buffer.rs:225-238 | the query answers a resident at or beyond the playhead, the least one if and only if the cache is exact |
| RingCache.FastForwardCost | gemacast-core/src/jitter/manager.rs:1168-1197 | fast-forwarding to the answer never rewinds, finds a packet, and drops no resident if and only if the cache is exact |
| RingCache.MinimumIsMissed | gemacast-core/src/jitter/buffer.rs:87 | 5, 7, 8 inserted, 5 popped, 9 inserted: the query answers 9 while 7 is resident |
| RingCache.RepairedIsExact | gemacast-core/src/jitter/buffer.rs:223-238 | with an insert that leaves an invalidated cache alone the query is the true minimum on every run, and nothing but the cache differs |
| DelayHistogram.SeedIsWellFormed | gemacast-core/src/jitter/stats.rs:197-209 | the start target of four frames is the exact 95% quantile of the seed |
| DelayHistogram.SeedIsGeometric | gemacast-core/src/jitter/stats.rs:197-206 | bin i of the seed holds 2^(29-i), and nothing beyond bin 29 |
| DelayHistogram.SeedIsOneShort | gemacast-core/src/jitter/stats.rs:197-206 | so the seed sums to 2^30 - 1 |
| DelayHistogram.DriftBound | gemacast-core/src/jitter/stats.rs:292-304 | the rounding drift of an update is between -64 and 0 |
| DelayHistogram.RepairIsExact | gemacast-core/src/jitter/stats.rs:303-315 | the repair loop restores the mass to exactly 2^30 and takes nothing from any bin |
| DelayHistogram.RepairInClosedForm | gemacast-core/src/jitter/stats.rs:304-315 | each bin takes a sixteenth of itself of what the bins before it left of the missing mass, and no more |
| DelayHistogram.UpdateRemembers | gemacast-core/src/jitter/stats.rs:292-315 | each bin keeps its mass times the factor, the sampled one gains 2^30 less the factor in Q30, up to one unit lost and 64 gained |
| DelayHistogram.FactorStep | gemacast-core/src/jitter/stats.rs:317-318 | each sample closes a quarter of the gap between the factor and 32711, rounded up |
| DelayHistogram.UpdateKeeps | gemacast-core/src/jitter/stats.rs:292-332 | every in-range update leaves non-negative bins of mass exactly 2^30 and their exact quantile as target |
| DelayHistogram.QuantileIsExact | gemacast-core/src/jitter/stats.rs:320-332 | the walk returns the least bin above which at most 5% of the mass lies; the bound on the index never decides |
| HistogramAging.FeedKeeps | gemacast-core/src/jitter/stats.rs:242-333 | the same over every run of in-range and out-of-range samples |
| HistogramAging.OutsideShrinks | gemacast-core/src/jitter/stats.rs:292-315 | one sample shrinks the mass outside a range of bins by the factor, up to one unit per bin of the range |
| HistogramAging.NoLatching | gemacast-core/src/jitter/stats.rs:7-12 | from any state, 1980 in-range samples within bins lo..hi bring the target into lo..hi and keep it there, whatever out-of-range samples are mixed in |
| HistogramAging.FreshFollows | gemacast-core/src/jitter/stats.rs:197-209 | out of a fresh seed one in-range sample within lo..hi already brings the target there, and it stays |
| HistogramAging.FactorReachesSteady | gemacast-core/src/jitter/stats.rs:317-318 | the factor never overshoots 32711 and reaches it within 34 samples from any state |
| RelativeDelay.RunningIsGreatestSuffix | gemacast-core/src/jitter/stats.rs:220-233 | the floored running sum is the greatest suffix sum, the empty one included |
| RelativeDelay.Truncation | gemacast-core/src/jitter/stats.rs:539-549 | whole milliseconds make a packet look earlier, by less than a tenth of a frame, and on whole-millisecond times not at all |
| RelativeDelay.RelativeDelayIsGreatestLateness | gemacast-core/src/jitter/stats.rs:539-563 | on any stretch in time order, reordered or not, the relative delay is the greatest measured lateness of the newest packet against any packet in, or just before, the window of 100: never more, and less by at most the truncation of the packets in between; exactly that on whole milliseconds |
| RelativeDelay.MeasuredIsWithin | gemacast-core/src/jitter/stats.rs:529-538 | leaving reordered packets unmeasured can only lower the lateness; in order it is the difference of arrival times less one frame per number |
| GapWindow.WindowRefinesLog | gemacast-core/src/jitter/stats.rs:417-440 | after any log at non-decreasing times the maximum of age a is the largest clamped gap of the second a before the current one, also after long silences |
| GapWindow.WeightIsWorth | gemacast-core/src/jitter/stats.rs:95-104 | what a gap is worth, exactly: capped at 120 frames, in full to an age of eight seconds, (17/20)^(age - 8) of it after |
| GapWindow.PeakBoundsRecentGaps | gemacast-core/src/jitter/stats.rs:442-464 | every gap of the last 24 seconds is worth at most the peak, and less when younger than the reported age |
| GapWindow.PeakIsAttained | gemacast-core/src/jitter/stats.rs:489-516 | a positive peak is what some gap of exactly the reported age is worth |
| GapWindow.LoneGapIsThePeak | gemacast-core/src/jitter/stats.rs:491-516 | a single gap of any age in the window is the peak, at exactly what it is worth and at its own age |
| GapWindow.OldGapsDoNotMatter | gemacast-core/src/jitter/stats.rs:55-58 | changing a gap older than the window changes nothing |
| JitterStats.StretchIsMeasured | gemacast-core/src/jitter/stats.rs:529-564 | along any stretch in time order exactly the packets ahead of their predecessor add their own excess to the history |
| JitterStats.DelayIsFiledOrDiscarded | gemacast-core/src/jitter/stats.rs:263-292 | a delay below zero or of 65 frames and more leaves bins, factor and target as they are; any other is filed under its whole frames |
| JitterStats.TooLateCountsForNothing | gemacast-core/src/jitter/stats.rs:263-292 | a packet 65 frames or more late against some packet of its window leaves bins, factor and target as they are |
| JitterStats.DroppedExactly | gemacast-core/src/jitter/stats.rs:529-548 | a packet is dropped exactly when it would be measured and the clock ran backwards |
| JitterStats.DroppedLeaveNoTrace | gemacast-core/src/jitter/stats.rs:525-548 | the statistics of any run are those of the packets it keeps |
| JitterStats.TargetFollowsTheLink | gemacast-core/src/jitter/stats.rs:7-12 | whatever was observed before, 1980 packets measured behind a first 99 and less than 65 frames late, at any nanosecond times in order and with reordered, repeated and lost packets, resumed streams and packets of 65 frames and more mixed in, bring the percentile target into the range in which their lateness within the window lies |
| JitterStats.TargetFollowsTheSchedule | gemacast-core/src/jitter/stats.rs:7-12 | in arrival times alone: when the stream does not resume and no measured packet comes more than d frames later, relative to schedule, than a packet before it, the target comes down to d |
| JitterStats.TargetFollowsAfterReset | gemacast-core/src/jitter/stats.rs:745-774 | from either reset on, one measured packet less than 65 frames late is enough |
| JitterStats.RestartForgetsThePacket | gemacast-core/src/jitter/stats.rs:745-759 | the packet after a restart is never measured |
| JitterStats.ConfigChangeKeepsThePacket | gemacast-core/src/jitter/stats.rs:761-774 | the packet after a changed configuration is measured or dropped against the last one before it, as it would have been |
| JitterStats.StretchRecordsSilences | gemacast-core/src/jitter/stats.rs:566-573 | from a new start or a restarted stream the gap window of a stretch in time order is that of the raw silences before its measured packets |
| JitterStats.StretchWindowRefinesSilences | gemacast-core/src/jitter/stats.rs:417-440 | so at every age the window holds the largest clamped silence of its second |
| NetworkObserver.JitterStats.constructor | gemacast-core/src/jitter/stats.rs:169-195 | new statistics are the seeded, empty ones |
| NetworkObserver.JitterStats.ResetHistogramToSeed | gemacast-core/src/jitter/stats.rs:201-209 | the halving loop fills in the seed |
| NetworkObserver.JitterStats.UpdateDelayHistory | gemacast-core/src/jitter/stats.rs:213-218 | pushes one excess and keeps the last 100 |
| NetworkObserver.JitterStats.RelativePacketArrivalDelay | gemacast-core/src/jitter/stats.rs:227-233 | the loop computes the floored running sum |
| NetworkObserver.JitterStats.UpdateIatHistogram | gemacast-core/src/jitter/stats.rs:242-333 | the in-place loops make exactly one update, or change nothing for a delay below zero or of 65 frames and more, and keep the histogram well-formed |
| NetworkObserver.JitterStats.RecordGap | gemacast-core/src/jitter/stats.rs:417-440 | the rotating bucket array takes exactly the step of the age-ordered window |
| NetworkObserver.JitterStats.WeightedGapPeak | gemacast-core/src/jitter/stats.rs:491-516 | the scan finds the weighted peak and the youngest age that attains it |
| NetworkObserver.JitterStats.Observe | gemacast-core/src/jitter/stats.rs:529-573 | one arrival: measured, merely noted, or dropped because the clock ran backwards |
| NetworkObserver.JitterStats.ResetOnStreamRestart | gemacast-core/src/jitter/stats.rs:745-759 | everything is seeded afresh except the last arrival time |
| NetworkObserver.JitterStats.ResetOnConfigChange | gemacast-core/src/jitter/stats.rs:761-774 | everything is seeded afresh except the last arrival and sequence number |
| FlowState.WindowVerdict | gemacast-core/src/jitter/flow.rs:159-189 | the verdict is about exactly the last 50 callbacks, rebuffers exactly at half of them concealed, and leaves an empty window |
| FlowState.SuppressedExactly | gemacast-core/src/jitter/flow.rs:232-263 | at any callback times, the guard is on throughout a run if and only if every callback on which a window falls due recovers from a starvation |
| FlowState.DueIsSpaced | gemacast-core/src/jitter/flow.rs:243-251 | a window falls due exactly 500 ms after the one before it: recoveries inside it never extend it, and none lasts longer |
| FlowState.StretchAllowedExactly | gemacast-core/src/jitter/flow.rs:258-263 | stretching is allowed exactly when no window was opened in the last 500 ms |
| FlowState.EpisodeCensus | gemacast-core/src/jitter/flow.rs:210-230 | over any onsets only the first is reported as one, and closing reports their number and the time since the first |
| PlaybackGuards.GuardOfCallback | gemacast-core/src/jitter/manager.rs:1214-1245 | a callback steps the guard by its time and by whether it recovers from a starvation, and by nothing else |
| PlaybackGuards.StretchingStaysOff | gemacast-core/src/jitter/flow.rs:253-257 | over a whole session no callback may stretch if and only if every callback that comes when a window is due is the first to play after a starvation |
| StarvationStorm.OpeningStorms | gemacast-core/src/jitter/manager.rs:1728-1771 | a new player is led into the storm by one packet played and one starved callback |
| StarvationStorm.GuardCanLatch | gemacast-core/src/jitter/flow.rs:253-257 | from there, arrivals every 10 ms with one starved callback every half second keep the actuators off for any length of session |
| PlaybackGuards.DeficitHoldsThePlayhead | gemacast-core/src/jitter/manager.rs:1777-1837 | wherever a session begins, if among its first 99 callbacks every 50 in a row conceal at least 25, some callback leaves the playhead held |
| PlaybackStep.FlushIsSuffix | gemacast-core/src/jitter/manager.rs:2028-2036 | the flush loop ends, whatever the holes, with exactly the requested depth, as the ring seen from a later playhead |
| PlaybackRuns.FlushIsExact | gemacast-core/src/jitter/manager.rs:2011-2036 | a flush keeps exactly the largest numbers and the discard counter grows by exactly the number removed |
| FlushDecoding.RemovedIsBelowPlayhead | gemacast-core/src/jitter/manager.rs:2030-2036 | the removed packets are those of lowest rank, known before the call |
| FlushDecoding.FlushDecodesExactly | gemacast-core/src/jitter/manager.rs:2007-2036 | a flush decodes a resident if and only if it removes it and the run of holes just below it is of even length |
| FlushDecoding.FlushDecodesAll | gemacast-core/src/jitter/manager.rs:2007-2036 | so it decodes as many packets as it removes if and only if each is preceded by an even number of holes |
| FlushDecoding.FlushSkipsTheDecoder | gemacast-core/src/jitter/manager.rs:2030-2036 | 4, 6 and 7 inserted, 4 popped, flushed down to one: packet 6 is removed and nothing is decoded |
| PlaybackRuns.GapMoves | gemacast-core/src/jitter/manager.rs:1161-1197 | the step over a hole counts its width, positive if and only if it jumps, and loses exactly the residents before the number it jumps to, none when the cache is exact |
| PlaybackRuns.CallbackMovesRing | gemacast-core/src/jitter/manager.rs:747-781 | whatever the cache holds and whether or not it resets, a callback accounts for every packet gone from the ring: played, staged, shed or flushed, each in its own counter, or lost at a hole or to a reset; without a reset the ring is seen from a later playhead and residents are taken in order, those played before those shed |
| CallbackOutcomes.PreparedDepth | gemacast-core/src/jitter/manager.rs:787-890 | before the hold is decided a changed configuration leaves at most one and a half new targets and no-buffer mode at most one packet over the target |
| CallbackOutcomes.DepthAtHole | gemacast-core/src/jitter/manager.rs:897-1159 | a callback goes on exactly when the playhead does not wait for either depth, and then with exactly the depth the release, the startup flush and the static target allow |
| CallbackOutcomes.CrossesExactly | gemacast-core/src/jitter/manager.rs:1161-1197 | a hole is crossed exactly when it was waited for twice (five times on 2.4 GHz), in no-buffer mode, or when its far end is more than 20 ahead |
| CallbackOutcomes.OutcomeIs | gemacast-core/src/jitter/manager.rs:747-781 | how a callback ends, from the depth, the hole and the misses: held, played, starved, waiting at a hole, or reset |
| CallbackOutcomes.CountersByOutcome | gemacast-core/src/jitter/manager.rs:1200-1853 | every counter of the life cycle, the concealment window, the hold, the countdown and the episode move by how the callback ended and by nothing else |
| CallbackOutcomes.FlagsByOutcome | gemacast-core/src/jitter/manager.rs:1124-1197 | the startup flush stays pending while callbacks wait, a fade-in until a packet is played or the stream reset, and jumps are counted |
| CallbackOutcomes.CallbackTakes | gemacast-core/src/jitter/manager.rs:1312-1440 | a callback that plays takes exactly what its splice asks for of the packets right behind, and nothing within 500 ms of a recovery |
| CallbackOutcomes.StaleIsMeasured | gemacast-core/src/jitter/manager.rs:700-712 | a stale packet lies 1 to 512 behind the playhead and is counted with that lag; no other is counted |
| PlaybackHolds.EmptyBufferHolds | gemacast-core/src/jitter/manager.rs:1728-1771 | on an empty buffer a free playhead is held after n callbacks if and only if n is five or more, the window turned bad, the misses were used up or the configuration changed |
| PlaybackHolds.HeldUntilDeep | gemacast-core/src/jitter/manager.rs:897-1113 | once held, no callback plays until one finds both the resume depth and the minimum depth |
| PlaybackHolds.NewPlayerWaits | gemacast-core/src/jitter/flow.rs:105-121 | a new player waits like that from its first callback on, its startup flush pending |
| PlaybackHolds.ReleasedWhenDeep | gemacast-core/src/jitter/manager.rs:897-1092 | a callback that finds both depths is not held |
| PlaybackHolds.CountersOfSession | gemacast-core/src/jitter/manager.rs:1200-1853 | over any session the runs of concealment, of starvation and of waiting at a hole are read off the outcomes |
| PlaybackHolds.HoleIsCrossedOnTime | gemacast-core/src/jitter/manager.rs:41-58 | from a new player a hole of up to 20 numbers is crossed on the callback after exactly two that waited, on 2.4 GHz five; a wider one, or any in no-buffer mode, at once |
| PlaybackHolds.OutageLasts | gemacast-core/src/jitter/manager.rs:671-679 | an outage is borne for 300 callbacks on 2.4 GHz, 200 on an unknown link, 100 on any other; the next one resets the stream |
| PlaybackHolds.CountdownRuns | gemacast-core/src/jitter/flow.rs:232-241 | without another recovery the countdown falls by one on every callback |
| PlaybackSessions.CallbackKeepsSteady | gemacast-core/src/jitter/manager.rs:747-781 | after every callback the hold is below the ordinary tolerance of the link and the misses within its limit; a callback that waits at a hole leaves the hold below the tolerance of its own mode, so in no-buffer mode none waits |
| PlaybackSessions.HoleWaitIsBounded | gemacast-core/src/jitter/manager.rs:1161-1197 | among three callbacks in a row, six on 2.4 GHz, one in no-buffer mode, each playing or waiting at a hole, one plays, whatever arrives in between |
| PlaybackSessions.EmptyCallback | gemacast-core/src/jitter/manager.rs:1095-1113 | on an empty ring a callback counts exactly one miss, held or not, or resets at the limit |
| PlaybackSessions.OutageReachesReset | gemacast-core/src/jitter/manager.rs:1839-1853 | in an outage the stream reset fires on callback limit - count + 1 and on none before |
| PlaybackSessions.SessionIsOrdered | gemacast-core/src/jitter/manager.rs:747-781 | between restarts a session takes strictly increasing sequence numbers, across flushes, skips and splices |
| PlaybackSessions.ResidentsAreLatestArrivals | gemacast-core/src/jitter/manager.rs:689-716 | over a whole session a resident packet is the latest arrival under its number |
| PlaybackLedger.LedgerCloses | gemacast-core/src/jitter/manager.rs:405-420 | in every session, with either insert, each arrival is resident, played, staged, shed, flushed, stale, a duplicate, or lost at a hole, a reset, a restart or a far-ahead skip, and counted once |
| PlaybackLedger.NothingIsLostAtHoles | gemacast-core/src/jitter/buffer.rs:223-238 | with the repaired insert no session loses a packet at a hole and the cached minimum stays exact; with the insert as written none does in which no arrival masks an older packet |
| PlaybackLedger.DocumentedLedgerExactly | gemacast-core/src/jitter/manager.rs:410-414 | in every session the documented ledger holds if and only if the holes jumped are together as wide as there are duplicates, growth of the buffer and packets lost |
| PlaybackLedger.DocumentedLedgerByHoles | gemacast-core/src/jitter/manager.rs:410-414 | without duplicates, losses and growth it holds if and only if no callback jumps across a hole |
| PlaybackLedger.LostPacketIsNotInTheLedger | gemacast-core/src/jitter/manager.rs:410-414 | 0 and 2 arrive and are played, 1 is lost: the documented ledger is one short |
| PacketIngest.IngestIsBoth | gemacast-core/src/jitter/manager.rs:689-716 | draining the channel is the observer's run over all packets and the player's session over the kept ones |
| PacketIngest.TimelyPacketsAreKept | gemacast-core/src/jitter/manager.rs:689-698 | packets in time order are all offered to the ring |
| JointSessions.PlayerIsInSession | gemacast-core/src/jitter/manager.rs:689-781 | in any session of packets and callbacks over both, the player lives through a session of its own |
| JointSessions.DrainIsLive | gemacast-core/src/jitter/manager.rs:689-716 | draining a channel is such a session |
| JointSessions.CallbackOnStats | gemacast-core/src/jitter/manager.rs:787-820 | a callback leaves the statistics alone but for a changed configuration or a reset, and only a reset forgets the packet the next is measured against |
| JointSessions.StatsSinceReset | gemacast-core/src/jitter/manager.rs:2053-2077 | the statistics are those of the packets observed since their last reset, by a restarted stream or a changed configuration |
| JointSessions.TargetFollowsThroughResets | gemacast-core/src/jitter/stats.rs:7-12 | in any such session with a reset, the target lies in the range in which the lateness of the packets measured since the last reset lies, from the first of them on that is less than 65 frames late |
| JointSessions.TargetFollowsThroughSession | gemacast-core/src/jitter/stats.rs:7-12 | and without one, 1980 packets that count bring it there |
| JitterManager.JitterBufferManager.IngestPackets | gemacast-core/src/jitter/manager.rs:689-716 | the loop shows every packet to the observer, files those it keeps and counts the stale ones with their lag |
| JitterManager.JitterBufferManager.ProcessNextFrame | gemacast-core/src/jitter/manager.rs:747-781 | the phases run in the source's order, the in-place state takes exactly the step of the value, and the statistics are reset exactly on a changed configuration and on a stream reset |
| JitterManager.JitterBufferManager.TriggerReset | gemacast-core/src/jitter/manager.rs:2053-2077 | empties the ring, closes the episode, restarts the life cycle and resets the statistics |
| JitterManager.JitterBufferManager.TryFastForwardOverGap | gemacast-core/src/jitter/manager.rs:1161-1197 | waits at a hole, or jumps when the tolerance is spent or the far end is more than 20 ahead; the query always answers |
| JitterManager.JitterBufferManager.DrainTo | gemacast-core/src/jitter/manager.rs:2028-2036 | the flush loop ends, leaves exactly the flush of the ring and has decoded exactly its packets |
| CrashClock.EpochToUtc | gemacast-pc/src/crash_log.rs:173-208 | for every epoch second the loops end with the one valid Gregorian date and time whose POSIX seconds it is |
| CrashClock.SecondsDetermineUtc | gemacast-pc/src/crash_log.rs:173-208 | the POSIX formula is injective on valid dates from 1970 |
| CrashClock.DaysBeforeNextYear | gemacast-pc/src/crash_log.rs:180-189 | the closed form of days before a year grows by that year's days, so it equals the year loop |
| CrashClock.MonthsAddUp | gemacast-pc/src/crash_log.rs:190-204 | the months add up to the days before each month of an ordinary and of a leap year |
| Chunking.CutOn | gemacast-core/src/audio/resampler.rs:158-249 | cutting what is left over together with the next input goes on where the last cut stopped |
| CaptureResampling.CaptureResampler.New | gemacast-core/src/audio/resampler.rs:64-123 | no channels, a zero rate, a kernel that cannot be constructed and degenerate chunk sizes are refused, and nothing else; the output buffer is sized for the largest call |
| CaptureResampling.CapacityIsLeast | gemacast-core/src/audio/resampler.rs:97-103 | the buffer holds the frames of 61,440 samples, converted and rounded up, and one more chunk, and no more |
| CaptureResampling.CaptureResampler.ProcessInterleaved | gemacast-core/src/audio/resampler.rs:151-252 | the kernel gets the whole blocks in order up to the cap, the rest is kept, a failure keeps everything from the failing chunk on, output never overruns its buffer, and the buffer grows by eight times what a chunk announced for each that found less room |
| CaptureResampling.GrownExactly | gemacast-core/src/audio/resampler.rs:202-217 | so it grows at all if and only if some chunk found less room than announced |
| CaptureResampling.CapIsTight | gemacast-core/src/audio/resampler.rs:162-195 | the cap is two more than the chunks of 61,440 samples, rounded up |
| CaptureResampling.RunIsOneCall | gemacast-core/src/audio/resampler.rs:139-146 | over any run of calls the kernel sees the blocks of what was kept and the concatenated input, however it was cut |
| CaptureResampling.RunLosesNothing | gemacast-core/src/audio/resampler.rs:139-146 | blocks followed by the remainder are what was kept and all inputs, and the remainder is less than a chunk |
| CaptureResampling.CapIsNeverReached | gemacast-core/src/audio/resampler.rs:162-195 | on inputs of at most 61,440 samples the iteration cap never fires |
| CaptureResampling.BufferSuffices | gemacast-core/src/audio/resampler.rs:97-103 | on inputs within the design bound the buffer sized at construction always has room, for any chunk and output sizes, when the kernel keeps pace with the rates and little is pending |
| CaptureResampling.DesignHasRoom | gemacast-core/src/audio/resampler.rs:97-103 | a kernel that never runs ahead of its input, announces no more than at construction and owes no more frames than the largest call leaves room for never lacks room, over any run of calls, for any channel count and chunk size |
| CaptureResampling.ConvertAll | gemacast-core/src/audio/resampler.rs:125-252 | from any remainder, any number of calls within the design bound hand on the blocks of the remainder and the concatenated input and keep the rest, the outputs are the kernel's end to end, and the buffer never grows when every call has room |
| TrustStore.RunAgrees | gemacast-pc/src/trusted_devices.rs:50-199 | under any operations, save failures and restarts, memory is a sub-map of the disk, what only the disk holds is revoked, and nothing is revoked and listed at once |
| TrustStore.TrustMeans | gemacast-pc/src/trusted_devices.rs:132-173 | a trust succeeds on a bound store that saves; then exactly the given key of the device is trusted, now and after a restart, and no other device is affected |
| TrustStore.BindMeans | gemacast-pc/src/trusted_devices.rs:87-107 | another identity leaves nothing trusted, now and after a restart; the same one or a failed save changes nothing |
| TrustStore.ForgetMeans | gemacast-pc/src/trusted_devices.rs:175-198 | forgetting ends the trust of one device at once, of no other, and is refused for one neither listed nor revoked |
| TrustStore.TrustedStaysTrusted | gemacast-pc/src/trusted_devices.rs:50-198 | a trusted device stays trusted through restarts, failed saves and other devices' changes, until it is forgotten, trusted with another key or another identity is bound |
| TrustStore.RestartTrusts | gemacast-pc/src/trusted_devices.rs:50-67 | a restart would trust exactly what is trusted now and what is revoked only in memory |
| TrustStore.SavedChangeSurvives | gemacast-pc/src/trusted_devices.rs:87-198 | after a saved change a restart changes no trust |
| TrustStore.ForgottenStaysUntrusted | gemacast-pc/src/trusted_devices.rs:175-198 | a device is untrusted from forget on, saved or not, until it is trusted again |
| TrustStore.SavedRemovalIsFinal | gemacast-pc/src/trusted_devices.rs:175-198 | once a removal is saved nothing but a successful trust brings the device back, restarts and failed trusts included |
| TrustStore.TrustedDeviceStore.BindPcIdentity | gemacast-pc/src/trusted_devices.rs:87-107 | a new fingerprint clears the list; a failed save restores exactly the prior state |
| TrustStore.TrustedDeviceStore.Trust | gemacast-pc/src/trusted_devices.rs:132-173 | lists the device, trusts exactly its key and lifts its revocation; a failed save restores exactly the prior state |
| TrustStore.TrustedDeviceStore.Forget | gemacast-pc/src/trusted_devices.rs:175-198 | removes the device, keeps it revoked while unsaved, and tells an unknown device apart |
| AuthTranscript.BuildDeviceAuthTranscript | gemacast-core/src/control/device_auth.rs:14-41 | builds the encoding, which parses back to exactly its eight fields; fails exactly when a field is too large |
| AuthTranscript.TranscriptLayout | gemacast-core/src/control/device_auth.rs:14-41 | byte for byte: the 23-character domain and the seven claims in the order of the source, each behind its length in big-endian, and nothing else |
| AuthTranscript.ParseUndoesEncode | gemacast-core/src/control/device_auth.rs:35-39 | parsing recovers the fields and whatever follows them |
| AuthTranscript.EncodeUndoesParse | gemacast-core/src/control/device_auth.rs:35-39 | only encodings parse |
| AuthTranscript.TranscriptDeterminesClaims | gemacast-core/src/control/device_auth.rs:3-5 | equal transcripts have equal claims in all fields |
| StereoCarry.StereoFold.FoldBuffers | gemacast-core/src/audio/mixdown.rs:229-276 | one buffer goes out behind the carry and keeps an odd sample back, two go out left before right up to the shorter one with the rest counted, any other number puts out nothing and is counted once |
| StereoCarry.StreamIsKept | gemacast-core/src/audio/mixdown.rs:218-225 | over any run, outputs followed by the carry are the prior carry followed by all interleaved input |
| StereoCarry.PhaseIsKept | gemacast-core/src/audio/mixdown.rs:218-225 | each output sits in the stream at an even offset, so left stays left |
| StereoCarry.RecuttingChangesNothing | gemacast-core/src/audio/mixdown.rs:218-225 | how the stream is cut into callbacks does not change what is emitted or carried |
| StereoCarry.CallbacksKeepToTheirKind | gemacast-core/src/audio/mixdown.rs:252-276 | in a run of mixed kinds each planar callback puts out its own pairs and each unknown one nothing, and neither touches the carry |
| StereoCarry.CountersOfRun | gemacast-core/src/audio/mixdown.rs:229-276 | over any run the counters are the unknown callbacks, and the orphans of planar ones with the interleaved ones after which the stream is odd |

## Left out

- Unsigned overflow: sequence numbers, counters and times are unbounded naturals, so `next_play_seq + 512` near 2^64 and saturating `u32` counters are not modelled.
- Floating point: delays, gaps and weights are exact rationals, and `powi` is repeated multiplication; rounding of `f32` is not modelled.
- NetworkObserver.JitterStats.Observe: jitter averages, clean streak, burst clusters and macro spikes are not modelled, there or in the two resets: they feed the target controller only.
- RingRuns.DeliveryIsOrdered: is about runs whose fast-forwards do not rewind; `RingCache.FastForwardCost` shows that the only caller never does.
- target.rs and timescale.rs: target depth, resume threshold, band limit and splice decisions arrive as arbitrary inputs of each callback.
- JitterManager.JitterBufferManager.ProcessNextFrame: whether a changed configuration was picked up is an input (the lock and the countdown are not modelled), the drain's packets come from an oracle gated by the recovery guard, and splices within a packet, silence growth and the filtered level are not modelled.
- JitterManager.JitterBufferManager.TryFastForwardOverGap: omits the branch for a missing minimum, which a non-empty ring never takes.
- Decoding, concealment audio, crossfades, fade-ins, latency metrics and logging: codec and signal content; the queue of PCM samples is not part of the state.
- CaptureResampling.CaptureResampler.ProcessInterleaved: the chunk size is constant, as it is in the mode the source uses, and the adapters around the two buffers do not fail.
- CaptureResampling.DesignHasRoom: how many frames the library's kernel may owe is an input; for 1024-frame chunks of up to six channels the condition allows a whole chunk, for eight channels half of one.
- CaptureResampling.ConvertAll: is about runs without kernel failures; `ProcessInterleaved` says what one failing call keeps.
- TrustStore.TrustedDeviceStore.Forget: saving is atomic or has no effect, the file is what loading it yields, and lock poisoning and the JSON format are not modelled.
- AuthTranscript.BuildDeviceAuthTranscript: strings are their bytes; hashing, signatures and the pairing code are library calls.
- StereoCarry.StereoFold.FoldBuffers: starts from samples; the byte alignment of the platform buffers is not modelled.
- `downmix_to_stereo`, `pcm_sample_to_f32`, `validate_capture_format`: single-branch arithmetic that would only add easy members.
- Networking, discovery, capture adapters, user interface, updater and session authorisation: input and output, or thin wrappers.
