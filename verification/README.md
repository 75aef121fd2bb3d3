# Speakerman: models and proofs

Speakerman is a real-time audio processor for JACK with a control thread and a built-in web server. Its risk lies in
small stateful mechanisms with short specifications. Each module here models one of them as its source does it (the
same branches, constants and error cases) and proves what it is for.

| module | mechanism |
|---|---|
| `Transport`, `Levels`, `SpeakerManager` | lock-free hand-off between the audio callback and the control thread, and the level measurements that travel through it |
| `Limiter` | look-ahead limiter that blends peaks in place into a circular curve |
| `PeakMemory`, `Delay`, `Iir`, `PinkNoise` | fast structures, each proved against a plain definition over the whole input |
| `Allocation`, `ThreadTable` | bump allocator behind `operator new`/`delete`, registry of managed threads |
| `LevelHistory`, `JsonWriter`, `JsonPath` | web server: ring of level entries, scoped JSON writer, path stack of the JSON reader |
| `WebSocket`, `Matcher`, `Base64` | the vendored HTTP library: frame reassembly, wildcard matching, Base64 |
| `Arithmetic` | lemmas on products and remainders that several modules share |

How the models are built:

- Two threads are a state machine over atomic steps (`Transport.Event`, `SpeakerManager.Action`). A run is any list of
  enabled steps, so statements over runs are statements over all interleavings. Memory is sequentially consistent, one
  thread opens lock-free sections, and the mutex lets one `getAndSet` at a time in. Waiting and the clock are a free
  choice between giving up and going on.
- Objects are classes. A ghost field holds the history (all samples, all puts, all frames), and the invariant ties the
  fields to it, so each method says what it returns in terms of everything that was put in before.
- `LockFreeData` opens with two reads of `write_`. A flip may fall between them, in either order, and
  `Transport.SlotExclusion` holds all the same. `ExactlyOnceInOrder`, `LevelsAreConserved` and `ConfigInForce` assume
  that both reads see the same value; `SlotFirstTear`, `FlagFirstTear` and `TornSectionUnbalances` say exactly what is
  lost when they do not, for sections of any length.

Where the code does not do what it sets out to do, the code is kept and the exact limit is proved:

- `mg_match` treats a literal `#` in the subject as matching the `#` of the pattern before it treats it as a wildcard.
  All `*`-free patterns are answered correctly exactly when the subject has no `#`
  (`Matcher.ExactForAllPatternsIffNoHash`); pattern `#a` on subject `x#` never ends (`Matcher.SearchCanCycle`).
- `MultiChannelDelay` wraps one frame later than its `end_` suggests, so its ring has `delay + 2` slots: with all
  channels in use it stays inside its buffer exactly for delays below `maxDelay_`, although `setDelay` accepts
  `maxDelay_` too (`Delay.OffsetsFitIff`, `Delay.FitsIffBelowMaximum`).
- `remove_thread(0)` takes a free slot for a match; it breaks the table exactly when a slot is free
  (`ThreadTable.ThreadEntries.RemoveThread`).
- `pushIndex` builds its range errors without throwing them; its digits are decimal exactly for 0 to 999
  (`JsonPath.IndexTextIsDecimalIff`). The rendered path loses trailing separators (`JsonPath.RenderedIsJoinIff`).
- A reader of level history who comes back with the stamp of the last entry gets exactly what was put since if and only
  if something was put, the ring still has it, and no entry behind the newest shares that stamp
  (`LevelHistory.NextReadingIsExact`).
- The JSON writer accepts named calls in an array scope and nameless ones in an object scope; its text is readable
  exactly when there are none (`JsonWriter.DocumentReads`).

## Model

| member | source | states |
|---|---|---|
| Transport.Transport.constructor | src/include/tdap/Transport.hpp:104-114 | the object starts as the initial state of the machine |
| Transport.Transport.GetLockFree | src/include/tdap/Transport.hpp:122-125 | undisturbed, opening a section is the two sampling steps, and both give `write_` |
| Transport.Transport.Release | src/include/tdap/Transport.hpp:83-94 | the destructor is the closing step: `read_` follows the section's flag if modified |
| Transport.Transport.GetAndSet | src/include/tdap/Transport.hpp:147-167 | fails exactly when the flags still differ and then changes nothing; otherwise the value given replaces the content of the slot that the other side does not use, which is returned, the other slot stays and `write_` flips |
| Transport.RunsStayGuarded | src/include/tdap/Transport.hpp:50-94 | every interleaving keeps: flags agree during an exchange, and while they agree an open section sampled the current flag |
| Transport.SlotExclusion | src/include/tdap/Transport.hpp:122-167 | in every interleaving and with a flip between the two samples in either order, the lock-free side never holds the slot that `getAndSet` reads or overwrites |
| Transport.TornMeansFlipped | src/include/tdap/Transport.hpp:122-136 | whatever the other side does between two samples, they differ exactly when a flip fell in between, and none can while a value waits |
| Transport.SentIsExchanged | src/include/tdap/Transport.hpp:147-167 | in every interleaving, torn or not, a flip makes available exactly the value that its call was given |
| Transport.SeenIsFound | src/include/tdap/Transport.hpp:79-94 | what the history records for a section is what lies in its slot when it opens modified |
| Transport.ExactlyOnceInOrder | src/include/tdap/Transport.hpp:147-167 | with one sample per section: modified sections find the original and then the arguments of the successful calls, each once, in order, up to one that waits; a waiting call can go on exactly when all were found and that section has ended |
| Transport.SlotFirstTear | src/include/tdap/Transport.hpp:122-125 | slot sampled, flip, flag sampled: delivery survives exactly when both slots hold the same value |
| Transport.FlagFirstTear | src/include/tdap/Transport.hpp:122-125 | flag sampled, flip, slot sampled: delivery survives exactly when the section writes back the value it found |
| Levels.AddReadingsIsMaximum | src/include/speakerman/DynamicProcessorLevels.h:39-42 | the readings of a frame raise each channel to the largest of its old value and its readings, and to nothing else |
| Levels.EpochIsMaximum | src/include/speakerman/DynamicProcessorLevels.h:63-74 | after a reset, the levels are the frame count and, per channel, the largest of 0 and all readings of these frames |
| Levels.MaximumIsUnique | src/include/speakerman/DynamicProcessorLevels.h:39-42 | that description admits one levels value only |
| Levels.MergeCoversBoth | src/include/speakerman/DynamicProcessorLevels.h:54-61 | for any two channel counts: each channel holds the largest of 0 and everything measured on it in either epoch, all frames counted |
| Levels.MergeJoinsEpochs | src/include/speakerman/DynamicProcessorLevels.h:54-61 | merging the levels of two epochs gives the levels of all their frames together |
| Levels.DynamicProcessorLevels.constructor | src/include/speakerman/DynamicProcessorLevels.h:47-48 | one channel more than groups, no frames counted |
| Levels.DynamicProcessorLevels.AddValues | src/include/speakerman/DynamicProcessorLevels.h:72-74 | one channel becomes its maximum with the reading, all else stays |
| Levels.DynamicProcessorLevels.Next | src/include/speakerman/DynamicProcessorLevels.h:63-63 | counts one frame |
| Levels.DynamicProcessorLevels.Reset | src/include/speakerman/DynamicProcessorLevels.h:65-70 | all channels in use and the count become zero |
| Levels.DynamicProcessorLevels.Add | src/include/speakerman/DynamicProcessorLevels.h:54-61 | the loop over the common channels is the merge, counts added |
| Levels.DynamicProcessorLevels.ProcessFrame | src/include/speakerman/DynamicsProcessor.hpp:308-310 | all readings of a frame, then the count, extend the levels by that frame |
| SpeakerManager.StepKeepsConsistent | src/include/speakerman/SpeakerManager.hpp:177-306 | every step of callback and control thread keeps: each slot holds the epoch it should, levels are those of the running epoch, and what was handed out is every finished epoch in order |
| SpeakerManager.EpochsAreTheFrames | src/include/speakerman/SpeakerManager.hpp:177-240 | the epochs, one after the other, are the frames processed: a reset cuts, it loses nothing |
| SpeakerManager.LevelsAreConserved | src/include/speakerman/SpeakerManager.hpp:177-306 | over all runs: frames processed = counts handed out + finished epoch not collected + running epoch, and each levels value handed out is the maximum over exactly its own epoch, timeouts included |
| SpeakerManager.TornSectionUnbalances | src/include/speakerman/SpeakerManager.hpp:177-240 | a torn section that processes a block of any length: slot first, the balance holds exactly when the running epoch was as long as the block; flag first, exactly the frames of the block are lost |
| SpeakerManager.BlockOutcome | src/include/speakerman/SpeakerManager.hpp:208-237 | processing a block adds its frames to the running epoch and changes nothing else |
| SpeakerManager.SentCarriesRequests | src/include/speakerman/SpeakerManager.hpp:274-306 | every value sent carries the request that succeeded with it: a new configuration, or none |
| SpeakerManager.ConfigInForce | src/include/speakerman/SpeakerManager.hpp:184-191 | the processor runs with the last configuration whose exchange succeeded, or the initial one, leaving out one still waiting; asking for levels changes none |
| SpeakerManager.ProcessBlock | src/include/speakerman/SpeakerManager.hpp:177-240 | publishes the levels of all frames of the block on top of the running epoch, or of an empty one when modified |
| SpeakerManager.BlockExtendsEpoch | src/include/speakerman/SpeakerManager.hpp:208-237 | a block of frames extends the running epoch by exactly these frames |
| Limiter.PredictiveSmoothEnvelopeLimiter.constructor | src/include/tdap/Limiter.hpp:259-269 | no peak held; the prediction buffer is whatever it was |
| Limiter.PredictiveSmoothEnvelopeLimiter.GetAmpAndMoveToNextSample | src/include/tdap/Limiter.hpp:250-256 | reads the slot that is due, refills it and steps back |
| Limiter.PredictiveSmoothEnvelopeLimiter.FindClash | src/include/tdap/Limiter.hpp:349-359 | the first position where relative peak × envelope does not exceed what is stored |
| Limiter.PredictiveSmoothEnvelopeLimiter.BlendPeak | src/include/tdap/Limiter.hpp:372-380 | every slot holds what the positions that meet it make of it, one after the other, with the compressed envelope as weight |
| Limiter.PredictiveSmoothEnvelopeLimiter.SubmitPeak | src/include/tdap/Limiter.hpp:313-383 | one call makes one step of the value model and returns its amplification |
| Limiter.BlendedIsExplicit | src/include/tdap/Limiter.hpp:349-380 | the blended curve slot by slot, also when it goes round the buffer |
| Limiter.ClashIsFirst | src/include/tdap/Limiter.hpp:351-359 | where the projected curve first meets the stored one |
| Limiter.BlendWithinOneTurn | src/include/tdap/Limiter.hpp:373-380 | position i before the clash holds relative × envelope[i × (prediction − 1) / clash] + (1 − that factor) × old; all other slots are unchanged |
| Limiter.CourseOfLonePeak | src/include/tdap/Limiter.hpp:313-383 | from any state: what every step after a peak reads and stores while only samples below the threshold follow |
| Limiter.AttackFromSilence | src/include/tdap/Limiter.hpp:349-380 | in a silent buffer the way up to the peak is the compressed envelope times the excess of the peak, and 0 before |
| Limiter.ReleaseOfLonePeak | src/include/tdap/Limiter.hpp:318-334 | after k quiet samples the value stored is the excess of the peak times release envelope[k] |
| Limiter.BlendDominates | src/include/tdap/Limiter.hpp:361-380 | the blend never lowers a stored prediction and raises none above the new relative peak |
| Limiter.BlendNeverLowers | src/include/tdap/Limiter.hpp:340-380 | the claim of the source's comment, for the clash point that the first loop finds |
| Limiter.PredictionPersists | src/include/tdap/Limiter.hpp:250-256 | a stored prediction is not lowered by any later peaks until it is read |
| Limiter.PredictionCoversPeak | src/include/tdap/Limiter.hpp:313-383 | the prediction read `attack_samples_` steps after a peak is at least its excess over the threshold |
| Limiter.LookAheadBound | src/include/tdap/Limiter.hpp:313-383 | for every stream: peak × the amplification returned `attack_samples_` steps later ≤ threshold |
| Limiter.SubmitSettles | src/include/tdap/Limiter.hpp:313-383 | with every step one more slot lies between 0 and the largest relative peak, and slots that do stay so until they are read |
| Limiter.PredictionStaysWithin | src/include/tdap/Limiter.hpp:313-383 | so does every prediction read once all slots were written |
| Limiter.FloorInUse | src/include/tdap/Limiter.hpp:250-256 | for a limiter in use, of which some last predictions are known: its amplification floor from the step on that reads them |
| Limiter.AmplificationFloor | src/include/tdap/Limiter.hpp:250-269 | from any buffer contents, uninitialised ones included: after the first `attack_samples_` steps the amplification is at least threshold / (threshold + largest relative peak), and at most 1 |
| Limiter.ZeroPredictionHardAttackLimiter.constructor | src/include/tdap/Limiter.hpp:123-131 | both followers start at the threshold |
| Limiter.ZeroPredictionHardAttackLimiter.GetGain | src/include/tdap/Limiter.hpp:135-145 | without look-ahead: sample × gain ≤ threshold at once, gain in (0, 1], the followers jump to a peak and otherwise move by the release coefficient, never above the larger of themselves and the sample |
| PeakMemory.MaxOverMeaning | src/include/tdap/PeakDetection.hpp:101-109 | the reference: the largest of 0 and the samples |
| PeakMemory.PeakIsLargest | src/include/tdap/PeakDetection.hpp:213-240 | none of the last size × (count − 1) + 1 samples is above the peak, and it is one of them unless it is 0 |
| PeakMemory.WindowsCoverLast | src/include/tdap/PeakDetection.hpp:213-240 | rest of the oldest window, windows between and newest window together are the last size × (count − 1) + 1 samples, missing ones counting as 0 |
| PeakMemory.SpanIsSizeTimesCount | src/include/tdap/PeakDetection.hpp:182-204 | that length in closed form |
| PeakMemory.PeakMemory.constructor | src/include/tdap/PeakDetection.hpp:182-204 | an empty history |
| PeakMemory.PeakMemory.AddToRecent | src/include/tdap/PeakDetection.hpp:95-99 | the newest window's maximum includes the sample |
| PeakMemory.PeakMemory.RemoveFromOldest | src/include/tdap/PeakDetection.hpp:101-109 | the one scan gives the maximum of what is left of the oldest window |
| PeakMemory.PeakMemory.MaximumBetween | src/include/tdap/PeakDetection.hpp:140-149 | the ring walk ends and gives the maximum of all windows in between |
| PeakMemory.PeakMemory.InitNewSamples | src/include/tdap/PeakDetection.hpp:140-149 | newest and oldest window start over, and the maximum in between is that of all windows in between |
| PeakMemory.PeakMemory.Next | src/include/tdap/PeakDetection.hpp:206-211 | turning the ring keeps the history |
| PeakMemory.PeakMemory.AddSampleGetPeak | src/include/tdap/PeakDetection.hpp:213-240 | returns the maximum of the last size × (count − 1) + 1 samples |
| Delay.LineAdvances | src/include/tdap/Delay.hpp:243-247 | one write and one read on a ring give the input from exactly `delay` steps before |
| Delay.OtherLineUnchanged | src/include/tdap/Delay.hpp:243-247 | channels of different delays in one buffer never touch each other's history |
| Delay.PosNext | src/include/tdap/Delay.hpp:175-178 | the wrapped index addition is the next slot of the same channel |
| Delay.MultiChannelAndTimeDelay.constructor | src/include/tdap/Delay.hpp:209-219 | all delays zero, silence |
| Delay.MultiChannelAndTimeDelay.SetDelay | src/include/tdap/Delay.hpp:231-237 | sets one channel's delay, refuses exactly those above the maximum |
| Delay.MultiChannelAndTimeDelay.SetAndGet | src/include/tdap/Delay.hpp:243-247 | channel c gives its own input from d_c steps earlier, 0 before that, for any mix of delays |
| Delay.MultiChannelAndTimeDelay.NextEntry | src/include/tdap/Delay.hpp:175-178 | one channel moves to its next slot, no other moves |
| Delay.MultiChannelAndTimeDelay.Next | src/include/tdap/Delay.hpp:249-253 | all channels move on one step |
| Delay.OffsetsFitIff | src/include/tdap/Delay.hpp:138-153 | the frames read and written by all steps stay inside a buffer exactly when it has delay + 2 frames |
| Delay.FitsIffBelowMaximum | src/include/tdap/Delay.hpp:113-134 | with all channels in use the allocated buffer suffices exactly for delays below the maximum |
| Delay.StepPastEnd | src/include/tdap/Delay.hpp:144-153 | wrapping only past `end_` is a ring of delay + 2 slots |
| Delay.MultiChannelDelay.constructor | src/include/tdap/Delay.hpp:113-117 | all channels, no delay, silence |
| Delay.MultiChannelDelay.SetMetrics | src/include/tdap/Delay.hpp:103-110 | new metrics, silence, usable when the ring fits |
| Delay.MultiChannelDelay.SetDelay | src/include/tdap/Delay.hpp:129-134 | refuses exactly delays above the maximum |
| Delay.MultiChannelDelay.SetAndGet | src/include/tdap/Delay.hpp:138-142 | each channel gives its own input from `delay` steps earlier, 0 before that |
| Delay.MultiChannelDelay.Next | src/include/tdap/Delay.hpp:144-153 | one step on |
| Iir.ResponseIsConvolution | src/include/tdap/IirCoefficients.hpp:100-128 | every output is c[0] x[n] plus, for each lag j, c[j] x[n − j] + d[j] y[n − j] |
| Iir.ImpulseDecays | src/include/tdap/IirCoefficients.hpp:108-128 | a filter that only feeds back its last output answers an impulse with the powers of that factor |
| Iir.ResponseObeysRecursion | src/include/tdap/IirCoefficients.hpp:100-128 | the reference: every output is the recursion over inputs and outputs before it |
| Iir.ResponseIsCausal | src/include/tdap/IirCoefficients.hpp:108-128 | outputs do not depend on later inputs |
| Iir.ResponseAdds | src/include/tdap/IirCoefficients.hpp:108-128 | superposition: the response to a sum is the sum of the responses |
| Iir.ShiftFilter.constructor | src/include/tdap/IirCoefficients.hpp:164-174 | zero history is the empty signal |
| Iir.ShiftFilter.Filter | src/include/tdap/IirCoefficients.hpp:164-182 | the shift-register form gives the next value of the reference response |
| Iir.ShiftFilter.Shift | src/include/tdap/IirCoefficients.hpp:140-154 | both histories move one step back |
| Iir.RotatingFilter.constructor | src/include/tdap/IirCoefficients.hpp:1133-1134 | zero history is the empty signal |
| Iir.RotatingFilter.Filter | src/include/tdap/IirCoefficients.hpp:1133-1153 | the one-pass form, which rotates while it sums, gives the same response |
| Iir.CircularFilter.constructor | src/include/tdap/IirCoefficients.hpp:338-346 | zero history is the empty signal |
| Iir.CircularFilter.SumHistory | src/include/tdap/IirCoefficients.hpp:347-356 | the sum over the circular history is the recursion |
| Iir.CircularFilter.Filter | src/include/tdap/IirCoefficients.hpp:336-364 | the circular-history form gives the same response |
| Iir.RampUp | src/include/tdap/IirCoefficients.hpp:1231-1243 | the first outputs of a block from silence are those of the reference |
| Iir.Steady | src/include/tdap/IirCoefficients.hpp:1269-1279 | the remaining ones too |
| Iir.FilterBlock | src/include/tdap/IirCoefficients.hpp:1183-1195 | the block form gives the same response, for every length |
| PinkNoise.RefreshedExactlyOnce | src/include/tdap/Noise.hpp:128-151 | from any index on, exactly one of the next 2^(k+1) steps, one wrapping increment after the other, refreshes row k |
| PinkNoise.StepsWrapOnce | src/include/tdap/Noise.hpp:129-130 | stepping and masking again and again is adding first and masking once |
| PinkNoise.RefreshesByResidue | src/include/tdap/Noise.hpp:130-141 | a step refreshes row k exactly when the step number is 2^k modulo 2^(k+1), wraps of the index included |
| PinkNoise.ZerosAreFew | src/include/tdap/Noise.hpp:133-141 | the trailing-zero count of a non-zero index stays below the accuracy |
| PinkNoise.ZerosAreResidue | src/include/tdap/Noise.hpp:136-141 | what a trailing-zero count says about the number |
| PinkNoise.SumOfRange | src/include/tdap/Noise.hpp:153-154 | the range of a sum of rows |
| PinkNoise.Generator.constructor | src/include/tdap/Noise.hpp:85-113 | the rows after a warm-up of any length up to its limit: the running sum is right and the index is that of the step |
| PinkNoise.Generator.CountZeros | src/include/tdap/Noise.hpp:136-141 | the loop ends with that count |
| PinkNoise.Generator.NextSum | src/include/tdap/Noise.hpp:128-154 | the running sum is the sum of all rows, one row changes at most, and row sum plus white term stays in [0, pmax) |
| Allocation.Handle.constructor | src/Allocation.cpp:234-252 | an empty arena starting on a multiple of the alignment, inside the memory obtained |
| Allocation.Handle.Allocate | src/Allocation.cpp:120-155 | for the entered thread the pointer moves on by the rounded size; the block starts where it was, aligned, new and apart from all live blocks, exactly when all requests since the last reset fit together; all others are left to the default allocator |
| Allocation.Handle.AllocateAll | src/Allocation.cpp:134-155 | a sequence of requests is served inside exactly when with the earlier ones it fits into the arena |
| Allocation.AllFitIff | src/Allocation.cpp:143-154 | each request fits at its turn exactly when all of them together do |
| Allocation.Handle.FreeInside | src/Allocation.cpp:157-171 | one live block less, counted |
| Allocation.Handle.Reset | src/Allocation.cpp:407-431 | restarts only when no block lives, so live memory is never issued again; each refusal by its own reason |
| Allocation.Handle.ConsecutiveUnlessSpilled | src/Allocation.cpp:273-277 | `is_consecutive` is true exactly when nothing spilled since the last reset, that is when the rounded sizes of all requests together fit |
| Allocation.Registry.constructor | src/Allocation.cpp:178-187 | no handles |
| Allocation.Registry.Link | src/Allocation.cpp:178-193 | the linked handles are the old ones with the new one in front; a sound handle with an arena apart from all others keeps the registry sound |
| Allocation.Registry.Unlink | src/Allocation.cpp:195-212 | exactly one handle leaves, wherever it stands, the list stays linked and the registry sound |
| Allocation.Registry.LiveBlocksApart | src/Allocation.cpp:134-155 | in a sound registry no two live blocks overlap, of one handle or of two |
| Allocation.Registry.AllocateStatic | src/Allocation.cpp:359-365 | a block comes from the handle the thread has entered, overlaps nothing alive anywhere, and keeps the registry sound; else it comes from the default allocator and nothing changes |
| Allocation.Registry.ResetLinked | src/Allocation.cpp:407-431 | a reset of a linked handle keeps the registry sound and happens only when nothing of it lives |
| Allocation.Registry.BelongsToAny | src/Allocation.cpp:214-227 | finds a handle whose arena holds the address, or there is none |
| Allocation.Registry.OneArenaPerAddress | src/Allocation.cpp:173-176 | with disjoint arenas there is at most one |
| Allocation.Registry.FreeStatic | src/Allocation.cpp:367-376 | delete reaches the handle that issued the block, and no other |
| Allocation.Registry.FreeDefault | src/Allocation.cpp:367-376 | an address outside all arenas goes to the default allocator |
| ThreadTable.OccupiedMonotone | src/SignalHandler.cpp:100-116 | once the scan has seen as many threads as are active, all further slots are free |
| ThreadTable.FreshIsNear | src/SignalHandler.cpp:92-98 | pigeonhole: wherever the counter stands, one of the next active + 2 numbers is fresh |
| ThreadTable.SearchFindsFirst | src/SignalHandler.cpp:92-98 | the number found is the first fresh one above the counter or, if there is none, from 0 on |
| ThreadTable.CountedApart | src/SignalHandler.cpp:92-98 | the wrapping counter repeats no number within 2^64 steps |
| ThreadTable.CountIsNumbers | src/SignalHandler.cpp:81-90 | with distinct ids, occupied slots and numbers in use are equally many |
| ThreadTable.ThreadEntries.constructor | src/SignalHandler.cpp:81-90 | all slots free |
| ThreadTable.ThreadEntries.IsActiveNumber | src/SignalHandler.cpp:100-116 | the scan with its early exit is exact |
| ThreadTable.ThreadEntries.NextNumber | src/SignalHandler.cpp:92-98 | the search ends, with the first fresh number after the counter, across wrap and zero |
| ThreadTable.ThreadEntries.AddThread | src/SignalHandler.cpp:119-134 | refuses exactly when no slot is free; otherwise the first free slot gets a fresh number and the numbers in use grow by it |
| ThreadTable.ThreadEntries.RemoveThread | src/SignalHandler.cpp:136-149 | removes exactly that number; the table stays valid if and only if the number is not 0 or no slot is free |
| LevelHistory.CoveredIsNewer | src/include/speakerman/SpeakermanWebServer.hpp:71-85 | with stamps that never run back, the entries merged are exactly those newer than the stamp among the previous 127 |
| LevelHistory.MergeAllCoversFrames | src/include/speakerman/SpeakermanWebServer.hpp:80-84 | the merged entry has the count and the maxima of all frames of its entries |
| LevelHistory.NextReadingIsExact | src/include/speakerman/SpeakermanWebServer.hpp:71-85 | when a second reading covers exactly what was put since the first |
| LevelHistory.PutHolds | src/include/speakerman/SpeakermanWebServer.hpp:65-69 | writing backwards keeps the ring, read forwards, newest first |
| LevelHistory.LevelEntryBuffer.constructor | src/include/speakerman/SpeakermanWebServer.hpp:53-58 | nothing put, the write position anywhere |
| LevelHistory.LevelEntryBuffer.Put | src/include/speakerman/SpeakermanWebServer.hpp:65-69 | the entry becomes the newest, from any initial write position |
| LevelHistory.LevelEntryBuffer.Get | src/include/speakerman/SpeakermanWebServer.hpp:71-85 | the newest entry merged with those behind it that are newer than the stamp; the newest alone for a stamp that is not positive |
| JsonWriter.WrittenReads | src/include/speakerman/SpeakermanWebServer.hpp:232-321 | the text of any tree of calls, whatever follows it, reads as that tree when the calls fit their scopes and as nothing when they do not |
| JsonWriter.DocumentReads | src/include/speakerman/SpeakermanWebServer.hpp:232-321 | a document is one value of RFC 8259, the one asked for, exactly when every call fits its scope |
| JsonWriter.StringReads | src/include/speakerman/SpeakermanWebServer.hpp:244-253 | an encoded string ends at its own closing quote |
| JsonWriter.Json.Root | src/include/speakerman/SpeakermanWebServer.hpp:262-262 | opens the document's object |
| JsonWriter.Json.Inside | src/include/speakerman/SpeakermanWebServer.hpp:255-258 | opens a scope with its own first mark |
| JsonWriter.Json.Move | src/include/speakerman/SpeakermanWebServer.hpp:264-267 | a scope moved from closes nothing |
| JsonWriter.Json.StartValue | src/include/speakerman/SpeakermanWebServer.hpp:237-243 | a comma before every value of a scope but its first |
| JsonWriter.Json.AddName | src/include/speakerman/SpeakermanWebServer.hpp:244-253 | separator, quoted name and colon; nothing at all for a scope moved from |
| JsonWriter.Json.SetString | src/include/speakerman/SpeakermanWebServer.hpp:269-275 | one named item appended, behind a comma unless it is the first |
| JsonWriter.Json.SetNumber | src/include/speakerman/SpeakermanWebServer.hpp:277-283 | the same for a number |
| JsonWriter.Json.SetBoolean | src/include/speakerman/SpeakermanWebServer.hpp:285-289 | the same for a boolean |
| JsonWriter.Json.SetNull | src/include/speakerman/SpeakermanWebServer.hpp:291-295 | the same for null |
| JsonWriter.Json.AddObject | src/include/speakerman/SpeakermanWebServer.hpp:297-302 | a named object scope begins |
| JsonWriter.Json.AddArrayObject | src/include/speakerman/SpeakermanWebServer.hpp:304-307 | a nameless object scope begins |
| JsonWriter.Json.AddArray | src/include/speakerman/SpeakermanWebServer.hpp:309-314 | a named array scope begins |
| JsonWriter.Json.Close | src/include/speakerman/SpeakermanWebServer.hpp:316-320 | the end mark of this scope |
| JsonWriter.WriteItems | src/SpeakermanWebServer.cpp:302-320 | calls for any list of items append their text, whatever was written before |
| JsonWriter.WriteDocument | src/SpeakermanWebServer.cpp:302-320 | calls for a whole tree, scopes closed innermost first, give the text of the tree, which reads back |
| JsonPath.LaidIsJoin | src/JsonCanonicalReader.cc:37-48 | the buffer with its NULs replaced is the join of the open names and the current segment |
| JsonPath.RenderedIsJoinIff | src/JsonCanonicalReader.cc:37-55 | with no segment begun, the path is the join exactly when that has a character and no trailing separator |
| JsonPath.TrimmedCutsSeparators | src/JsonCanonicalReader.cc:48-54 | only separators at the end are cut off, all of them but a first character |
| JsonPath.PlainPathIsJoin | src/JsonCanonicalReader.cc:37-55 | for names that are not empty and hold no separator the path is always the join |
| JsonPath.SplitJoin | src/JsonCanonicalReader.cc:37-55 | such a path says which names are open |
| JsonPath.IndexTextIsDecimalIff | src/JsonCanonicalReader.cc:102-115 | the digits written are the decimal number exactly for 0 to 999 |
| JsonPath.DecimalReadsBack | src/JsonCanonicalReader.cc:109-115 | the reference digits stand for the number, without leading zeros |
| JsonPath.OutsideTheRange | src/JsonCanonicalReader.cc:102-115 | what the unthrown range error lets through: index −1 writes a separator, index 1000 a colon |
| JsonPath.PathStack.constructor | src/JsonCanonicalReader.cc:25-31 | no open names, an empty segment |
| JsonPath.PathStack.AddChar | src/JsonCanonicalReader.cc:17-24 | one character appended while there is room |
| JsonPath.PathStack.SetLocal | src/JsonCanonicalReader.cc:56-64 | a new segment begins, or a range error changes nothing |
| JsonPath.PathStack.Push | src/JsonCanonicalReader.cc:128-130 | the segment read becomes an open name and an empty one begins, exactly when there is room for it |
| JsonPath.PathStack.PushName | src/JsonCanonicalReader.cc:125-134 | the segment read becomes an open name; a name is accepted exactly when it begins with that segment and there is room |
| JsonPath.PathStack.AddIndex | src/JsonCanonicalReader.cc:109-115 | the digits of the index follow what was read, as far as there is room |
| JsonPath.PathStack.PushIndex | src/JsonCanonicalReader.cc:100-119 | the index becomes an open name, or the push is refused by depth or room |
| JsonPath.PathStack.ReadName | src/JsonCanonicalReader.cc:17-24 | a name read character by character follows what was read, as far as there is room |
| JsonPath.PathStack.Walk | src/JsonCanonicalReader.cc:100-138 | any sequence of pushes and pops that is not refused leaves open exactly the names it should |
| JsonPath.BalancedStepsRestore | src/JsonCanonicalReader.cc:100-138 | a push followed by its pop, and any balanced sequence, restores the open names and the rendered path |
| JsonPath.PathAfterSteps | src/JsonCanonicalReader.cc:37-55 | after any sequence the rendered path is the join of the open names and decimal indices, and says which they are |
| JsonPath.PathStack.Pop | src/JsonCanonicalReader.cc:120-138 | the innermost name is gone and all others are as before it was pushed; refused exactly at the top |
| JsonPath.PathStack.GetTotalString | src/JsonCanonicalReader.cc:37-55 | the copying and trimming loops give the rendered path, terminated |
| Matcher.MatchIsExact | src/mongoose/mongoose.c:3873-3903 | for `*`-free patterns and `#`-free subjects the loop ends and answers whether the subject splits as the pattern asks |
| Matcher.LaterHashSuffices | src/mongoose/mongoose.c:3887-3891 | why one backtrack point is enough |
| Matcher.AcceptsOnlyMatches | src/mongoose/mongoose.c:3873-3903 | whatever the subject, the loop never accepts a wrong one |
| Matcher.AmbushFails | src/mongoose/mongoose.c:3877-3889 | every subject with a `#` has a pattern that it matches and the loop refuses |
| Matcher.ExactForAllPatternsIffNoHash | src/mongoose/mongoose.c:3873-3903 | all `*`-free patterns are answered correctly if and only if the subject has no `#` |
| Matcher.SearchCanCycle | src/mongoose/mongoose.c:3876-3891 | an input on which the loop never ends |
| Matcher.Match | src/mongoose/mongoose.c:3873-3903 | the loop with its two indices and its backtrack point is a decision procedure for the meaning of the pattern |
| WebSocket.XorBits | src/mongoose/mongoose.c:4770-4770 | each bit of the result is the sum of two bits modulo 2 |
| WebSocket.MaskedTurns | src/mongoose/mongoose.c:4768-4771 | payload byte i goes with mask byte i modulo 4 (section 5.3 of RFC 6455), bit by bit |
| WebSocket.PayloadIsUnmasked | src/mongoose/mongoose.c:4744-4773 | in every buffer that parses: the payload is what lies behind the header, turned over by the four bytes before it exactly when the frame says so |
| WebSocket.MaskingTwice | src/mongoose/mongoose.c:4768-4771 | masking undoes itself |
| WebSocket.CompleteFrameParses | src/mongoose/mongoose.c:4744-4773 | a whole frame (section 5.2 of RFC 6455) at the start of the buffer is recognised with its lengths and payload, whatever follows |
| WebSocket.PartialFrameWaits | src/mongoose/mongoose.c:4764-4767 | every proper prefix of a frame is left for more bytes |
| WebSocket.OnlyFramesParse | src/mongoose/mongoose.c:4744-4773 | a buffer that parses starts with the bytes of the frame found in it |
| WebSocket.HugeFrameWaits | src/mongoose/mongoose.c:4764-4766 | a length above one gigabyte is never accepted |
| WebSocket.BigEndianBytes | src/mongoose/mongoose.c:4756-4761 | lengths have their high bytes first |
| WebSocket.FirstByte | src/mongoose/mongoose.c:4854-4854 | last-fragment flag, reserved bits and operation in the first byte |
| WebSocket.FrameIsHandled | src/mongoose/mongoose.c:4850-4904 | one frame, fragment or whole, moves the connection to the next state of assembly and leaves all bytes behind it alone |
| WebSocket.UnknownOperationCloses | src/mongoose/mongoose.c:4878-4894 | a whole frame with an undefined operation is reported, removed, and ends the connection |
| WebSocket.DrainTakesWholeFrames | src/mongoose/mongoose.c:4850-4904 | the loop takes exactly the whole frames that have arrived |
| WebSocket.ChunksDoNotMatter | src/mongoose/mongoose.c:4850-4904 | any split of the bytes into read events gives the same events |
| WebSocket.ReassemblyIsExact | src/mongoose/mongoose.c:4850-4904 | for every valid stream with interleaved control frames and any split of its bytes: the handler is told exactly what the stream means, and the buffer holds only the message still under way |
| WebSocket.MessageIsConcatenation | src/mongoose/mongoose.c:4884-4903 | one fragmented message with control frames in between, however cut into read events, is delivered once: all payloads in order under the flags of the first frame, and the buffer is empty |
| WebSocket.NothingConsumedAhead | src/mongoose/mongoose.c:4850-4904 | at any moment, what was not yet told is still in the buffer and on the wire |
| WebSocket.IoBuf.MoveDown | src/mongoose/mongoose.c:1982-1982 | overlapping bytes move down unharmed |
| WebSocket.IoBuf.Clear | src/mongoose/mongoose.c:1983-1983 | clears what the deletion left behind, nothing else |
| WebSocket.IoBuf.Delete | src/mongoose/mongoose.c:1979-1986 | the in-place deletion with both clamps, cleared behind |
| WebSocket.DelElements | src/mongoose/mongoose.c:1979-1986 | how much is deleted under both clamps, and where every other byte ends up |
| WebSocket.WsConnection.constructor | src/mongoose/mongoose.c:4850-4852 | an empty buffer and no fragment under way |
| WebSocket.WsConnection.Unmask | src/mongoose/mongoose.c:4768-4771 | exactly the payload is unmasked in place |
| WebSocket.WsConnection.Process | src/mongoose/mongoose.c:4744-4773 | recognises a frame and turns over its payload in place, byte i with mask byte i modulo 4 and nothing else, or changes nothing |
| WebSocket.WsConnection.Notify | src/mongoose/mongoose.c:4857-4882 | the switch tells exactly the events of its frame, and closes on close and on unknown operations |
| WebSocket.WsConnection.Assemble | src/mongoose/mongoose.c:4884-4903 | header stripping, removal and completion of a message are one step on the buffer |
| WebSocket.WsConnection.Handle | src/mongoose/mongoose.c:4850-4904 | one round of the loop is one step of the value model |
| WebSocket.WsConnection.OnRead | src/mongoose/mongoose.c:4850-4904 | a read event drains the buffer as the value model does |
| Base64.RoundTrip | src/mongoose/mongoose.c:56-106 | decoding the encoded text gives the bytes back |
| Base64.TextShape | src/mongoose/mongoose.c:72-81 | four characters for every three bytes begun, padding only at the end and as many as section 4 of RFC 4648 asks |
| Base64.AlphabetIsUsed | src/mongoose/mongoose.c:26-36 | six bits are written as the character at their place in the alphabet of RFC 4648 |
| Base64.GroupIsOneNumber | src/mongoose/mongoose.c:56-70 | the six-bit values are the three bytes read as one number, high bits first |
| Base64.RevIsPlace | src/mongoose/mongoose.c:38-54 | a character is read as its place in the alphabet; only padding and characters outside have none |
| Base64.RefusedIff | src/mongoose/mongoose.c:90-106 | a text is refused exactly when some whole group is not two characters of the alphabet followed by two of the alphabet or padding |
| Base64.BytesAreOneNumber | src/mongoose/mongoose.c:97-101 | the bytes of a group are its six-bit values read as one number, for texts that no encoder writes as well |
| Base64.OneMoreByte | src/mongoose/mongoose.c:56-70 | how one byte changes the buffer that keeps the unfinished bits |
| Base64.FinishedIsEncoded | src/mongoose/mongoose.c:72-81 | finishing with a zero byte and padding gives the text of all bytes |
| Base64.Update | src/mongoose/mongoose.c:56-70 | after any number of bytes the buffer holds whole groups, finished characters and waiting bits |
| Base64.Final | src/mongoose/mongoose.c:72-81 | completes the text, with terminator |
| Base64.Encode | src/mongoose/mongoose.c:83-88 | the incremental loop writes the text of RFC 4648 |
| Base64.StoreGroup | src/mongoose/mongoose.c:97-101 | padding decides whether one, two or three bytes are stored |
| Base64.Decode | src/mongoose/mongoose.c:90-106 | writes the decoded bytes, or refuses with length 0 |

## Left out

- Transport.ExactlyOnceInOrder: assumes one sample of `write_` per section; the two torn orders have their own lemmas.
- SpeakerManager.LevelsAreConserved: the same assumption, and an original value that counts no frames.
- Transport: weak memory and `MemoryFence` (steps are sequentially consistent), `init` on a transport in use, shutdown other than as one more way for the wait to end.
- SpeakerManager: the audio processing itself; a frame is the list of level readings it makes, and a configuration is an opaque number.
- Levels: `getSignal` takes a square root of what is modelled.
- Limiter.PredictiveSmoothEnvelopeLimiter.constructor: takes the envelopes as given, any factors in [0, 1], in place of exponentials and cosines; numbers are real, so uninitialised memory holds some real number, and the threshold is positive.
- Limiter.PredictiveSmoothEnvelopeLimiter.SubmitPeak: needs a divisor other than 0, which uninitialised memory could give in the first `attack_samples_` steps; after them it is proved positive.
- Limiter: `reconfigure`, which computes a clamped threshold and then stores the other one, and changes `attack_samples_` while the prediction length stays the capacity; the value model allows any prediction length at least as large.
- Limiter: `CheapLimiter` and `FastLookAheadLimiter`.
- Matcher.Match: subjects with `#` (the loop need not end on them; other lemmas describe it there) and patterns with `*`.
- Matcher: captures.
- WebSocket: the handshake, sending, `mg_iobuf_add` and its resizing, the limit on the receive buffer (`src/mongoose/mongoose.c:3332`: the connection ends when 3 MiB are waiting, so messages of that size are not delivered), payloads above 1 GiB (which never complete), a final continuation frame without a first fragment, and a message handler that changes the receive buffer.
- PeakMemory: the formulas for window size and count, which are parameters here, and `setSamples` in mid-use.
- Delay: changing delays in the middle of use, `setChannels` of `MultiChannelAndTimeDelay` (its loop variable has no initial value), and `Delay<S>`, whose `setDelay` never stores the delay.
- Delay.MultiChannelDelay.SetAndGet: needs a ring that fits the buffer; `OffsetsFitIff` says when it does.
- Iir: order 0, flushing of denormal numbers, rounding, forms for several channels, more than one row of the vector form (whose history parameters are declared constant although it writes to them).
- Allocation: size 0, the `aligned` flag, nested guards that disable allocation, waiting in `close` and `reset`, memory locking, addresses near the end of the address space.
- PinkNoise.Generator.constructor: when the warm-up stops is a parameter, since it depends on scaled results.
- PinkNoise: the random engine (any words), scaling and offset removal.
- ThreadTable: names, console output, waiting for threads to end.
- LevelHistory.LevelEntryBuffer.Get: needs a write position inside the ring, which is certain only after the first put; entries are values here, and the in-place merge is `Levels.DynamicProcessorLevels.Add`.
- JsonWriter: string escaping and number formatting are given encoders whose output follows RFC 8259 (a NaN would not); calls on a scope that was moved from and opens another; writing to an outer scope before the inner one is closed.
- JsonPath.PathStack.PushIndex: the library's `add` is taken to append like `addChar` and to drop what does not fit; the library that calls the reader is not part of this model.
- Base64.Encode: lengths beyond a C `int`.
- Logical-group normalisation (`src/LogicalGroupConfig.cc:36-46`): `compactPorts` leaves moved ports in their old place, so the natural uniqueness property is false.
- `SmoothDetection::apply` (`src/include/tdap/Followers.hpp:855-881`): one branch returns nothing.
- `FastSmoothHoldFollower`, `TriangularFollower`, `CheapPeakMemory`: approximate by design, or hold only record peaks.
- Multi-channel block filters (`unsafeIterationsAlt`, `FixedOrderIirFrameFilter`): they take history or coefficients from the wrong place.
- Chunked HTTP bodies, DNS, TLS, sockets, files, signals, JACK ports and the browser interface: input and output, or foreign calls.
- Configuration clamping and name copying: they would only add easy members.
