# Verified model of the named-data radio's algorithms

The repository drives 802.11 radios for named-data networking. This project models the parts of it that are
algorithms rather than hardware access, and proves what they promise.

* **The AR9271 host stack** (`src/ath9k_htc.rs` and the firmware's memory handler). The wire: `Htc`, `Wmi`,
  `WmiProtocol`, `Registers`, `TargetMemory`, and `Remote`, `RemoteMemory` and `RemoteRegisters`, which put the last
  two behind the lossy protocol. Receive: `RxDeagg`. Transmit: `TxFrame`. Initialisation, retuning and power:
  `Initvals`, `Phy`, `PowerLevels`, `Tuning`, `Knobs`. Calibration arithmetic: `VpdCurve`, `Pdadc`, `PdadcPower`,
  `DeltaSlope`. The clock: `TsfClock`.
* **Named airtime lease** (`src/lease.rs`, `tools/clock_offset.py`): `Lease`, `LeaseAirtime`, `LeaseExclusion`,
  `ClockOffset`.
* **Distribution-free statistics** (`examples/rf_ab.rs`): `Reals`, `Ranks`, `Wilcoxon`, `SignTest`, `HodgesLehmann`,
  `Shuffle`, and the plan parser `Arms`.
* **Frequency control loop** (`src/freq_discipline.rs`): `FreqDiscipline`.
* **NDN TLV encoder and parser** (`examples/ndr_e2e.rs`): `NdnTlv`, with the lossy UTF-8 decoding of components in
  `Utf8`.
* `Prelude`, `DivMod`, `Multiples`, `Bits`, `Bytes`, `Store` and `Sorting` are shared vocabulary.

The register file, the target's memory and the register pipe are an abstract map, an abstract map and a queue of
packets. `f64` and `f32` are exact reals, fixed-width integers are unbounded with every wrap, clamp and truncation
written out where it can happen, and Rust panics are error results. Whatever comes from outside (initialisation
tables, EEPROM contents, which calibrations converge, packet arrivals, random words, clocks, the normal distribution
function, the 802.11 decoder) is a parameter, and every theorem is for all its values. Methods with loops and mutable
state are proved equal to specification functions; the theorems are about those functions, runs of them, or
independent definitions.

`dafny verify dfyconfig.toml` checks everything.

## Where the code and its prose disagree

The model follows the code; each of these is a theorem.

* `next_slot_start_us` is documented as "at or after" its argument. It is strictly after, so the documented reading
  holds exactly when the argument is not itself an owned boundary (`NextStartIsDocumentedStartExactlyOffBoundary`).
* A dBm power request is said to survive a width change. Storing its level as an index loses one step for levels 1 to
  9 (`DbmLevelSurvivesExactly`).
* A power that was never set is held as index 0, so the first width change drops the radio to its lowest level
  (`UnsetPowerFallsToMinimum`).
* A channel change in HT40 runs the HT20 offset calibration, which ends by clearing the dynamic 20/40 enable, and
  nothing sets it again (`Ht40RetuneLosesWidthBit`, `WidthBitAgreesExactly`).
* `build_tx_frame_bytes` accepts payloads up to 65535 bytes but stores a length eight larger in sixteen bits
  (`StreamLengthIsRightExactly`).
* The TLV encoder writes lengths of 65536 and more modulo 65536; the parser then undoes it exactly under the condition
  of `ParseUndoesExactly`. Names of text are undone exactly below 65536 bytes.
* Components are decoded with `from_utf8_lossy`, which turns one undecodable byte into three. Text is returned as it was
  sent, and nothing else is (`DecodedIsIdentityExactly`). A parsed name can therefore need more room than the packet it
  came in (`OneStrayByteOutgrowsItsPacket`); for which components it cannot is `ParsedNameFitsExactly`.
* Ranks treat values closer than `f64::EPSILON` as tied, anchored at a run's first value. They are the textbook
  midranks exactly when different values are at least that far apart (`MidranksAreTextbookExactly`).
* `ends_inside_slot` keeps rival frames apart for perfect clocks and for no others
  (`EndsInsideSlotNeedsPerfectClocks`).
* `fits_at` adds phase and airtime in 64 bits. In a build that wraps, an airtime that carries the sum past 2^64 is
  accepted (`FitsAtMeansRoomExactly`).
* A deadband of one actuator step is said to end limit cycles. For the stepped trim of the tests it does exactly while
  measurement noise stays within a quarter of a step (`OneStepDeadbandIsExact`).
* `delta_slope_vals` subtracts its shift counts without wrapping: a checked build panics exactly below 2^15
  (`DeltaSlopeVals`).
* The synthesiser's mode bits swallow bit 28 of the channel selector, so frequencies 61440 MHz apart program one field
  (`TunedAgreesExactly`).
* `read_clock` needs no bound on how far the counter advances in order never to go backwards
  (`ReadingIsWithinTheCall`); the bound is what makes the value one of the four it sampled (`ReadingWasHeld`).

## Model

| member | source | states |
|---|---|---|
| Lease.AcceptedGridHoldsAFrame | src/lease.rs:128-204 | a grid is accepted if and only if it has two slots, a guard of at least 1 ms inside the slot, and room for guard and frame (a saturating sum); an accepted grid is usable for one frame |
| Lease.EpochCharacterised | src/lease.rs:237-255 | every instant lies in exactly one slot index, at a phase below the slot length |
| Lease.WaitIsLeastOwnedInstant | src/lease.rs:305-315 | `now + wait_us` is the least instant not before `now` the name owns, less than a superframe away |
| Lease.NextStartIsLeastLaterBoundary | src/lease.rs:317-332 | the next start is the least owned boundary strictly after its argument, at most a superframe on |
| Lease.NextStartIsDocumentedStartExactlyOffBoundary | src/lease.rs:317-332 | it is the first boundary at or after, as documented, if and only if the argument is not an owned boundary |
| Lease.FollowingAgreesWithNext | src/lease.rs:334-338 | from an owned boundary, one superframe on is the recomputed next start and is owned again |
| Lease.WaitReachesNextStart | src/lease.rs:305-332 | outside an owned slot, waiting ends at the next start |
| Lease.NoOverflowWithASuperframeOfHeadroom | src/lease.rs:305-332 | with one superframe of headroom below 2^64 both targets fit, and the owner sum does too unless slots are single microseconds and more than 2^63 |
| Lease.OwnerSumFitsExactly | src/lease.rs:305-332 | adding owner slot and slot count overflows for no name if and only if there are at most 2^63 slots |
| Lease.FitsAtMeansRoomExactly | src/lease.rs:273-285 | inside the lease, `fits_at` says that the frame ends before the guard if and only if phase plus airtime stays below 2^64; beyond that it always says yes |
| LeaseAirtime.WindowSlides | src/lease.rs:219-265 | the count of owned instants in a superframe does not depend on where it starts |
| LeaseAirtime.EveryNameGetsItsShare | src/lease.rs:219-275 | in any window of one superframe a name owns exactly `slot_us` instants and may transmit in exactly `usable_us` |
| LeaseAirtime.InstantsAreNotShared | src/lease.rs:227-265 | two names own one instant if and only if they have one owner slot |
| LeaseAirtime.HashOwnsItsSlot | src/lease.rs:228-255 | a hash below the slot count owns exactly the instants of the slots of its own number, in every superframe |
| LeaseAirtime.HashesWrap | src/lease.rs:228-230 | a hash one slot count further on owns the same instants |
| LeaseAirtime.OneOfARowOwns | src/lease.rs:228-265 | of any `slots` hashes in a row exactly one owns a given instant, so names spread evenly |
| LeaseExclusion.NoTwoOwnersOnAir | src/lease.rs:227-285 | any number of nodes whose real-valued clocks, over the window of true time that holds the frames, disagree by `d`, gain `k` per slot and launch `late` after the checked instant, with the three together within the guard: frames permitted by `fits_at` under different owner slots never overlap in true time |
| LeaseExclusion.SkewedNodesExcludeEachOther | src/lease.rs:34-48 | clocks that run fast or slow at any constant rates up to `r` keep apart as long as the disagreement at the start, what two such rates add over the window and over one slot, and the lateness fit the guard |
| LeaseExclusion.BenchNodesExcludeEachOther | tools/clock_offset.py:14-18 | at the bench's drift of 78 us in 90 s and the measured lateness of 896 us, nodes on 10 ms slots with a 1 ms guard keep apart for 90 s if their clocks start within 24 us |
| LeaseExclusion.BenchNodesExist | tools/clock_offset.py:14-18 | such nodes exist: two clocks of different rates, each sending a frame in its own slot |
| LeaseExclusion.GuardIsExactlyTheTolerance | src/lease.rs:273-285 | on whole-microsecond clocks, every pair of rival frames is safe for offsets up to `d` if and only if `d` is at most the guard |
| LeaseExclusion.BeyondGuardCollides | src/lease.rs:282-285 | one microsecond beyond the guard two permitted frames collide |
| LeaseExclusion.EndsInsideSlotNeedsPerfectClocks | src/lease.rs:287-303 | with `ends_inside_slot` alone, rival frames are safe for offsets up to `d` if and only if `d` is zero |
| ClockOffset.Estimate | tools/clock_offset.py:46-67 | the probe loop, sort, best decile, median and sign flip compute the offset as a function of the four timestamps of every exchange |
| ClockOffset.SampleIsAccurate | tools/clock_offset.py:50-56 | an exchange stamped by two clocks whose offset wanders by `wander` during it, with any real path delays, misses that offset by at most half its round trip plus truncation and wander (section 8 of RFC 5905) |
| ClockOffset.WholeMicrosecondSample | tools/clock_offset.py:53-54 | on whole-microsecond clocks the error is at most half the round trip, rounded up |
| ClockOffset.MeasureIsDelay | tools/clock_offset.py:53-54 | the measured round trip is the two path delays alone, and the measured offset is off by half their difference, rounded down |
| ClockOffset.BestDecileIsFastest | tools/clock_offset.py:58-60 | the best decile is drawn from the samples and none left out is faster than its slowest |
| ClockOffset.DecileIsTenth | tools/clock_offset.py:58-59 | the best decile holds a tenth of the samples, rounded down, one when they are fewer than ten, and every sample left out is slower, or as slow with no smaller an offset |
| ClockOffset.EstimateIsMiddleOfBest | tools/clock_offset.py:60-67 | the printed estimate is the mean of the two middle client-minus-server offsets of that decile, told by counting, with the fraction dropped |
| ClockOffset.EstimateIsAccurate | tools/clock_offset.py:50-67 | over any series of exchanges during which the offset wanders by at most `wander`, the printed estimate misses it by less than half the worst round trip it used plus 2.5 microseconds plus the wander |
| ClockOffset.WholeMicrosecondEstimate | tools/clock_offset.py:50-67 | on whole-microsecond clocks the estimate misses the offset by at most half the slowest round trip it used, rounded up |
| ClockOffset.CorrectedNodesExcludeEachOther | src/lease.rs:227-285 | nodes that correct their clocks by this estimator never overlap while round trip, 5 microseconds, twice wander and drift since, gain per slot and lateness together fit the guard |
| ClockOffset.SkewedClocksTrack | tools/clock_offset.py:20-29 | clocks of constant rates within `r` meet the drift hypothesis: their offset moves by at most `2 r` times the time since it was true |
| Reals.QuantIsNearestRank | examples/rf_ab.rs:145-152 | the quantile is a nearest-rank quantile: at least a share `q` of the values is at most it, less than that share is below it |
| Reals.QuantMonotone | examples/rf_ab.rs:145-152 | quantiles rise with the probability |
| Reals.MedianOfMultiset | examples/rf_ab.rs:139-164 | the median depends only on the multiset of values |
| Reals.MedianWithin | examples/rf_ab.rs:154-164 | it lies between any bounds of the values |
| Reals.MedianScale | examples/rf_ab.rs:154-164 | it follows every affine change of units, sign flips included |
| Reals.MedianIsMiddleOfList | examples/rf_ab.rs:154-164 | the median is the mean of the (n+1)/2-th and the (n/2+1)-th smallest value, where fewer than k values lie below a k-th smallest and at least k at or below it |
| Reals.CountsArePlaces | examples/rf_ab.rs:139-164 | those counts are the numbers of places of the list that hold such a value |
| Ranks.AssignRun | examples/rf_ab.rs:306-324 | writing one rank through the sorted index touches exactly the run's places |
| Ranks.RankRun | examples/rf_ab.rs:306-324 | one turn ranks exactly one maximal run with its mean position |
| Ranks.RankWithTies | examples/rf_ab.rs:253-324 | the nested loops over sorted runs compute the midranks and the tie sum |
| Ranks.MidrankSums | examples/rf_ab.rs:306-324 | whatever the ties, midranks sum to n(n+1)/2 and their squares fall short of the pyramid number by a twelfth of the tie sum |
| Ranks.MidranksAreTextbookExactly | examples/rf_ab.rs:306-324 | they are the textbook midranks (below + at most + 1)/2 if and only if different values are at least an epsilon apart |
| Wilcoxon.WilcoxonP | examples/rf_ab.rs:253-286 | filtering, ranking and standardising compute the p-value as a function of the differences |
| Wilcoxon.ZerosAreDropped | examples/rf_ab.rs:253-262 | leaving a zero difference out changes nothing, and nothing else is left out |
| Wilcoxon.StatisticAddsPositiveRanks | examples/rf_ab.rs:270-275 | the statistic is zero when every difference is negative, and turning one of them positive adds its midrank |
| Wilcoxon.MeanIsExact | examples/rf_ab.rs:274-282 | the test subtracts half the sum of the midranks, the exact mean over all sign choices |
| Wilcoxon.VarianceIsExact | examples/rf_ab.rs:274-282 | it divides by the root of a quarter of the sum of their squares, the exact variance |
| Wilcoxon.PValueIsTwoTails | examples/rf_ab.rs:253-286 | for a distribution symmetric about zero the p-value is its mass outside -z and z, with z the distance from the mean in standard deviations |
| Wilcoxon.VarianceIsQuarterOfSquares | examples/rf_ab.rs:274-282 | the tie-corrected variance formula is a quarter of the sum of squared midranks |
| Wilcoxon.NullMomentsAreExact | examples/rf_ab.rs:274-282 | mean and tie-corrected variance are the exact ones of the statistic over all sign choices |
| Wilcoxon.StatisticIsAnOutcome | examples/rf_ab.rs:270-275 | the observed statistic is one of those outcomes |
| Wilcoxon.OutcomeCount | examples/rf_ab.rs:253-286 | there are 2^n outcomes |
| Wilcoxon.VarianceIsBoundedBelow | examples/rf_ab.rs:276-282 | the variance is at least n(n+1)^2/16, and at that floor if and only if all the keys form one run of ties |
| Wilcoxon.DegenerateExitIsUnreachable | examples/rf_ab.rs:253-286 | the test answers a number if and only if two differences are nonzero: the zero-variance exit is dead in exact arithmetic |
| Wilcoxon.SwappingArmsMirrorsStatistic | examples/rf_ab.rs:270-275 | negating every difference maps the statistic to n(n+1)/2 minus itself |
| Wilcoxon.SwappingArmsKeepsP | examples/rf_ab.rs:253-286 | and leaves the p-value unchanged |
| SignTest.Binomial | examples/rf_ab.rs:225-231 | the running product of ratios is the binomial coefficient (the logarithm of the original is taken as exact) |
| SignTest.TailMass | examples/rf_ab.rs:242-247 | the summed terms are the share of outcomes in the tail |
| SignTest.Test | examples/rf_ab.rs:235-249 | counts and capped two-sided p-value as a function of the differences |
| SignTest.CountsArePlaces | examples/rf_ab.rs:235-241 | the two counts are the numbers of places with a difference above and below zero |
| SignTest.PValueIsShareOfExtremes | examples/rf_ab.rs:235-249 | the p-value is the share of all 2^n sign patterns at least as lopsided as the observed one, counted one by one |
| SignTest.SwappingArms | examples/rf_ab.rs:235-249 | swapping the arms swaps the counts and keeps the p-value |
| HodgesLehmann.Compute | examples/rf_ab.rs:184-195 | the double loop over pairs and the median compute the estimate, which the next row states without them |
| HodgesLehmann.EstimateIsMiddleAverage | examples/rf_ab.rs:184-195 | of the N = n(n+1)/2 averages of two differences, each with itself included, it is the mean of the (N+1)/2-th and the (N/2+1)-th smallest, counted over index pairs |
| HodgesLehmann.KthAverageIsUnique | examples/rf_ab.rs:184-195 | and those are single numbers |
| HodgesLehmann.OrderIsIrrelevant | examples/rf_ab.rs:184-195 | it depends only on the multiset of differences |
| HodgesLehmann.LiesWithinTheDifferences | examples/rf_ab.rs:184-195 | it lies within any bounds of the differences |
| HodgesLehmann.FollowsChangeOfUnits | examples/rf_ab.rs:184-195 | it follows every affine change of units |
| HodgesLehmann.SwapAndShift | examples/rf_ab.rs:184-195 | swapping the arms flips its sign, and adding c to every difference adds c |
| Shuffle.ShuffleInPlace | examples/rf_ab.rs:117-129 | the in-place loop computes the shuffle as a function of the random words |
| Shuffle.BelowIsEven | examples/rf_ab.rs:117-123 | of any `n` raw words in a row each index below `n` comes from exactly one |
| Shuffle.ShuffledMultiset | examples/rf_ab.rs:124-129 | a shuffle is a rearrangement |
| Shuffle.ShuffleIsInjective | examples/rf_ab.rs:124-129 | different index choices give different orders |
| Shuffle.EveryOrderHasOneChoice | examples/rf_ab.rs:124-129 | every rearrangement comes from exactly one list of index choices |
| Arms.ParseArms | examples/rf_ab.rs:400-449 | a plan is accepted if and only if it reads, names two arms and no arm leaves out a knob another sets; each refusal is the source's: the first unreadable setting, too few arms, or the first arm that leaves a knob out with the first knob it leaves out |
| Arms.CheckComplete | examples/rf_ab.rs:425-447 | the nested check reports nothing if and only if no arm inherits, and otherwise the first arm to leave out a knob and the first such knob in the order in which the plan names them |
| Arms.AllKnobs | examples/rf_ab.rs:425-434 | the nested loops collect the knobs of all arms in order of first mention, each once |
| Arms.MissingFromUnion | examples/rf_ab.rs:425-447 | leaving repeats out of that list does not change which knob an arm is found to miss |
| Arms.FirstLackIsUnique | examples/rf_ab.rs:435-447 | the reported place is the only one of its kind, and there is one only if some arm inherits |
| Arms.SameKeyMeansSameSettings | examples/rf_ab.rs:395-418 | two arms have one canonical key if and only if every setting agrees, so sham pairs are exactly the equal configurations |
| Arms.SplitJoins | examples/rf_ab.rs:400-418 | the pieces of a split, joined by the separator, are the text: none is lost |
| Arms.TrimCutsEnds | examples/rf_ab.rs:400-418 | trimming cuts off white space at both ends, all of it and nothing else |
| Arms.LowerIsAscii | examples/rf_ab.rs:400-418 | lower case moves the capitals A to Z and no other character |
| Arms.PlanReadsBack | examples/rf_ab.rs:400-418 | a plan written out from any arms, sorted by key, whose names, keys and values hold no separator and no outer white space, keys and values in lower case, reads back as those arms |
| FreqDiscipline.Discipline.Update | src/freq_discipline.rs:104-125 | inside the deadband the trim is kept and the residual held; outside, the command is the point of the range nearest to trim minus measurement, a refusal changes nothing, acceptance records what the actuator reports, and the action is saturated, with the wanted trim, if and only if the command missed it by more than the epsilon, and steered, with the command, otherwise |
| FreqDiscipline.AtMostOneSteer | src/freq_discipline.rs:98-125 | with actuator error e, noise eta and e + 2 eta within the deadband, a constant skew in range is steered at most once in any run, and then left within e + eta |
| FreqDiscipline.OutOfRangeSettles | src/freq_discipline.rs:98-125 | a constant skew out of range leaves the trim where it was or at the one trim of its end of the range |
| FreqDiscipline.OutOfRangeReachesRest | src/freq_discipline.rs:98-125 | when the residual exceeds deadband and noise, the trim comes to that rest, by a steer, if and only if one tick is accepted |
| FreqDiscipline.OutOfRangeTick | src/freq_discipline.rs:98-125 | such a tick is reported as saturated if and only if the measured skew is out of range by more than the epsilon |
| FreqDiscipline.DriftStaysBounded | src/freq_discipline.rs:98-125 | under drift rho per tick the residual stays within max(deadband, e) + eta + rho for ever after the first tick |
| FreqDiscipline.QuantisedIsAccurate | src/freq_discipline.rs:155-160 | the stepped, clamped actuator of the tests is accurate to half its step |
| FreqDiscipline.QuantisedIsNearest | src/freq_discipline.rs:155-160 | it never leaves the range, and inside rests on a whole number of steps, none of which is nearer to the command |
| FreqDiscipline.DeadbandIsExact | src/freq_discipline.rs:18-29 | over all actuators of error e, no noise within eta, none included, makes any of them steer twice if and only if the deadband is at least e + 2 eta, or e + eta + twice the range where noise exceeds twice the range |
| FreqDiscipline.LimitCycle | src/freq_discipline.rs:18-29 | below e + 2 eta an overshooting actuator is steered at every tick of a run of any length |
| FreqDiscipline.SteppedDeadbandIsExact | src/freq_discipline.rs:18-29 | the stepped trim of the tests never cycles under noise eta if and only if half a step plus 2 eta is within the deadband |
| FreqDiscipline.OneStepDeadbandIsExact | src/freq_discipline.rs:18-29 | with the default deadband of one step it never cycles if and only if the noise is at most a quarter step |
| FreqDiscipline.OneStepDeadbandHolds | src/freq_discipline.rs:18-29 | the default deadband of one actuator step is enough for noise up to a quarter step |
| NdnTlv.BuildInterest | examples/ndr_e2e.rs:16-42 | the byte-pushing builder writes the Interest encoding |
| NdnTlv.InterestCarriesNonce | examples/ndr_e2e.rs:38-42 | an Interest below 65536 bytes is exactly two elements, the name and a nonce of four bytes that read as the sequence number modulo 2^32 |
| NdnTlv.BuildData | examples/ndr_e2e.rs:16-47 | the byte-pushing builder writes the Data encoding |
| NdnTlv.DataCarriesContent | examples/ndr_e2e.rs:43-47 | a Data packet below 65536 bytes is exactly two elements, the name and right behind it the content, type 0x15 |
| NdnTlv.Rd | examples/ndr_e2e.rs:48-60 | the cursor reader reads one number and advances, or leaves the cursor alone |
| NdnTlv.ParsePacket | examples/ndr_e2e.rs:62-90 | the nested parsing loops compute the parse function on arbitrary bytes, in bounds and terminating, components decoded as the source decodes them |
| NdnTlv.NameReadsBackExactly | examples/ndr_e2e.rs:31-90 | the bytes of a name's components are read back if and only if they encode to less than 65536 bytes |
| NdnTlv.ParseUndoesExactly | examples/ndr_e2e.rs:31-90 | a packet is undone if and only if its components are text, the name is short enough, and it ends within the length the packet stores |
| NdnTlv.ParseUndoesInterest | examples/ndr_e2e.rs:38-90 | parsing undoes every Interest of text components shorter than 65536 bytes |
| NdnTlv.ParseUndoesData | examples/ndr_e2e.rs:43-90 | parsing undoes every Data of text components shorter than 65536 bytes |
| NdnTlv.NameEncodingIsInjective | examples/ndr_e2e.rs:31-37 | different names have different encodings |
| NdnTlv.ParsedNameFitsPacket | examples/ndr_e2e.rs:62-90 | a parsed name needs no more room than its packet has when no raw component holds an ill-formed sequence of one or two bytes |
| NdnTlv.RawNameFitsPacket | examples/ndr_e2e.rs:62-90 | before decoding, on any bytes, the name fits the packet it was found in |
| NdnTlv.ParsedNameFitsExactly | examples/ndr_e2e.rs:62-90 | every packet that holds the given raw components has room for the decoded name if and only if none of them has such a sequence, or they are too long for any packet |
| NdnTlv.TextFits | examples/ndr_e2e.rs:62-90 | a name of text is returned as it was sent, and fits the packet it came in |
| NdnTlv.OneStrayByteOutgrowsItsPacket | examples/ndr_e2e.rs:76-84 | a packet of seven bytes whose parsed name needs nine |
| NdnTlv.DecodedIsIdentityExactly | examples/ndr_e2e.rs:81 | decoding leaves components alone if and only if all are well-formed text, and always returns text |
| Utf8.LossyIsIdentityExactly | examples/ndr_e2e.rs:81 | lossy decoding leaves bytes alone if and only if they are well-formed UTF-8 (section 3.9 of the Unicode Standard) |
| Utf8.LossyIsWellFormed | examples/ndr_e2e.rs:81 | whatever the bytes, the decoded text is well-formed |
| Utf8.LossyLength | examples/ndr_e2e.rs:81 | decoded text is never shorter and at most three times as long, and as long as the bytes if and only if no ill-formed sequence is shorter than its replacement |
| Utf8.WellFormedIsEncodedText | examples/ndr_e2e.rs:81 | text is well-formed if and only if it is the encoding of scalar values, and then of one list of them |
| Utf8.EncodingIsAChar | examples/ndr_e2e.rs:81 | every scalar value, surrogates being none, encodes to one character that decodes to it |
| Utf8.CharIsAnEncoding | examples/ndr_e2e.rs:81 | every character found is the encoding of the value it decodes to, so overlong forms and surrogates are not |
| Utf8.ErrorIsMaximal | examples/ndr_e2e.rs:81 | an ill-formed sequence is as long as some character may begin so, and one byte at the least |
| Utf8.LossyAfterText | examples/ndr_e2e.rs:81 | behind any text one replacement character stands for one ill-formed sequence, and decoding goes on after it |
| NdnTlv.RequestReachesResponse | examples/ndr_e2e.rs:91-135 | an Interest is answered if and only if its name is under the served prefix, the Data comes back as the name asked for and carries the producer's content, and Data is never answered |
| Htc.TrailerIsStripped | src/ath9k_htc.rs:684-752 | whatever payload and trailer the target frames, the receiver hands on endpoint and payload alone |
| Htc.ReceivesExactly | src/ath9k_htc.rs:712-752 | every read by its bytes: the length high byte first, the trailer flag in bit 1, and each of the three refusals exactly where it is due |
| Htc.SentFrameBytes | src/ath9k_htc.rs:684-705 | a frame is sent if and only if its payload is at most 504 bytes, and is endpoint, no flags, length, four zero bytes, payload |
| Htc.SentFrameReadsBack | src/ath9k_htc.rs:684-705 | a target that reads the header as the host does gets endpoint and payload back |
| Wmi.CommandBytes | src/ath9k_htc.rs:945-960 | a command is identifier and number, high byte first, and payload |
| Wmi.FirstReadDecides | src/ath9k_htc.rs:960-980 | the first read that is not an event, a runt or the reply to another command decides; sixteen of those, or none, end the command without a reply |
| Wmi.Host.WmiCmd | src/ath9k_htc.rs:945-980 | one command: the sequence number advances modulo 65536, the frame goes out, and of sixteen reads the first matching packet is the reply |
| WmiProtocol.AnswerFrameIsWellFormed | src/ath9k_htc.rs:712-752 | the frames the target builds for answers are the ones the protocol model ranges over |
| WmiProtocol.InvariantOfRun | src/ath9k_htc.rs:945-980 | what every step of host, target and pipe keeps, over every interleaving |
| WmiProtocol.RepliesAreGenuine | src/ath9k_htc.rs:945-980 | an error-free command returns the target's answer to that very command, never an event or a late answer, while answers still in the pipe are fewer than 65536 commands old; commands that are never answered put no bound on a run |
| WmiProtocol.LostCommandsStopNothing | src/ath9k_htc.rs:932-944 | for any number of lost commands there is a run that issues and loses them all and is ready for the next |
| WmiProtocol.StaleAnswerIsTakenExactly | src/ath9k_htc.rs:945-980 | a late answer is mistaken for the reply if and only if it is a multiple of 65536 commands old |
| WmiProtocol.DeliveredExactlyWithinSixteen | src/ath9k_htc.rs:945-980 | the reply is delivered if and only if at most fifteen other packets are queued ahead of it |
| WmiProtocol.StepsAgreeWithLoop | src/ath9k_htc.rs:945-980 | reading step by step gives what the receive loop gives |
| Registers.Target.RegRead | src/ath9k_htc.rs:1172-1181 | a read returns the register's contents through encoding and decoding |
| Registers.Target.RegWriteBatch | src/ath9k_htc.rs:1198-1208 | any number of pairs, six to a message of at most 64 bytes, reach the registers in order |
| Registers.LastWriterIsContents | src/ath9k_htc.rs:1455-1468 | after any log of writes each address reads as its last logged value, and unlogged ones as before |
| Remote.SoundHistory | src/ath9k_htc.rs:945-980 | in every history of issued, lost, late and given-up commands: each command is executed at most once, every answer is what the target made of its command, and a command that came back was executed before every later one |
| Remote.DeliveriesAreExecuted | src/ath9k_htc.rs:945-980 | a command that came back was executed exactly once, and the caller got what the target made of it then |
| Remote.StretchIsAtomic | src/ath9k_htc.rs:1198-1208 | commands issued one after the other that come back have run in that order with nothing in between, if no command was waiting at the start or the target executes in order; of one that has not come back all or nothing |
| Remote.GivenUpRunsLate | src/ath9k_htc.rs:945-980 | a command can be given up, overtaken by the next one, and executed after it |
| RemoteRegisters.BatchIsAtomic | src/ath9k_htc.rs:1198-1208 | a batch that comes back has written all its pairs in order; one given up has written whole messages only |
| RemoteRegisters.ReadIsAtomic | src/ath9k_htc.rs:1172-1181 | a register read that comes back returns what the register held when it was executed |
| TargetMemory.ExchangeIsAllOrNothing | firmware/ath9k-htc-ndr/src/ndr_mem.c:44-115 | the firmware does all of a request or, when an address is out of its windows, none of it |
| TargetMemory.ReplyIsNoLonger | firmware/ath9k-htc-ndr/src/ndr_mem.c:44-115 | a reply is never longer than its request or the four-byte refusal |
| TargetMemory.Backend.Exchange | src/ath9k_htc.rs:256-264 | request and reply, headers and trailer included, fit the 64-byte pipe |
| TargetMemory.Backend.AccessMemory | src/ath9k_htc.rs:1072-1130 | chunked access refines a flat memory: all words when every chunk is in range, otherwise exactly the chunks before the first refused one, and the refusal |
| TargetMemory.LoadSplits | src/ath9k_htc.rs:1072-1130 | in the flat memory, reading m + n words is reading m and then n from four bytes a word further on |
| TargetMemory.StoreSplits | src/ath9k_htc.rs:1072-1130 | so with writing |
| TargetMemory.LoadOne | src/ath9k_htc.rs:1072-1130 | and one word read is the word stored at the address |
| TargetMemory.StoreOne | src/ath9k_htc.rs:1072-1130 | one word written changes that word alone |
| TargetMemory.GoodWordsAreWholeChunks | src/ath9k_htc.rs:1072-1130 | the words done before a refusal are the chunks of five before the one that holds the first bad address |
| TargetMemory.GoodWordsAreAll | firmware/ath9k-htc-ndr/src/ndr_mem.c:35-42 | access succeeds as a whole if and only if every word is in the firmware's windows |
| TargetMemory.StoreThenLoad | src/ath9k_htc.rs:1054-1130 | written words read back, and all other words are untouched |
| TargetMemory.WriteThenRead | src/ath9k_htc.rs:1054-1061 | writing and then reading through the driver returns what was written |
| TargetMemory.WriteThenReadOne | src/ath9k_htc.rs:1054-1061 | after a write, reading one word at `addr + 4 * j` through the driver returns the j-th word written |
| RemoteMemory.ChunkIsAtomic | src/ath9k_htc.rs:1072-1130 | in any history, a chunk whose answer is accepted read the words held when it was executed, or wrote all of its words then |
| RemoteMemory.AccessIsAtomic | src/ath9k_htc.rs:1072-1130 | an access that comes back without error is one access to the flat memory, whatever was lost or late: as it was at the start when no command was waiting, else as the commands given up before left it |
| RemoteMemory.RefusedIsAtomic | src/ath9k_htc.rs:1072-1130 | one that is refused has done exactly the chunks before the first one out of the firmware's windows |
| RemoteMemory.AbandonedIsAllOrNothing | src/ath9k_htc.rs:1072-1130 | one whose last command has not come back has done the chunks before it whole, and of that one all or nothing, for as long as no other command is issued |
| RemoteMemory.WrittenWordsReadBack | src/ath9k_htc.rs:1054-1061 | written words are read back by the next access that comes back, whatever was lost or late in either, if no command was waiting at the start or the target executes in order |
| RemoteMemory.LateWriteOvertakes | src/ath9k_htc.rs:1072-1130 | where neither holds they may not stay: a write given up earlier can undo one that completed |
| Initvals.Verify | src/ath9k_htc.rs:1446-1483 | the report lists exactly the logged sentinels whose register lost its last logged value |
| Initvals.LogIsContents | src/ath9k_htc.rs:1396-1442 | for any tables, every logged address holds its last logged value, the rest are as before, and the width bit follows the flag |
| Initvals.LatestRowIsContents | src/ath9k_htc.rs:1376-1442 | row by row: a register holds the value of the last row of the chosen gain table that names it, else of the ANI table, the common table, the MODES table, and rows with a value per width give the 2.4 GHz one of the width in use |
| Initvals.OtherBitsStay | src/ath9k_htc.rs:1434-1442 | forcing the width bit leaves every other bit of its register |
| Initvals.ApplyInitvals | src/ath9k_htc.rs:1339-1483 | for any tables, streaming leaves the replay of the log in the registers and sentinel checking reports no mismatch |
| Phy.RetuneOverwritesField | src/ath9k_htc.rs:2083-2104 | for every 16-bit frequency a synthesiser write keeps the two top bits and replaces the rest by the tuned field |
| Phy.TunedAgreesExactly | src/ath9k_htc.rs:2083-2104 | two centres program the same field if and only if they agree modulo 61440 MHz, and channel 1 programs the word of the golden trace |
| Phy.TunedIsFraction | src/ath9k_htc.rs:2083-2104 | the field is the mode bits over the centre in units of 15/65536 MHz, rounded down, modulo 61440 MHz |
| Phy.ChannelsAreFiveApart | src/ath9k_htc.rs:2083-2104 | neighbouring channels are 5 MHz apart, 14 alone 12 MHz above 13, and HT40 on channel c programs the field of HT20 on channel c + 2 and of no other |
| Phy.RungsAreDistinct | src/ath9k_htc.rs:3461-3477 | the gain registers tell the eleven levels apart |
| PowerLevels.NearestLevel | src/ath9k_htc.rs:3675-3684 | the level chosen for a dBm request is the first of the ladder's levels nearest to it |
| PowerLevels.NearestBelow | src/ath9k_htc.rs:3675-3684 | so is the running choice among the levels scanned so far |
| PowerLevels.StoringLosesAStep | src/ath9k_htc.rs:3536-3538 | a level stored as an index comes back one lower, except at the two ends |
| PowerLevels.LevelIsShareOfIndex | src/ath9k_htc.rs:3536-3538 | an index stands for its share of the ladder, rounded down, clamped at the top |
| PowerLevels.IndexIsShareOfLevel | src/ath9k_htc.rs:3675-3691 | the stored index is the share of the level, rounded down |
| PowerLevels.ReportIsNearest | src/ath9k_htc.rs:3675-3691 | a level is reported as the nearest whole dBm, the upper one of two |
| PowerLevels.ReportedValueIsGranted | src/ath9k_htc.rs:3675-3691 | asking for a value the radio reported is granted as that value |
| Tuning.TuningRestoresStoredIndex | src/ath9k_htc.rs:1593-1612 | over any run of retunes the stored index stays, and the gain registers are rebuilt from it if and only if the width changed |
| Tuning.ChangesWidthExactly | src/ath9k_htc.rs:3555-3591 | a run counts as changing the width if and only if some part of it ends on the other width |
| Tuning.LastTuneWins | src/ath9k_htc.rs:3555-3591 | any run ends on the channel and the width of its last retune that was not refused |
| Tuning.LastPowerWins | src/ath9k_htc.rs:3616-3691 | and remembers the index of its last power request that was not refused |
| Tuning.PowerSetsLevel | src/ath9k_htc.rs:3616-3691 | a dBm request sets the nearest level, any other the share of the ladder its index stands for, and none touches width or frequency |
| Tuning.IndexLevelSurvives | src/ath9k_htc.rs:3555-3661 | an index request keeps its level through every later retune |
| Tuning.DbmLevelSurvivesExactly | src/ath9k_htc.rs:3675-3691 | a dBm request is at its level after any run of retunes if and only if the width never changed or the level is an end of the ladder, and otherwise one lower |
| Tuning.UnsetPowerFallsToMinimum | src/ath9k_htc.rs:1803-1818 | with no power ever set, a width change forces the lowest level |
| Tuning.RunIsOnFrequency | src/ath9k_htc.rs:3555-3591 | over any run the synthesiser matches channel and width once any retune acted |
| Tuning.WidthBitAgreesExactly | src/ath9k_htc.rs:3555-3591 | over any run with converging offset calibrations the width bit equals the width flag if and only if the last retune that acted did not change the channel alone in HT40 |
| Tuning.OneTuneKeepsWidthBit | src/ath9k_htc.rs:1593-1612 | one retune, converging or not, leaves the bit right exactly under the stated condition |
| Tuning.Ht40RetuneLosesWidthBit | src/ath9k_htc.rs:3582-3589 | a converging channel change in HT40 clears the bit |
| Knobs.Radio.constructor | src/ath9k_htc.rs:560-575 | a radio opens on channel 0, HT20, with index 0 |
| Knobs.Radio.ClCal | src/ath9k_htc.rs:2702-2737 | the calibration works in its own registers only; the borrowed width bit and carrier-leak enables come back cleared if and only if the offset calibration converges, and then the converter flag is set and the filter calibration cleared |
| Knobs.Radio.InitCal | src/ath9k_htc.rs:2124-2138 | so does the whole calibration sequence; it reports convergence only when both calibrations converged, and ends with the noise floor at -50 dBm, its measurement running and the I/Q calibration armed |
| Knobs.Radio.RfSetFreq | src/ath9k_htc.rs:2083-2104 | for every 16-bit frequency the synthesiser is tuned to it, 10 MHz higher in HT40, channel-14 spreading is on if and only if the frequency is 2484 MHz, and no third register changes |
| Knobs.Radio.SetChannelAndCal | src/ath9k_htc.rs:1548-1579 | a retune leaves mode, baseband and synthesiser programmed through the calibration that follows, and the width bit to the calibration |
| Knobs.Radio.SetBandwidth | src/ath9k_htc.rs:1593-1612 | reprogramming for a width, register by register, has the effect the run model gives it, and the calibration registers hold their last value when one was applied |
| Knobs.Radio.SetChannel | src/ath9k_htc.rs:3555-3591 | so has a retune; unsupported widths are refused and change nothing |
| Knobs.Radio.SetTxGainLevel | src/ath9k_htc.rs:3540-3546 | all nine gain registers end at the level, clamped to the ladder, and no other register changes |
| Knobs.Radio.ReapplyPowerState | src/ath9k_htc.rs:1803-1818 | the commanded level is on top, and every register but the nine gain registers holds the last value the board and power calibration wrote, or what it held |
| Knobs.Radio.SetTxPower | src/ath9k_htc.rs:3616-3661 | every kind of request has the effect and the report stated, and `NoActuator` is refused |
| Knobs.Radio.SetTxPowerDbm | src/ath9k_htc.rs:3675-3691 | a dBm request sets the nearest level, stores its index and reports the level's rounded output |
| Knobs.Radio.Turn | src/ath9k_htc.rs:3555-3691 | any run of knob calls on the registers ends where the run model says |
| Knobs.Radio.HwReset | src/ath9k_htc.rs:2484-2561 | after a reset the width bit equals the flag if and only if HT40 or the offset calibration converged, the synthesiser is tuned, and every register outside the calibration and the tuning holds the last value that tables, MAC and queue steps wrote; what the last steps wrote stays everywhere |
| VpdCurve.FillVpdTable | src/ath9k_htc.rs:3490-3528 | the loop writes the interpolated reading at every half-dB grid step and leaves the rest |
| VpdCurve.InterpolationIsBracketed | src/ath9k_htc.rs:3490-3528 | on rising curves every reading lies between its bracketing points, and is the weighted mean rounded down |
| VpdCurve.InterpolationIsOnTheLine | src/ath9k_htc.rs:3490-3528 | in plain numbers, two measured points around the power and the line between them rounded down |
| VpdCurve.MeasuredPointIsItself | src/ath9k_htc.rs:3490-3528 | at a measured power the curve reads what was measured |
| VpdCurve.InterpolationRises | src/ath9k_htc.rs:3490-3528 | readings rise with power |
| Pdadc.AppendRun | src/ath9k_htc.rs:1906-1943 | the three loops over the shared cursor append exactly the gain's run, cut at the last free entry, and fail exactly on a bad span or a 16-bit overflow |
| Pdadc.Build | src/ath9k_htc.rs:1893-1945 | the whole builder answers if and only if there is a gain and every power span is 2 to 127 half-dB, and then fills all 128 entries, repeating the last written one |
| PdadcPower.OneCurveInPower | src/ath9k_htc.rs:1893-1945 | in absolute power, with one curve: entry k is the reading interpolated at 2k half-dB inside the measured span, the line through the first two grid readings below it and through the last two above it, each rising at least one per step, and the last value is repeated |
| PdadcPower.BoundaryIsMidway | src/ath9k_htc.rs:1893-1905 | the boundary of two curves lies midway between them, at most 63 dB |
| PdadcPower.FirstCurveInPower | src/ath9k_htc.rs:1905-1943 | with two curves the first fills the entries up to the boundary and the overlap beyond it, by the same rule |
| PdadcPower.SecondCurveInPower | src/ath9k_htc.rs:1905-1943 | the next entry stands for a power of the second curve that far below the boundary, less one step, and so on up to its own boundary and overlap |
| PdadcPower.RestIsRepeated | src/ath9k_htc.rs:1936-1945 | behind that the last value is repeated |
| Pdadc.FirstGainWrites | src/ath9k_htc.rs:1893-1945 | the first gain always writes, so there is an entry to repeat |
| Pdadc.OneGainBuildsExactly | src/ath9k_htc.rs:1893-1945 | one gain builds if and only if its power span is 2 to 127 half-dB |
| Pdadc.TwoGainsBuildExactly | src/ath9k_htc.rs:1893-1945 | two gains build if and only if both spans are, whatever the overlap: no 16-bit sum or product overflows |
| Pdadc.MeasuredEntriesAreBracketed | src/ath9k_htc.rs:1881-1945 | each measured entry lies between the readings around it |
| Pdadc.RunRises | src/ath9k_htc.rs:1906-1943 | each gain's run is nondecreasing, extrapolations included |
| Pdadc.SingleGainTableRises | src/ath9k_htc.rs:1893-1945 | with one gain the whole table is |
| RxDeagg.ParseTransfer | src/ath9k_htc.rs:3336-3360 | on any bytes the walk stops, yields the frames of its units in order, and counts at most len/52 of them |
| RxDeagg.UnitParses | src/ath9k_htc.rs:3083-3147 | a serialised unit parses back to its frame, signal, rate and stamp wherever it stands |
| RxDeagg.UnitInBytes | src/ath9k_htc.rs:3083-3147 | every unit by the places of its bytes: when its frame is delivered, from which bytes frame, length, signal, rate and stamp are read, high byte first, and where the next unit starts |
| RxDeagg.SignalAndRate | src/ath9k_htc.rs:3100-3130 | the signal is the signed byte less 95, no lower than -128, and an HT rate is 128 up |
| RxDeagg.DeaggregationUndoesBatching | src/ath9k_htc.rs:3083-3147 | any batch of consistent padded units, wherever it stands and with any scrap behind, yields exactly the error-free units' frames in order |
| TxFrame.StreamLengthIsRightExactly | src/ath9k_htc.rs:3023-3074 | an accepted frame carries its payload and knobs; its stream length is right if and only if the payload is at most 65527 bytes |
| TxFrame.FrameBytes | src/ath9k_htc.rs:3023-3074 | every byte of an accepted frame, and refusal if and only if the payload is above 65535 bytes |
| TxFrame.WrappedStreamLength | src/ath9k_htc.rs:3040-3054 | an accepted frame whose stored stream length is zero |
| TsfClock.ReadClock | src/ath9k_htc.rs:2955-2971 | another clock domain is not answered; for any counter that never decreases the answer lies between its values at the first and the last read, and below 2^32 ticks per call it is the value at one of the reads of the low word |
| TsfClock.ReadingIsWithinTheCall | src/ath9k_htc.rs:2955-2971 | for any counter that never decreases, a reading lies between its values at the first and the last read |
| TsfClock.ReadingWasHeld | src/ath9k_htc.rs:2955-2971 | below 2^32 ticks per call it is the value at one of the reads |
| TsfClock.TickingCounterHeldReading | src/ath9k_htc.rs:2955-2971 | a counter that steps by one held every reading at some instant of the call |
| TsfClock.ReadingsNeverGoBack | src/ath9k_htc.rs:2955-2971 | over any series of calls readings never go backwards |
| DeltaSlope.FindTopBit | src/ath9k_htc.rs:3795-3804 | the downward search finds the highest set bit, or 0 for zero |
| DeltaSlope.DeltaSlopeVals | src/ath9k_htc.rs:3795-3811 | for every 32-bit coefficient, mantissa and exponent in wrapping arithmetic; a build with overflow checks fails if and only if the coefficient is below 2^15 |
| DeltaSlope.SplitIsNearest | src/ath9k_htc.rs:3795-3811 | for coefficients in [2^15, 2^23) the mantissa is within half a unit, in [2^14, 2^15], and 2^15 if and only if rounding carries out |
| DeltaSlope.TwoPointFourGigahertzFits | src/ath9k_htc.rs:2188-2216 | at every 2.4 GHz centre both mantissas fit their field and stand for 100 MHz over the centre |

## Left out

- I/O, timeouts, settle delays, threads and the libusb layer. `Knobs` takes its register commands as answered; a USB
  error in the middle of a knob call is not modelled there.
- RemoteMemory.AccessIsAtomic: commands of other kinds are taken to leave the memory windows alone.
- LeaseExclusion.NoTwoOwnersOnAir: clocks are real-valued functions of true time; a clock step counts as gain and must
  fit the guard with it. The frames are those whose launch phase plus airtime stays below 2^64, where `fits_at` means
  what it says.
- HTC control messages and endpoint negotiation; the protocol model starts with the control endpoint connected.
- The target's register handlers, which are upstream firmware and not part of this model beyond writing and reading
  the register file in order.
- TargetMemory.Backend.AccessMemory: word addresses wrap modulo 2^32, as the arithmetic does in a release build.
- Lease.NoOverflowWithASuperframeOfHeadroom: instants are unbounded elsewhere in `Lease`; this lemma says when that
  agrees with 64 bits.
- Pdadc.Build: arithmetic is checked, as in a debug build, and no check fails while the spans fit; the registers the
  table is then packed into and the per-rate power words are not modelled. Two gains are the most the EEPROM of this
  part has.
- Knobs.Radio.RfSetFreq: the 10 MHz are added modulo 2^16, as in a release build; a build with overflow checks panics
  above 65525 MHz.
- Knobs.Radio.ClCal: whether the polled bit clears is a parameter; the 64 polls are not counted.
- Knobs.Radio.HwReset: the MAC and queue steps between the tuning steps are arbitrary writes that stay off the width,
  synthesiser and gain registers, as the ones in the source do.
- Knobs.Radio.ReapplyPowerState: the calibration writes are arbitrary values to the registers the source writes; how
  they are computed from the EEPROM is `Pdadc` for the table and left out for the rest.
- Knobs.Radio.SetTxPowerDbm: measured outputs are exact tenths of a dBm; in single precision the nearest level is the
  same.
- RxDeagg.ParseTransfer: the 802.11 decoder is a parameter; the shared frame counter is returned instead of incremented.
- The random generator: `below` takes its raw word as given, modulo bias included.
- SignTest.Binomial: logarithms, square root and the normal distribution function are exact or parameters.
- FreqDiscipline.Discipline.Update: reals stand for single precision, with the source's epsilon kept in its comparison.
- NdnTlv.RequestReachesResponse: names and packets of text below 65536 bytes; the radio link between the two parsers is
  not modelled.
- Arms.ParseArms: what counts as white space is a parameter; arm names are not required to differ, as in the source.
- The name hash that picks a slot, which lives in another crate: every hash value is covered.
- Bootstrap intervals, Spearman correlation, the error function and all reporting in `examples/rf_ab.rs`.
- The bring-up plans, coverage tables, and the other radios' drivers, which are data or single branches.
