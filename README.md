# HDAWG8 DIO timing calibration, modelled in Dafny

This project models the DIO calibration procedure of the Zurich Instruments
HDAWG8 driver in PycQED (`ZI_HDAWG8.py`). A 32-bit DIO word carries a strobe (toggle) bit, a valid
bit and codeword bits. The driver checks that the strobe is sampled
symmetrically. It then sweeps the DIO delay 0..6 for every AWG, decoding each
capture into latched codewords and timing violations. It accepts the delays at
which no violation occurs and the codewords walk the expected sequence
cyclically. Finally it programs every AWG with the largest delay that is
valid for all of them.

Device reads (`getv`, `geti`) are inputs of the model:

- one strobe capture per shot;
- for each AWG, seven captures (the first read and six retries) for each of
  the seven delays;
- the DIO registers each AWG's protocol is read from.

Device writes (`seti`) are outputs: for every delay, the list of
(bit, delay value) writes. Samples and masks are `bv32` words. Python's
unbounded shifts are modelled by `ShiftLeft`/`ShiftRight`, which give 0 once
the shift reaches 32; on 32-bit samples they agree with Python.

Modules, one per part of the driver:

- `DioBits`: words, one-bit masks, shifts, `_get_edges`.
- `DioAnalysis`: `_analyze_dio_data`.
- `StrobeSymmetry`: `_is_dio_strb_symmetric`.
- `DioDelay`: `_set_dio_delay`.
- `DelaySearch`: `_find_valid_delays`.
- `StrobeCheck`: `_ensure_symmetric_strobe`.
- `Calibration`: `calibrate_dio_protocol`.
- `CodewordProtocol`: the register table of `configure_codeword_protocol` and the flux table of `upload_codeword_program`.

In the source, `calibrate_dio_protocol` succeeds by programming every AWG
with the chosen delay and returning True. It fails in one of these ways:

- it returns False;
- it raises when its list is empty (`set.intersection()` with no argument);
- it raises when no delay is common to all AWGs (`max` of an empty set);
- `_ensure_symmetric_strobe` never returns, because shots keep alternating.

The success is the `Outcome` constructor `Calibrated`. The four failures are
`StrobeAsymmetric` / `NoValidDelays`, `NoAwgs`, `NoCommonDelay` and
`StrobeUndecided`. The model reaches `StrobeUndecided` when the captures run
out before a verdict. Every outcome reached after the sweeps (`NoValidDelays`,
`NoCommonDelay`, `Calibrated`) carries the writes of the sweeps made so far.
Each sweep ends with delay 6, so on a failure every swept AWG stays at delay 6.

## Model

All source paths are in `pycqed/instrument_drivers/physical_instruments/ZurichInstruments/ZI_HDAWG8.py`.

| member | source | states |
|---|---|---|
| DioBits.Bit | pycqed/instrument_drivers/physical_instruments/ZurichInstruments/ZI_HDAWG8.py:512 | `1 << i` is bit i alone for i < 32 (shifting it down by i leaves 1), and no bit of a 32-bit word for larger i |
| DioBits.GetEdges | pycqed/instrument_drivers/physical_instruments/ZurichInstruments/ZI_HDAWG8.py:494-504 | rising bits are the masked bits that are clear in `last` and set in `value`; falling bits are the reverse |
| DioBits.EdgesCoverChange | pycqed/instrument_drivers/physical_instruments/ZurichInstruments/ZI_HDAWG8.py:501-504 | rising and falling together are exactly the masked changed bits |
| DioBits.EdgesDisjoint | pycqed/instrument_drivers/physical_instruments/ZurichInstruments/ZI_HDAWG8.py:501-504 | no bit is both a rising and a falling edge |
| DioBits.EdgesInsideMask | pycqed/instrument_drivers/physical_instruments/ZurichInstruments/ZI_HDAWG8.py:501-504 | both edge sets use only bits of the mask |
| DioBits.EdgesAgreeWithValue | pycqed/instrument_drivers/physical_instruments/ZurichInstruments/ZI_HDAWG8.py:502-503 | rising bits are set in `value`, falling bits are clear in it |
| DioBits.EdgeIffChange | pycqed/instrument_drivers/physical_instruments/ZurichInstruments/ZI_HDAWG8.py:501-504 | some edge is reported exactly when some masked bit changed |
| DioBits.InMaskBounded | pycqed/instrument_drivers/physical_instruments/ZurichInstruments/ZI_HDAWG8.py:593 | a word using only mask bits is at most the mask |
| DioBits.BitsOverlapIffSame | pycqed/instrument_drivers/physical_instruments/ZurichInstruments/ZI_HDAWG8.py:372-375 | two one-bit masks `1 << i` and `1 << j` share a bit exactly when i = j |
| DioAnalysis.StrobeEvent | pycqed/instrument_drivers/physical_instruments/ZurichInstruments/ZI_HDAWG8.py:569-579 | slope 0 is an event at every sample; 1 a rising and 2 a falling strobe edge; any other slope either edge |
| DioAnalysis.ValidEdge | pycqed/instrument_drivers/physical_instruments/ZurichInstruments/ZI_HDAWG8.py:581-584 | a valid-bit edge counts only when the polarity is not 0, and then exactly when the valid bit changed |
| DioAnalysis.CodewordEdge | pycqed/instrument_drivers/physical_instruments/ZurichInstruments/ZI_HDAWG8.py:586-589 | a codeword edge counts only when the mask is not 0, and then exactly when a bit of `cw_mask << cw_shift` changed |
| DioAnalysis.ValidActive | pycqed/instrument_drivers/physical_instruments/ZurichInstruments/ZI_HDAWG8.py:591-592 | polarity 0 never active, 1 active low, 2 active high, 3 always active |
| DioAnalysis.Codeword | pycqed/instrument_drivers/physical_instruments/ZurichInstruments/ZI_HDAWG8.py:593 | the codeword uses only bits of `cw_mask` |
| DioAnalysis.AnalyzeDioData | pycqed/instrument_drivers/physical_instruments/ZurichInstruments/ZI_HDAWG8.py:555-607 | the loop returns the codewords latched and the violation positions of the whole capture |
| DioAnalysis.ViolationsExactly | pycqed/instrument_drivers/physical_instruments/ZurichInstruments/ZI_HDAWG8.py:567-599 | violations are strictly increasing positions in 1..len-1, and position m is listed exactly when its strobe event meets a valid or codeword edge |
| DioAnalysis.LatchedPositionsExactly | pycqed/instrument_drivers/physical_instruments/ZurichInstruments/ZI_HDAWG8.py:601-603 | latched positions are strictly increasing in 1..len-1, and m is listed exactly when it is a strobe event with the valid bit active |
| DioAnalysis.CodewordsAtLatchedPositions | pycqed/instrument_drivers/physical_instruments/ZurichInstruments/ZI_HDAWG8.py:591-603 | the k-th codeword is `(d >> cw_shift) & cw_mask` of the k-th latched sample |
| DioAnalysis.CodewordsBounded | pycqed/instrument_drivers/physical_instruments/ZurichInstruments/ZI_HDAWG8.py:593-603 | every codeword lies inside `cw_mask`, and there are at most len-1 of them |
| DioAnalysis.CodewordsAtMostMask | pycqed/instrument_drivers/physical_instruments/ZurichInstruments/ZI_HDAWG8.py:593-603 | every latched codeword, read as a number, is at most `cw_mask` |
| DioAnalysis.NoCodewordsWithoutValidPolarity | pycqed/instrument_drivers/physical_instruments/ZurichInstruments/ZI_HDAWG8.py:591-603 | valid polarity 0 yields no codewords |
| DioAnalysis.FreeRunningLatchesEverySample | pycqed/instrument_drivers/physical_instruments/ZurichInstruments/ZI_HDAWG8.py:571-573 | slope 0 with polarity 3 latches the codeword of every sample after the first, in order |
| DioAnalysis.FreeRunningViolations | pycqed/instrument_drivers/physical_instruments/ZurichInstruments/ZI_HDAWG8.py:571-599 | with slope 0 a violation is recorded exactly where the valid bit (if used) or a codeword bit (if used) changes |
| StrobeSymmetry.LastEdge | pycqed/instrument_drivers/physical_instruments/ZurichInstruments/ZI_HDAWG8.py:537-545 | the latest strobe edge before n, with no edge between it and n, or none at all |
| StrobeSymmetry.ScanStrobeBit | pycqed/instrument_drivers/physical_instruments/ZurichInstruments/ZI_HDAWG8.py:512-547 | the counter loop for one strobe bit rejects the capture exactly when the run-comparison specification does |
| StrobeSymmetry.IsDioStrbSymmetric | pycqed/instrument_drivers/physical_instruments/ZurichInstruments/ZI_HDAWG8.py:507-552 | the result is true exactly when every listed strobe bit is symmetric |
| StrobeSymmetry.RunMismatchIff | pycqed/instrument_drivers/physical_instruments/ZurichInstruments/ZI_HDAWG8.py:521-535 | a mismatch at edge e3 is two earlier consecutive edges whose runs differ, the first run longer than one sample |
| StrobeSymmetry.AsymmetricIffUnequalRuns | pycqed/instrument_drivers/physical_instruments/ZurichInstruments/ZI_HDAWG8.py:518-547 | a bit is rejected exactly when three consecutive edges bound two adjacent complete runs of different length, the first longer than one sample |
| StrobeSymmetry.SteadyStrobeSymmetric | pycqed/instrument_drivers/physical_instruments/ZurichInstruments/ZI_HDAWG8.py:508 | a strobe that never changes level is never rejected |
| StrobeSymmetry.SilentCaptureAccepted | pycqed/instrument_drivers/physical_instruments/ZurichInstruments/ZI_HDAWG8.py:508 | an empty capture, or one with no strobe change, is reported symmetric |
| StrobeSymmetry.OneSampleRunNotCompared | pycqed/instrument_drivers/physical_instruments/ZurichInstruments/ZI_HDAWG8.py:525-535 | high 1 then low 3 is accepted (a one-sample run is never compared); high 2 then low 3 is rejected |
| DioDelay.ClampDelay | pycqed/instrument_drivers/physical_instruments/ZurichInstruments/ZI_HDAWG8.py:465-469 | the clamp the two warnings announce: the delay used lies in 0..6 and equals the request when that is already in range (a negative request is not clamped by the source; see "## Left out" and "## Findings") |
| DioDelay.SplitDelay | pycqed/instrument_drivers/physical_instruments/ZurichInstruments/ZI_HDAWG8.py:471-476 | both parts lie in 0..3, at most one is nonzero, and strobe minus data is the clamped delay minus 3 |
| DioDelay.SplitDelayUnique | pycqed/instrument_drivers/physical_instruments/ZurichInstruments/ZI_HDAWG8.py:471-476 | the split is the only pair with those three properties |
| DioDelay.AsWrittenAgreesOnNonNegative | pycqed/instrument_drivers/physical_instruments/ZurichInstruments/ZI_HDAWG8.py:465-476 | for every delay that is not negative the source's split equals the clamped split |
| DioDelay.NegativeDelayNotClamped | pycqed/instrument_drivers/physical_instruments/ZurichInstruments/ZI_HDAWG8.py:465-466 | delay -1 gives the data bits 4 clocks in the source, but 3 once clamped to 0 |
| DioDelay.SetDioDelay | pycqed/instrument_drivers/physical_instruments/ZurichInstruments/ZI_HDAWG8.py:458-487 | the 32 writes, bits 0..31 in order, each with its strobe, data or zero delay |
| DioDelay.DelayWritesTiming | pycqed/instrument_drivers/physical_instruments/ZurichInstruments/ZI_HDAWG8.py:478-487 | the strobe bit is delayed by exactly (clamped delay - 3) more than every data bit that is not the strobe; the strobe takes precedence |
| DioDelay.DelayWritesRange | pycqed/instrument_drivers/physical_instruments/ZurichInstruments/ZI_HDAWG8.py:478-487 | each write names its own bit, its value lies in 0..3, and bits outside both masks get 0 |
| DelaySearch.IndexOf | pycqed/instrument_drivers/physical_instruments/ZurichInstruments/ZI_HDAWG8.py:436 | the lookup finds the first occurrence |
| DelaySearch.MatchesExpected | pycqed/instrument_drivers/physical_instruments/ZurichInstruments/ZI_HDAWG8.py:423-448 | the comparison loop accepts exactly the cyclic walks of the expected sequence from the first occurrence of the first codeword |
| DelaySearch.CyclicWalkSteps | pycqed/instrument_drivers/physical_instruments/ZurichInstruments/ZI_HDAWG8.py:437-440 | every two successive accepted codewords are successive entries of the cycle |
| DelaySearch.WalkFromMembers | pycqed/instrument_drivers/physical_instruments/ZurichInstruments/ZI_HDAWG8.py:424-448 | every codeword of a walk occurs in the expected sequence |
| DelaySearch.WalkFromIsWindow | pycqed/instrument_drivers/physical_instruments/ZurichInstruments/ZI_HDAWG8.py:437-440 | a walk from position i is the window of the cycle that starts at i and has the walk's length |
| DelaySearch.CyclicWalkIffWindow | pycqed/instrument_drivers/physical_instruments/ZurichInstruments/ZI_HDAWG8.py:423-448 | a list is accepted exactly when it is empty or its first codeword is expected and the list is the window of the cycle from that codeword's first occurrence |
| DelaySearch.CycleWindowAt | pycqed/instrument_drivers/physical_instruments/ZurichInstruments/ZI_HDAWG8.py:439 | the k-th entry of a window from `start` is the entry `(start + k) % len` |
| DelaySearch.WindowAccepted | pycqed/instrument_drivers/physical_instruments/ZurichInstruments/ZI_HDAWG8.py:423-448 | for a cycle without repeats, every window of any length and start is accepted |
| DelaySearch.RepeatedEntryStartsAtFirst | pycqed/instrument_drivers/physical_instruments/ZurichInstruments/ZI_HDAWG8.py:436 | with a repeated entry the walk starts at the first occurrence, so 1 3 is rejected in the cycle 1 2 1 3 |
| DelaySearch.FirstWithCodewords | pycqed/instrument_drivers/physical_instruments/ZurichInstruments/ZI_HDAWG8.py:397-406 | the first capture with a codeword, or the seventh when none has one |
| DelaySearch.CaptureWithRetry | pycqed/instrument_drivers/physical_instruments/ZurichInstruments/ZI_HDAWG8.py:394-406 | the retry loop ends on the first capture when the mask is 0, else on the first with a codeword, else on the seventh |
| DelaySearch.TryDelay | pycqed/instrument_drivers/physical_instruments/ZurichInstruments/ZI_HDAWG8.py:394-452 | one delay is accepted exactly when its capture has codewords (mask set), no violation and a cyclic walk |
| DelaySearch.SweepWritesAt | pycqed/instrument_drivers/physical_instruments/ZurichInstruments/ZI_HDAWG8.py:391-392 | delay d is programmed with strobe mask and data mask `(cw_mask << cw_shift) \| vld_mask` |
| DelaySearch.AcceptedBelowExactly | pycqed/instrument_drivers/physical_instruments/ZurichInstruments/ZI_HDAWG8.py:387-456 | a delay is in the result exactly when it is in 0..6 and accepted; the result is a subset of 0..6 |
| DelaySearch.FindValidDelays | pycqed/instrument_drivers/physical_instruments/ZurichInstruments/ZI_HDAWG8.py:361-456 | the sweep returns exactly the accepted delays and makes the writes of every tried delay |
| DelaySearch.AcceptedCodewordsExpected | pycqed/instrument_drivers/physical_instruments/ZurichInstruments/ZI_HDAWG8.py:416-448 | at an accepted delay every latched codeword is an entry of the expected sequence and lies inside the mask |
| DelaySearch.SilentDelayRejected | pycqed/instrument_drivers/physical_instruments/ZurichInstruments/ZI_HDAWG8.py:398-413 | with a codeword mask set, a delay whose seven captures show no codeword is rejected |
| StrobeCheck.TrailingAtLeast | pycqed/instrument_drivers/physical_instruments/ZurichInstruments/ZI_HDAWG8.py:321-322 | a counter of at least k means the last k shots were all of its kind |
| StrobeCheck.SixAlikeIffTrailing | pycqed/instrument_drivers/physical_instruments/ZurichInstruments/ZI_HDAWG8.py:323-324 | a counter passes 5 exactly when six shots of one kind end there |
| StrobeCheck.FirstVerdictFrom | pycqed/instrument_drivers/physical_instruments/ZurichInstruments/ZI_HDAWG8.py:316-357 | the first shot closing six equal shots, and no earlier one, or none |
| StrobeCheck.EnsureSymmetricStrobe | pycqed/instrument_drivers/physical_instruments/ZurichInstruments/ZI_HDAWG8.py:304-359 | the counter loop answers the kind of the first run of six, after reading exactly up to it; without a verdict it has read every capture |
| StrobeCheck.AcceptedIffGoodRunFirst | pycqed/instrument_drivers/physical_instruments/ZurichInstruments/ZI_HDAWG8.py:316-359 | true exactly when six symmetric shots in a row close before any six asymmetric ones |
| StrobeCheck.AlternatingUndecided | pycqed/instrument_drivers/physical_instruments/ZurichInstruments/ZI_HDAWG8.py:316 | alternating shots never reach a verdict (the loop would not end) |
| StrobeCheck.SixGoodShotsAccept | pycqed/instrument_drivers/physical_instruments/ZurichInstruments/ZI_HDAWG8.py:321-324 | six good shots first accept after exactly six captures |
| StrobeCheck.VerdictHasSixWitnesses | pycqed/instrument_drivers/physical_instruments/ZurichInstruments/ZI_HDAWG8.py:316-357 | every verdict rests on six consecutive shots of its kind |
| StrobeCheck.StrobeBitsAsSet | pycqed/instrument_drivers/physical_instruments/ZurichInstruments/ZI_HDAWG8.py:308-312 | order and repetition of the strobe bits do not change the test |
| Calibration.IntersectAll | pycqed/instrument_drivers/physical_instruments/ZurichInstruments/ZI_HDAWG8.py:275 | a delay is in the intersection exactly when it is in every set |
| Calibration.MaxOf | pycqed/instrument_drivers/physical_instruments/ZurichInstruments/ZI_HDAWG8.py:276 | the maximum is an element and bounds every element |
| Calibration.ConfigOfSelectsIndexedBits | pycqed/instrument_drivers/physical_instruments/ZurichInstruments/ZI_HDAWG8.py:372-377 | the strobe and valid masks select exactly the DIO bit their index register names (no sample bit past bit 31), and mask and shift are used as read |
| Calibration.SweepLogAt | pycqed/instrument_drivers/physical_instruments/ZurichInstruments/ZI_HDAWG8.py:387-392 | entry k of the sweep log is AWG k's sweep of delays 0..6, whose last write programs delay 6 |
| Calibration.CollectValidDelays | pycqed/instrument_drivers/physical_instruments/ZurichInstruments/ZI_HDAWG8.py:263-272 | the sweeps in list order, stopping at the first AWG without a valid delay, with the writes of every sweep made, the failing one included |
| Calibration.CommonDelaysAre | pycqed/instrument_drivers/physical_instruments/ZurichInstruments/ZI_HDAWG8.py:275 | the intersection of the sweeps is the set of delays in 0..6 valid for every AWG |
| Calibration.ProgramAll | pycqed/instrument_drivers/physical_instruments/ZurichInstruments/ZI_HDAWG8.py:285-296 | every listed AWG is programmed with its strobe mask, its data mask and the chosen delay |
| Calibration.FinalSettingsAt | pycqed/instrument_drivers/physical_instruments/ZurichInstruments/ZI_HDAWG8.py:285-296 | entry k of the settings programs AWG k of the list with its own strobe mask, `(cw_mask << cw_shift) \| vld_mask` and the chosen delay |
| Calibration.CalibrateDioProtocol | pycqed/instrument_drivers/physical_instruments/ZurichInstruments/ZI_HDAWG8.py:251-298 | failure cases in the source's order, each after the sweeps carrying the sweep writes made so far; otherwise every AWG is set to the largest delay valid for all, which is at most 6 |
| CodewordProtocol.ConfiguredStrobeAndValidMasks | pycqed/instrument_drivers/physical_instruments/ZurichInstruments/ZI_HDAWG8.py:178-185 | every configured AWG has strobe mask 0x40000000 and valid mask 0x80000000 |
| CodewordProtocol.FluxDataMask | pycqed/instrument_drivers/physical_instruments/ZurichInstruments/ZI_HDAWG8.py:213-222 | in flux mode the calibrated data bits are DIO bits 0..2 and the valid bit |
| CodewordProtocol.ConfigureAwgIgnoresPrevious | pycqed/instrument_drivers/physical_instruments/ZurichInstruments/ZI_HDAWG8.py:176-222 | for a known protocol and AWGs 0..3 the registers written do not depend on the previous settings |
| CodewordProtocol.ConfigureAwgIdempotent | pycqed/instrument_drivers/physical_instruments/ZurichInstruments/ZI_HDAWG8.py:176-224 | configuring an AWG twice leaves the same registers as configuring it once |
| CodewordProtocol.FluxSplit | pycqed/instrument_drivers/physical_instruments/ZurichInstruments/ZI_HDAWG8.py:108-114 | both parts lie in 0..7 |
| CodewordProtocol.FluxSplitJoin | pycqed/instrument_drivers/physical_instruments/ZurichInstruments/ZI_HDAWG8.py:108-114 | joining the parts gives the codeword back modulo 64 |
| CodewordProtocol.FluxJoinSplit | pycqed/instrument_drivers/physical_instruments/ZurichInstruments/ZI_HDAWG8.py:108-114 | splitting a joined pair of parts in 0..7 gives the parts back |
| CodewordProtocol.FluxEntry | pycqed/instrument_drivers/physical_instruments/ZurichInstruments/ZI_HDAWG8.py:122-144 | a nonzero part plays its stored wave; a zero part beside a nonzero one plays zeros of that wave's length; two zero parts play 48 zeros each |
| CodewordProtocol.FluxTableDuplicates | pycqed/instrument_drivers/physical_instruments/ZurichInstruments/ZI_HDAWG8.py:112-147 | codeword cw of the table plays wave cw on both channels of the pair, and codeword 0 plays zeros |
| CodewordProtocol.SecondPartEmptyInTable | pycqed/instrument_drivers/physical_instruments/ZurichInstruments/ZI_HDAWG8.py:112-114 | without the duplication, no codeword of the table would drive the second channel |

## Left out

- Device access is not modelled: `geti`, `seti`, `getv`, `daq.setInt` and `configure_awg_from_string`. Reads are inputs; the delay writes are returned as lists.
- All `print` and logging output, and `time.sleep`, are left out. They have no effect on results.
- The AWG disable/enable and the reference-clock switching after an asymmetric shot are left out. They are device side effects. The clock switches only change what later captures show, and the captures are inputs.
- `StrobeCheck.EnsureSymmetricStrobe` is given finitely many captures. Where the source keeps reading forever, the model answers None (`StrobeUndecided`).
- `StrobeCheck.EnsureSymmetricStrobe` takes the strobe bits as a list. It does not read the strobe index of AWGs 0..3 and remove duplicates; `StrobeBitsAsSet` shows order and duplicates do not matter.
- `Calibration.CalibrateDioProtocol` returns False for an asymmetric strobe and for an AWG without valid delays. The model separates these as `StrobeAsymmetric` and `NoValidDelays`. The two Python exceptions are `NoAwgs` and `NoCommonDelay`. The model gives the device writes as values in the outcome. Their interleaving with the reads, and the exception itself, are not modelled.
- The program string that `upload_codeword_program` builds is sequencer source text and is not modelled. Only the flux split and the choice of table entries are.
- The `upload_codeword_program` waveform-name formatting is left out, as is the non-flux table. The non-flux table pairs wave `cw` of both channels for every codeword.
- For output settings in `configure_codeword_protocol` (direct mode, range, enables), only the DIO register values are modelled.
- DioDelay.SetDioDelay: clamps a negative delay to 0, as the warning at line 466 announces, where the source keeps it (delay -1 programs data delay 4 in the source and 3 here). The two agree for every delay of 0 or more, which is all the sweep and the calibration pass (`AsWrittenAgreesOnNonNegative`); the source's behaviour is `SplitDelayAsWritten`.
- DioDelay.ClampDelay: is the corrected clamp used by `SetDioDelay`, not the source's lines 465-466, which leave a negative delay unchanged.
- `CodewordProtocol.ConfigureAwg` does not check that `num_codewords` is a power of two, which the source demands only in a comment. The mask is `num_codewords - 1` taken as a 32-bit register value.
- `CodewordProtocol.FluxSplit` uses `% 8` and `/ 8` for `cw & 0b000111` and `(cw & 0b111000) >> 3`. These agree for codewords that are not negative, which is all the table uses (`range(8)`).
- `DioAnalysis.DioConfig` holds a polarity and a slope of any integer. Polarity bits are read as `p % 2` and `(p / 2) % 2`. Dafny's Euclidean division and Python's floor division agree on these bits for every integer.
- The source's `data` lists are Python integers. The model takes 32-bit words, the width of the DIO interface.

## Findings

| source | as written | input that shows it | evidently intended | confidence | as-written member | corrected member |
|---|---|---|---|---|---|---|
| pycqed/instrument_drivers/physical_instruments/ZurichInstruments/ZI_HDAWG8.py:465-466 | a negative delay prints "Clamping delay to 0" but is kept | delay -1: data part `3 - (-1) = 4`, outside the 0..3 range of a part | clamp to 0, giving data part 3 | not executed; the sweep and the calibration only pass 0..6, so no existing caller is affected | DioDelay.NegativeDelayNotClamped | DioDelay.SplitDelay |

Not a finding, but easy to misread in `_is_dio_strb_symmetric`: a run of one
sample leaves its counter at 0, and the guards `strobe_low > 0` and `strobe_high > 0`
then skip the comparison. So a one-sample high run followed by a longer low
run is accepted. The model follows the code, and
`StrobeSymmetry.OneSampleRunNotCompared` exhibits the case.
