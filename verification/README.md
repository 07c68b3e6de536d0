# readsb-rs: a verified model

This project models the receiver core of readsb-rs, which turns radio samples into checked Mode S messages, positions and
a list of aircraft, and proves what that core promises. Everything is stated for all inputs, all runs or all histories.

| files | what they model |
|---|---|
| `Bits`, `Words`, `Crc`, `Engine` | the 24-bit parity code (ICAO Annex 10 Volume IV, section 3.1.2.3.3): polynomial division over GF(2), and the bit-serial register that performs it in an unmasked u32 |
| `Powers`, `CrcFix`, `FixTable`, `Repair` | the precomputed error table, the repair in place, and what damage it can undo |
| `Parser`, `ParserProps` | the checksum, repair and address paths of the message parser |
| `Slicer`, `Ppm`, `Scoring`, `Ranking`, `Recovery` | the 2.4 MHz slicer as a fractional clock, recovery of pulse-position-modulated messages (section 3.1.2.2.5.1 of the same volume) within the exact noise margin of every correlator, and the order in which scores put messages |
| `Demod`, `Preamble`, `Levels`, `Subtraction`, `Attenuation`, `NoiseFloor`, `MultiPass`, `EndToEnd`, `Emission` | the scan and the levels it goes by, the subtraction of decoded messages in place, the noise floor, the passes over one buffer, and the way from samples to the emitted message |
| `Overlap` | the main loop's buffers between reads |
| `Witnesses` | noiseless transmissions, sealed and overlaid messages, and inputs at which the program falls short |
| `Tracking` | from the demodulator through the parser to the registry |
| `Beast`, `BeastReader`, `BeastProps`, `BeastReads`, `BeastFragments`, `BeastCuts`, `BeastEvents`, `Records` | Beast framing, its resynchronising stream reader, and record files |
| `Registry`, `RegistryProps` | the aircraft registry against the bare history of events |
| `Cpr`, `CprTable`, `CprZones`, `CprBands`, `CprEncoder`, `CprGlobal`, `CprSurface`, `CprRelative` | compact position reporting against the encoder and the equation for the number of longitude zones of RTCA DO-260B, Appendix A, section A.1.7 |
| `Common` | a few shared definitions |

Code that changes state step by step is modelled by methods and classes that are proved against specification functions;
the properties are then proved of these functions.

What the code does where its documentation says or suggests something else:

- The Beast reader is documented to keep partial data between reads. It parses an incomplete frame as if what stands
  behind it in its buffer, zeros or stale bytes, belonged to it. Which runs bring a stream back, for reads cut anywhere,
  is `CutStream`; for one frame in two reads `SplitFrame` says it in closed form, and `CutFrameMisread` is a frame that is
  lost.
- Reads that end between frames come back exactly unless a frame is ambiguous, or a read ends in 0x1a and a stale byte
  behind it in the buffer is a frame type (`WholeFrameReads`; `StaleByteMisread` is such a run).
- An 0x1a inside a frame that is followed by a frame type starts a frame that was never sent (`PrintedStreamRoundTrip`,
  `InnerMarkerMisread`).
- The preamble pre-check looks at ten positions and leaves out the next one (`DetectedExactly`, `TriedBehindRestart`;
  `EleventhPreambleMissed` is a buffer whose first preamble is lost).
- The scan guard of 285 samples lets positions be tried whose message is cut off by the end of the buffer, since slicing
  needs up to 290; the overlap between reads makes good for it (`EveryMessageHeld`).
- Later passes are documented to use a reduced threshold; a high noise floor raises it instead, and so does a margin above
  one (`ThresholdReduced`, `ThresholdRaisedByNoise`).
- A clean message can score no more than a damaged one of its format that is a single bit off, if the damaged one seems
  to come from a known aircraft: every reply but an extended squitter when its own aircraft is not known, and an all-call
  reply to a numbered interrogator even when it is (`CleanOutscoresDamaged`, `CleanAllCallLoses`, `CleanUnnumberedLoses`).
- Signal subtraction advances 95 samples per bit, so only the first three data bits are taken out (`OnlyThreeBits`).
- The checksum-derived address of format 4 is overwritten by other bits of the message; for each data field exactly one
  address survives (`AltitudeReplyAddressLost`, `AltitudeReplyLost`).
- The parser gives back the overlaid address of formats 0 and 5, but the multi-pass demodulator emits only messages whose
  checksum, and so their address, is zero; the registry ignores them (`EmittedRepliesUntracked`, `OverlaidReplyNotKept`).
- The engine of long frames does not only fail to repair a short frame: it reports a correction (`LongEngineCannotRepairShort`).
- Bit positions are stored as i8: an entry for a position from 128 on does not repair it (`StoredSingleRepairs`,
  `StoredPairRepairs`). The program builds tables for 56 and 112 bits only.
- The table of longitude zones gives one zone at exactly 87 degrees, where DO-260B has two. An even frame can carry that
  latitude. Its longitude then comes back doubled, and a pair is decoded exactly when it should not be (`SentNl`,
  `GlobalDecodes`, `GlobalDecodeInverts`, `SurfaceDecodeInverts`, `RelativeDecodeInverts`; `PolarFrameMisread` is such a
  frame). At every other latitude that a frame can carry the table is the equation.
- A preamble level below zero reads as an enormous u32, and its phases are tried at any threshold (`AttemptedExactly`,
  `NegativeLevelTried`).
- The level reported with a message averages four samples of which one is silent and one lies where the first pulse has
  hardly begun (`LevelOfPreamble`).
- Subtracting a message leaves its preamble to be found again by the next pass unless a sample of it is used up
  (`PreambleFoundAgain`).
- The weights of the third correlator do not add up to zero, so that a common level of all samples counts as signal there
  (`OffsetResponse`).
- A read that fails takes the frames of the reads before it with it, while a time-out returns them (`FailureReported`,
  `TimeOutEnds`).
- A frame printed for a signal that is not positive has the signal byte of the strongest (`RssiSteps`).
- Decoding relative to a reference fails when the nearest candidate lies beyond the antimeridian (`RelativeDecodes`,
  `AntimeridianRejected`).

## Model

| member | source | states |
|---|---|---|
| `Engine.ModesChecksum` | src/crc/engine.rs:10-36 | for messages of three bytes or more, the result is the residue of the whole message, parity field included; 0 for shorter ones |
| `Engine.ShiftBits` | src/crc/engine.rs:20-24 | the low 24 bits of the register evolve on their own although the u32 is never masked in the loop |
| `Engine.ChecksumBits` | src/crc/engine.rs:27-35 | the checksum is the 24-bit word of that residue |
| `Crc.ResidueIsRemainder` | src/crc/engine.rs:6-9 | the residue is the one and only remainder of the message polynomial divided by x^24 + 0xFFF409 |
| `Crc.ResidueXor` | src/crc/engine.rs:14-35 | the checksum of a sum of messages is the sum of their checksums |
| `Crc.ResidueZeroPrefix` | src/crc/engine.rs:14-26 | leading zero bits do not change the checksum |
| `Crc.BurstDetected` | src/crc/engine.rs:14-35 | every nonzero error inside 24 consecutive bits has a nonzero checksum |
| `Crc.ResidueOdd` | src/crc/engine.rs:1 | the generator has even weight: the checksum has the bit parity of the message |
| `Powers.PowDistinct` | src/crc/fix.rs:29-45 | no two positions of a frame have the same one-bit syndrome: x has order above 111 |
| `FixTable.BuildSingles` | src/crc/fix.rs:29-45 | for any length, every entry names an error with its syndrome outside bits 0 to 4, stored as i8, and every one-bit error has one |
| `FixTable.AddDoubles` | src/crc/fix.rs:47-64 | for any length, two-bit entries never replace one-bit entries, and every two-bit error is diagnosed |
| `FixTable.StoredIsExact` | src/crc/fix.rs:38-62 | for messages of up to 128 bits the stored positions are the real ones |
| `FixTable.CrcFixEngine.constructor` | src/crc/fix.rs:25-70 | a new engine has a complete table for its length, and an exact one for up to 128 bits |
| `Repair.StoredSingleRepairs` | src/crc/fix.rs:38-85 | the stored entry of a damaged bit repairs it if and only if its position is below 128 |
| `Repair.StoredPairRepairs` | src/crc/fix.rs:58-85 | the stored entry of two damaged bits repairs the two if and only if both positions are below 128 |
| `Repair.Fix` | src/crc/fix.rs:76-84 | flips exactly the listed bits, in place, up to the first negative entry |
| `Repair.ValidNotDiagnosed` | src/crc/fix.rs:72-74 | the zero syndrome of a valid frame is never diagnosed |
| `Repair.SingleErrorCorrected` | src/crc/fix.rs:25-85 | a valid frame with any one bit from position 5 on flipped is diagnosed as exactly that bit and restored |
| `Repair.RepairSound` | src/crc/fix.rs:72-85 | whatever the frame was, repairing a diagnosed frame gives a valid frame of the same format, at a distance of exactly the reported number of bits |
| `Repair.DamageParity` | src/crc/engine.rs:14-35 | the checksum of a damaged valid frame has the parity of the number of damaged bits |
| `Repair.DiagnosisParity` | src/crc/fix.rs:47-74 | odd damage is always detected; a diagnosis is a one-bit one for odd and a two-bit one for even damage |
| `Repair.DoubleErrorDiagnosed` | src/crc/fix.rs:47-74 | two flipped bits from position 5 on are always diagnosed, and always as two errors |
| `Repair.DoubleErrorRepaired` | src/crc/fix.rs:47-85 | repairing two flipped bits restores the frame exactly when the table names them, and otherwise gives another valid frame four bits away |
| `Parser.CheckAndRepair` | src/modes/parser.rs:34-50 | the new state of the message is the checked one: overlaid address, repaired bytes or neither |
| `Parser.ParseModeAC` | src/modes/parser.rs:12-24 | the whole state after a two-byte reply |
| `Parser.ModeAAddress` | src/modes/parser.rs:96-103 | the address made up for a Mode A reply is never a 24-bit one |
| `Parser.ParseFrameBytes` | src/modes/parser.rs:26-60 | the parsed message is the specified one, whichever engine was passed, as long as its diagnosis names bits of the buffer |
| `Parser.ParseModesMessage` | src/modes/parser.rs:11-62 | exactly 16, 56 and 112 bits are parsed, each as specified, with any engine whose diagnosis of this message does not index behind its buffer |
| `ParserProps.SameModeAAddress` | src/modes/parser.rs:96-103 | two replies get the same one if and only if the last seven bits of their codes agree |
| `ParserProps.TwoByteReply` | src/modes/parser.rs:12-24 | a two-byte reply is kept with zeros behind it, good and unrepaired |
| `ParserProps.ParsedFields` | src/modes/parser.rs:25-60 | the verbatim bytes, the type, and the checksum of the message as it is after a repair; formats 0, 4 and 5 alone pass unchecked |
| `ParserProps.ParseSound` | src/modes/parser.rs:25-50 | with the matching engine and a format other than 0, 4 and 5, the flag is set if and only if the checksum is zero; a corrected message is valid, differs from the verbatim one in exactly the counted bits and keeps its format |
| `ParserProps.ParseHeals` | src/modes/parser.rs:36-50 | a valid frame with one flipped bit parses to the original frame |
| `ParserProps.OverlaidAddress` | src/modes/parser.rs:36-40 | formats 0 and 5 give back the address that was laid over their parity field |
| `ParserProps.AddressBits` | src/modes/parser.rs:38-87 | for every format, which 24 bits of the repaired message are the address: 8 to 31 for 11, 17 and 18, 36 to 59 for 4 and 16; the remainder of the whole frame for 0 and 5; none for others |
| `ParserProps.AnnouncedAddressHealed` | src/modes/parser.rs:41-79 | formats 11, 17 and 18 return the address that was sent, though any one bit behind the format, the address included, is damaged |
| `ParserProps.AltitudeReplyAddressLost` | src/modes/parser.rs:82-88 | format 4 returns its parity field moved up by four bits; that is the overlaid address if and only if the address is one that the checksum of the data determines |
| `Witnesses.OverlayChecksum` | src/modes/parser.rs:36-40 | every data field and address have a frame whose checksum is the address |
| `Witnesses.AltitudeReplyLost` | src/modes/parser.rs:82-88 | an altitude reply of the aircraft with address 1 that parses to another address |
| `Tracking.EmittedRepliesUntracked` | src/demod/demod_2400.rs:429-455 | every emitted message of format 0, 5, 20 or 21 parses to address zero and leaves the registry as it is |
| `Tracking.OverlaidReplyNotKept` | src/demod/demod_2400.rs:429-445 | a reply with a nonzero overlaid address is dropped or changed |
| `ParserProps.LongEngineCannotRepairShort` | tests/modes_compat.rs:161-165 | a short frame with a flipped bit is not accepted with the engine of long frames, although a correction is reported |
| `Slicer.TablesAreAClock` | src/demod/demod_2400.rs:72-89 | the five tables are one clock of 5 ticks per sample, 12 per bit and 96 per byte |
| `Slicer.GuardReadable` | src/demod/demod_2400.rs:129-149 | the guard `pos + 20 <= len` makes every sample of the eight decisions readable |
| `Slicer.SliceByte` | src/demod/demod_2400.rs:91-107 | the byte is that of the eight decisions from its tick on, and the clock moves on by 96 ticks |
| `Ppm.BitRecovered` | src/demod/demod_2400.rs:57-66 | each of the five correlators decides a bit as sent when none of the samples it reaches into is off by more than 38/41 of a tick's amplitude; the rest of the buffer is arbitrary |
| `Ppm.BitDecided` | src/demod/demod_2400.rs:57-66 | each correlator has its own margin: 66/36, 28/28, 38/41, 58/36 and 79/40 of a tick's amplitude |
| `Ppm.MarginIsExact` | src/demod/demod_2400.rs:57-66 | each of these five margins is exact: with any more noise that correlator can misread a bit |
| `Ppm.OffsetResponse` | src/demod/demod_2400.rs:57-66 | a level added to all samples changes no correlator but the third, which it shifts by that level |
| `Scoring.FormatMasks` | src/demod/demod_2400.rs:113-124 | the formats of short and long messages are those of the masks 0x831 and 0x370000 |
| `Scoring.ScoreModesMessage` | src/demod/demod_2400.rs:162-238 | a score is nonnegative exactly for the formats that have the message's length |
| `Scoring.ScorePhase` | src/demod/demod_2400.rs:126-160 | the bytes sliced from tick 5(pa+19)+phase on, as many as the first byte's format prescribes, or none when the buffer ends before the last of them |
| `Ranking.SquitterOrder` | src/demod/demod_2400.rs:228-243 | of two extended squitters the one with less damage scores more, and with equal damage that can be repaired the one from a known aircraft; otherwise neither |
| `Ranking.DamagedReplyOrder` | src/demod/demod_2400.rs:178-227 | of two damaged all-call replies, or two damaged replies with address parity, one scores more exactly when it is one bit off and the other is not, or is not from a known aircraft |
| `Ranking.CleanAllCallOrder` | src/demod/demod_2400.rs:205-216 | clean all-call replies: to no interrogator first, then from known aircraft |
| `Ranking.CleanReplyOrder` | src/demod/demod_2400.rs:178-186 | clean replies with address parity: from known aircraft first |
| `Ranking.HopelessLoses` | src/demod/demod_2400.rs:162-243 | what the score takes for beyond repair scores less than any other message of any format, and all such messages score the same |
| `Ranking.CleanSquitterWins` | src/demod/demod_2400.rs:162-243 | a clean squitter scores more than anything but another one, except that an unknown aircraft's loses against a clean reply of a known aircraft to no interrogator |
| `Recovery.ModulatedMessageRecovered` | src/demod/demod_2400.rs:126-160 | every modulated message whose length fits its format is returned exactly, at any phase and position, when its own samples are within the noise margin |
| `Demod.BestMessage` | src/demod/demod_2400.rs:317-361 | the result over the phases whose preamble level suffices, in the order they are tried |
| `Demod.BestIsHighest` | src/demod/demod_2400.rs:329-360 | that result has the highest score of the attempted phases, the earliest on ties, and is missing only if none of them yields a message |
| `Demod.PreScan` | src/demod/demod_2400.rs:290-299 | the position stops at the first preamble among at most ten |
| `Demod.Demodulate2400` | src/demod/demod_2400.rs:278-371 | the scan loop terminates with the specified detections |
| `Demod.ScanSound` | src/demod/demod_2400.rs:283-371 | detections are at least 269 samples apart, in order, below the guard, on a preamble, of their format's length, and each has the highest score of its position |
| `Demod.ScanResumed` | src/demod/demod_2400.rs:283-371 | what a scan detects from any of its restarts on is what a scan from there detects |
| `Demod.DetectedExactly` | src/demod/demod_2400.rs:283-371 | exactly which positions of any buffer are detected: preambles that yield a message, with no preamble since the last restart, and not the one behind ten fruitless positions; and what is detected there |
| `Demod.TriedBehindRestart` | src/demod/demod_2400.rs:283-307 | behind any restart r with no preamble up to p, position p is tried if and only if p - r is not 10 modulo 11 |
| `Witnesses.EleventhPreambleMissed` | src/demod/demod_2400.rs:289-303 | for every receiver and message, a buffer whose first preamble yields a message and is lost |
| `Witnesses.TransmissionPresent` | src/demod/demod_2400.rs:57-89 | any message can be transmitted from any position and phase |
| `Witnesses.SealedValid` | src/crc/engine.rs:10-36 | any data field can be completed to a frame with zero checksum |
| `Subtraction.SubtractFrom` | src/demod/signal_subtraction.rs:29-91 | in place, every sample loses exactly its amount, a closed form of its position |
| `Subtraction.SubtractionLocal` | src/demod/signal_subtraction.rs:29-91 | no sample rises, and none outside the message's window changes |
| `Subtraction.Pulse.OnlyThreeBits` | src/demod/signal_subtraction.rs:61-90 | nothing behind the third data bit is subtracted |
| `Attenuation.AmountProportional` | src/demod/signal_subtraction.rs:30-38 | an amount is the signal level over 200 of the full one, rounded down, for levels from 50 to 400 |
| `Attenuation.AmountClamped` | src/demod/signal_subtraction.rs:30-38 | below 50 a level counts as 50, and from 400 on twice the full amount is taken |
| `Attenuation.AmountMonotone` | src/demod/signal_subtraction.rs:30-38 | a stronger signal never takes less |
| `Attenuation.SampleLoss` | src/demod/signal_subtraction.rs:29-91 | in numbers, what each sample of a message loses: 300 or 50 in the preamble, 250 or 40 in eight samples of each of three bits, nothing elsewhere, and never below zero |
| `Attenuation.PreambleFoundAgain` | src/demod/signal_subtraction.rs:45-53 | after the subtraction the pre-check passes at the message's position if and only if it passed before and samples 1 and 12 are not used up |
| `NoiseFloor.ComputeHistogram` | src/demod/noise_floor.rs:25-38 | every bin counts its clipped value, and the highest nonempty bin is found |
| `NoiseFloor.HistogramPercentile` | src/demod/noise_floor.rs:41-58 | the bin in which the running count reaches the rank |
| `NoiseFloor.PercentileRefinesSort` | src/demod/noise_floor.rs:41-58 | that bin is the element of rank ceil(k n / 100) of the sorted, clipped buffer |
| `NoiseFloor.TargetIsCeiling` | src/demod/noise_floor.rs:46 | the rank is the smallest whose share of the buffer is at least the percentile |
| `NoiseFloor.ClippedRank` | src/demod/noise_floor.rs:25-38 | what stands at any rank of the clipped buffer is what stands there in the whole buffer, clipped |
| `NoiseFloor.EstimateNoiseFloor` | src/demod/noise_floor.rs:63-82 | median and 75th percentile are elements of the sorted buffer, median not above the other; the constants for an empty one |
| `NoiseFloor.AdaptiveThreshold` | src/demod/noise_floor.rs:88-93 | no pass goes below one and a half times the noise floor |
| `MultiPass.RepairDetection` | src/demod/demod_2400.rs:429-445 | a clean detection is kept, a correctable one repaired, any other dropped |
| `MultiPass.RepairedClean` | src/demod/demod_2400.rs:429-445 | a kept message is valid, of the same length, at most two bits from what was sliced, and marked corrected exactly when it differs |
| `Emission.FlippedRepaired` | src/demod/demod_2400.rs:429-445 | a clean message with one bit damaged from position 5 on is kept as it was sent, and marked |
| `Emission.TwiceFlippedRepaired` | src/demod/demod_2400.rs:429-445 | with two damaged bits a clean message is kept and marked, and it is the one that was sent if and only if the diagnosis names the two |
| `Emission.KeptExactly` | src/demod/demod_2400.rs:429-445 | a detection is kept if and only if some clean message of its format is at most two bits away |
| `Emission.KeepAllEmits` | src/demod/demod_2400.rs:420-465 | a scan's detections add their messages in order, and take the pulses of these messages, as they were repaired, out of the buffer |
| `Emission.EmittedExactly` | src/demod/demod_2400.rs:420-465 | a message is added if and only if some detection is repaired to it, with that detection's level and position |
| `Emission.PassEmits` | src/demod/demod_2400.rs:403-465 | whatever a pass detects and can keep it emits |
| `Emission.BufferAccounted` | src/demod/demod_2400.rs:391-477 | after any number of passes the buffer is the first one without the pulses of all emitted messages |
| `Emission.DamagedMessageHealed` | src/demod/demod_2400.rs:391-477 | a message that is received with one damaged bit is emitted as it was sent, and marked, if the first scan tries its position and no phase rivals it |
| `Emission.DamagedMessagePassedOn` | src/demod/demod_2400.rs:373-386 | without multiple passes it is passed on as received, with a wrong checksum and no mark |
| `MultiPass.KeepDetections` | src/demod/demod_2400.rs:420-465 | buffer and messages after the loop over one scan |
| `MultiPass.Demodulate2400MultiPass` | src/demod/demod_2400.rs:391-477 | buffer and messages after all passes; without multiple passes the buffer is untouched and the detections are passed on |
| `MultiPass.ThresholdReduced` | src/demod/demod_2400.rs:388-408 | for every margin: from zero to one, later passes never raise the threshold, and the second lowers or keeps it if and only if one and a half times the noise floor does not exceed the configured one; above one, no pass lowers it; below zero, every other pass is at the minimum |
| `MultiPass.ThresholdRaisedByNoise` | src/demod/noise_floor.rs:88-93 | buffers of any length whose noise floor raises the default threshold |
| `MultiPass.PassInvariant` | src/demod/demod_2400.rs:403-465 | one pass keeps what holds of the buffer and the messages |
| `MultiPass.PassesInvariant` | src/demod/demod_2400.rs:403-465 | so does every run of passes |
| `MultiPass.EmittedMessagesClean` | src/demod/demod_2400.rs:391-477 | every emitted message has a zero checksum and the length of its format |
| `MultiPass.SamplesOnlyFallInWindows` | src/demod/demod_2400.rs:403-465 | over all passes no sample rises, and none outside the windows of emitted messages changes |
| `Preamble.SampleHits` | src/demod/demod_2400.rs:325-351 | how much of the four pulses falls into each sample, phase by phase |
| `Levels.PulsesPass` | src/demod/demod_2400.rs:291-295 | among pulses of one height the pre-check passes if and only if samples 1 and 12 have one and samples 7, 14 and 15 have none |
| `Levels.OtherSamplesIgnored` | src/demod/demod_2400.rs:291-295 | the pre-check depends on these five samples only |
| `Levels.AttemptedExactly` | src/demod/demod_2400.rs:310-353 | exactly when a phase is tried: its level is above a thirty-second of noise times threshold, or is negative |
| `Levels.NegativeLevelTried` | src/demod/demod_2400.rs:326-328 | a buffer with a negative level that is tried at any threshold |
| `Levels.LevelsBalanced` | src/demod/demod_2400.rs:319-352 | the levels of the phases as sums of samples with pulses less those without |
| `Levels.LevelOfPreamble` | src/demod/demod_2400.rs:363-364 | the level reported for a received preamble, within three quarters of the noise: the amplitude of one tick, or five quarters of it at the first phase, and a quarter of the sample at the position |
| `Preamble.PreambleReceived` | src/demod/demod_2400.rs:291-351 | a preamble received within the noise margin passes the pre-check, and its level suffices for its own phase at every threshold up to 80 |
| `Witnesses.ThresholdIsLargest` | src/demod/demod_2400.rs:311-337 | at any larger threshold a preamble within the margin can be too weak for its own phase |
| `EndToEnd.BestAtPresent` | src/demod/demod_2400.rs:309-361 | a transmission with its preamble makes its position yield a message that scores at least as much, and that message itself if it has no rival |
| `EndToEnd.CleanOutscoresDamaged` | src/demod/demod_2400.rs:162-238 | exactly when a clean message outscores a damaged one of the same format, whatever else differs between them |
| `EndToEnd.SquitterDetected` | src/demod/demod_2400.rs:278-371 | a clean extended squitter received with its preamble is detected if and only if the scan tries its position, as a valid message that scores at least as much |
| `EndToEnd.SquitterEmitted` | src/demod/demod_2400.rs:391-477 | anywhere in the buffer, if the first scan tries its position, some emitted message is a valid, uncorrected one there, and the squitter itself if no phase rivals it; the first pass emits something there exactly then |
| `Witnesses.CleanAllCallLoses` | src/demod/demod_2400.rs:205-227 | a clean reply to a numbered interrogator and a damaged copy of it that scores no less |
| `Witnesses.CleanUnnumberedLoses` | src/demod/demod_2400.rs:205-227 | the same for a reply to no numbered interrogator, when the damage turns an unknown address into a known one |
| `Overlap.ReadLoop.OnRead` | src/main.rs:388-406 | the combined buffer is the end of everything received, overlap included, for reads of any length |
| `Overlap.BufferIsSlice` | src/main.rs:388-406 | for any run of aligned reads, the magnitudes of each combined buffer are the matching slice of those of the filler and the stream |
| `Overlap.FillerSamples` | src/main.rs:220-227 | what precedes the stream is 300 samples made of bytes 128 |
| `Overlap.EverySampleTried` | src/main.rs:220-227 | for any run of aligned reads, a sample of the stream stands below `stop` in the buffer of some read if and only if it is not one of the last 285 |
| `Overlap.EveryMessageHeld` | src/main.rs:220-227 | a position is tried in a buffer that has the next 290 samples of the stream, with every slicing guard met at every phase, if and only if the stream has them |
| `Beast.EscapeBeast` | src/net/protocols/beast.rs:199-208 | every 0x1a is doubled |
| `Beast.DestuffBeast` | src/net/protocols/beast.rs:178-190 | doubled 0x1a are collapsed, single ones kept |
| `Beast.DestuffEscaped` | src/net/protocols/beast.rs:177-190 | what was stuffed comes back, whatever follows it |
| `Beast.TimestampRoundTrip` | src/net/protocols/beast.rs:94-95 | six bytes keep a timestamp modulo 2^48, negative ones included |
| `Beast.RssiSteps` | src/net/protocols/beast.rs:230-236 | the signal byte counts whole steps of 256 of a positive level up to 65536, and is 255 for all others |
| `Beast.ParsesExactly` | src/net/protocols/beast.rs:90-104 | what parses: a marker and one of three types with at least one byte behind the header |
| `Beast.ParseStuffed` | src/net/protocols/beast.rs:90-111 | stuffed frames of all three types parse back, whatever follows them |
| `Beast.ParseTwoBytes` | src/net/protocols/beast.rs:98-102 | Mode A/C frames of two bytes among them |
| `Beast.EncodeBeastOutput` | src/net/protocols/beast.rs:218-242 | whatever follows the printed bytes, the parser gets back payload, type, signal byte and timestamp from them |
| `Beast.ParseEncoded` | src/net/protocols/beast.rs:90-111 | a printed 7- or 14-byte payload parses back with its type, timestamp and signal byte, whatever follows it |
| `BeastReader.ScanLoop` | src/net/protocols/beast.rs:31-46 | frames and consumed bytes of one buffer |
| `BeastReader.ReadBeastFrames` | src/net/protocols/beast.rs:16-60 | the frames of a whole run over any sequence of reads, end of stream, time-outs and failures included |
| `BeastProps.ScanIsMarked` | src/net/protocols/beast.rs:31-46 | the skipping loop returns the frames at all markers that parse, up to the limit, and no others |
| `BeastProps.PrintedStreamRoundTrip` | src/net/protocols/beast.rs:16-60 | printed frames delivered in one read come back exactly if and only if no frame holds an inner marker followed by a type |
| `BeastProps.PrintedStreamReturned` | src/net/protocols/beast.rs:16-60 | for unambiguous frames a full buffer and a limit of exactly their number suffice |
| `BeastProps.InnerMarkerMisread` | src/net/protocols/beast.rs:31-46 | a payload that holds 0x1a 0x31 does not come back |
| `BeastReads.WholeFrameReads` | src/net/protocols/beast.rs:13-60 | over any number of reads that end between frames and fit behind the bytes kept, the frames come back exactly if and only if none is ambiguous and no stale frame type stands behind a read that ends in 0x1a |
| `BeastReads.FaithfulUnlessMarkerEnds` | src/net/protocols/beast.rs:13-60 | so they do if none is ambiguous and no read ends in a payload that ends in 0x1a |
| `BeastFragments.StaleByteMisread` | src/net/protocols/beast.rs:47-52 | two unambiguous frames in two reads that come back as three |
| `BeastFragments.PartParses` | src/net/protocols/beast.rs:90-111 | the first part of a frame parses, and to the whole frame if and only if all that is missing is zeros, half a doubled 0x1a counting as the whole |
| `BeastFragments.SplitFrame` | src/net/protocols/beast.rs:13-60 | exactly when an unambiguous frame comes back from two reads, for every payload, cut and limit |
| `BeastFragments.CutFrameMisread` | src/net/protocols/beast.rs:13-60 | a frame whose header and payload come in two reads is lost |
| `BeastCuts.MarkedFrom` | src/net/protocols/beast.rs:31-46 | what one read of a cut stream is parsed to: the frames it opens as they were sent, if and only if the stale bytes behind it happen to complete them and complete nothing else |
| `BeastCuts.CutStream` | src/net/protocols/beast.rs:13-60 | for any stream of unambiguous frames and any sizes of reads, the frames come back exactly if and only if every read is such |
| `BeastEvents.TimeOutEnds` | src/net/protocols/beast.rs:23-28 | a read that times out ends the run with the frames of the reads before it, whatever would have followed |
| `BeastEvents.FailureReported` | src/net/protocols/beast.rs:23-30 | a read that fails makes the run fail, its frames lost, if and only if the run would have gone on reading |
| `BeastEvents.LimitEnds` | src/net/protocols/beast.rs:55-58 | a run that has reached its limit ends there, whatever would have followed |
| `BeastEvents.DataNeverFails` | src/net/protocols/beast.rs:16-60 | bytes alone never make a run fail |
| `BeastEvents.SurplusStays` | src/net/protocols/beast.rs:22-30 | bytes that do not fit into the buffer come with the next read |
| `BeastEvents.WholeFrameReadsTimedOut` | src/net/protocols/beast.rs:13-60 | reads that end between frames, and then a time-out: the same condition for the frames to come back |
| `BeastEvents.CutStreamTimedOut` | src/net/protocols/beast.rs:13-60 | the same for a stream that is cut anywhere |
| `BeastEvents.FaithfulReadsFailed` | src/net/protocols/beast.rs:13-60 | a failure behind faithful reads is an error if more frames were asked for, and the frames come back if not |
| `BeastEvents.CutStreamFailed` | src/net/protocols/beast.rs:13-60 | the same for a stream that is cut anywhere |
| `Records.EncodeRecord` | src/net/protocols/beast.rs:64-73 | the bytes decode to the frame again, without its signal byte, if and only if its payload length fits a byte and its timestamp is one of 48 bits |
| `Records.DecodeRecorded` | src/net/protocols/beast.rs:75-86 | the same of the record as a function of the frame, negative timestamps included |
| `Records.ReadRecordsFromFile` | src/bin/beast-client.rs:140-161 | the frames of the file |
| `Records.WholeIsExact` | src/bin/beast-client.rs:147-152 | the number of records wholly inside a prefix |
| `Records.TruncatedFileRead` | src/bin/beast-client.rs:145-160 | any prefix of a file yields exactly the frames wholly inside it |
| `Records.FileRoundTrip` | src/bin/beast-client.rs:145-160 | a whole file round-trips |
| `Registry.Aircraft.AddSignal` | src/tracking/aircraft.rs:123-126 | after any run of additions, the ring holds the last eight levels, level number k in slot k modulo 8 |
| `Registry.Aircraft.Update` | src/tracking/tracker.rs:164-184 | the counter, time and squawk after one message, and the levels so far with a positive one added |
| `Registry.AircraftRegistry.GetOrCreate` | src/tracking/aircraft.rs:152-159 | a known address gives its aircraft and changes nothing; an unknown one gives a new aircraft |
| `Registry.AircraftRegistry.RemoveStale` | src/tracking/aircraft.rs:161-166 | exactly the aircraft that are not stale stay, and the others are counted |
| `Registry.Tracker.UpdateFromMessage` | src/tracking/tracker.rs:158-188 | the registry takes the step of a received message, its signal level included |
| `Registry.Tracker.UpdateSquawkOnly` | src/tracking/tracker.rs:146-152 | the registry takes the step of a squawk: known aircraft only |
| `Registry.Tracker.RemoveStale` | src/tracking/tracker.rs:154-156 | the registry takes the step of a sweep |
| `RegistryProps.SweptRegistry` | src/tracking/tracker.rs:146-188 | after a sweep an address is there if and only if it is a real one and was refreshed within the last 300000 ms, by a message from it or by a squawk while it was there, however often the registry was swept before |
| `RegistryProps.CountSinceCreated` | src/tracking/tracker.rs:183-184 | an entry counts the messages since its address was last created |
| `RegistryProps.SquawkSinceCreated` | src/tracking/tracker.rs:66-71 | its squawk is the last one since then that a message or a squawk event gave it, or zero |
| `RegistryProps.LevelsSinceCreated` | src/tracking/tracker.rs:180-182 | its signal levels are the positive ones of its messages since then, in order |
| `RegistryProps.HasCreation` | src/tracking/aircraft.rs:152-159 | every entry has such a moment of creation |
| `Cpr.CprModInt` | src/cpr/decode.rs:7-10 | the remainder that truncates toward zero, made positive, is the Euclidean one |
| `CprEncoder.LatIndexRecovered` | src/cpr/decode.rs:127-130 | the latitude index is the even zone modulo 60 and the odd zone modulo 59, despite rounding and wrapped fields |
| `CprEncoder.LonIndexRecovered` | src/cpr/decode.rs:147-158 | the longitude index from two wrapped fields |
| `CprEncoder.LonZoneRecovered` | src/cpr/decode.rs:145-160 | that index names the zone of either frame modulo its zone count |
| `CprGlobal.LatsCloseInDegrees` | src/cpr/decode.rs:127 | a twentieth of a degree of motion is close enough |
| `CprGlobal.LatQuantaClose` | src/cpr/decode.rs:127 | close latitudes stay within half a rounding step of each other after quantization |
| `CprGlobal.LonQuantaClose` | src/cpr/decode.rs:147-158 | the same for longitudes, in a band of n zones |
| `CprGlobal.CoordinateError` | src/cpr/decode.rs:129-130 | quantization moves a coordinate by at most 2^-18 of a zone |
| `CprGlobal.LatsRestored` | src/cpr/decode.rs:126-134 | both latitudes come out as the encoder quantized them |
| `CprZones.NlIsStandard` | src/cpr/decode.rs:20-80 | the number of zones lies between those that (1 - cos(2 pi / n)) cos^2 lat >= 1 - cos(pi / 30) gives half a unit of the eighth decimal further out and further in, for any cosine within its series and pi within two decimals |
| `CprBands.SentNl` | src/cpr/decode.rs:20-80 | at every latitude that a frame can carry, even or odd, airborne or on the surface, it is the number that the equation gives, but at 87 degrees in even frames |
| `CprBands.SentZones` | src/cpr/decode.rs:82-95 | with the same exception, decoder and encoder divide the parallel alike |
| `CprGlobal.GlobalDecodes` | src/cpr/decode.rs:102-144 | two frames sent from nearby latitudes are decoded if and only if they share a band of zones, or lie in different ones when the even frame is at 87 degrees, and are not all zero |
| `CprGlobal.GlobalDecodeInverts` | src/cpr/decode.rs:102-165 | global decoding gives back the position of the chosen frame exactly as it was quantized, within 2^-18 of a cell, though the aircraft has moved between the frames; of an even frame at 87 degrees the longitude is doubled |
| `CprSurface.PickedOnGlobe` | src/cpr/decode.rs:186-216 | whatever the reference, the picked latitude passes the range check |
| `CprSurface.SurfaceDecodes` | src/cpr/decode.rs:169-220 | near the reference, surface decoding succeeds if and only if the frames share a band of zones, or do not when the even frame is at 87 degrees |
| `CprSurface.SurfaceDecodeInverts` | src/cpr/decode.rs:169-249 | surface decoding gives back the position as quantized when it is within 45 degrees of the reference on both axes, except, exactly, the longitude of an even frame at 87 degrees that is no whole number of quadrants |
| `CprRelative.CellIsNearest` | src/cpr/decode.rs:266-267 | the cell index is the one within half a cell of the reference |
| `CprRelative.RelativeDecodes` | src/cpr/decode.rs:253-301 | exactly when one frame can be decoded against a reference, and that the result is within half a cell of it |
| `CprRelative.AntimeridianRejected` | src/cpr/decode.rs:293-298 | a reference at 180 degrees and a frame from just beyond it, rejected |
| `CprRelative.RelativeAlwaysDecodes` | src/cpr/decode.rs:253-301 | away from the poles and the antimeridian it always succeeds |
| `CprRelative.RelativeDecodeInverts` | src/cpr/decode.rs:253-301 | a frame sent less than half a cell from the reference comes back as quantized, airborne and on the surface, if and only if it is not an even one at 87 degrees, or its longitude is a whole number of spans |
| `CprRelative.PolarFrameMisread` | src/cpr/decode.rs:77-80 | a frame from 87 degrees north and 100 degrees east that does not come back |
| `CprRelative.RelativeAgreesWithGlobal` | src/cpr/decode.rs:253-301 | relative and global decoding of a frame agree when its position is less than half a cell from the reference |

## Left out

- Repair.DoubleErrorRepaired: that the table always names the two damaged bits needs a minimum distance of five for words of 112 bits, a fact about all quadruples of positions; the model proves what holds without it.
- Parser.ParseModesMessage: an engine for more than 112 bits can name a bit behind the 14-byte buffer, where the program panics; such calls are excluded, and only such.
- Demod.BestMessage: the product of noise and threshold wraps at 2^32; a build that traps overflow would stop there instead.
- NoiseFloor.ComputeHistogram: buffers of 2^32 samples or more, whose u32 counts could wrap.
- MultiPass.Demodulate2400MultiPass: the same bound.
- Demod.ScanSound: signal levels are exact reals, not floats.
- Scoring.ScoreModesMessage: the branches behind the format check of its first lines cannot be reached and are not modelled; the filter of known addresses is an arbitrary predicate.
- Overlap.BufferIsSlice: the conversion of one sample to its magnitude is an arbitrary function; the header that one input format has in its first read is not modelled. A read that ends within a sample shifts all later ones and is excluded.
- Registry.Tracker.UpdateFromMessage: the other fields of an aircraft (altitude, callsign, velocity, position, validity times) and the wrap-around of counters.
- CprGlobal.GlobalDecodeInverts: arithmetic is over the reals; IEEE rounding and the saturation of floors converted to i32 are not modelled.
- CprZones.NlIsStandard: of the cosine and of pi it uses monotonicity, the enclosure by the series and fourteen decimals; that the real ones have these properties is taken from analysis and not proved.
- BeastCuts.CutStream: for unambiguous frames, and reads that leave at least 46 bytes of the 65536-byte buffer free.
- Field decoding of messages: altitude, identity, velocity, Comm-B, air/ground state and the rest of the parser.
- Diagnostics, statistics and the Beast comparison reports.
- Sockets, radio drivers, configuration, the console and the output formats other than Beast. A read is a sequence of bytes, a lock one atomic step, the clock a parameter.
