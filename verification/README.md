# A Dafny model of Deskhub's core

The stateful core of Deskhub, the remote desktop, as a Dafny model with proofs of what that core is for.
Classes keep the fields of the original and change them in place; each method is proved against a
function of the old fields, and the main results are lemmas about those functions over whole runs.

| files | what they model |
|---|---|
| `Utf8`, `JsonText`, `JsonTree`, `JsonWriter` | The JSON printer of the command line: UTF-8 recogniser, escaping, and the writer that tracks commas with one flag. The partner is a reader for RFC 8259 text and a writer with a full stack. |
| `ClockOffset`, `VideoPacer` | The two-bucket sliding minimum of the clock offset, and the pacing of frames on top of it. The partner is the minimum over the sample history. |
| `FrameGate` | The phase-locked rate limiter of the capture. |
| `FailureLimiter` | The fixed table of failed sign-ins with replacement of the oldest. The partner is an unbounded map. |
| `Base64`, `PairingTokens`, `PairingText` | The single-use pairing tokens, and the text file that holds them. |
| `QualityLadder`, `BitrateController` | The two feedback controllers of a stream. |
| `Transcript` | The bytes that are signed during authentication. |
| `ServiceBroker`, `HostSupervisor` | The Windows and Linux supervisors of the unattended host, as step relations at the granularity of their locked sections. |
| `Png`, `PngFile`, `Ico`, `Resample` | The icon script: PNG reading and writing, ICO layout, box resampling. |
| `PointerCompositor` | The mouse pointer drawn into a frame, in place. |
| `Machine`, `Bits`, `ByteOrder`, `Decimal` | Fixed-width integers, bitwise operations, byte order and decimal text. |

Integers have the width of the original: wrap-around is written out with `U32`, `U64` and `S64`. Text is
a sequence of bytes. Clocks, files, processes, compression, checksums and anti-aliasing enter as
parameters or as events of a run.

Where the code does not do what its documentation, or its shape, suggests, the code is modelled and a lemma gives
the input or the exact condition, in most cases both:

- `docs/ARCHITECTURE.md` (line 185) says that three failures within a minute block a pair. The code counts a minute from
  each failure to the next, over however long, and starts counting again with every pause, so that of five failures
  within 14 seconds the last three do not block (`BlockedIff`, `FailureBlocksIff`, `MinuteIsCountedFromTheLast`).
- The bits a second required by a rung are cut to 32 bits, so on very large pictures a lower rung can seem to
  need more (`RequiredCanGrow`, `RequiredNeverGrowsIff`), and a rung that the bitrate does not pay for be kept
  (`RunIsAffordableIff`, `RunCanBeTooDear`).
- The ladder counts distinct steps but indexes rungs, so the last one can be out of reach
  (`LastRungCanBeOutOfReach`, `EncodableRungsAreInRangeIff`).
- A raise of the bitrate can wrap, and very small limits hold it still (`HealthNeverLowersIff`,
  `QuietRestoresTheTopIff`, `LossReachesTheFloorIff`).
- A frame no later than the last one passes the gate (`NotLaterAlwaysPasses`, `RateBoundWithRepeatsIff`).
- A pairing token that expires before 1970 is written but not read (`PairingText.RoundTripIff`,
  `EarlyIssueIsNotRead`), and Base64 does not read back the empty text it writes (`Base64.RoundTripIff`).
- A configuration whose later write fails leaves a host running under the old key, even once it is sent again
  (`ConfigurationKeepsSetupIff`, `RetryLeavesOldHost`).

## Model

| member | source | states |
|---|---|---|
| Utf8.SequenceLength | core/src/cli/Json.cpp:24-38 | The loop over lead, second and further bytes returns the length of the sequence that starts at the index, or 0; it never reads past the text. |
| Utf8.PrefixLengthIsExact | core/src/cli/Json.cpp:16-38 | n is returned exactly when the first n bytes are the encoding of one Unicode scalar value (section 4 of RFC 3629): no overlong form, no surrogate, nothing above U+10FFFF, and nothing well-formed refused. |
| Utf8.AcceptedIsAnEncoding | core/src/cli/Json.cpp:24-38 | Whatever is accepted decodes to a scalar value whose encoding is exactly those bytes. |
| Utf8.EncodingIsAccepted | core/src/cli/Json.cpp:16-38 | The encoding of every scalar value is accepted at its full length, whatever bytes follow it. |
| Utf8.ScalarsRecoverEncoded | core/src/cli/Json.cpp:74-81 | The lenient reading that JsonEscape gives its input (U+FFFD for each byte outside a well-formed sequence) is the identity on well-formed text. |
| JsonText.EscapeAt | core/src/cli/Json.cpp:47-82 | One turn of the loop, branch by branch: what is appended for the byte at i, and how far i moves on. |
| JsonText.JsonEscape | core/src/cli/Json.cpp:42-84 | The loop over the text yields the escaped form of all of it. |
| JsonText.UnescapeOfEscape | core/src/cli/Json.cpp:42-84 | An RFC 8259 section 7 reader takes the escaped text back as the input with every byte outside a well-formed sequence replaced by U+FFFD, and stops at the quotation mark the writer puts behind it: no quote inside is left unescaped. |
| JsonText.WellFormedTextIsUnchanged | core/src/cli/Json.cpp:42-84 | Text that is well-formed UTF-8 comes back from escape and unescape exactly as it was. |
| JsonText.EscapeActsOnScalars | core/src/cli/Json.cpp:42-84 | Escaping bytes is escaping the characters they stand for; the result is well-formed UTF-8 for every input, well-formed or not. |
| JsonText.NoRawControlByte | core/src/cli/Json.cpp:69-73 | No byte below 0x20 and no DEL is ever left raw in the escaped text. |
| JsonText.EscapesAre | core/src/cli/Json.cpp:47-81 | What is put out for each byte: quotation mark and backslash behind a backslash, \n, \r and \t, \u00 with two lower-case hex digits for the other control bytes and DEL, U+FFFD for an ill-formed byte, and everything else as it is. |
| JsonText.PlainTextIsCopied | core/src/cli/Json.cpp:42-84 | Well-formed text without quotation marks, backslashes, control bytes and DEL is copied unchanged. |
| Decimal.DigitsDenoteTheNumber | core/src/cli/Json.cpp:157-160 | The decimal text of a number denotes that number and has no leading zero. |
| Decimal.KnownTexts | core/src/cli/Json.cpp:157-160 | The sign stands in front and the highest digit first. |
| JsonTree.ValueIsRead | core/src/cli/Json.cpp:86-160 | The compact serialisation of any value, with a delimiter behind it, is read by an RFC 8259 reader as the value it means, and nothing of what follows is consumed. |
| JsonTree.DocumentIsRead | core/src/cli/Json.cpp:86-160 | Reading the serialisation of any tree as a whole document gives the tree back. |
| JsonTree.SerialisedLikeThis | core/src/cli/Json.cpp:86-160 | Braces, brackets, commas, colons, quotation marks and literals are those of RFC 8259, with no white space. |
| JsonWriting.JsonWriter.Separator | core/src/cli/Json.cpp:86-89 | Writes a comma exactly when one is due, and leaves one due. |
| JsonWriting.JsonWriter.AppendQuoted | core/src/cli/Json.cpp:91-95 | Appends the escaped text between quotation marks and leaves the flag alone. |
| JsonWriting.JsonWriter.ObjectBegin | core/src/cli/Json.cpp:97-101 | Appends a due comma and the opening brace; no comma is due inside. |
| JsonWriting.JsonWriter.ObjectEnd | core/src/cli/Json.cpp:103-106 | Appends the closing brace; a comma is due behind it. |
| JsonWriting.JsonWriter.ArrayBegin | core/src/cli/Json.cpp:108-112 | Appends a due comma and the opening bracket; no comma is due inside. |
| JsonWriting.JsonWriter.ArrayEnd | core/src/cli/Json.cpp:114-117 | Appends the closing bracket; a comma is due behind it. |
| JsonWriting.JsonWriter.FieldBegin | core/src/cli/Json.cpp:119-124 | Appends a due comma, the quoted key and a colon; no comma is due before the value. |
| JsonWriting.JsonWriter.FieldText | core/src/cli/Json.cpp:126-130 | A field with a text value, after which a comma is due. |
| JsonWriting.JsonWriter.FieldPointer | core/src/cli/Json.cpp:132-134 | A null pointer is written as the empty text. |
| JsonWriting.JsonWriter.FieldNumber | core/src/cli/Json.cpp:136-140 | A field with a 64-bit number, after which a comma is due. |
| JsonWriting.JsonWriter.FieldBoolean | core/src/cli/Json.cpp:142-146 | A field with true or false, after which a comma is due. |
| JsonWriting.JsonWriter.ValueText | core/src/cli/Json.cpp:148-151 | A due comma and the quoted value; a comma is due behind it. |
| JsonWriting.JsonWriter.ValuePointer | core/src/cli/Json.cpp:153-155 | A null pointer is written as the empty text. |
| JsonWriting.JsonWriter.ValueNumber | core/src/cli/Json.cpp:157-160 | A due comma and the decimal number; a comma is due behind it. |
| JsonWriting.CallFollowsStack | core/src/cli/Json.cpp:86-160 | Every call that makes sense moves the text and the single comma flag exactly as a writer with a full stack of unfinished values would. |
| JsonWriting.FlagRefinesStack | core/src/cli/Json.cpp:86-160 | After every sensible sequence of calls, at any depth, the text is that of the unfinished document and the flag says whether its innermost value already holds something: the one flag suffices, no stack is needed. |
| JsonWriting.FinishedDocumentIsRead | core/src/cli/Json.cpp:86-160 | Any sensible sequence of calls that finishes a document leaves its serialisation, and an RFC 8259 reader takes that back as the document. |
| JsonWriting.WalkBuilds | core/src/cli/Json.cpp:97-160 | Walking a tree through the calls is sensible anywhere a value may stand, and builds exactly that tree. |
| JsonWriting.WalkedTreeIsRead | core/src/cli/Json.cpp:86-160 | A tree of any depth walked through the calls on a new writer leaves exactly its comma-separated serialisation, and a reader gets the tree back. |
| JsonWriting.TextDeterminesMeaning | core/src/cli/Json.cpp:86-160 | Two trees that come out as the same text mean the same. |
| ClockOffsets.ClockOffset.constructor | core/include/deskhub/control/ClockOffset.h:27-34 | A new clock has no sample. |
| ClockOffsets.ClockOffset.Reset | core/src/control/ClockOffset.cpp:7-12 | Clears every field but curEmpty_. |
| ClockOffsets.ClockOffset.Rotate | core/src/control/ClockOffset.cpp:14-22 | The loop, which ends for every pair of times, leaves the fields rotated into the window of the local time. |
| ClockOffsets.ClockOffset.AddSample | core/src/control/ClockOffset.cpp:24-48 | First sample or not, rotated or not, all eight fields after a sample. |
| ClockOffsets.ClockOffset.LatencyUs | core/src/control/ClockOffset.cpp:50-54 | -1 without a sample; otherwise the excess of the newest sample, not below zero, plus the network floor. |
| ClockOffsets.RotationEnds | core/src/control/ClockOffset.cpp:14-22 | Even for a local clock that stepped back, the loop ends with the local time inside the window, at its place modulo the window length. |
| ClockOffsets.RotationSkips | core/src/control/ClockOffset.cpp:14-22 | Rotation over k windows: none changes nothing, one hands the minimum on, two or more forget both minima. |
| ClockOffsets.FloorFallsToTheSampleAtMost | core/src/control/ClockOffset.cpp:38-47 | On any input the floor after a sample is at most the sample, and not below the smaller of the sample and the floor before. |
| ClockOffsets.RunTracks | core/src/control/ClockOffset.cpp:24-48 | On every run with non-decreasing local time the window start, both bucket minima and their flags are those of the sample history. |
| ClockOffsets.FloorIsTheWindowedMinimum | core/src/control/ClockOffset.cpp:24-48 | After every such run floor_ is the minimum raw offset of the samples in the current window and the one before: one that is attained, and below which none lies. |
| ClockOffsets.FloorInTime | core/src/control/ClockOffset.cpp:24-48 | The floor covers every sample younger than kWindowUs, and is attained by one younger than 2 * kWindowUs. |
| ClockOffsets.LatencyIsTheExcess | core/src/control/ClockOffset.cpp:50-54 | On such runs the clamp at zero never bites: the latency is the excess of the newest sample over the windowed minimum plus the network floor; without a sample, or after a reset, it is -1. |
| ClockOffsets.ForgettingStartsAfresh | core/src/control/ClockOffset.cpp:7-12 | A clock after Reset reports the same floor and latency as a new one on every following run, stale curEmpty_ included. |
| VideoPacing.VideoPacer.constructor | core/include/deskhub/control/VideoPacer.h:14 | A new pacer has its lead and a clock without samples. |
| VideoPacing.VideoPacer.ObserveArrival | core/src/control/VideoPacer.cpp:5-12 | Resets the clock on a jump past the floor either way, and then adds the sample. |
| VideoPacing.VideoPacer.DesiredTimebaseUs | core/src/control/VideoPacer.cpp:14-16 | Now, less the floor, less the lead. |
| VideoPacing.VideoPacer.DisplayTimeUs | core/src/control/VideoPacer.cpp:18-21 | The frame's time on the local clock plus the lead, or now where that has gone by. |
| VideoPacing.VideoPacer.NeedsResync | core/src/control/VideoPacer.cpp:23-26 | Whether the timebase is off by more than the threshold, either way. |
| VideoPacing.VideoPacer.Reset | core/include/deskhub/control/VideoPacer.h:28-30 | Resets the clock. |
| VideoPacing.WatchedIsItsStream | core/src/control/VideoPacer.cpp:5-12 | After any run of arrivals the pacer is exactly in the state that the arrivals since the last jump alone would leave. |
| VideoPacing.FloorOfStream | core/src/control/VideoPacer.cpp:5-12 | With non-decreasing time its floor is the windowed minimum over the stream it is watching. |
| VideoPacing.StreamGoesOnIff | core/src/control/VideoPacer.cpp:5-12 | An arrival within 2 s of the floor, either way, is added to the stream; any other begins a new one and is its floor. |
| VideoPacing.SteadyRunIsOneStream | core/src/control/VideoPacer.cpp:5-12 | A run whose offsets all lie within 2 s of one another is never begun anew: the pacer is exactly a clock that has had every sample. |
| VideoPacing.ExcessIsBounded | core/src/control/VideoPacer.cpp:5-12 | After every arrival, on any clock and even when windows rotate or the stream jumps, the excess of the sample over the floor lies in [0, kStreamJumpUs]. |
| VideoPacing.ShownAfterTheLead | core/src/control/VideoPacer.cpp:18-21 | The frame just observed is shown after the lead less its excess over the floor, or now where that is nothing. |
| VideoPacing.HoldIsBounded | core/src/control/VideoPacer.cpp:18-21 | The frame just observed is shown no earlier than now and no later than now plus the lead. |
| VideoPacing.DueIffBeyondTimebase | core/src/control/VideoPacer.cpp:14-21 | A frame is due in the future exactly when its pts lies beyond the desired timebase, and then at its pts on the local clock plus the lead; any other is shown at once. |
| VideoPacing.CadenceFollowsPts | core/src/control/VideoPacer.cpp:18-21 | Any two frames of a run that arrive early, with the same floor at both, are shown as far apart as their pts, whatever the jitter of their arrivals and whatever came between. |
| VideoPacing.ResyncIffFloorMoved | core/src/control/VideoPacer.cpp:23-26 | A timebase set once and run on with the clock asks for a resync exactly when the floor has moved by more than the threshold since. |
| FrameGates.FrameGate.Reset | core/include/deskhub/control/FrameGate.h:11-14 | Forgets the last frame and the due time. |
| FrameGates.FrameGate.Admit | core/src/control/FrameGate.cpp:5-24 | The decision and both stored times for every rate, 0 included, every timestamp and every state, sums wrapping at 64 bits. |
| FrameGates.RunIsPaced | core/src/control/FrameGate.cpp:5-24 | On every run of strictly rising timestamps the due time stays between one gap per frame kept since the first and a gap plus the tolerance behind the last frame kept. |
| FrameGates.RateBound | core/src/control/FrameGate.cpp:5-24 | Any N >= 2 consecutive frames kept span a time T with (N - 2) * minGap <= T + tolerance, and (N - 1) * minGap <= T + tolerance when counted from the first of the run. |
| FrameGates.TwoFramesOneMicrosecondApart | core/src/control/FrameGate.cpp:17 | The bound of N - 2 is tight: after a late frame two frames can pass one microsecond apart. |
| FrameGates.NotLaterAlwaysPasses | core/src/control/FrameGate.cpp:10-22 | A frame no later than the last one kept always passes, and begins the pacing anew from itself. |
| FrameGates.NoRateNoGate | core/src/control/FrameGate.cpp:6 | At rate 0 every frame passes and nothing is stored. |
| FrameGates.ToleranceIsHalfAMillisecond | core/src/control/FrameGate.cpp:14 | At 30 frames a second a second frame passes 32833 microseconds after the first and not 32832. |
| FrameGates.RepeatedTimeIsKept | core/src/control/FrameGate.cpp:10-20 | A timestamp that is repeated is kept every time, however often and at any rate. |
| FrameGates.RateBoundWithRepeatsIff | core/src/control/FrameGate.cpp:10-20 | The rate bound holds on all runs whose timestamps merely do not fall if and only if the rate is above a million, where the gap is 0 and there is nothing to bound. |
| FrameGates.NoStarvation | core/src/control/FrameGate.cpp:10-14 | On any rising run a frame at least minGap behind the last one kept is kept. |
| FrameGates.SlowCaptureIsKeptWhole | core/src/control/FrameGate.cpp:8-17 | A source whose frames all lie at least minGap apart loses none. |
| FrameGates.PhaseLock | core/src/control/FrameGate.cpp:14-17 | A source whose k-th frame is within [-tolerance, minGap] of its place on the grid of minGap loses no frame for any k, and the due time stays on the grid without drift. |
| FrameGates.FastCaptureMeetsTheTarget | core/src/control/FrameGate.cpp:14-17 | A source never more than minGap apart is thinned to no less than the target: the frames kept cover the whole run at one gap each. |
| FailureLimiting.AuthFailureLimiter.Allow | core/src/auth/FailureLimiter.cpp:5-10 | Blocked exactly when the first entry of the pair is still blocked; a pair without an entry is allowed. |
| FailureLimiting.AuthFailureLimiter.Select | core/src/auth/FailureLimiter.cpp:13-26 | The one scan finds the pair's entry, else the first free one, else the first with the oldest failure. |
| FailureLimiting.AuthFailureLimiter.RecordFailure | core/src/auth/FailureLimiter.cpp:12-41 | The whole table after a failure, with every other entry untouched. |
| FailureLimiting.AuthFailureLimiter.RecordSuccess | core/src/auth/FailureLimiter.cpp:43-49 | The pair's entry is emptied, every other entry is untouched. |
| FailureLimiting.AuthFailureLimiter.Clear | core/src/auth/FailureLimiter.cpp:51-53 | Every entry is empty. |
| FailureLimiting.NoPairTwice | core/src/auth/FailureLimiter.cpp:12-49 | On every run no pair ever occupies two entries. |
| FailureLimiting.TableAgreesWithMap | core/src/auth/FailureLimiter.cpp:12-53 | While the pairs on record fit the table, entries and an unbounded map of failure runs and pauses hold the same record for every pair, on every run. |
| FailureLimiting.AllowAgreesWithMap | core/src/auth/FailureLimiter.cpp:5-10 | Then Allow answers as that map does, for every pair and time. |
| FailureLimiting.FewPairsFit | core/src/auth/FailureLimiter.cpp:12-41 | They fit on every run in which no more distinct pairs than entries ever fail. |
| FailureLimiting.RunRemembers | core/src/auth/FailureLimiter.cpp:28-36 | On every run with non-decreasing time, each entry in use remembers the latest failure of its pair in the whole run. |
| FailureLimiting.EvictionIsEarned | core/src/auth/FailureLimiter.cpp:24-35 | A pair is evicted only once as many other pairs as there are entries have failed no earlier than its own latest failure in the run. |
| FailureLimiting.RunTells | core/src/auth/FailureLimiter.cpp:28-40 | On every run, whoever else fails and however the clock behaves, the record of a pair is told by the times of its failures since its last release: its streak modulo three, its last failure, and the end of the pause that the last full round of the streak began. |
| FailureLimiting.BlockedIff | core/src/auth/FailureLimiter.cpp:5-41 | On every run whose pairs fit the table, Allow refuses a pair if and only if its streak has reached three and the pause of its last full round is not over. |
| FailureLimiting.FailureBlocksIff | core/src/auth/FailureLimiter.cpp:28-40 | A failure of a pair that is not paused begins a pause if and only if it makes the streak (failures with no gap over the window) a multiple of three, and the end of the pause does not wrap at 64 bits. |
| FailureLimiting.TableTells | core/src/auth/FailureLimiter.cpp:12-49 | On every run, past the capacity too, the entry of a pair is told by the times of its failures since it last entered the table; a pair that takes the place of another inherits nothing. |
| FailureLimiting.AllowsIff | core/src/auth/FailureLimiter.cpp:5-10 | On every run, whatever the number of pairs, Allow refuses a pair if and only if its streak in the table has reached three and the pause of its last full round is not over. |
| FailureLimiting.InTableIff | core/src/auth/FailureLimiter.cpp:12-53 | Who has an entry: a failure enters a pair, and it stays until it is released or, in a full table, gives way to a pair without an entry as the first of those whose last failure is the longest ago. |
| FailureLimiting.NewcomerStartsAfresh | core/src/auth/FailureLimiter.cpp:28-40 | A pair that was not in the table has one failure and no pause after its first, whosever place it takes. |
| FailureLimiting.MinuteIsCountedFromTheLast | core/src/auth/FailureLimiter.cpp:28-40 | Failures at 0, 50 and 100 seconds block although they span more than a minute; at 0, 10 and 100 seconds they do not; and neither do the last three of 0, 1, 2, 13 and 14 seconds although they lie within one. |
| FailureLimiting.PauseLasts | core/src/auth/FailureLimiter.cpp:28-40 | In the map of records, while a pair is blocked neither its own further failures nor other pairs lift or shorten the pause; only its success or a clear can. |
| QualityLadders.QualityLadder.constructor | core/src/control/QualityLadder.cpp:31-44 | Counts the rungs up to the first that is too small, repeats left out, and starts on the top one. |
| QualityLadders.QualityLadder.BestRungFor | core/src/control/QualityLadder.cpp:64-68 | The search loop returns the first affordable rung in range, else the last in range. |
| QualityLadders.QualityLadder.Update | core/src/control/QualityLadder.cpp:70-109 | All fields after an update, and whether the rung changed; the step is always that of the rung. |
| QualityLadders.LowerRungsAreEncodable | core/src/control/QualityLadder.cpp:35-41 | Every rung below the top that is in range is at least 160x64, for any maximum size and rate. |
| QualityLadders.EncodableRungsAreInRangeIff | core/src/control/QualityLadder.cpp:34-42 | Every rung that is big enough is in range if and only if the maximum rate is above 30 or the second rung is too small: otherwise the second rung repeats the first, the count skips it, and a rung that is big enough is cut off. |
| QualityLadders.LastRungCanBeOutOfReach | core/src/control/QualityLadder.cpp:34-42 | At 1080p and 30 frames a second a repeated step makes the count 5, and the last of six encodable rungs can never be used. |
| QualityLadders.StepsAreCutDown | core/src/control/QualityLadder.cpp:22-25 | Sizes are cut down to even numbers and rates to the maximum: the steps of 1367x769 at 15. |
| QualityLadders.ExactNeverGrows | core/src/control/QualityLadder.cpp:46-62 | The bits a second that a step needs, before the conversion to 32 bits, never grow with the rung. |
| QualityLadders.NothingIsCutOffIffTopFits | core/src/control/QualityLadder.cpp:58-62 | The conversion to 32 bits changes no requirement exactly when that of the top rung fits. |
| QualityLadders.RequiredNeverGrowsIff | core/src/control/QualityLadder.cpp:46-62 | What is required, as computed, never grows with the rung if and only if the requirement of the top rung fits 32 bits: for every maximum size and rate. |
| QualityLadders.RequiredCanGrow | core/src/control/QualityLadder.cpp:58-62 | A case where it does grow: the largest size at 60 frames a second, from the second rung to the third. |
| QualityLadders.BestIsFirstAffordable | core/src/control/QualityLadder.cpp:64-68 | The rung found is affordable or the last in range, and no rung above it is affordable. |
| QualityLadders.UpdateIsSound | core/src/control/QualityLadder.cpp:70-109 | From every rung in range an update stays in range with the step of its rung, never ends on a rung above the best the bitrate affords, and drops at once as far as needed. |
| QualityLadders.RunIsAffordableIff | core/src/control/QualityLadder.cpp:64-109 | After every update of every run the step is one the bitrate affords or the last in range, if and only if no rung but the last both needs, as computed, more than one above it and can be reached: by a drop to it or below it and a climb whose head-roomed bitrates fit 32 bits. The same holds for runs with positive non-decreasing time alone. |
| QualityLadders.FittingIsNotTooDear | core/src/control/QualityLadder.cpp:58-79 | There is no such rung when the requirement of the top rung fits 32 bits, or at 20 frames a second or fewer. |
| QualityLadders.RunCanBeTooDear | core/src/control/QualityLadder.cpp:64-109 | A run that ends there: at 50000x50000 and 60 frames a second the fourth rung needs 2.25 Gbit/s, and is kept at 1.7 Gbit/s. |
| QualityLadders.CutOffCanBeHarmless | core/src/control/QualityLadder.cpp:58-109 | At 40000x40000 the requirement of the top rung does not fit 32 bits either, yet no run can be led astray. |
| QualityLadders.HeldAboveItsMeans | core/src/control/QualityLadder.cpp:64-109 | For every ceiling with such a rung there is a timed run that stands on it and a report at which it is kept although the bitrate does not pay for it. |
| QualityLadders.RunIsExplained | core/src/control/QualityLadder.cpp:73-108 | On every run with positive non-decreasing time, lastChangeUs_ is no earlier than any change of rung, and upSinceUs_, when set, begins an unbroken span of reports with the headroom. |
| QualityLadders.UpIff | core/src/control/QualityLadder.cpp:86-108 | On every such run a report moves up, and then by exactly one rung, if and only if every change is at least the dwell ago and an unbroken span of reports that goes back at least the dwell has offered the head-roomed bitrate for it. |
| QualityLadders.NeedIsAFifthMore | core/src/control/QualityLadder.cpp:86-87 | The head-roomed bitrate is 120 percent of what the rung requires, rounded down. |
| BitrateControl.BitrateController.constructor | core/include/deskhub/control/BitrateController.h:21-22 | Starts at its maximum, with error correction on. |
| BitrateControl.BitrateController.Update | core/src/control/BitrateController.cpp:5-37 | The decision and all fields after a report; the bitrate itself is not assigned. |
| BitrateControl.BitrateController.NextBitrate | core/src/control/BitrateController.cpp:19-31 | A quarter down, a tenth down, a twentieth of the maximum up or no change, clamped, additions wrapping at 32 bits; a decrease is stamped even where the clamp undoes it. |
| BitrateControl.BitrateController.CommitBitrate | core/include/deskhub/control/BitrateController.h:26-28 | Assigns the bitrate and nothing else. |
| BitrateControl.Follow | core/src/session/host/ViewerFeedback.cpp:13-29 | Update, and the commit of a changed bitrate if the encoder takes it; if not, the bitrate stays. |
| BitrateControl.StaysInBounds | core/src/control/BitrateController.cpp:30-31 | Whatever is reported, the bitrate never leaves [min, max]. |
| BitrateControl.FecIsOffAfterTenCleanReports | core/src/control/BitrateController.cpp:9-17 | On every run error correction is off exactly while the last kCleanSecondsBeforeDroppingFec reports were all free of loss. |
| BitrateControl.TroubleIsStamped | core/src/control/BitrateController.cpp:20-25 | On every run lastDecreaseUs_ is the time of the last report of loss or backlog. |
| BitrateControl.RaisedOnlyOnceSettled | core/src/control/BitrateController.cpp:26-28 | On every run the bitrate is raised only by a report with little loss and backlog, more than 2 s after the last report of loss or backlog. |
| BitrateControl.ReportMoves | core/src/control/BitrateController.cpp:19-35 | After every run, for every report: a quarter down from 5 percent loss or 400 ms of backlog on, a tenth down from 2 percent or 150 ms on, a twentieth of the maximum up once the last trouble is more than 2 s ago, nothing otherwise; clamped, and dropped if it changes less than 2 percent. |
| BitrateControl.DecisionTellsTheChange | core/src/control/BitrateController.cpp:16-36 | The four fields of the decision say what the bitrate and the correction are afterwards and whether they have changed. |
| BitrateControl.QuietRunRaises | core/src/control/BitrateController.cpp:26-35 | After any run, reports with little loss and backlog, each more than 2 s after the last one with loss or backlog, raise the bitrate step by step and do nothing else to it. |
| BitrateControl.HealthNeverLowersIff | core/src/control/BitrateController.cpp:27-35 | Such a report never lowers the bitrate exactly when adding a twentieth of the maximum cannot wrap, or the limits are too close for a fall to count. |
| BitrateControl.QuietRestoresTheTopIff | core/src/control/BitrateController.cpp:26-35 | After every run such reports never lower the bitrate, and 39 of them or more bring it within the 2 percent dead zone of the maximum, if and only if the limits keep it still at the top for good, or adding a twentieth of the maximum cannot wrap at 32 bits and is something at all (a maximum of at least 20). |
| BitrateControl.SevereRunLowers | core/src/control/BitrateController.cpp:20-22 | A run of heavily lossy or backlogged reports only ever lowers by the clamped quarter. |
| BitrateControl.LossReachesTheFloorIff | core/src/control/BitrateController.cpp:20-35 | After every run 96 or more heavily lossy or backlogged reports bring the bitrate within the dead zone of the minimum, if and only if the minimum is at least 3 or equals the maximum. |
| BitrateControl.MildLossReachesTheFloorIff | core/src/control/BitrateController.cpp:23-35 | After every run 224 or more reports of moderate loss or backlog bring the bitrate within the dead zone of the minimum, if and only if the minimum is at least 9 or equals the maximum. |
| Base64.EncodeBase64 | core/src/net/Base64.cpp:32-51 | The bit accumulator, which wraps at 32 bits and keeps stale bits on top, puts out the URL alphabet encoding without padding. |
| Base64.DecodeBase64 | core/src/net/Base64.cpp:53-78 | The decoder with its checks of length, padding, symbols and left-over bits. |
| Base64.DecodeSymbols | core/src/net/Base64.cpp:61-74 | The loop over the symbols, stale bits on top included, and the check that the bits left over are zero. |
| Base64.DecodeOfEncodeFrom | core/src/net/Base64.cpp:32-78 | From every state in which encoder and decoder stand in the middle of a byte, decoding undoes encoding. |
| Base64.RoundTripIff | core/src/net/Base64.cpp:32-78 | Decoding what was encoded gives the bytes back exactly when there are any: the empty text is refused. |
| Base64.DecodingIsCanonical | core/src/net/Base64.cpp:53-78 | Whatever is decoded, encoded again, is the text without its padding: the checks of length, padding and left-over bits leave one text for each value. |
| Base64.PaddedRoundTrip | core/src/net/Base64.cpp:53-78 | The padded form of what was encoded is decoded as well. |
| Base64.KnownEncodings | core/src/net/Base64.cpp:9-51 | The alphabet is that of section 5 of RFC 4648 and the highest bits come first. |
| Pairing.ConstantTimeDifference | core/src/auth/PairingTokens.cpp:16-20 | The bytes OR-ed together from XOR differences are zero exactly when the two sides are equal. |
| Pairing.NothingDiffersIffEqual | core/src/auth/PairingTokens.cpp:16-20 | The same for every prefix of the two sides. |
| Pairing.PairingTokens.Issue | core/src/auth/PairingTokens.cpp:26-40 | Refused for zero, expired or present tokens; otherwise the live tokens, less the first that expires soonest when full, and the new one behind them. |
| Pairing.PairingTokens.Consume | core/src/auth/PairingTokens.cpp:42-54 | The index computed without branches is that of the matching token; it is taken out, the others stay in order, and nothing else is ever accepted. |
| Pairing.PairingTokens.Expire | core/src/auth/PairingTokens.cpp:56-62 | Drops what has expired, keeps the order of the rest and counts what it dropped. |
| Pairing.PairingTokens.Clear | core/src/auth/PairingTokens.cpp:64-66 | Nothing is left. |
| Pairing.LiveMembers | core/src/auth/PairingTokens.cpp:56-62 | A token is left after expiry exactly when it was stored and its time lies ahead. |
| Pairing.RunIsSound | core/src/auth/PairingTokens.cpp:26-66 | After every run the store is within its cap, with nonzero and pairwise distinct tokens. |
| Pairing.AcceptedAtMostAsOftenAsIssued | core/src/auth/PairingTokens.cpp:26-66 | On every run a token is accepted at most as often as it was issued, with one to spare while it is stored. |
| Pairing.StoredWasIssued | core/src/auth/PairingTokens.cpp:26-40 | Every token in the store has there the expiry of its last successful issue. |
| Pairing.AcceptedOnlyBeforeExpiry | core/src/auth/PairingTokens.cpp:42-54 | A token is accepted only before the expiry of its last successful issue, not of an earlier one. |
| Pairing.StoredIff | core/src/auth/PairingTokens.cpp:26-66 | After every run a token is stored, with the expiry of its last issue, if and only if nothing has ended it since: no operation at or past its expiry, no acceptance, no clearing, no newer token for which it gave way. |
| Pairing.AcceptedIff | core/src/auth/PairingTokens.cpp:42-54 | On every run a token is accepted if and only if nothing has ended its last issue and its time lies ahead. |
| Pairing.AcceptedIffStored | core/src/auth/PairingTokens.cpp:42-54 | From every store a token is accepted exactly when it is stored with its time ahead. |
| Pairing.IssuedIff | core/src/auth/PairingTokens.cpp:26-40 | From every store, a full one included, a token is issued exactly when it is not zero, its time lies ahead and it is not stored live already; it then stands last. |
| Pairing.LiveOfParts | core/src/auth/PairingTokens.cpp:56-62 | Expiry keeps the order of what is left. |
| Pairing.OnlyTheSoonestMakesRoom | core/src/auth/PairingTokens.cpp:31-37 | A live token that an issue pushes out was in a full store and expires no later than any other; it is the only one to go. |
| PairingText.ParseUnixTime | core/src/net/RecordText.h:17-28 | The overflow check before each digit accepts exactly the texts of 1 to 19 digits whose number fits int64_t, and returns that number. |
| PairingText.ParseLine | core/src/auth/PairingTokens.cpp:77-87 | One line: blank, unusable, or a token and its time. |
| PairingText.ParsePairingTokens | core/src/auth/PairingTokens.cpp:68-94 | The loop over the lines, with pos, line ends and carriage returns, returns what reading line by line gives, or nothing at the first unusable line. |
| PairingText.SerializePairingTokens | core/src/auth/PairingTokens.cpp:96-105 | One line for each token, in order. |
| PairingText.RoundTripIff | core/src/auth/PairingTokens.cpp:68-105 | A sound store whose tokens are all live is read back exactly, order included, if and only if no token expires before 1970: the writer puts a sign in front of such a time and the reader refuses it. |
| PairingText.EarlyIssueIsNotRead | core/src/auth/PairingTokens.cpp:68-105 | One issue at a time before 1970 leaves such a store, and it is not read back. |
| PairingText.StoreIsReadBack | core/src/auth/PairingTokens.cpp:68-105 | At any time a sound store is read back as what is then live of it, in order: stale lines are passed over; a time before 1970 spoils the file. |
| PairingText.SerializedIs | core/src/auth/PairingTokens.cpp:96-105 | Each line is the token in base64url, a space, the time in decimal and a line feed. |
| PairingText.LineIsTaken | core/src/auth/PairingTokens.cpp:82-92 | A stale line is passed over, a zero or repeated token spoils the file, any other is added behind the rest. |
| PairingText.LinesAreTolerant | core/src/auth/PairingTokens.cpp:69-79 | A carriage return at the end of a line is dropped, an empty line is skipped, a line over 96 bytes and a file over 4096 are refused. |
| PairingText.EmptyFileIsReadIff | core/src/auth/PairingTokens.cpp:69-78 | A file of line feeds is an empty store up to exactly 4096 bytes. |
| PairingText.KnownTimes | core/src/net/RecordText.h:17-28 | Leading zeros are read, the largest int64_t is read, and one more, a sign or nothing is refused. |
| PairingText.ReachedRoundTrip | core/src/auth/PairingTokens.cpp:68-105 | So every store that any run of operations leaves is read back exactly at any time from 1970 on at which its tokens are live. |
| PairingText.AcceptedTextSettles | core/src/auth/PairingTokens.cpp:68-105 | Every accepted text, written out again and read again, gives the same store: it settles after one round. |
| Transcripts.Output.AppendField | core/src/auth/Transcript.cpp:14-21 | Appends the length in four bytes, highest first, and the field. |
| Transcripts.AuthTranscript | core/src/auth/Transcript.cpp:25-45 | Empty for an invalid claim, otherwise the five fields in order. |
| Transcripts.TranscriptIsRead | core/src/auth/Transcript.cpp:10-45 | A length-prefix reader gets five fields of a valid claim back, in this order: "Deskhub/auth/signature", version 8 with the role, session id, client key, host fingerprint. |
| ByteOrder.BytesOfNumbers | core/src/auth/Transcript.cpp:15-19 | Lengths stand highest byte first (and the numbers of an ICO file lowest byte first). |
| Transcripts.EmptyIffInvalid | core/src/auth/Transcript.cpp:28-32 | The result is empty exactly for an invalid role, an all-zero session id or fingerprint, or a key that is empty or too long. |
| Transcripts.TranscriptDeterminesClaim | core/src/auth/Transcript.cpp:25-45 | Equal non-empty transcripts have equal role, session id, client key and host fingerprint, whatever the length of the keys. |
| Transcripts.NoTranscriptStartsAnother | core/src/auth/Transcript.cpp:25-45 | No transcript is the beginning of another. |
| ServiceBroker.UnattendedSupervisor.StopUnattendedHostLocked | client/windows/service/ServiceBroker.cpp:329-340 | No process is left and the time of exit is now, whether or not one was running. |
| ServiceBroker.UnattendedSupervisor.SpawnUnattendedHostLocked | client/windows/service/ServiceBroker.cpp:347-365 | Nothing changes without a session or a job; a failed start counts as an exit; otherwise a host runs under what the files hold. |
| ServiceBroker.UnattendedSupervisor.SupervisePass | client/windows/service/ServiceBroker.cpp:378-391 | The locked section of the loop: reap, start if wanted and backed off, stop if not wanted. |
| ServiceBroker.UnattendedSupervisor.BeginTakeover | client/windows/service/ServiceBroker.cpp:427-431 | One hold more and no host. |
| ServiceBroker.UnattendedSupervisor.EndTakeover | client/windows/service/ServiceBroker.cpp:434-437 | One hold less. |
| ServiceBroker.UnattendedSupervisor.ApplyConfig | client/windows/service/ServiceBroker.cpp:460-487 | Off: the host is stopped and the files are removed, as far as that succeeds. On: the three writes in their order, up to the first that fails, and a stop with the backoff waived exactly when key or settings changed and all were written. |
| ServiceBroker.StepIsSafe | client/windows/service/ServiceBroker.cpp:329-575 | Every step of every thread keeps: a host only without holds and with access on, holds equal to the takeovers in progress, connections counted and within their limit. |
| ServiceBroker.RunIsSafe | client/windows/service/ServiceBroker.cpp:329-575 | So it is after every interleaving of the locked sections. |
| ServiceBroker.NoHostDuringTakeover | client/windows/service/ServiceBroker.cpp:426-440 | takeoverHolds is the number of takeovers in progress and at most the number of connections served, and a host exists only when it is 0, access is on and the supervisor is at work. |
| ServiceBroker.NoHostFromAckToEnd | client/windows/service/ServiceBroker.cpp:433-437 | From the acknowledgement of a takeover to its end no interleaving starts a host. |
| ServiceBroker.PassLeavesOnlyWantedHosts | client/windows/service/ServiceBroker.cpp:379-389 | From any state whatever a pass leaves only a live host that is wanted. |
| ServiceBroker.HostReturns | client/windows/service/ServiceBroker.cpp:386-388 | After the last takeover has ended and the backoff has gone by, one pass brings the host back. |
| ServiceBroker.ConfiguredHostComesUp | client/windows/service/ServiceBroker.cpp:460-487 | On every run a configuration that changes key or settings and is written in full is what the files hold, allowed list included, and what the next pass starts a host under, with no wait. |
| ServiceBroker.AllowedListIsUpdatedInPlace | client/windows/service/ServiceBroker.cpp:468-486 | A configuration that changes only who is allowed leaves the host and the wait alone. |
| ServiceBroker.FailedWriteStopsThere | client/windows/service/ServiceBroker.cpp:470-478 | A configuration that fails at a write has done the writes before it and nothing else. |
| ServiceBroker.SwitchedOffIsRemoved | client/windows/service/ServiceBroker.cpp:452-467 | One that switches access off stops the host, begins the wait and removes what can be removed. |
| ServiceBroker.TakeoverHoldsOff | client/windows/service/ServiceBroker.cpp:426-437 | A takeover takes the host away and begins the wait whether or not there was one; its end only lets go. |
| ServiceBroker.PassWithoutStart | client/windows/service/ServiceBroker.cpp:347-388 | A pass without a session, a job or the wait over changes nothing when there is no host; a failed start begins the wait again. |
| ServiceBroker.PassClearsAway | client/windows/service/ServiceBroker.cpp:380-389 | A pass leaves a live wanted host as it is, and clears away a dead or unwanted one with the time it did so. |
| ServiceBroker.SixteenAreServed | client/windows/service/ServiceBroker.cpp:563-575 | On every run another connection is served exactly while fewer than sixteen are. |
| ServiceBroker.HostRunsUnderCurrentSetup | client/windows/service/ServiceBroker.cpp:468-482 | On every run whose writes succeed a running host was started under the key and the settings now in force. |
| ServiceBroker.HostStaysCurrentIff | client/windows/service/ServiceBroker.cpp:460-487 | On every run a host is under the key and settings in force after every step if and only if each configuration that switches access on is written in full, fails at the key, finds that key in force, or meets no host. |
| ServiceBroker.StartsKeepTheBackoff | client/windows/service/ServiceBroker.cpp:386-388 | On every run whose clock does not go back a host is started no sooner than kRespawnBackoffMs after every earlier exit or failed start, each at the time it happened, unless a configuration waived the wait in between. |
| ServiceBroker.ConfigurationKeepsSetupIff | client/windows/service/ServiceBroker.cpp:460-487 | From every state: after a configuration written in full a running host is under the key and settings in force if and only if it was stopped because the files differed, or was under them before; after one that failed part-way, if and only if it is under the old settings and the key the files then hold. From a state in order, only a changed key written before a later write fails does harm. |
| ServiceBroker.FailedWriteLeavesOldHost | client/windows/service/ServiceBroker.cpp:468-482 | When the write behind a changed key fails, the old host goes on under a key no longer in force, and the same configuration sent again and written in full restarts nothing, since the files hold the new key already. |
| ServiceBroker.RetryLeavesOldHost | client/windows/service/ServiceBroker.cpp:460-487 | A run of the service that ends so, from its start. |
| HostSupervision.HostSupervisor.ReapLocked | client/linux/daemon/HostSupervisor.cpp:113-121 | A child that has ended is waited for and its end is stamped. |
| HostSupervision.HostSupervisor.HandOverLocked | client/linux/daemon/HostSupervisor.cpp:123-134 | The child is killed, waited for and stamped. |
| HostSupervision.HostSupervisor.StopChildLocked | client/linux/daemon/HostSupervisor.cpp:136-149 | The child is asked, killed exactly if it is not gone in time, waited for either way and stamped. |
| HostSupervision.HostSupervisor.SpawnLocked | client/linux/daemon/HostSupervisor.cpp:92-111 | A failed start counts as an exit; otherwise the child runs with the files as read just after. |
| HostSupervision.HostSupervisor.StepLocked | client/linux/daemon/HostSupervisor.cpp:77-84 | One pass: reap, stop when off, hand over when the files changed, start when due. |
| HostSupervision.HostSupervisor.SetHeld | client/linux/daemon/HostSupervisor.cpp:60-65 | Held: the child is handed over at once. |
| HostSupervision.HostSupervisor.Shutdown | client/linux/daemon/HostSupervisor.cpp:72-75 | The child is stopped. |
| HostSupervision.RunIsSafe | client/linux/daemon/HostSupervisor.cpp:60-149 | After every interleaving of passes, takeovers, exits and shutdown: at most one child, it alone unreaped, none while held, and held exactly while a takeover is in progress. |
| HostSupervision.OneChildAndNoneWhileHeld | client/linux/daemon/HostSupervisor.cpp:60-65 | While any takeover is in progress there is no child and no unreaped process, and never a second one. |
| HostSupervision.RunBacksOff | client/linux/daemon/HostSupervisor.cpp:86-90 | On every run, without a child, lastExitUs_ is no earlier than any exit in the history, whose times are those of the events: a child ending by itself, being found ended, taken away or failing to start. |
| HostSupervision.SpawnsKeepTheBackoff | client/linux/daemon/HostSupervisor.cpp:86-121 | On every run any start comes at least the backoff after every earlier exit or failed start, each at the time it happened. |
| HostSupervision.PassLeavesCurrentChild | client/linux/daemon/HostSupervisor.cpp:77-84 | A pass leaves a child only with access on, and only one for which the supervisor noted, just after starting it, the files that the pass reads. |
| HostSupervision.RunIsStamped | client/linux/daemon/HostSupervisor.cpp:92-149 | On every run lastExitUs_ is the last time the supervisor found a child gone, took one away or failed to start one. |
| HostSupervision.ChildIsStartedIff | client/linux/daemon/HostSupervisor.cpp:77-111 | On every run, with no takeover and no child, a pass starts one if and only if access is on, there is a display, two seconds have gone by since that time and the system can; it is then the one child, with the files as read behind the start. |
| HostSupervision.ChildIsLeftAloneIff | client/linux/daemon/HostSupervisor.cpp:77-84 | On every run a pass leaves a child as it is if it runs, access is on and the files are as noted; otherwise that child is gone after the pass. |
| HostSupervision.NoStartWhileHeld | client/linux/daemon/HostSupervisor.cpp:86-90 | While a takeover is in progress a pass changes nothing. |
| HostSupervision.ShutdownTakesTheChild | client/linux/daemon/HostSupervisor.cpp:72-75 | After a shutdown there is no child and none unreaped. |
| Png.PaethIsNearest | scripts/make-icons.py:69-79 | The Paeth choice is nearest to the estimate, and in a tie the first of left, up and upper left (section 9.4 of the W3C PNG specification). |
| Png.FilteringIsUndone | scripts/make-icons.py:59-80 | Reconstruction inverts filtering for every filter type, line and channel count. |
| Png.ReconstructionIsUndone | scripts/make-icons.py:59-80 | And filtering inverts reconstruction. |
| Png.ReconstructedByte | scripts/make-icons.py:60-80 | What each filter type adds to a byte: the one a pixel back, the one above, their mean rounded down, the Paeth choice, or nothing, modulo 256. |
| Png.LineCutShort | scripts/make-icons.py:55-80 | A last line cut short is out of range under a filter, and kept short without one if it lacks no more than a pixel. |
| Png.ReconstructLine | scripts/make-icons.py:57-80 | The loop that overwrites the line in place, left to right, leaves the reconstructed line, and goes out of range exactly where the line is cut short and looked at. |
| Png.ReadLine | scripts/make-icons.py:55-80 | One filter byte and one line of the data, shorter at its end. |
| Png.ReadLines | scripts/make-icons.py:51-82 | The loop over the lines, each handed on as the one above the next. |
| Png.RowsAreRead | scripts/make-icons.py:51-82 | Rows of one length, each behind any filter type, are read back exactly, whatever follows them. |
| PngFile.ReadPngFile | scripts/make-icons.py:27-83 | Signature, chunk walk, header and lines, with every way to fail. |
| PngFile.ChunksAreWalked | scripts/make-icons.py:35-43 | The walk meets the written chunks one by one, whatever their tags, lengths and checksums. |
| PngFile.ImageIsRead | scripts/make-icons.py:27-83 | Any sequence of chunks that has an 8-bit RGB or RGBA header and data chunks holding the filtered rows together, split anywhere, is read as those rows. |
| PngFile.WrittenImageIsRead | scripts/make-icons.py:85-101 | What write_png writes, read_png reads back, given that decompression undoes compression. |
| PngFile.WrittenFileIs | scripts/make-icons.py:85-101 | The written file byte for byte: signature, three chunks, and behind each the checksum of its name and payload. |
| PngFile.GatheredIs | scripts/make-icons.py:32-43 | From any chunks the reader takes all data in order and the last header, and fails at a header shorter than ten bytes. |
| PngFile.FailuresAreTold | scripts/make-icons.py:29-56 | Another signature, another depth or colour type, data that does not unpack and data that ends early each fail in their own way. |
| Ico.WriteIco | scripts/make-icons.py:145-156 | The loop with its running offset writes the header, the directory and the images, or fails where a number does not fit its field. |
| Ico.EntryFindsItsImage | scripts/make-icons.py:145-156 | The header says icon and the number of frames; each entry has its size, one plane and 32 bits, and its length and offset cut exactly its image out of the file; the images follow one another without a gap to the end. |
| Resampling.BoxIsInside | scripts/make-icons.py:122-128 | Every box is non-empty and inside the source, whatever the size. |
| Resampling.BoxesJoin | scripts/make-icons.py:123-128 | For sizes up to the source's the boxes join end to end from one edge to the other. |
| Resampling.BoxesPartition | scripts/make-icons.py:123-128 | So every source position lies in exactly one box. |
| Resampling.EverySampleCountsOnce | scripts/make-icons.py:122-137 | The sums over all boxes add up to the sum over the whole picture: every sample counts once. |
| Resampling.MeanIsWithin | scripts/make-icons.py:138-141 | A pixel lies between the darkest and the brightest sample of its box. |
| Resampling.MeanIsTheQuotient | scripts/make-icons.py:129-141 | A mean is the sum over its box divided by the number of its pixels, rounded down. |
| Resampling.SumsAreOfSamples | scripts/make-icons.py:133-136 | What is summed is the byte of the channel in its pixel. |
| Resampling.BoxesBeginAt | scripts/make-icons.py:123-128 | Where each box begins and ends. |
| Resampling.LineIs | scripts/make-icons.py:139-141 | Red, green and blue in this order, and the alpha behind them. |
| Resampling.SumBox | scripts/make-icons.py:129-137 | The inner loops give the three sums over the box and the number of its pixels. |
| Resampling.Resample | scripts/make-icons.py:119-143 | Every pixel of the result is the mean of its box with the given alpha. |
| PointerCompositing.PointerCompositor.UpdatePosition | client/windows/service/PointerCompositor.cpp:45-48 | Visibility and position are replaced, the shape is not. |
| PointerCompositing.PointerCompositor.UpdateShape | client/windows/service/PointerCompositor.cpp:50-54 | The shape and its description are replaced, the position is not. |
| PointerCompositing.PointerCompositor.DrawOnto | client/windows/service/PointerCompositor.cpp:56-66 | Drawing happens exactly when the pointer is visible, its shape is complete and known and the buffer is large enough; otherwise no byte changes. |
| PointerCompositing.PointerCompositor.ForEachCovered | client/windows/service/PointerCompositor.cpp:29-41 | For any position, negative and off-screen ones included, each covered pixel inside the frame is combined exactly once and every other byte of the buffer stays; all accesses are in bounds. |
| PointerCompositing.PointerCompositor.PutPixel | client/windows/service/PointerCompositor.cpp:68-106 | One pixel is replaced by its combination with the shape, the rest of the buffer stays. |
| PointerCompositing.PointerCompositor.BlendPixel | client/windows/service/PointerCompositor.cpp:72-76 | Three channels are blended in place and the fourth becomes opaque. |
| PointerCompositing.PointerCompositor.StorePixel | client/windows/service/PointerCompositor.cpp:14-19 | A word is stored lowest byte first. |
| PointerCompositing.BlendIsNearest | client/windows/service/PointerCompositor.cpp:21-23 | Blending rounds to the nearest byte and stays between its two inputs. |
| PointerCompositing.MaskedColorByChannel | client/windows/service/PointerCompositor.cpp:80-91 | Masked colour per channel: XOR where the mask byte is set, the shape's colour where not, opaque either way. |
| PointerCompositing.MonochromeByChannel | client/windows/service/PointerCompositor.cpp:93-106 | Monochrome per channel: screen, black, white or inverted screen, opaque each time. |
| PointerCompositing.PixelIsDrawn | client/windows/service/PointerCompositor.cpp:29-41 | The pixel at each place of the frame is combined with the shape where the pointer lies, with its own place in the shape, and unchanged elsewhere. |
| PointerCompositing.ColorIsBlended | client/windows/service/PointerCompositor.cpp:68-78 | Each channel of the frame is blended with that of the shape by the alpha of the shape, to the nearest, and the fourth byte is 255. |
| PointerCompositing.MaskedColorIs | client/windows/service/PointerCompositor.cpp:80-91 | The bytes a masked-colour pixel becomes, from the four bytes of the shape. |
| PointerCompositing.MonochromeIs | client/windows/service/PointerCompositor.cpp:93-106 | The mask bit in the upper half keeps the screen or makes it black, the one in the lower half turns every channel over. |
| PointerCompositing.MaskBitsHighestFirst | client/windows/service/PointerCompositor.cpp:25-27 | The bits of a mask byte, the highest first. |
| PointerCompositing.PointerCompositor.DrawsIff | client/windows/service/PointerCompositor.cpp:56-71 | When anything is drawn at all. |
| PointerCompositing.CoveredIsOpaque | client/windows/service/PointerCompositor.cpp:68-106 | Whatever the kind, a pixel under the pointer becomes opaque. |
| PointerCompositing.ShapeIsInside | client/windows/service/PointerCompositor.cpp:68-106 | With rows wide enough every read of the shape, both masks included, is inside it. |
| PointerCompositing.DrawingTwiceRestoresIff | client/windows/service/PointerCompositor.cpp:80-91 | Drawing a masked-colour pointer twice gives a pixel its colour back if and only if the pointer does not cover it, its mask byte is set there, or the shape has that very colour. |

## Left out

- FrameGates.RateBound: timestamps lie below 2^63, so that sums in a run do not wrap; a single `Admit` is modelled with wrap-around. The same holds for the other results over runs of the gate.
- VideoPacing.HoldIsBounded: the local time plus the lead lies below 2^63; the original overflows a signed number there, which C++ leaves undefined.
- HostSupervision.PassLeavesCurrentChild: what the child itself reads is not modelled; a configuration written between its reading and the supervisor's leaves it under older files.
- BitrateControl.QuietRestoresTheTopIff: the runs of these theorems commit every decision; the step in which the encoder refuses a bitrate is in `Follow` alone. The ladder update that follows in the same function is modelled by itself.
- ServiceBroker.UnattendedSupervisor.StopUnattendedHostLocked: a killed process is gone; the warning when it does not exit within five seconds is not modelled.
- PngFile.WrittenImageIsRead: compression and checksum are functions handed in; that decompression undoes compression is assumed of them as a precondition.
- Resampling.Resample: the coverage of a pixel by the rounded square (floating point) is handed in as its alpha.
- Base64.EncodeBase64: the URL alphabet without padding only, which is what the token file uses.
- Base64.DecodeBase64: the URL alphabet only; padding is read.
- Signed 64-bit overflow of differences between two clocks, undefined in C++, and the overflow of the count of clean reports after 2^31 of them.
- Fractions, exponents and null in the JSON reader: the writer never produces them.
- Memory ordering of the two atomics in the frame gate; the counter of active connections is part of the runs, not a class.
- Timing: that the comparison of tokens takes constant time.
- Files of the unattended host changed by anyone but the supervisor; access requests and the other files removed with them.
- Frames whose byte count exceeds 64 bits, in the pointer compositor.
- Capture, encoders, transport, sessions, user interfaces and tools: foreign calls and plumbing around the parts modelled here.
- RatePlan, AuthDeadlines and LinkStats: a branch or a sum each, with nothing to prove beyond what their bodies say.
