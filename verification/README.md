# Histogram, recorder and JSON models

This project models four parts of the repository in Dafny and proves what they promise:

* the **HDR histogram** (`hdr/src/hdr_histogram.c`): the bucket layout, recording, merging, queries and iterators;
* the **writer/reader phaser and interval recorder** (`hdr/src/hdr_writer_reader_phaser.c`, `hdr/src/hdr_interval_recorder.c`);
* the **histogram wire format** (`hdr/src/hdr_histogram_log.c`, `hdr/src/hdr_encoding.c`);
* the **parson JSON library** (`parson/parson.c`).

`dafny verify dfyconfig.toml` checks all of it.

## How the models are built

**Histogram.** `Bits`, `Buckets` and `BucketConfig` hold the index arithmetic as functions and the configuration
as methods. `Histograms.Histogram` is the C struct as a class with a `counts` array; a ghost multiset `recorded`
holds the values recorded so far, and `Valid()` says that the counts, the total and the two extremes describe it
(`Descriptions.Describes`). `Exact()` says more of the extremes, which holds until they are rebuilt from the counts;
`Shaped()` says only that counts and layout fit. Every operation is proved against that multiset.
`Iterators.Iter` is the iterator struct; the linear and the logarithmic iterator share one method, which differs only
in how the next level is found. `Queries` and `Merging` use the class.

**Phaser.** `Phaser` is a transition system with one step for each atomic access, any number of writers and any
number of samplers contending for the reader mutex. `PhaserResults` proves results about every run.

**Wire format.** `Varint` and `Base64` pair the byte codecs with decoding functions; `WireFormat` has the loops
over the counts, `HistogramCodec` the header, the decoder and the end-to-end result. `WireMeaning` and `Base64Meaning`
say in plain numbers what the bytes are.

**JSON.** Documents are values (`JsonValues`). `JsonPrinter` holds the text of a document as a function, and the
serializer as methods that write it into a buffer or, without one, only measure it. `JsonParser` holds the
parser as functions of the text and a position, `JsonReader` as methods that move a pointer and fill tables
(`JsonTables`), each proved to yield what the function yields. `JsonStrings` and `JsonStringDecoder` are the
string escapes and the decoder, `Utf8` the encoding of code points. `JsonRoundTrip` relates parser and serializer,
`JsonTransfer` the methods that run them; `JsonGrammar` has the syntax trees of RFC 4627, section 2
(escapes of lone surrogates, which denote no code point, aside), in terms of its own, and what the parser accepts,
`JsonSyntax` the converse, `JsonLayout` which of these texts is written, and `JsonEquality` comparing and copying.

## Where the code does not do what its documentation says

* `hdr_min` marks "nothing recorded" by `INT64_MAX`. If `INT64_MAX` is the only value recorded, the mark and the
  value are the same, and `hdr_min` answers `INT64_MAX` instead of the bottom of its bucket: it is right exactly when
  the smallest recorded value is not `INT64_MAX` (`Queries.MinOfRecorded`; `Queries.LargestIsHidden` records it).
  A decoded histogram has lost the mark and answers differently (`HistogramCodec.SameCountsSameAnswers`).
* `hdr_max` answers 0, not the top of bucket 0, when only zeros were recorded and a bucket is wider than one unit:
  it is right exactly when the largest recorded value is nonzero or a bucket is one unit wide
  (`Queries.MaxOfRecorded`; `Queries.ZerosAreHidden` does it in every such layout).
* Recording a value with a count of 0 is accepted and records nothing, but it moves the extremes
  (`Queries.NoCopiesMoveExtremes`).
* `hdr_value_at_percentile` computes the rank in doubles. With fewer than 2^52 recorded values the rank is always
  one of theirs (`Queries.RankInRange`), and with up to 2^51 at most one off (`Queries.RankIsNear`). From 2^52 up to
  2^53 the rank of percentile 100 lies past the last value exactly for odd totals (`Queries.RankOfAll`), and then the
  answer is 0 (`Queries.LastValueIsMissed`).
* `hdr_add` iterates on a 32-bit snapshot of the total count (`hdr/src/hdr_histogram.h:296`), so it conserves
  counts exactly under the condition of `Merging.AddConservesIff`. With a total of 2^31 nothing is added and nothing
  is reported as dropped (`Merging.SnapshotLosesAll`).
* `hdr_interval_recorder_sample` reads its result after unlocking (`hdr/src/hdr_interval_recorder.c:52`). With one
  sampler thread the histogram returned is unheld; with two it may not be, and `PhaserResults.TwoSamplersRace` is a
  run that shows it. The read is bad at most while another sample is between its stores and the end of its flip, and
  yields the active histogram exactly between the two stores (`PhaserResults.LateReadIsUnheld`). At each of those
  points some run makes it bad (`PhaserResults.LateReadHeldIff`).
* The JSON serializer writes control characters without a short escape as they are, and the parser refuses them:
  `JsonRoundTrip.RawControlIsLost`. So printing and parsing is the identity exactly for the documents
  `JsonRoundTrip.DocumentReadBack` names.
* The JSON parser does not look at the character where a member name has its opening quote
  (`parson/parson.c:545-553`), takes vertical tabs and form feeds for white space and any byte from 0x20 on into a
  string, and ignores text behind the document. Apart from that it accepts nothing but JSON
  (`JsonSyntax.AcceptedIffLayout`). A lone minus sign is a 0 that is not consumed, so no document is accepted with it.
* An object that has been parsed has its table trimmed to its size, so it can be full below the documented
  maximum of 960 members. The first new name is taken exactly up to 480 members (`JsonTables.AddToTrimmed`;
  `JsonTables.TrimmedTableRefuses` has 481). A table trimmed at n members and then only added to holds up to the
  largest n * 2^k that is not above 960, or 960 when n is less than 8 (`JsonTables.AddAllToTrimmed`).
* A negative count is encoded as it is and decoded as a run of zeros: counts come back exactly unless some are
  negative (`WireFormat.CountsReadBack`).

## Model

| member | source | states |
|---|---|---|
| Buckets.BucketsTile | hdr/src/hdr_histogram.c:96-149 | A value has index i exactly when it lies between the starts of buckets i and i + 1. |
| Buckets.IndexInvertsStart | hdr/src/hdr_histogram.c:129-149 | Index and value functions are inverse on bucket starts; a bucket start is its own lowest equivalent and the next bucket touches it. |
| Buckets.IndexMonotone | hdr/src/hdr_histogram.c:129-135 | A larger value never has a smaller index. |
| Buckets.EquivalentIffSameIndex | hdr/src/hdr_histogram.c:151-174 | Two values are equivalent exactly when they share an index; the ranges of different buckets are ordered and disjoint. |
| Buckets.EquivalentRange | hdr/src/hdr_histogram.c:151-189 | The values equivalent to one are those from its lowest to its highest equivalent, and the median is in the middle. |
| Buckets.AcceptedIffBelowLimit | hdr/src/hdr_histogram.c:382-400 | A value has a slot exactly when it is below sub_bucket_count * 2^(unit_magnitude + bucket_count - 1). |
| Buckets.StartOfRange | hdr/src/hdr_histogram.c:137-149 | The first bucket starts at 0 and is one unit wide; the last ends at the limit. |
| BucketConfig.CalculateBucketConfig | hdr/src/hdr_histogram.c:260-295 | Accepts exactly the documented arguments and computes the least layout that covers the highest value at the precision asked for. |
| BucketConfig.BucketsNeededToCover | hdr/src/hdr_histogram.c:235-258 | The least number of buckets whose range exceeds the value. |
| BucketConfig.ConfigIsUnique | hdr/src/hdr_histogram.c:260-295 | The three arguments determine the whole layout. |
| BucketConfig.LimitFits | hdr/src/hdr_histogram.c:235-258 | Every value up to the highest trackable one has a slot, and every value with a slot fits 64 bits. |
| BucketConfig.PrecisionBound | hdr/src/hdr_histogram.c:151-164 | A bucket is one unit wide or at most v / 10^figures wide for each v in it; the adjustment for an oversized sub-bucket index is never taken. |
| Histograms.Histogram.constructor | hdr/src/hdr_histogram.c:297-346 | A new histogram describes the empty multiset, with both extremes at their marks. |
| Histograms.Histogram.Reset | hdr/src/hdr_histogram.c:354-361 | After a reset it describes the empty multiset again. |
| Histograms.Histogram.RecordValues | hdr/src/hdr_histogram.c:382-400 | Accepts exactly the values with a slot. With any count, that slot and the total grow by it and the value goes into the extremes; with a count of at least 1, so many copies join the recorded multiset, which stays described. A refusal changes nothing. |
| Histograms.Histogram.RecordCorrectedValues | hdr/src/hdr_histogram.c:408-430 | With any count: accepts exactly the values with a slot, adds the value and each value - j * interval that is at least interval; the total grows by count * max(1, value / interval). |
| Histograms.Histogram.RecordMissing | hdr/src/hdr_histogram.c:422-427 | No backfill record can fail once the value itself was accepted. |
| Histograms.Histogram.ResetInternalCounters | hdr/src/hdr_histogram.c:191-233 | From any counts, those below zero passed over, rebuilds a total and extremes that describe each slot's count at the start of its bucket. |
| Histograms.Histogram.ObserveCounts | hdr/src/hdr_histogram.c:191-213 | The loop over the counts finds the sum of those above zero, the last such slot and the first one behind slot 0. |
| Descriptions.RecordKeepsDescription | hdr/src/hdr_histogram.c:60-80 | One recording keeps counts, total and both extremes in step with the multiset. |
| Descriptions.RecordKeepsExact | hdr/src/hdr_histogram.c:76-80 | After any recordings the extremes are the largest and the smallest nonzero recorded value themselves. |
| Descriptions.RebuiltDescribed | hdr/src/hdr_histogram.c:191-233 | The fields rebuilt from the first and last nonzero slots describe the representatives of the counts. |
| Descriptions.StepsDone | hdr/src/hdr_histogram.c:408-430 | When backfilling stops, all backfilled values were recorded, and their number is value / interval. |
| Queries.MaxIsTopOfLargest | hdr/src/hdr_histogram.c:484-492 | hdr_max is the highest equivalent of the largest recorded value exactly when that is not hidden behind max_value 0. |
| Queries.MinIsBottomOfSmallest | hdr/src/hdr_histogram.c:494-502 | hdr_min is the lowest equivalent of the smallest recorded value exactly unless INT64_MAX stands for itself. |
| Queries.MaxOfRecorded | hdr/src/hdr_histogram.c:484-492 | After recordings alone, hdr_max is right exactly when the largest recorded value is nonzero or a bucket is one unit wide. |
| Queries.MinOfRecorded | hdr/src/hdr_histogram.c:494-502 | After recordings alone, hdr_min is right exactly when the smallest recorded value is not INT64_MAX. |
| Queries.MarksMean | hdr/src/hdr_histogram.c:484-502 | max_value is 0 exactly when nothing but zeros was recorded, hdr_min is INT64_MAX exactly when nothing but INT64_MAX was. |
| Queries.LargestIsHidden | hdr/src/hdr_histogram.c:494-502 | A histogram given INT64_MAX alone, whose hdr_min is not the bottom of its bucket. |
| Queries.ZerosAreHidden | hdr/src/hdr_histogram.c:484-492 | In every layout with wide buckets, a histogram given 0 alone, whose hdr_max is not the top of its bucket. |
| Queries.NoCopiesMoveExtremes | hdr/src/hdr_histogram.c:382-400 | Recording no copies of 1 leaves a histogram whose extremes describe nothing that was recorded. |
| Queries.ValueAtPercentile | hdr/src/hdr_histogram.c:504-527 | The highest equivalent of the k-th smallest recorded value, or 0 when k exceeds the total, for a k that is p * total / 100 + 1/2 cut to an integer and at least 1, give or take (3 * total + 2) / 2^53: at most one off up to 2^51 values, 1 below percentile 0, and from 100 on the total, or one more for odd totals from 2^52 on. |
| Queries.ValueAtRank | hdr/src/hdr_histogram.c:513-526 | For any rank, the highest equivalent of the recorded value of that rank, or 0 when there are fewer values. |
| Queries.RankInRange | hdr/src/hdr_histogram.c:509-512 | With fewer than 2^52 values, the rounded rank of any percentile is one of theirs, and that of 100 the last. |
| Queries.RankOfAll | hdr/src/hdr_histogram.c:509-512 | Below 2^53, the rounded rank of percentile 100 exceeds the total exactly for odd totals from 2^52 on. |
| Queries.RankIsNear | hdr/src/hdr_histogram.c:509-512 | For every percentile p and total, the rank computed in rounded arithmetic is p * total / 100 + 1/2 cut to an integer, give or take (3 * total + 2) / 2^53, and at most one off up to 2^51 values. |
| Queries.RankBelowZero | hdr/src/hdr_histogram.c:509-512 | A negative percentile asks for the first value. |
| Queries.LastValueIsMissed | hdr/src/hdr_histogram.c:504-527 | A histogram of 2^52 + 1 values that answers percentile 100 with 0. |
| Queries.PercentileMonotone | hdr/src/hdr_histogram.c:504-527 | A higher percentile never gives a lower answer, however the rank is rounded. |
| Iterators.Iter.MoveNext | hdr/src/hdr_histogram.c:607-625 | The iterator always stands on its slot, with the cumulative count the sum of the slots passed. |
| Iterators.Iter.RecordedNext | hdr/src/hdr_histogram.c:796-810 | Steps to the next nonempty slot, over zeros only, exactly while the snapshot promises more; it reports the value of that slot and adds its count. |
| Iterators.Iter.LevelNext | hdr/src/hdr_histogram.c:830-865 | A step of the linear or logarithmic iterator reports the level that was due, at the first slot that reaches it, and makes the next level that plus the units, or times the base; the count added is what the cumulative count grew by, and (slots left, levels left) falls. |
| Iterators.Iter.LinearLevels | hdr/src/hdr_histogram.c:874-884 | A linear iteration starts before the first slot, with the units as first level. |
| Iterators.Iter.LogLevels | hdr/src/hdr_histogram.c:922-935 | A logarithmic one starts with the level given. |
| Iterators.Iter.PassSlots | hdr/src/hdr_histogram.c:887-920 | The inner loop stops at the first slot that starts at or above the level, or at the end. |
| Iterators.DrainLevels | hdr/src/hdr_histogram.c:830-935 | Every level iteration ends; its k-th step counts the slots behind the one of level first + (k - 1) * units, up to and with that of first + k * units, or the same for first * base^k; for totals below 2^31 the steps add up to the total. |
| Iterators.LevelCounted | hdr/src/hdr_histogram.c:830-865 | One step keeps that account: it counts the slots between the last stop and the slot of its level. |
| Queries.SlotsHoldValues | hdr/src/hdr_histogram.c:830-865 | The slots between two stops hold just the recorded values between their starts. |
| Merging.Add | hdr/src/hdr_histogram.c:432-450 | New total plus dropped is the old total plus the counts visited; the values below the target's limit arrive, the others are dropped. |
| Merging.AddWhileCorrecting | hdr/src/hdr_histogram.c:452-471 | Each visited value the target accepts is added with its backfill, the total grows by count times copies for each, and exactly the counts of rejected values are dropped. |
| Merging.AddToItself | hdr/src/hdr_histogram.c:432-450 | Added to itself, a histogram has the visited slots doubled and drops nothing. |
| Merging.AddToItselfWhileCorrecting | hdr/src/hdr_histogram.c:452-471 | The corrected addition of a histogram to itself adds what the counts before it ask for. |
| Merging.AddConservesIff | hdr/src/hdr_histogram.c:432-450 | Everything is visited exactly when the 32-bit snapshot exceeds what precedes the last nonempty slot, in particular below 2^31. |
| Merging.SnapshotLosesAll | hdr/src/hdr_histogram.c:432-450 | 2^31 recordings of which an addition takes over none and reports none as dropped. |
| Merging.SameLayoutSums | hdr/src/hdr_histogram.c:432-450 | With equal layouts nothing is dropped and the slots are summed pointwise. |
| Merging.VisitsAllIff | hdr/src/hdr_histogram.c:796-810 | When a recorded iteration covers all counts. |
| Phaser.InvHolds | hdr/src/hdr_writer_reader_phaser.c:64-135 | In every run, each phase's counters differ by the number of writers inside it, the end epoch cleared at a flip has none left, and writers hold only the histograms they may. |
| Phaser.StepKeepsInv | hdr/src/hdr_writer_reader_phaser.c:64-135 | Every atomic step of every thread keeps that invariant. |
| PhaserResults.EntriesSinceFlip | hdr/src/hdr_writer_reader_phaser.c:64-135 | From one flip to the next the start epoch counts the entries, from 0 in even phases and from -2^63 in odd ones, and flips alternate between the two. |
| PhaserResults.NobodyHoldsAtUnlock | hdr/src/hdr_interval_recorder.c:34-53 | When the flip is over, no writer holds the inactive histogram. |
| PhaserResults.HandedOutStaysUnheld | hdr/src/hdr_interval_recorder.c:20-53 | In every interleaving nobody can hold it until a later sample makes it active. |
| PhaserResults.ReturnedIsUnheld | hdr/src/hdr_interval_recorder.c:34-53 | With one sampler thread the histogram returned after the unlock is unheld. |
| PhaserResults.ReturnedIsOwnIff | hdr/src/hdr_interval_recorder.c:52 | The late read gives the sampler's own histogram exactly when an even number of swaps came between. |
| PhaserResults.LateReadIsUnheld | hdr/src/hdr_interval_recorder.c:48-53 | With any number of samplers, the late read yields the active histogram exactly while another sample is between its two stores, and an unheld one unless a flip is under way. |
| PhaserResults.LateReadHeldIff | hdr/src/hdr_interval_recorder.c:34-53 | Some run ends in a late read of a held histogram exactly when another sampler stands at one of the five points from its first store to the end of its wait. |
| PhaserResults.TwoSamplersRace | hdr/src/hdr_interval_recorder.c:48-53 | A run of two samplers in which the histogram returned is active and held by a writer. |
| PhaserResults.GapCounts | hdr/src/hdr_writer_reader_phaser.c:87-135 | While a flip waits, the gap is the number of writers left in the old phase, and the wait ends exactly at gap 0. |
| PhaserResults.GapFalls | hdr/src/hdr_writer_reader_phaser.c:87-135 | The gap never grows and drops by one for each exit from the old phase, whatever new writers do. |
| PhaserResults.WaitIsBounded | hdr/src/hdr_writer_reader_phaser.c:87-135 | The steps of leaving writers that a flip waits for are bounded by the work they had left when it started, however many writers enter. |
| PhaserResults.NoUpdateLost | hdr/src/hdr_interval_recorder.c:20-53 | If the inactive histogram is reset before each sample, the updates performed are those handed out plus those in the histograms still in use: none lost, none twice. |
| Varint.ZigZagInverts | hdr/src/hdr_encoding.c:12-16 | Zig-zag maps signed to unsigned 64-bit values one to one. |
| Varint.EncodingReadBack | hdr/src/hdr_encoding.c:12-154 | A value decodes from wherever its 1 to 9 bytes stand, and just those bytes are read, whatever is behind them. |
| Varint.StreamReadBack | hdr/src/hdr_encoding.c:12-154 | A stream of values of any length decodes to the same values and ends right behind them. |
| Varint.ZigZagEncode | hdr/src/hdr_encoding.c:12-94 | The nested branches write exactly the encoding, and no other byte of the buffer. |
| Varint.ZigZagDecode | hdr/src/hdr_encoding.c:96-154 | The nested branches compute the decoding function's value and length, on every buffer that holds the bytes read. |
| WireMeaning.EncodingMeans | hdr/src/hdr_encoding.c:12-94 | A number is written in the fewest groups of seven bits, lowest first, that hold twice it, or one less than twice its absolute value if it is negative; the ninth group has eight bits. |
| WireMeaning.DecodingMeans | hdr/src/hdr_encoding.c:96-154 | On any bytes, groups are read up to the first below 128 or the ninth; half their sum is the number, or minus half of one more for an odd sum. |
| Base64.DecodedEncoded | hdr/src/hdr_encoding.c:211-313 | Decoding encoded bytes gives them back, followed by zeros up to a multiple of three. |
| Base64.Encode | hdr/src/hdr_encoding.c:256-279 | Writes the encoding into a buffer of the right size, or refuses. |
| Base64.Decode | hdr/src/hdr_encoding.c:295-313 | Writes the decoding into a buffer of the right size, or refuses. |
| Base64Meaning.AlphabetIs | hdr/src/hdr_encoding.c:156-169 | The alphabet is A to Z, a to z, 0 to 9, plus and slash. |
| Base64Meaning.BitsOfCharacter | hdr/src/hdr_encoding.c:171-199 | A character has its place in the alphabet as its bits, the padding 0, any other one 22. |
| Base64Meaning.EncodedAt | hdr/src/hdr_encoding.c:211-254 | Three bytes are written as four characters of six bits each, with equals signs for bytes missing at the end. |
| Base64Meaning.DecodedAt | hdr/src/hdr_encoding.c:281-293 | The bits of four characters are put together to three bytes. |
| WireFormat.EncodeCounts | hdr/src/hdr_histogram_log.c:226-258 | The counts loop writes the run-length encoding of any 64-bit counts, within nine bytes a slot. |
| WireFormat.EncodedFits | hdr/src/hdr_histogram_log.c:229-231 | Nine bytes a slot are enough for any counts. |
| WireFormat.ApplyToCounts | hdr/src/hdr_histogram_log.c:337-375 | The decoding loop yields the counts and the error code of the decoding function, on any payload. |
| WireFormat.EncodedApplied | hdr/src/hdr_histogram_log.c:226-375 | Encoded counts met anywhere in a payload are taken over one by one, and reading goes on right behind them. |
| WireFormat.CountsReadBack | hdr/src/hdr_histogram_log.c:226-375 | Decoding encoded counts into a fresh array gives them back followed by zeros, without error, exactly when none is negative. |
| WireMeaning.EncodedIsRunLength | hdr/src/hdr_histogram_log.c:226-258 | The encoding of counts is that of their list in which every run of zeros is one number, minus its length. |
| WireMeaning.AppliedMeans | hdr/src/hdr_histogram_log.c:337-375 | On any payload, numbers are taken while there is payload and a slot to fill; a run that does not fit gives -29992, a number that crosses the end -29991, payload left over -29990. |
| HistogramCodec.NothingAboveMax | hdr/src/hdr_histogram_log.c:226-227 | No slot above the one of the largest value holds a count, so cutting there loses nothing. |
| HistogramCodec.Encode | hdr/src/hdr_histogram_log.c:217-274 | For any counts and conversion ratio, the bytes handed to the compressor: 1c 84 93 13, payload length, zeros, figures, lowest, highest and ratio at their places, most significant byte first, and behind them the encoding of the slots up to the largest value. |
| HistogramCodec.PayloadFits | hdr/src/hdr_histogram_log.c:229-261 | Every layout has so few slots that the payload length fits its 32-bit field. |
| HistogramCodec.HeaderReadBack | hdr/src/hdr_histogram_log.c:263-269 | The forty bytes of a header, each field most significant byte first, read back as the header. |
| HistogramCodec.HeaderWords | hdr/src/hdr_histogram_log.c:626-641 | Each field of a header is the sum over its bytes, most significant first, at its place. |
| HistogramCodec.Decode | hdr/src/hdr_histogram_log.c:595-691 | On any inflated bytes: fewer than 40 give -29994, a first word other than 0x1c849303 + 16 * k with k below 16 gives -29998, words that ask for no histogram 12, a payload longer than its length -29994; else the layout asked for, the counts and the error of applying the payload, and the ratio. |
| HistogramCodec.EncodedDecodes | hdr/src/hdr_histogram_log.c:226-375 | The payload of a histogram decodes to all of its counts. |
| HistogramCodec.SameCountsSameAnswers | hdr/src/hdr_histogram.c:191-233 | A rebuilt histogram has the same total; hdr_max and hdr_min are the same exactly unless only zeros in a wide bucket, or only INT64_MAX, were recorded. |
| HistogramCodec.Transfer | hdr/src/hdr_histogram_log.c:217-691 | Encoding to bytes and decoding them restores layout, counts, total and conversion ratio, and the extremes under those exact conditions. |
| Utf8.EncodingAccepted | parson/parson.c:146-201 | The check accepts the encoding of every code point, with its length, and assembles that code point. |
| Utf8.AcceptedIsEncoding | parson/parson.c:161-201 | Whatever the check accepts is the encoding of a code point that is no surrogate. |
| Utf8.ValidIsEncoding | parson/parson.c:203-213 | Valid byte strings are encodings of lists of code points. |
| Utf8.EncodingsAreValid | parson/parson.c:203-213 | Encodings of lists of code points are valid. |
| Utf8.IsValidUtf8 | parson/parson.c:203-213 | The loop decides validity. |
| JsonStrings.QuotedReadBack | parson/parson.c:835-862 | A string written with escapes reads back as itself, exactly unless it holds a control character without a short escape. |
| JsonStrings.EscapedSkipped | parson/parson.c:438-450 | The scan for the closing quote finds the end of any escaped string. |
| JsonStringDecoder.SkipQuotes | parson/parson.c:438-450 | The loop stops behind the matching quote, or on the terminator. |
| JsonStringDecoder.ParseUtf16 | parson/parson.c:453-491 | A \u escape or surrogate pair is written as the UTF-8 of the code point it denotes; anything else is refused. |
| JsonStringDecoder.CodePointReadBack | parson/parson.c:453-491 | The escape of any code point, one UTF-16 unit or a surrogate pair (section 2.1 of RFC 2781), each digit in either case, is read as that code point. |
| JsonStringDecoder.ReadIsCodePoint | parson/parson.c:453-491 | Whatever is read as an escape of a code point is its escape, digits in some cases. |
| JsonStrings.UpToNulIs | parson/parson.c:495-541 | A decoded string is what stands before the first zero byte. |
| JsonStringDecoder.ProcessString | parson/parson.c:495-541 | Decodes any body found by the scan within a buffer of its length plus one. |
| JsonStringDecoder.GetQuotedString | parson/parson.c:545-553 | The decoded string and the place behind it, for any text. |
| JsonStringDecoder.EscapeSkipped | parson/parson.c:438-491 | The scan and the decoder agree on where each escape ends. |
| JsonStringDecoder.UnescapedIsUtf8 | parson/parson.c:495-541 | A valid UTF-8 body decodes to valid UTF-8 that is no longer, or to an error. |
| JsonStringDecoder.DecodedIsUtf8 | parson/parson.c:495-541 | That also holds for the C string that is left when an escape wrote a zero byte. |
| JsonPrinter.Serialize | parson/parson.c:725-833 | With and without a buffer the same number is returned, the length of the document's text; with one, the text is written there, a terminator behind it and nothing else. |
| JsonPrinter.SerializeString | parson/parson.c:835-862 | The same for one quoted string. |
| JsonPrinter.SerializeArray | parson/parson.c:736-760 | The same for an array, with its commas, line breaks and indentation. |
| JsonPrinter.SerializeObject | parson/parson.c:761-795 | The same for an object, whose values are looked up by name. |
| JsonPrinter.SerializationSize | parson/parson.c:1214-1218 | The measuring pass gives the length of the text plus one. |
| JsonPrinter.SerializeToBuffer | parson/parson.c:1220-1230 | Writes the text and its terminator exactly when they fit. |
| JsonPrinter.SerializeToString | parson/parson.c:1252-1268 | The buffer allocated is filled exactly and ends in NUL. |
| JsonLayout.PrintedDisplays | parson/parson.c:725-871 | The text of a document, byte by byte: in strings quote, backslash, slash and five control characters behind a backslash and every other byte as it is; no white space in compact text; in pretty text a line for each item and member, four spaces a level, and one space behind a colon. |
| JsonLayout.SerializeDisplayed | parson/parson.c:1252-1268 | The string returned is that text and a terminator. |
| JsonReader.Reader.ReadValue | parson/parson.c:555-577 | The parser yields the parsing function's result for any text and leaves the pointer behind what it parsed. |
| JsonReader.Reader.ReadArray | parson/parson.c:628-664 | The same for arrays, through a growing table. |
| JsonReader.Reader.ReadObject | parson/parson.c:579-626 | The same for objects, refusing a repeated name. |
| JsonReader.Reader.ReadDocument | parson/parson.c:904-911 | The same for a whole document. |
| JsonRoundTrip.ValueReadBack | parson/parson.c:438-871 | A printed value, anywhere in a text and at any depth, parses to itself exactly when it is admitted, and fails otherwise. |
| JsonRoundTrip.ItemsReadBack | parson/parson.c:628-664 | The same for the items of an array, one loop turn per printed line. |
| JsonRoundTrip.MembersReadBack | parson/parson.c:579-626 | The same for the members of an object. |
| JsonRoundTrip.NumberReadBack | parson/parson.c:692-703 | Every 32-bit integer reads back. |
| JsonRoundTrip.AdmittedIffShallow | parson/parson.c:555-557 | Admitted means nesting at most 19 and no raw control character. |
| JsonRoundTrip.DocumentReadBack | parson/parson.c:438-911 | Parsing undoes printing, compact and pretty and whatever follows, exactly for arrays and objects nested at most 19 deep without raw control characters. |
| JsonRoundTrip.RawControlIsLost | parson/parson.c:853-858 | A document that is printed and then refused. |
| JsonTransfer.Transfer | parson/parson.c:904-1268 | Running serializer and then parser gives the document back under exactly those conditions, else failure. |
| JsonGrammar.LayoutAccepted | parson/parson.c:555-713 | Every JSON text within the limits (nesting 19, 122880 items, 960 members), with any white space and any escapes of code points, each hexadecimal digit in either case, parses to the document it denotes, wherever it stands, also with other characters for the opening quotes of names. |
| JsonGrammar.DocumentAccepted | parson/parson.c:904-911 | The same for a whole text, with white space before it and anything behind it. |
| JsonGrammar.StringAccepted | parson/parson.c:438-553 | A string of any mixture of plain bytes, short escapes and code point escapes reads as the bytes it denotes, up to the first zero. |
| JsonGrammar.NumberAccepted | parson/parson.c:692-703 | Every 32-bit integer without a leading zero, also -0, reads as its value. |
| JsonGrammar.ElementsAccepted | parson/parson.c:628-664 | Items with white space around them are taken in order up to the bracket. |
| JsonGrammar.FieldsAccepted | parson/parson.c:579-626 | Members with white space around names, colons and values are taken in order up to the bracket. |
| JsonSyntax.ValueRead | parson/parson.c:555-713 | Whatever the parser takes for a value, unless it takes nothing, is the text of a layout that denotes the result. |
| JsonSyntax.StringRead | parson/parson.c:438-553 | Whatever is read as a string is a mixture of plain bytes, short escapes and code point escapes, closed by a quote. |
| JsonSyntax.NumberRead | parson/parson.c:692-703 | Whatever is read as a number and consumed is a 32-bit integer without a leading zero. |
| JsonSyntax.ForeignIff | parson/parson.c:692-703 | Which numbers are left to strtod: digits followed by one of . E X e x, none followed by one of I N i n, and integers beyond 32 bits. |
| JsonSyntax.ForeignNumber | parson/parson.c:555-713 | A value is left open only for such a number somewhere in it. |
| JsonSyntax.NothingTaken | parson/parson.c:692-703 | Only a minus sign without digits is a value that is not consumed. |
| JsonSyntax.ItemsRead | parson/parson.c:628-664 | The items taken are spaced layouts between commas, up to the bracket. |
| JsonSyntax.MembersRead | parson/parson.c:579-626 | The members taken are spaced names, colons and layouts between commas, with distinct names. |
| JsonSyntax.AcceptedIffLayout | parson/parson.c:904-911 | A text is accepted exactly if it is white space, the layout of an array or object and anything behind, and then its document is the one the layout denotes. |
| JsonRoundTrip.ParsedIsProper | parson/parson.c:555-664 | Everything the parser returns has distinct names, sizes within bounds, C strings and bounded depth. |
| JsonRoundTrip.ParsedPrintsBack | parson/parson.c:555-911 | Any parsed document, printed and parsed again, is the same exactly when it is printable. |
| JsonTables.ObjectTable.Add | parson/parson.c:301-322 | A new name is added at the end exactly while the table may grow; the table's map is updated so, and a refusal keeps the members. |
| JsonTables.AddToTrimmed | parson/parson.c:301-354 | After trimming, a new name is taken exactly by tables of at most 480 members. |
| JsonTables.TrimmedTableRefuses | parson/parson.c:301-354 | A trimmed table of 481 members that refuses a new name. |
| JsonTables.AddAllToTrimmed | parson/parson.c:301-354 | Of any new members, a table trimmed at n takes as many as make it the largest n * 2^k up to 960, or 960 for n below 8. |
| JsonTables.GrowsUpTo | parson/parson.c:301-312 | Whatever its capacity, a table that is only added to refuses exactly at a capacity that growing does not change. |
| JsonTables.ObjectTable.Resize | parson/parson.c:324-354 | Moving to other arrays keeps the members. |
| JsonTables.ObjectTable.GetValue | parson/parson.c:356-366 | The value is the map's value of the name. |
| JsonTables.ObjectTable.SetValue | parson/parson.c:1457-1474 | Overwrites the value of a known name in place or adds the name; the map is updated. |
| JsonTables.ObjectTable.Remove | parson/parson.c:1567-1585 | The last member takes the removed one's slot; the map loses just that name. |
| JsonTables.ObjectTable.Clear | parson/parson.c:1605-1616 | The empty map. |
| JsonTables.ArrayTable.Add | parson/parson.c:389-400 | Appends while the table may grow; a refusal keeps the items. |
| JsonTables.RemovedFromMap | parson/parson.c:1567-1585 | Swapping the last member in for another keeps names distinct and removes one name from the map. |
| JsonTables.SetInMap | parson/parson.c:1457-1474 | Overwriting one value is a map update. |
| JsonTables.MapDetermined | parson/parson.c:356-366 | With distinct names, the members in any order stand for one map. |
| JsonTables.GrowthLimit | parson/parson.c:301-312 | A table that was never trimmed refuses exactly at the documented maximum. |
| JsonEquality.ValueEquals | parson/parson.c:1672-1731 | Decides whether two documents denote the same thing, objects taken as maps; hence reflexive, symmetric and transitive. |
| JsonEquality.OrderDoesNotMatter | parson/parson.c:1700-1715 | Reordering members does not change what an object denotes. |
| JsonEquality.DeepCopy | parson/parson.c:1142-1212 | A copy through fresh tables never fails and equals its source. |

## Left out

- Integers of C are mathematical integers: sums of counts, level arithmetic of the iterators and the sizes the
  serializer adds up are assumed not to overflow. Where a width matters (the 32-bit snapshot, 64-bit codec values,
  the phase counters) it is written out. Shifts and masks are written as products, quotients and remainders.
- BucketConfig.CalculateBucketConfig: accepted arguments with unit_magnitude + sub_bucket_half_count_magnitude + 1 > 62,
  where the shifts in C are undefined.
- `log`, `pow`, `ceil` and `floor` in the configuration are exact integer logarithms.
- Queries.ValueAtPercentile: takes the rounding of each operation on doubles as a parameter, of which it is known
  that it is monotone, errs by at most 2^-53 of the number (or 2^-106 for tiny ones), keeps halves up to 2^52 and
  integers up to 2^53, and takes halves between these to the even neighbour; `Queries.ValueAtRank` covers whatever rank
  comes out beyond. Percentiles are finite (the code takes NaN for 100).
- Merging.Add: two different histograms; `Merging.AddToItself` is the other case.
- Merging.AddWhileCorrecting: two different histograms; `Merging.AddToItselfWhileCorrecting` is the other case.
- normalizing_index_offset is 0: no function of the repository sets it otherwise, but a header can.
- Percentile iterator, mean, stddev and percentile printing: floating point.
- More than 2^63 - 1 entries within one phase; each update action is one atomic step.
- zlib, cookies of other formats, V0 and V1 decoding, log files. The decoder is given the header and the inflated
  payload, which may be shorter than the header says; that zlib may also fail on a payload of no bytes is not
  modelled. Decoding into an existing histogram is decoding and then `Merging.Add`.
- HistogramCodec.Decode: a header that is taken and has a negative payload length, with which the buffer's size is
  computed in unsigned arithmetic.
- JsonReader.Reader.ReadValue: a number that strtod reads further (. e E x), or that is no 32-bit integer, is the
  result `Foreign`, and what the source makes of it is not said (`JsonSyntax.ForeignIff`). The calls of strtod and
  strncmp are functions of the text, not loops.
  Comparing with an epsilon is equality on integers.
- JSON documents are values: sharing of nested values between documents and freeing them are not modelled.
- `isspace` and `isxdigit` are those of the C locale; allocation always succeeds.
- `json_validate`, comments, dotted names, files, json_array_remove and the typed accessors.
- RPC, DNS, option parsing, main loops and output formatting in `src/`.
