# bdxReco: a verified model of its readers, decoders and calibration cache

The repository reconstructs the events of a particle detector. This project models the parts of it in
which bytes, words and waveforms are taken apart by hand, and the calibration machinery shared by its
threads, and proves what those parts compute. `dafny verify dfyconfig.toml` checks everything.

| modules | what they model |
|---|---|
| `EvioBanks`, `EvioIndex`, `EvioFormat` | the EVIO bank walker, its (tag, num) index, and exactly which buffers it walks along the banks |
| `DataFormat`, `FrameTime` | the TRIDAS data frame header: bit layout, payload size, BCD and mixed-radix time |
| `ByteStream`, `PtEvents`, `PtGrouping`, `PtFile`, `PtReader` | the post-trigger file reader: stream flags, frame grouping, slice index, random access |
| `TridasSource` | the event source's cursor, and the alignment of waveforms |
| `CompositeDecoder` | the composite ADC byte decoder |
| `ThresholdScan` | the threshold scan of the calorimeter and veto converters, pulse classes, highest pulse |
| `CalibrationHandlers`, `CalibrationRegistry` | the handlers with their memo lists, and the registry that loads each table once |
| `TriggerWords`, `Bits` | the BDXmini trigger words |
| `Clustering` | calorimeter clusters |
| `MachineInts`, `Slices` | fixed-width integers, little-endian bytes, slices of sequences |

How the model is laid out. Each operation that changes state is a method, on a class where the source
has one; its contract ties it to a specification function, and the lemmas state what is promised
about that function. Machine integers are mathematical integers with the wrap-around written out. A
file is a byte sequence with a cursor and the two stream flags; the database is the rows a call
receives. Well-formed inputs are described independently of the parsers: trees of banks, lists of
blocks, files of slices of events of hits of frames, each with its image in words or bytes.

Where a property does not hold of the code on all inputs, the code is kept, the exact condition is
proved, and a concrete input shows the failure:

| the property fails for | exactly when | for example |
|---|---|---|
| tags wider than 16 bits | `EvioIndex.LookupAgreesWithSearch` | `EvioIndex.WideTagExample` |
| banks announcing the greatest length | `EvioBanks.LoopMovesOn` | `EvioBanks.LongestLengthExample` |
| times past 19 January 2068 | `FrameTime.FullTimeRoundTrip` | `FrameTime.LateTimeExample` |
| hit counts too small, events above 2 GiB | `PtGrouping.ParseEventGroups` | `PtGrouping.HitCountExample`, `PtGrouping.LongEventExample` |
| access after a failed read | `PtReader.AccessAfterRun`, `PtReader.AccessLeavesFailed` | `PtReader.FailedReadExample`, `PtReader.QuietFailureExample` |
| empty slices after the first | `TridasSource.DrainDeliversAll` | `TridasSource.EmptySliceExample` |
| samples equal to the threshold | `ThresholdScan.CrossingsAreRuns` | `ThresholdScan.TouchingExample` |
| single pulses behind a spike, or open at the end | `ThresholdScan.MeasureSingle` | `ThresholdScan.WrongPulseExample`, `ThresholdScan.OpenPulseExample`, `ThresholdScan.SpikeBeforeEndExample` |
| veto pulses that start nowhere | `ThresholdScan.PeakIsOwn`, `ThresholdScan.VetoPulse` | `ThresholdScan.SpikeBeforeEndExample` |
| constants filled again | `CalibrationHandlers.LookupAgreesWithLastFill`, `CalibrationRegistry.AnswersOverRun` | `CalibrationHandlers.StaleExample`, `CalibrationRegistry.DifferentAnswersExample` |
| run-wide handlers | `CalibrationRegistry.UpdateLoadsRows`, `CalibrationRegistry.UpdateKeepsConsistent` | `CalibrationRegistry.RefusalExample`, `CalibrationRegistry.CopyRefusalExample` |

A comment in the time code says that the calendar library holds seconds in a signed 32-bit integer; the
model follows that comment, since the library is not part of this model.

## Model

| member | source | states |
|---|---|---|
| EvioBanks.ElementCountFillsPayload | src/external/evioReader/EvioBankIndex.cc:134-164 | what the elements reported for a leaf and its padding miss of the payload, or exceed it by, for each kind of leaf; they make it up exactly for one-byte elements, even paddings of two-byte elements, and wider elements without padding or odd word; the count is negative exactly when the padding exceeds the payload |
| EvioBanks.HeaderReadsBack | src/external/evioReader/EvioBankIndex.cc:84-115 | the three header encodings give back length, tag, content type, num and padding of the bank they were made from |
| EvioBanks.StrideIsTreeWords | src/external/evioReader/EvioBankIndex.cc:180-186 | the loop over a container moves on by exactly the size of the child it has parsed |
| EvioBanks.LoopMovesOn | src/external/evioReader/EvioBankIndex.cc:180-185 | in 32-bit arithmetic the loop over a container moves on, by the child's stride, if and only if the stride is positive and keeps the cursor an `int`; it stands still exactly on a bank announcing the greatest length |
| EvioBanks.StandsStill | src/external/evioReader/EvioBankIndex.cc:183-186 | a loop whose cursor stands still once stands still in every round, so it never ends |
| EvioBanks.LongestLengthExample | src/external/evioReader/EvioBankIndex.cc:183-186 | four words on which the same leaf is reported for ever |
| EvioBanks.WalkReportsLeaves | src/external/evioReader/EvioBankIndex.cc:70-209 | walking a well-formed tree, wherever it lies, reports exactly its leaves in document order with tag, num, type, depth, data position and count, and returns |
| EvioBanks.WalkReportsForest | src/external/evioReader/EvioBankIndex.cc:176-187 | the same for the children of a container, whose loop ends exactly at the payload's end |
| EvioBanks.BankCodes | src/external/evioReader/EvioBankIndex.cc:86-95 | under the codes 0xe and 0x10 a header of two words is taken apart into the given bits, and the bank is walked by the number of its content type: leaf with element count, container, or error |
| EvioBanks.SegmentCodes | src/external/evioReader/EvioBankIndex.cc:97-105 | the same under 0xd and 0x20, with one header word: 8-bit tag, padding, 6-bit content type, length |
| EvioBanks.TagSegmentCodes | src/external/evioReader/EvioBankIndex.cc:107-115 | the same under 0xc and 0x40: 12-bit tag, 4-bit content type, length, no padding |
| EvioBanks.OtherCodes | src/external/evioReader/EvioBankIndex.cc:117-118 | any other bank code is an error |
| EvioBanks.SegmentExample | src/external/evioReader/EvioBankIndex.cc:97-115 | one word read as a segment has tag 5, as a tagsegment tag 0x50 |
| EvioFormat.TightIsImage | src/external/evioReader/EvioBankIndex.cc:84-187 | a buffer in which banks fit and children fill their containers is the image of the tree rebuilt from it |
| EvioFormat.ImageIsTight | src/external/evioReader/EvioBankIndex.cc:84-187 | the image of a tree is such a buffer, and the tree rebuilt from it is that tree |
| EvioFormat.TightIffImage | src/external/evioReader/EvioBankIndex.cc:84-187 | a buffer holds the image of some well-formed tree if and only if it is tight, and of one tree only |
| EvioFormat.ExactWalkIffImage | src/external/evioReader/EvioBankIndex.cc:70-209 | on any buffer, the walk returns with every loop stopped at its payload's end and every leaf in the buffer if and only if the buffer holds the image of a well-formed tree |
| EvioFormat.ExactIsTight | src/external/evioReader/EvioBankIndex.cc:183-186 | a walk that returns and stops exactly everywhere has gone along a tight buffer |
| EvioFormat.TightIsExact | src/external/evioReader/EvioBankIndex.cc:183-186 | on a tight buffer the walk returns and every loop stops exactly |
| EvioIndex.WalkIsReportable | src/external/evioReader/EvioBankIndex.cc:30-39 | on any buffer every reported leaf has a 16-bit tag, an 8-bit num, a 6-bit type and an int count |
| EvioIndex.InfoOf | src/external/evioReader/EvioBankIndex.h:33-43 | the packed entry of a leaf unpacks to its tag, type and num |
| EvioIndex.IndexedHoldsLast | src/external/evioReader/EvioBankIndex.cc:30-39 | the index holds under a pair's key the last leaf reported with that pair, and nothing when there is none |
| EvioIndex.RepeatsChangeNothing | src/external/evioReader/EvioBankIndex.cc:30-39 | reporting the same leaves again leaves the index as it is |
| EvioIndex.LookupFindsLast | src/external/evioReader/EvioBankIndex.cc:49-58 | for any 32-bit tag a lookup finds the last leaf with that num and the low half of that tag |
| EvioIndex.LookupAgreesWithSearch | src/external/evioReader/EvioBankIndex.h:49-51 | a lookup agrees with a search of the leaves exactly for 16-bit tags and for wider ones whose low half names no leaf |
| EvioIndex.WideTagExample | src/external/evioReader/EvioBankIndex.h:49-51 | an event with a leaf of tag 1 answers with it for tag 0x10001, which no leaf has |
| EvioIndex.EventLookup | src/external/evioReader/EvioBankIndex.cc:23-58 | after indexing a well-formed event, a 16-bit tag and num give the last such leaf of the tree, and null and 0 exactly when there is none |
| EvioIndex.EvioBankIndex.LeafHandler | src/external/evioReader/EvioBankIndex.cc:30-39 | stores the leaf under its pair, replacing an earlier one |
| EvioIndex.EvioBankIndex.InitBankIndex | src/external/evioReader/EvioBankIndex.cc:23-26 | the index afterwards is that of all leaves the walk reports, whatever was in it before |
| EvioIndex.EvioBankIndex.ParseBank | src/external/evioReader/EvioBankIndex.cc:70-209 | adds the walk's leaves to the index, also those reported before an error |
| EvioIndex.EvioBankIndex.ParseChildren | src/external/evioReader/EvioBankIndex.cc:176-187 | the container loop adds the leaves of all children in turn |
| EvioIndex.EvioBankIndex.GetBank | src/external/evioReader/EvioBankIndex.cc:49-58 | answers from the index, null and 0 for a missing key |
| DataFormat.WordsRoundTrip | src/external/TRIDAS/s_dataformat_bdx.hpp:26-45 | the bit fields packed into words unpack to the same header |
| DataFormat.HeaderRoundTrip | src/external/TRIDAS/s_dataformat_bdx.hpp:25-65 | a header written as 16 bytes is read back unchanged |
| DataFormat.FieldsInBytes | src/external/TRIDAS/s_dataformat_bdx.hpp:26-45 | in which bytes and bits of the sixteen the year, the number of samples and the two flags lie |
| DataFormat.PayloadSize | src/external/TRIDAS/f_dataformat_bdx.hpp:115-120 | the payload is whole 32-bit words holding two bytes per sample |
| FrameTime.CenturyDays | src/external/TRIDAS/f_dataformat_bdx.hpp:173-182 | within the century the Gregorian leap days before a year are one per started four years |
| FrameTime.Units | src/external/TRIDAS/f_dataformat_bdx.hpp:17-24 | a tick is 4 ns, a frame 125 microseconds, a millisecond a thousandth of a second and a day 24 hours |
| FrameTime.YearOfIsTheYear | src/external/TRIDAS/f_dataformat_bdx.hpp:247-253 | a day falls in exactly one year, and the year stored is that one, wherever the search starts |
| FrameTime.FullTimeByCalendar | src/external/TRIDAS/f_dataformat_bdx.hpp:130-183 | the time read from a canonical header is the calendar's, the 32-bit arithmetic notwithstanding |
| FrameTime.DayTimeStored | src/external/TRIDAS/f_dataformat_bdx.hpp:210-221 | a time of day is stored in canonical counts that add up to it |
| FrameTime.DaysReadBack | src/external/TRIDAS/f_dataformat_bdx.hpp:140-147 | the BCD day written is the day read |
| FrameTime.YearsReadBack | src/external/TRIDAS/f_dataformat_bdx.hpp:130-136 | the BCD year written is the year read |
| FrameTime.FullTimeStored | src/external/TRIDAS/f_dataformat_bdx.hpp:237-266 | storing a time within 31-bit seconds gives a canonical header with that time and changes no other field |
| FrameTime.StoredFits | src/external/TRIDAS/f_dataformat_bdx.hpp:187-266 | every stored field fits its bit width |
| FrameTime.FullTimeRoundTrip | src/external/TRIDAS/f_dataformat_bdx.hpp:168-266 | for every integer time, storing and reading gives it back if and only if it is not negative and its seconds fit a signed 32-bit integer |
| FrameTime.LateTimesWrap | src/external/TRIDAS/f_dataformat_bdx.hpp:240-249 | a time past the limit stops at an assertion exactly when its seconds wrap to a negative number, and is silently stored as the earlier time they wrap to otherwise |
| FrameTime.LateTimeExample | src/external/TRIDAS/f_dataformat_bdx.hpp:242-249 | 2^32 seconds after the epoch are stored as the epoch |
| FrameTime.StoreReadBack | src/external/TRIDAS/f_dataformat_bdx.hpp:168-266 | reading a canonical header and storing the time copies its time fields |
| FrameTime.TimeOrderIsStoredOrder | src/external/TRIDAS/f_dataformat_bdx.hpp:130-183 | on canonical headers time order is exactly the order of the stored fields, and equal times mean equal fields |
| FrameTime.TimesliceInterval | src/external/TRIDAS/f_dataformat_bdx.hpp:268-276 | slice k numbers exactly the times from k to k + 1 slice lengths |
| FrameTime.TimesliceMonotone | src/external/TRIDAS/f_dataformat_bdx.hpp:268-276 | slice numbers never decrease in the order of the stored fields |
| FrameTime.FrameHeader.SetDFHDays | src/external/TRIDAS/f_dataformat_bdx.hpp:188-196 | writes the days field in place, or stops at the assertion |
| FrameTime.FrameHeader.SetDFHYears | src/external/TRIDAS/f_dataformat_bdx.hpp:201-208 | writes the years field in place, or stops at the assertion |
| FrameTime.FrameHeader.SetDFHDayTime | src/external/TRIDAS/f_dataformat_bdx.hpp:210-221 | writes seconds, frame counter and 4 ns count in place |
| FrameTime.FrameHeader.SetDFHYearTime | src/external/TRIDAS/f_dataformat_bdx.hpp:225-233 | writes the day of the year and the time of day in place |
| FrameTime.FrameHeader.SetDFHFullTime | src/external/TRIDAS/f_dataformat_bdx.hpp:237-266 | writes all time fields in place; within the limit the header is canonical and reads as that time |
| PtEvents.ReadSamplesInto | src/external/TRIDAS/ptfile_reader.hpp:34-46 | reads samples one by one, short reads included, and counts the bytes got |
| PtEvents.ReadPayloadInto | src/external/TRIDAS/ptfile_reader.cc:106-127 | keeps the samples of one frame and skips the rest of its payload |
| PtEvents.ParseEventFrom | src/external/TRIDAS/ptfile_reader.cc:5-135 | the do-while loop of the three overloads, with every error, on any bytes |
| PtGrouping.ReadsPayload | src/external/TRIDAS/ptfile_reader.cc:106-127 | a well-formed frame's samples are its payload's values, and exactly its payload is consumed and counted off |
| PtGrouping.SampleValues | src/external/TRIDAS/ptfile_reader.cc:106-127 | the samples kept of a frame are its payload's bytes in pairs, low byte first, or single bytes where the zip flag is set or the overload is the compressed one |
| PtGrouping.ParseDelivers | src/external/TRIDAS/ptfile_reader.cc:86-135 | parsing the bytes of frames hands each frame on in order and consumes exactly their bytes |
| PtGrouping.GroupsOfFlatten | src/external/TRIDAS/ptfile_reader.cc:100-104 | hits whose first frame alone has its flag clear are recovered from their frames |
| PtGrouping.FlattenOfGroups | src/external/TRIDAS/ptfile_reader.cc:100-104 | cutting any frames at clear flags loses none of them |
| PtGrouping.DeliversGroups | src/external/TRIDAS/ptfile_reader.cc:94-104 | the current-hit cursor stores the groups in consecutive hits |
| PtGrouping.ParseEventGroups | src/external/TRIDAS/ptfile_reader.cc:86-135 | for events of any 32-bit size, parsing succeeds exactly when the bytes after the first frame fit the `int` counter and the announced hit count leaves room for the groups of the frames; then the hits are those groups and no byte is left over |
| PtGrouping.HitCountExample | src/external/TRIDAS/ptfile_reader.cc:92-104 | two hits in an event announced with one are not parsed |
| PtGrouping.LongEventExample | src/external/TRIDAS/ptfile_reader.cc:92-132 | a correctly announced event just above 2 GiB is reported as incomplete |
| PtGrouping.ParseEventRoundTrip | src/external/TRIDAS/ptfile_reader.cc:5-135 | hits written one after the other are the hits read, for each of the three overloads, if and only if the bytes after the first frame fit the counter |
| PtGrouping.SamplesRoundTrip | src/external/TRIDAS/ptfile_reader.cc:86-135 | hits written from lists of samples, two bytes or one byte each by their frames' zip flags, are read back with all samples in order |
| PtGrouping.NoHitsNeverOk | src/external/TRIDAS/ptfile_reader.cc:92-104 | an event announced with no hits is never parsed successfully |
| PtGrouping.SuccessConsumesSize | src/external/TRIDAS/ptfile_reader.cc:15-34 | on any bytes, success on a stream still good means the announced size was consumed up to multiples of 2^32, and exactly that size where fewer than 2^31 bytes follow |
| PtGrouping.CompressedAgrees | src/external/TRIDAS/ptfile_reader.cc:39-135 | on any bytes the compressed overload either refuses an uncompressed frame or behaves as the uncompressed one |
| PtGrouping.OverloadsAgree | src/external/TRIDAS/ptfile_reader.cc:5-135 | on well-formed compressed frames the three overloads consume the same bytes and group the same headers, and the two that keep samples agree on them |
| PtFile.EventHeaderRead | src/external/TRIDAS/s_dataformat_bdx.hpp:135-146 | an event header written as 112 bytes is read back |
| PtFile.SliceHeaderRead | src/external/TRIDAS/s_dataformat_bdx.hpp:129-133 | a slice header written as 16 bytes is read back |
| PtFile.PtHeaderRead | src/external/TRIDAS/s_dataformat_bdx.hpp:118-127 | a file header written as 32 bytes is read back |
| PtFile.ReadsEvent | src/external/TRIDAS/ptfile_reader.hpp:164-166 | constructing an event at its first byte gives its header and hits and consumes its length |
| PtFile.ReadsSlice | src/external/TRIDAS/ptfile_reader.hpp:264-270 | constructing a slice at its first byte gives the slice and ends right after it |
| PtReader.IndexIsOffsets | src/external/TRIDAS/ptfile_reader.hpp:342-358 | the index built by skipping declared sizes is where the slices start |
| PtReader.SequentialIsOffsets | src/external/TRIDAS/ptfile_reader.hpp:264-270 | parsing slices in sequence starts each where it starts in the file |
| PtReader.OpensWellFormed | src/external/TRIDAS/ptfile_reader.hpp:342-358 | opening a well-formed file reads its header, and its index equals the positions reached by sequential parsing |
| PtReader.AccessReturnsSlice | src/external/TRIDAS/ptfile_reader.hpp:396-400 | as long as no read has failed, access k returns slice k and no read fails |
| PtReader.AccessInAnyOrder | src/external/TRIDAS/ptfile_reader.hpp:396-400 | any run of accesses, in any order and with repetitions, returns the slices asked for |
| PtReader.AccessKeepsReachable | src/external/TRIDAS/ptfile_reader.hpp:396-400 | on any bytes the stream flags are only ever set at the end of the file |
| PtReader.AccessNeedsNoFailure | src/external/TRIDAS/ptfile_reader.hpp:396-400 | an access to an intact slice returns it if and only if no earlier read has failed |
| PtReader.FailureIsPermanent | src/external/TRIDAS/ptfile_reader.hpp:396-400 | after one failed read every later access throws |
| PtReader.FailedReadExample | src/external/TRIDAS/ptfile_reader.hpp:396-400 | a file of any intact slice and a cut one opens; slice 0 can be read, but no more once slice 1 has been asked for |
| PtReader.TruncatedSliceFails | src/external/TRIDAS/ptfile_reader.hpp:12-22 | a slice cut off inside its first event header throws and leaves the stream failed |
| PtReader.AccessLeavesFailed | src/external/TRIDAS/ptfile_reader.hpp:396-400 | on any bytes, an access leaves the stream failed exactly when a header or a sample it reads lies past the end of the file, told by following the headers in the bytes |
| PtReader.RunLeavesFailed | src/external/TRIDAS/ptfile_reader.hpp:396-400 | a run of accesses leaves the stream failed exactly when some slice asked for is cut off by the end of the file, or it was failed before |
| PtReader.AccessAfterRun | src/external/TRIDAS/ptfile_reader.hpp:396-400 | after any run of accesses on any bytes, an intact slice is returned if and only if none of the slices asked for before is cut off |
| PtReader.QuietFailureExample | src/external/TRIDAS/ptfile_reader.hpp:34-46 | a slice with a sample made up, returned without an error, that leaves the stream failed |
| PtReader.ReadEventFrom | src/external/TRIDAS/ptfile_reader.hpp:164-166 | the Event constructor on any bytes |
| PtReader.ReadSliceFrom | src/external/TRIDAS/ptfile_reader.hpp:264-270 | the TimeSlice constructor and its loop on any bytes |
| PtReader.PtFileReader.Open | src/external/TRIDAS/ptfile_reader.hpp:342-358 | opens a file: header, index and rewound stream, or the error thrown |
| PtReader.PtFileReader.Slice | src/external/TRIDAS/ptfile_reader.hpp:396-400 | seek, clear, read, in that order |
| TridasSource.DrainStopsAtEmptySlice | src/libraries/DAQ/JEventSourceTRIDASDAQ.cc:52-95 | repeated GetEvent delivers all events in order, each with its slice's id, up to the first empty slice after the first |
| TridasSource.DrainDeliversAll | src/libraries/DAQ/JEventSourceTRIDASDAQ.cc:52-95 | everything is delivered and the source ends cleanly if and only if every slice after the first has an event |
| TridasSource.EmptySliceExample | src/libraries/DAQ/JEventSourceTRIDASDAQ.cc:58-72 | a well-formed file with an empty second slice, the event of whose third slice is never delivered |
| TridasSource.FetchReturnsSlice | src/libraries/DAQ/JEventSourceTRIDASDAQ.cc:67-69 | reading a slice twice, for its count and to keep it, gives that slice |
| TridasSource.TridasDaqSource.Open | src/libraries/DAQ/JEventSourceTRIDASDAQ.cc:30-38 | the source starts at the first event of slice 0, or fails as the reader does |
| TridasSource.TridasDaqSource.GetEvent | src/libraries/DAQ/JEventSourceTRIDASDAQ.cc:52-95 | one cursor step on any file, at most one slice forward, with every way to end |
| TridasSource.TridasDaqSource.ReadAll | src/libraries/DAQ/JEventSourceTRIDASDAQ.cc:52-95 | draining a source on a well-formed file gives all its events, tagged, exactly when slices after the first are not empty |
| TridasSource.TridasDaqSource.ReadFile | src/libraries/DAQ/JEventSourceTRIDASDAQ.cc:30-95 | the same from the bytes of the file: open, then read to the end |
| TridasSource.MinTime | src/libraries/DAQ/JEventSourceTRIDASDAQ.cc:158-166 | the earliest start among an event's hits |
| TridasSource.AlignedWaveforms | src/libraries/DAQ/JEventSourceTRIDASDAQ.cc:155-203 | each output is its input behind as many copies of its first sample as its delay from the earliest hit; no delay is negative and one is zero |
| TridasSource.Delayed | src/libraries/DAQ/JEventSourceTRIDASDAQ.cc:186-197 | one waveform behind a given number of copies of its first sample |
| TridasSource.SameIndexSameTime | src/libraries/DAQ/JEventSourceTRIDASDAQ.cc:160-197 | at an index at or past the delays of any two hits, both outputs hold real samples, and these were taken at the same absolute time |
| TridasSource.SameTimeSameIndex | src/libraries/DAQ/JEventSourceTRIDASDAQ.cc:160-197 | samples of any two hits taken at the same absolute time stand at one index in both outputs |
| CompositeDecoder.HalfSwapInvolution | src/external/evioReader/EvioCompositeDecoder.cc:58-61 | the 24-bit half swap undoes itself on 48 bits |
| CompositeDecoder.HalfSwapExchanges | src/external/evioReader/EvioCompositeDecoder.cc:58-61 | the low and the high 24 bits change places, and what lies above 48 bits is dropped |
| CompositeDecoder.DecodeAccount | src/external/evioReader/EvioCompositeDecoder.cc:54-104 | on any bytes the final offset is 17 per block header, 5 per channel header and 2 per sample, with bounds on headers and offset, and channels drawing from disjoint ranges inside the buffer |
| CompositeDecoder.RangesAreDisjoint | src/external/evioReader/EvioCompositeDecoder.cc:87-99 | a later channel's samples lie after an earlier one's |
| CompositeDecoder.SkippedHeaders | src/external/evioReader/EvioCompositeDecoder.cc:63-69 | a block header is passed over exactly when it announces no channel or more than 16, or a slot that is not from 1 to 21 |
| CompositeDecoder.LeftChannels | src/external/evioReader/EvioCompositeDecoder.cc:81-87 | a channel is emitted exactly when its samples end inside the buffer; otherwise its block is left right behind its header |
| CompositeDecoder.ZerosDecode | src/external/evioReader/EvioCompositeDecoder.cc:67-69 | zero bytes decode to nothing, whatever lies beyond the buffer |
| CompositeDecoder.BlocksDecode | src/external/evioReader/EvioCompositeDecoder.cc:54-104 | blocks lying at an offset and followed by zeros decode to their channels in order |
| CompositeDecoder.DecodeRoundTrip | src/external/evioReader/EvioCompositeDecoder.cc:40-106 | any encoded blocks with any number of padding zeros decode to their flattened channels with slot, trigger and time |
| CompositeDecoder.EvioCompositeDecoder.DecodeBuffer | src/external/evioReader/EvioCompositeDecoder.cc:40-106 | the nested loops with their continue and break paths emit exactly the specified channels and stop at the specified offset |
| ThresholdScan.FindCrossings | src/libraries/Calorimeter/Calorimeterfa250Converter.cc:134-152 | the single-pass scan records the specified crossings |
| ThresholdScan.CrossingEdges | src/libraries/Calorimeter/Calorimeterfa250Converter.cc:139-147 | every crossing inside the waveform starts at a strict rise or at 0 and ends at a strict fall |
| ThresholdScan.RunsFound | src/libraries/Calorimeter/Calorimeterfa250Converter.cc:134-152 | without touching, the crossings are the maximal runs above the threshold, all and only |
| ThresholdScan.TouchMissesRun | src/libraries/IntVeto/IntVetofa250Converter.cc:109-146 | where the waveform touches the threshold next to a sample above it, a run is missed |
| ThresholdScan.CrossingsAreRuns | src/libraries/Calorimeter/Calorimeterfa250Converter.cc:134-152 | for every waveform the crossings are the maximal runs if and only if no sample equal to the threshold stands next to one above it |
| ThresholdScan.TouchingExample | src/libraries/Calorimeter/Calorimeterfa250Converter.cc:134-152 | a pulse whose edges touch the threshold is lost |
| ThresholdScan.DeltasSumToSamples | src/libraries/Calorimeter/Calorimeterfa250Converter.cc:157-160 | without touching, crossings are ordered and disjoint and their lengths add up to the samples above |
| ThresholdScan.DeltasPositive | src/libraries/Calorimeter/Calorimeterfa250Converter.cc:157-172 | on every waveform every crossing has positive length and includes a sample above the threshold |
| ThresholdScan.ClassifyPulses | src/libraries/Calorimeter/Calorimeterfa250Converter.cc:157-175 | signals and singles are exactly the crossings of each kind in order, and the negative-length error never occurs |
| ThresholdScan.PulseKinds | src/libraries/Calorimeter/Calorimeterfa250Converter.cc:162-172 | the kinds of pulses by the nanoseconds they last and by starting at the first sample or lasting to the end |
| ThresholdScan.GetMaximum | src/libraries/DAQ/fa250Converter.h:56-66 | the maximum of a closed range and the first place it is reached |
| ThresholdScan.HighestPulse | src/libraries/IntVeto/IntVetofa250Converter.cc:174-190 | the first crossing whose measured window has the greatest sample, and that sample; for a crossing that starts nowhere the window is the whole waveform; unset exactly when no window exceeds the initial amplitude |
| ThresholdScan.PeakIsOwn | src/libraries/IntVeto/IntVetofa250Converter.cc:178-185 | the sample measured for a crossing is its own pulse's highest if and only if the crossing starts somewhere, or the waveform is nowhere higher than in its last run |
| ThresholdScan.VetoPulse | src/libraries/IntVeto/IntVetofa250Converter.cc:109-190 | the first single crossing with the greatest window, chosen if and only if some window exceeds -9999; its amplitude is the chosen pulse's own if and only if the crossing starts somewhere, or the waveform is nowhere higher than in its last run |
| ThresholdScan.CrossingsApart | src/libraries/Calorimeter/Calorimeterfa250Converter.cc:139-152 | on every waveform, touching or not, a later crossing starts at or after the end of an earlier one, or starts nowhere |
| ThresholdScan.PulsesApart | src/libraries/Calorimeter/Calorimeterfa250Converter.cc:139-152 | on every waveform the pulses are disjoint and in order, also a last one that starts nowhere |
| ThresholdScan.MeasureSingle | src/libraries/Calorimeter/Calorimeterfa250Converter.cc:211-212 | the single pulse is measured over the first crossing: outside the waveform if and only if the only pulse is open at the end, otherwise among the selected pulse's samples if and only if that is the first crossing |
| ThresholdScan.WrongPulseExample | src/libraries/Calorimeter/Calorimeterfa250Converter.cc:211-212 | a short spike in front of the selected pulse gives the amplitude |
| ThresholdScan.SpikeBeforeEndExample | src/libraries/IntVeto/IntVetofa250Converter.cc:178-190 | a selected pulse that starts nowhere, for which both converters measure a spike before it |
| ThresholdScan.OpenPulseExample | src/libraries/Calorimeter/Calorimeterfa250Converter.cc:211-212 | a selected pulse lasting to the end, whose measurement reads past the last sample |
| CalibrationHandlers.FirstRowWins | src/libraries/system/CalibrationHandler.h:97-124 | the map holds exactly the rows' keys, each with the data of its first row |
| CalibrationHandlers.TableIsLookedUp | src/libraries/system/CalibrationHandler.h:97-164 | for crate/slot/channel and every number of indexes: after a fill, the first lookup of identifiers gives the constants of the first record with exactly these, in order, and nothing when there is none |
| CalibrationHandlers.RunWideLookup | src/libraries/system/RunCalibrationHandler.cc:10-25 | a run-wide handler answers every lookup with the single row it was filled with |
| CalibrationHandlers.LookupIsFirstHit | src/libraries/system/CalibrationHandler.h:132-164 | over every history a lookup returns what the map held at the first successful lookup of the key, else what the last fill gives; the memo lists stay aligned and duplicate-free |
| CalibrationHandlers.LookupAgreesWithLastFill | src/libraries/DAQ/DAQCalibrationHandler.cc:3-74 | a lookup agrees with the last fill if and only if the key was not found before that fill, or has the same value now |
| CalibrationHandlers.StaleExample | src/libraries/system/CalibrationHandler.h:87-164 | a refilled key still answered with its old value |
| CalibrationHandlers.CalibrationHandler.FillCalib | src/libraries/system/CalibrationHandler.h:87-126 | replaces raw rows and map, empties the map on a bad row, keeps the memo; run-wide handlers refuse other than one row |
| CalibrationHandlers.CalibrationHandler.GetCalib | src/libraries/DAQ/DAQCalibrationHandler.cc:50-74 | answers from the memo, else from the map, remembering a found value |
| CalibrationRegistry.ConsistentMeansEqual | src/libraries/system/BDXEventProcessor.cc:269-276 | in a consistent table loaded handlers have equal rows, and equal maps when of one kind |
| CalibrationRegistry.UpdateKeepsConsistent | src/libraries/system/BDXEventProcessor.cc:250-312 | an update keeps any consistent table of handlers filled only by `fillCalib` consistent if and only if nothing is left to load, every handler takes the rows, or none is loaded and all refuse and held the same rows before |
| CalibrationRegistry.RunKeepsConsistent | src/libraries/system/BDXEventProcessor.cc:250-340 | over every run of add, update, clear and lookup calls a table is consistent throughout if and only if every update finds it so that it stays consistent; the database is read at most once more than the table is cleared |
| CalibrationRegistry.SuitableRun | src/libraries/system/BDXEventProcessor.cc:250-340 | runs without run-wide handlers, or with single rows only, keep the table consistent throughout |
| CalibrationRegistry.RunIsHistory | src/libraries/system/BDXEventProcessor.cc:279-308 | a run of calls on a table does to each handler exactly what that handler's own history of fills and lookups does |
| CalibrationRegistry.AnswersOverRun | src/libraries/system/CalibrationHandler.h:132-164 | over every run, two loaded handlers of one kind answer a key alike exactly when their own first successful lookups of it, or else the constants loaded now, are equal; each answers with the constants loaded now exactly when its first lookup gave nothing or the same |
| CalibrationRegistry.UpdateLoadsRows | src/libraries/system/BDXEventProcessor.cc:277-308 | an update of any table leaves all handlers loaded and reads the database exactly when none was; all hold the rows read or copied if and only if each held them already or is not loaded and accepts them |
| CalibrationRegistry.RefusalExample | src/libraries/system/RunCalibrationHandler.cc:10-15 | two rows leave a run-wide handler marked loaded and empty |
| CalibrationRegistry.CopyRefusalExample | src/libraries/system/BDXEventProcessor.cc:290-297 | rows copied from a loaded handler are refused by a run-wide one, which is marked loaded and empty |
| CalibrationRegistry.DifferentAnswersExample | src/libraries/system/CalibrationHandler.h:132-164 | after a lookup, a clear and a new update, two handlers loaded with equal constants answer the same key differently |
| CalibrationRegistry.BdxEventProcessor.AddCalibration | src/libraries/system/BDXEventProcessor.cc:338-340 | files a handler under its table, after those already there |
| CalibrationRegistry.BdxEventProcessor.UpdateCalibration | src/libraries/system/BDXEventProcessor.cc:250-312 | updates the whole table as specified, or nothing when the handler is not registered; no other handler changes |
| CalibrationRegistry.BdxEventProcessor.ClearCalibration | src/libraries/system/BDXEventProcessor.cc:314-336 | marks every handler of the table as not loaded and changes nothing else |
| CalibrationRegistry.ScanLoaded | src/libraries/system/BDXEventProcessor.cc:277-283 | whether all are loaded, and the last one that is |
| CalibrationRegistry.CopyFrom | src/libraries/system/BDXEventProcessor.cc:290-297 | fills exactly the handlers not yet loaded from the donor's rows |
| CalibrationRegistry.FillAll | src/libraries/system/BDXEventProcessor.cc:299-308 | fills every handler from the rows read |
| Bits.MaskTestsBit | src/libraries/BDXmini/triggerDataBDXmini_factory.cc:108-110 | a mask with one shifted bit tests that bit |
| TriggerWords.PairsEnd | src/libraries/BDXmini/triggerDataBDXmini_factory.cc:80-83 | the trigger part ends at the first magic pair or at the last complete pair |
| TriggerWords.BlockCount | src/libraries/BDXmini/triggerDataBDXmini_factory.cc:93-95 | the blocks counted are all complete ones after the trigger part, and none without a magic pair |
| TriggerWords.ChannelsOfWords | src/libraries/BDXmini/triggerDataBDXmini_factory.cc:98-117 | channel k below 32 is set exactly when some block has bit k in its first word, from 32 on bit k - 32 in its second; triggered, when its time, low half in the third and signed high half in the fourth word, is also in the window |
| TriggerWords.DecodeTriggers | src/libraries/BDXmini/triggerDataBDXmini_factory.cc:80-92 | each trigger gets the times of the pairs that have its bit, in order, and the total counts all of them |
| TriggerWords.DecodeBlocks | src/libraries/BDXmini/triggerDataBDXmini_factory.cc:97-118 | each channel flag is its bit of the OR of the masks, each triggered flag that of those inside the window |
| TriggerWords.DecodeEvent | src/libraries/BDXmini/triggerDataBDXmini_factory.cc:80-140 | the event's trigger data as a whole |
| TriggerWords.BitsOfFlags | src/libraries/BDXmini/triggerDataBDXmini.cc:96-110 | the word built from flags has exactly the bits of the set flags |
| TriggerWords.FlagsMakeWord | src/libraries/BDXmini/triggerDataBDXmini.cc:96-110 | flags that are the bits of a 64-bit word make up that word |
| TriggerWords.TriggerData.AddTriggerTime | src/libraries/BDXmini/triggerDataBDXmini.cc:43-49 | appends to the trigger's times, and ignores a number out of range |
| TriggerWords.TriggerData.GetLongWordChannels | src/libraries/BDXmini/triggerDataBDXmini.cc:96-102 | the loop builds the word of the channel flags |
| TriggerWords.TriggerData.GetLongWordChannelsTrg | src/libraries/BDXmini/triggerDataBDXmini.cc:104-110 | the loop builds the word of the triggered-channel flags |
| TriggerWords.SubsetWord | src/libraries/BDXmini/triggerDataBDXmini_factory.cc:110-115 | the triggered-channel word adds no bit to the channel word |
| TriggerWords.ChannelWords | src/libraries/BDXmini/triggerDataBDXmini_factory.cc:93-138 | for every word list the channel word is the OR of all complete blocks' masks, the triggered one the OR of those inside the window, and it is a subset |
| Clustering.PositionInRange | src/libraries/Calorimeter/CalorimeterCluster_factory.cc:159-169 | a cluster has a position exactly when some weight is positive, and then within the range of its hits' coordinates |
| Clustering.PositionBalances | src/libraries/Calorimeter/CalorimeterCluster_factory.cc:157-169 | a cluster's position is where the weighted distances to its hits cancel out, in x and in y |
| Clustering.WeightGrows | src/libraries/Calorimeter/CalorimeterCluster_factory.cc:161 | with a growing logarithm a hit of more energy weighs no less |
| Clustering.SetCluster | src/libraries/Calorimeter/CalorimeterCluster_factory.cc:133-170 | energy, counts and weighted means of the hits given |
| Clustering.FindSeed | src/libraries/Calorimeter/CalorimeterCluster_factory.cc:88-95 | the first of the most energetic hits, unset exactly when none exceeds -99999 |
| Clustering.BySector | src/libraries/Calorimeter/CalorimeterCluster_factory.cc:71-75 | the hits above the threshold by sector, in order, with the sectors ascending |
| Clustering.FindClusters | src/libraries/Calorimeter/CalorimeterCluster_factory.cc:56-114 | one cluster for each sector with a seed, in ascending order, made of that sector's hits and seed; a seed never set is used exactly when some sector has kept hits but none above -99999 |
| Clustering.ClusterCounts | src/libraries/Calorimeter/CalorimeterCluster_factory.cc:86-107 | a cluster's hit count, its seed energy, the first greatest and above the seed threshold, and the number of hits at most one crystal from that hit |
| Clustering.SeedAlwaysSet | src/libraries/Calorimeter/CalorimeterCluster_factory.cc:68-98 | with a hit threshold not below -99999 every seed used has been set |
| Clustering.HitsLandOnce | src/libraries/Calorimeter/CalorimeterCluster_factory.cc:71-108 | a hit is in a cluster exactly when it is above the threshold in a seeded sector, and in one only |
| Clustering.HitsConserved | src/libraries/Calorimeter/CalorimeterCluster_factory.cc:71-108 | the hits of all clusters are exactly the hits above the threshold in seeded sectors, as a multiset: equal hits are counted separately |
| Clustering.EnergyConserved | src/libraries/Calorimeter/CalorimeterCluster_factory.cc:71-108 | cluster energies sum to the energy of those hits |

## Left out

- EvioBanks.Walk: a header past the end of the buffer ends the walk with an outcome of its own, where the code reads on. So does a loop cursor that leaves the range of `int` (`TurnsBack`, a bank of about 2^31 words): the code goes on in front of that bank. A loop that stands still is the outcome `NeverReturns`.
- EvioIndex.WalkIsReportable: follows that walk, without what the code reports after such a turn back.
- EvioIndex.EvioBankIndex.InitBankIndex: the same; where the code never returns, the outcome says so and the index is the one it has from the first round on.
- EvioIndex.EvioBankIndex.ParseBank: the same.
- EvioIndex.EvioBankIndex.ParseChildren: the same.
- EvioBanks.ElementCount: sizes in bytes that do not fit an `int` wrap, which the C++ language leaves undefined.
- CompositeDecoder.Decode: offsets are unbounded; the code's `int` offset differs only for buffers within 22 bytes of 2 GiB. Bytes read beyond the buffer are arbitrary values.
- CompositeDecoder.ChannelBytes: describes encoded input; the repository has no encoder.
- FrameTime.SetFullTime: the calendar library is replaced by the Gregorian calendar with seconds cut to 32 bits; a stopped assertion leaves the header unspecified.
- PtEvents.ParseFrames: storing a frame past the last hit is an outcome of its own; the overload without samples subtracts payload sizes as `int`, where an overflow below the least `int`, which C++ leaves undefined, wraps here.
- ByteStream.Stream: end-of-file is set by skipping only when bytes are missing; whether it is also set by skipping exactly to the end makes no difference to the reader.
- PtReader.PtFileReader.Open: an allocation that fails for lack of memory, and the iterator classes beyond the position they hold.
- TridasSource.TridasDaqSource.GetEvent: calls after the end of the source, which use a deleted slice; run numbers and reference handling.
- TridasSource.AlignedWaveforms: requires every hit to have a frame and a sample and the event a hit, as the code reads the first of each.
- CalibrationRegistry.RunTable: handlers are registered once and before they are loaded, and `setTable` is not called on a registered handler.
- CalibrationHandlers.KeyOf: identifiers outside the byte range wrap, which the C++ language leaves undefined.
- ThresholdScan.FindCrossings: requires a sample, as the code reads the first and the last; amplitudes are exact reals.
- Clustering.Weight: the logarithm of the energy ratio is an arbitrary function.
- `decodePulse`: the same loops with another entry size.
- Pedestals, charge sums, constant-fraction times, the calorimeter's branches for signals and for several pulses, and the veto's second threshold: floating-point numerics.
- `hasChannel` and the other single-flag accessors: one array access each.
- The trigger words of the TRIDAS event data, the EPICS bank and the waveform pictures: field copying.
- JANA, ROOT, CCDB, the ET source, file opening, printing and plugin registration: outside libraries and I/O.
- Channel maps, geometry tables, Monte Carlo and Python calibration scripts: tables and plumbing.
