# Telemetry converter: a verified model

The converter turns files of framed telemetry records into lines of JSON documents whose sparse histograms have been
made dense. This project models its parts in Dafny and proves what each of them promises, up to one theorem about the
whole way from the bytes of an input file to the lines written (`FileConversion.EndToEnd`).

| Part | Files |
|---|---|
| Record reader: frames in a byte stream, resynchronisation, counters, unpacking | `InputStream`, `Records`, `Inflater`, `TelemetryRecord`, `RecordLaws`, `CounterLaws` |
| Metrics messages: wire format, parser, sizes, serialisers, log framing | `Wire`, `WireLaws`, `Codec`, `CodecLaws`, `FieldLaws`, `EncodingGuide`, `Descriptors`, `MessageParser`, `MixedNumbers`, `MessageWriter`, `Metrics` |
| JSON writer: doubles as decimal texts | `Decimal`, `JsonWriter`, `DoubleTexts` |
| Converters that share a directory | `Converters` |
| Histogram specifications and their cache | `Json`, `HistogramSpecification`, `Revisions`, `HistogramCache` |
| Histogram conversion of a document | `HistogramConverter`, `DocumentConversion` |
| A whole file | `FileConversion` |

`dafny verify dfyconfig.toml` checks everything. Code that changes state in the original is a class or a method with
loops here, proved against functions on values (`Records.ReadFrom`, `Codec.ParseInto`, `JsonWriter.Printed`,
`Revisions.Find`, `DocumentConversion.RewriteAll`, ...); the laws are lemmas about those functions. The converters are a
state machine whose steps are the file operations of `main`.

## What the code does that its documentation does not say

- A fraction of exactly 0.999999995 prints without its last digit and without a carry ("0."), because the tie branch
  lacks the carry of the branch before it. `DoubleTexts.GrammaticalExactly` shows that this is the only exception.
- The test of the prefix `STARTUP_` is inverted: any eight other characters are chopped off and the prefix itself is
  not. Behind a name shorter than eight that reads on into the buffer the document was parsed in, where the name of
  another histogram may stand. `DocumentConversion.ResolvedAsMeantExactly` says when all that makes no difference, and
  `ResolvedWrongly` gives three names for which it does.
- The branch for a document that is already converted cannot be reached: a second conversion reports failure
  (`DocumentConversion.ConvertsAtMostOnce`).
- A text that makes no specification counts as a connection error, not as an invalid histogram
  (`Revisions.CountedExactly`). It has been saved before it is looked at, so every later call with its key is a miss and
  a connection error without asking the server again (`Revisions.BadTextSticks`, `BadFileSticks`). A server that closes
  the connection in mid body is enough for that.
- A specification read back from disk has lost its white space, names included (`Revisions.DiskCopyExactly`,
  `SpaceMatters`), and keys that differ in `/` and `-` share a file, so that one gets the other one's specification
  (`Revisions.ClashExactly`, `ClashExists`).
- Behind a number of a packed field that is not packed itself, the generated parser has the runtime look for the tag of
  a packed block and read a loose number after it. A message that mixes the two forms so is misread
  (`MixedNumbers.MixedMatters`); one that does not is read as the wire format has it, and serialising never writes one
  that does (`MixedNumbers.WrittenIsUnmixed`). `MessageParser.AlikeExactly` says that this is exact for how fields are
  read; final messages may still coincide, as later values replace earlier ones.
- At the end of a stream the character variable is unset, and unless it happens to hold a separator it is counted as a
  corrupt byte (`RecordLaws.EndConserves`; an empty stream counts one, `NothingCounted`).
- A file that cannot be opened is taken for an empty one, and so for done, if its size can be told
  (`FileConversion.ProcessFile`).
- A compressed payload that is cut short makes the unpacking buffer grow until there is no memory.

## Model

| member | source | states |
|---|---|---|
| RecordLaws.RoundTrip | common/TelemetryRecord.cpp:54-151 | For any records within the limits and any bytes between them in which each separator is followed by an oversized header (which may run into the next record), repeated reads return exactly the records whose payload can be processed, in order, and then false, although paths and data may hold separators |
| RecordLaws.LifeIsBalanced | common/TelemetryRecord.cpp:54-186 | Over any run of reads and reports that reset the counters: bytes consumed = bytes rejected in all reports + sizes of all frames, and frames not returned = inflate and parse failures |
| RecordLaws.ReadConserves | common/TelemetryRecord.cpp:54-71 | The same for one Read that returns a record |
| RecordLaws.EndConserves | common/TelemetryRecord.cpp:54-131 | When Read returns false the counts account for every byte up to where it stopped, and for one more if and only if that is the end of the stream and the unset character is no separator |
| RecordLaws.NothingCounted | common/TelemetryRecord.cpp:114-128 | Reading an empty stream counts one corrupt byte |
| RecordLaws.ScanConserves | common/TelemetryRecord.cpp:112-131 | Each byte skipped by the search is counted by exactly one counter |
| RecordLaws.ScanIsLeftmost | common/TelemetryRecord.cpp:112-151 | The search stops at the leftmost acceptable header; when it stops without one, cut-short headers included, there is none at any later position |
| RecordLaws.ReadAllFromPlace | common/TelemetryRecord.cpp:54-107 | What is read depends only on the position, not on counters, reports or earlier frames |
| RecordLaws.ExampleFrame | common/TelemetryRecord.cpp:58-66 | A whole frame spelled out in bytes, as it is written and as it is read: separator, two bytes, four and eight of lengths and timestamp, the least significant first, path, data |
| CounterLaws.ScanCountsExactly | common/TelemetryRecord.cpp:112-151 | A search from p to q raises invalid path lengths by the number of separators between them with a path length over 10 KB behind, invalid data lengths by those with a path length in order and a data length over 200 KB, corrupt data by the bytes that are no separator, and the failure counts not at all |
| CounterLaws.StopsExactly | common/TelemetryRecord.cpp:112-151 | The search goes on at exactly the bytes that are no separator and the separators in front of a path length over 10 KB, or of one in order and a data length over 200 KB; of the others those with 14 bytes behind them start a record |
| CounterLaws.ReadCountsExactly | common/TelemetryRecord.cpp:54-186 | One Read: the stretches it searched and the frames it passed fill the stream in turns from where it began to where it stands, and each of the five counts has risen by the faults of its own kind in them, inflate and parse failures by the frames whose payload failed so |
| CounterLaws.LifeCountsExactly | common/TelemetryRecord.cpp:54-186 | The same over any run of reads and of reports that reset the counts, all reports added up |
| InputStreams.InputStream.ValidIsBounded | common/TelemetryRecord.cpp:112-131 | No byte of the stream is read more than seven times, whatever is read and sought back (Valid is kept by every operation of the stream and of the reader) |
| InputStreams.InputStream.Get | common/TelemetryRecord.cpp:115-117 | One byte, or, at the end, both flags set and the variable left as it was |
| InputStreams.InputStream.Seek | common/TelemetryRecord.cpp:118-125 | Back to just after the separator, with the read count still within its bound |
| TelemetryRecords.TelemetryRecord.constructor | common/TelemetryRecord.cpp:25-43 | Buffers of the sizes promised, each with room for a NUL |
| TelemetryRecords.TelemetryRecord.ReadValue | common/TelemetryRecord.h:23-28 | A little-endian word, or a failed stream and the old word with its first bytes overwritten by what was left |
| Bytes.OverlayBytes | common/TelemetryRecord.h:23-28 | In memory the word is the bytes that were read and, behind them, those of the old word |
| TelemetryRecords.TelemetryRecord.ReadHeader | common/TelemetryRecord.cpp:134-151 | Accepts exactly the complete headers within both limits; a path length over its limit raises the count of invalid path lengths by one and no other, a data length that of invalid data lengths, and the words behind it are not read |
| TelemetryRecords.TelemetryRecord.TryRecord | common/TelemetryRecord.cpp:114-129 | One round of the search: a header found, the stream given up, or exactly one byte skipped and counted, net of the seek |
| TelemetryRecords.TelemetryRecord.FindRecord | common/TelemetryRecord.cpp:112-131 | Stops where Scan stops, with its counts; ends on every stream |
| TelemetryRecords.TelemetryRecord.FindFrame | common/TelemetryRecord.cpp:57-66 | The first frame at or after the position, with its body in the buffers, or a failed stream and the counts at its end |
| TelemetryRecords.TelemetryRecord.TakeBody | common/TelemetryRecord.cpp:58-66 | Path and data of the frame, NUL-terminated in their buffers, or a failed stream if the body is cut short |
| TelemetryRecords.TelemetryRecord.ProcessRecord | common/TelemetryRecord.cpp:154-186 | A document, or exactly one failure counted; gzip payloads are unpacked whole before they are parsed |
| TelemetryRecords.TelemetryRecord.ProcessedExactly | common/TelemetryRecord.cpp:154-186 | What starts with 1f 8b and is longer fails as damaged if its decompression does; else its output, and any other payload itself, is parsed up to its first NUL and fails as unparsable if the parser says so |
| TelemetryRecords.TelemetryRecord.Unpack | common/TelemetryRecord.cpp:156-176 | A complete payload leaves its whole output as a NUL-terminated text in the buffer, unless memory cannot hold it twice; one that is cut short always runs out of memory |
| TelemetryRecords.TelemetryRecord.Read | common/TelemetryRecord.cpp:54-71 | The next processable record as ReadFrom gives it: its path, timestamp and document, the position behind it and the counts; false only at the end of the stream; an exception only for a payload that is cut short or where memory cannot hold every payload twice |
| TelemetryRecords.TelemetryRecord.GetMetrics | common/TelemetryRecord.cpp:93-107 | The message's fields become exactly the five counts under their names, it stays writable, and all five counts are reset |
| TelemetryRecords.ReportedByName | common/TelemetryRecord.h:53-58 | Under each of the five names there is just one metric, with that very count and its unit |
| Inflation.Inflater.Inflate | common/TelemetryRecord.cpp:189-228 | For a complete payload the loop ends with exactly the decompressor's whole output in the buffer, in order across every doubling; until a payload is cut short the buffer never exceeds max(200 KB, twice the largest output so far), and ever after the memory there is; a payload that is cut short ends only for lack of memory |
| Inflation.Inflater.Grow | common/TelemetryRecord.cpp:206-219 | A larger buffer that starts with all that was unpacked so far, or the old one |
| Inflation.Inflater.Terminate | common/TelemetryRecord.cpp:163-175 | A NUL behind the output, growing by one if the output fills the buffer, with the bound kept |
| Inflation.ZStream.Inflate | common/TelemetryRecord.cpp:221-224 | The decompressor as a producer of a fixed output that writes into the space given and asks for more |
| JsonWriter.Writer.WriteDouble | cmake/rapidjson-0_11.patch:36-95 | Appends exactly Printed(d), or the large form above INT_MAX, using at most 19 characters of the buffer |
| JsonWriter.Writer.Round | cmake/rapidjson-0_11.patch:52-66 | Whole part and fraction after rounding, with the carry where the code has one |
| JsonWriter.Writer.WriteFraction | cmake/rapidjson-0_11.patch:70-79 | The fraction's digits backwards without trailing zeros |
| JsonWriter.Writer.WriteNumber | cmake/rapidjson-0_11.patch:84-88 | The shortest digits of the whole part, backwards |
| JsonWriter.Writer.Flush | cmake/rapidjson-0_11.patch:90-94 | The buffer in reverse |
| DoubleTexts.GrammaticalExactly | cmake/rapidjson-0_11.patch:47-94 | The text is a number of section 6 of RFC 8259 if and only if d is not the uncarried tie |
| DoubleTexts.UncarriedTieExists | cmake/rapidjson-0_11.patch:63-66 | 0.999999995 prints "0.", which is not a number |
| DoubleTexts.SignExactly | cmake/rapidjson-0_11.patch:47-51 | The text starts with a sign if and only if d < 0, even if it rounds to 0 |
| DoubleTexts.Accurate | cmake/rapidjson-0_11.patch:47-94 | Otherwise the value of the text is within half a unit of 10^-8 of d, ties go to even except that a tie at fraction 0 goes up, and there are no trailing fraction zeros |
| DoubleTexts.FixedPoint | cmake/rapidjson-0_11.patch:47-94 | Printing the value of a printed text gives the same text, but for negative numbers that print "-0" |
| DoubleTexts.Monotone | cmake/rapidjson-0_11.patch:47-94 | d <= e implies that the printed value of d is at most that of e |
| DoubleTexts.CanonicalIsText | cmake/rapidjson-0_11.patch:68-94 | Every number text without sign, exponent or trailing zeros and with at most eight decimals is the one the writer chooses for its value |
| WireLaws.TokensRoundTrip | common/message.pb.cc:895-1062 | Tokens read back as written, groups included (Protocol Buffers Encoding guide, "Base 128 Varints") |
| WireLaws.TokensOfConcat | common/message.pb.cc:723-893 | Well-formed bytes in front of others only add their tokens |
| Descriptors.TablesAreWellFormed | common/message.pb.cc:293-1543 | In all three parsers every goto leads to the case of the tag it has matched, and all tags are one byte |
| CodecLaws.RoundTrip | common/message.pb.cc:895-1151 | For every message, nested and packed fields and unknown fields included, parsing what serialising wrote gives the message back |
| CodecLaws.ReparseIsStable | common/message.pb.cc:1362-1800 | Whatever bytes parse, the message they give is written in a form that parses to the same message |
| CodecLaws.ConcatIsMerge | common/message.pb.cc:1814-1849 | Parsing the concatenation of any two encodings gives the merge of the two messages: last scalar wins, repeated fields append |
| CodecLaws.ParseIntoIsMerge | common/message.pb.cc:1362-1543 | Parsing into a message that already holds something is parsing apart and merging |
| CodecLaws.PackedOrNot | common/message.pb.cc:815-877 | Packed and unpacked encodings of a repeated number give the same message (Encoding guide, "Packed Repeated Fields") |
| FieldLaws.ParseCollects | common/message.pb.cc:1362-1543 | After parsing into a message a singular field holds the last value the bytes have for it, or what it held if they have none; any other field holds what it held and then all their values in order; and all that no field takes is added to the unknown fields in order |
| FieldLaws.LastScalarWins | common/message.pb.cc:1814-1849 | Of two encodings one behind the other, a singular field has the value of the second if that has one, else that of the first; any other has the values of both in order |
| FieldLaws.WrittenInOrder | common/message.pb.cc:1545-1623 | Fields are written by ascending number, unknown ones behind them |
| EncodingGuide.VarintGroups | common/message.pb.cc:936-944 | A varint is the number in groups of seven bits, the least significant one first (Encoding guide, "Base 128 Varints") |
| EncodingGuide.VarintBytes | common/message.pb.cc:936-944 | All bytes but the last have the top bit set, and no byte is wasted |
| EncodingGuide.VarintRead | common/message.pb.cc:315-322 | Any bytes that go on, nine at most, and one that does not are read as the low 64 or 32 bits of their groups, be it the shortest form or not; what has no end or comes to it later is refused |
| EncodingGuide.TwosComplement | common/message.pb.cc:1576-1579 | A number is written as its two's complement of 64 bits, whatever its type |
| EncodingGuide.ReadInType | common/message.pb.cc:815-875 | A number read is the one of its type with the same low bits |
| EncodingGuide.UnknownEnum | common/message.pb.cc:750-758 | An enum number that the type does not know becomes an unknown field with that number, sign-extended |
| EncodingGuide.RefusedTypes | common/message.pb.cc:880-888 | Wire types 6 and 7, a group end without its start and tag 0 are refused |
| EncodingGuide.GroupEnds | common/message.pb.cc:880-888 | A group ends with the end tag of its own number and with no other |
| EncodingGuide.PackedExample | common/message.pb.cc:936-944 | The guide's own packed field, byte by byte |
| MixedNumbers.LooseOrPacked | common/message.pb.cc:815-877 | Neither of the two encodings mixes, so the parser with gotos and reading ahead reads both of them alike, too |
| MessageParser.PlainLoop | common/message.pb.cc:723-893 | The meaning of the bytes is that of a plain loop that reads a tag and dispatches on it |
| MessageParser.MessageObject.MergePartialFromCodedStream | common/message.pb.cc:723-893 | On every input in which no loose number is directly followed by a block of its field, the parser with its gotos and its reading ahead gives what the plain loop gives, for every pattern of ExpectTag and ExpectAtEnd answers, which may decline a match |
| MessageParser.MessageObject.Follow | common/message.pb.cc:796-798 | After a field: whichever expected tags are taken or declined, the plain loop entered there has the same result |
| MessageParser.MessageObject.ReadField | common/message.pb.cc:815-834 | The case of one field, in its own or in its other wire type, on any input: the effect of its token and then of as many further numbers as were taken ahead |
| MessageParser.MessageObject.ReadMore | common/message.pb.cc:827-829 | The loop for further loose numbers behind the tag it is given, which may stop at any of them |
| MessageParser.DiffersExactly | common/message.pb.cc:824-829 | At a field that can be read, reading ahead makes a difference if and only if it is a loose number with a block of its field directly behind |
| MessageParser.AlikeExactly | common/message.pb.cc:723-893 | Every field of an input, nested messages included, is read alike however far the parser goes ahead, if and only if no loose number in it stands in front of a block |
| MessageParser.UnmixedOutcome | common/message.pb.cc:824-829 | On such input each field has the effect of its token |
| MixedNumbers.WrittenIsUnmixed | common/message.pb.cc:895-970 | What serialising writes never has a loose number in front of a block, nor have two messages written one behind the other |
| MixedNumbers.MixedMatters | common/message.pb.cc:827-829 | A loose 5 in front of the block of 8 and 1 means 5, 8, 1 and may be read as 5, 2 without an error |
| MessageParser.MessageObject.ReadPackedValues | common/message.pb.cc:818-823 | All values of a packed field, appended |
| MessageParser.MessageObject.ReadMessage | common/message.pb.cc:1515-1521 | A nested message must use up exactly its own length |
| MessageParser.MessageObject.MergeFrom | common/message.pb.cc:1814-1849 | A singular field becomes the other message's if that has it and stays as it was if not; any other field, and the unknown ones, get the other message's appended; for all three messages |
| MessageParser.MessageObject.Clear | common/message.pb.cc:1319-1360 | The empty message |
| MessageWriter.ByteSize | common/message.pb.cc:1064-1151 | The number of bytes serialising writes, computed without writing, and every cached size it needs on the way |
| MessageWriter.PackedDataSize | common/message.pb.cc:1103-1118 | The size of packed values, by element or by count |
| MessageWriter.PackedTokenSize | common/message.pb.cc:1103-1140 | The size code's test for a data size above 0 and the writer's test for elements agree, because no value takes 0 bytes |
| MessageWriter.SerializeWithCachedSizes | common/message.pb.cc:895-970 | Writes exactly the encoding, to a stream or into an array of just the size promised |
| MessageWriter.SerializePacked | common/message.pb.cc:936-964 | Tag and cached size only if there are values, then the values |
| Metrics.ConstructField | common/Metric.cpp:18-26 | Appends one field with name, representation, type and one value, changes nothing else, and keeps the message writable |
| Metrics.Report | common/HistogramCache.cpp:63-72 | What GetMetrics does to a message: its fields become exactly those of the metrics, the rest stays, and the message may be written |
| Metrics.ReportComesBack | common/Metric.cpp:18-41 | A report that was written is read back with every name, representation and value, in order, whatever follows it |
| Metrics.WriteMessage | common/Metric.cpp:29-41 | Appends one frame to a stream that may fail at any byte: all of it, or the beginning that was taken; a failed stream takes nothing |
| Metrics.CutLog | common/Metric.cpp:29-41 | Where writing failed in the middle of a frame, exactly the messages before it are read back |
| Metrics.HeaderBytes | common/message.pb.cc:398-435 | A header with only the length set takes 2 to 6 bytes, so its length fits the one byte it gets |
| Metrics.FieldBytes | common/Metric.cpp:19-26 | The bytes of one metric: 0a and the name, 10 03 for the type double, 1a and the representation, 3a 08 and the eight bytes of the value |
| Metrics.FrameBytes | common/Metric.cpp:29-41 | The bytes of a frame: 1e, the header's size, 08 and the message's size as a varint, 1f, and the message |
| Metrics.FrameRoundTrip | common/Metric.cpp:35-40 | A frame with anything behind it is read back as that message and what follows |
| Metrics.LogRoundTrip | common/Metric.cpp:29-41 | Any sequence of messages decodes to that sequence, although payloads may hold both separators |
| Metrics.LogIsUnique | common/Metric.cpp:29-41 | Different sequences never give the same bytes |
| Converters.ReachableInv | convert.cpp:302-365 | The invariant of every interleaving of any number of converters with deliveries |
| Converters.KeepsInv | convert.cpp:312-363 | Each step of main keeps it |
| Converters.NoLostWakeUp | convert.cpp:302-363 | A converter blocked in read without an event implies that the input directory is empty |
| Converters.ExactlyOnePlace | convert.cpp:312-358 | Each delivered file is in exactly one place: waiting, claimed by one converter, kept after a failure, or removed |
| Converters.RemovedExactly | convert.cpp:322-328 | Over every run from the start, a delivery has been removed if and only if some converter finished successfully what it had claimed and that was this delivery; it is kept in the temp directory with no one working on it if and only if one finished it with a failure |
| Converters.OneOutcome | convert.cpp:322-328 | No delivery is finished twice with different outcomes |
| Converters.ExclusiveClaim | convert.cpp:324-328 | No delivery is claimed twice, by whomever, and a converter works on what it has claimed |
| Converters.RenameLosesExactly | convert.cpp:324-325 | A rename loses a file if and only if a namesake is still in the temp directory, and then exactly that one |
| Converters.RunsAreShort | convert.cpp:312-363 | Between deliveries the converters together take at most Effort steps |
| Converters.QuietMeansDone | convert.cpp:312-363 | When no converter can move and one is not stopped, nothing is left to do |
| Converters.ComesToRest | convert.cpp:312-363 | From every reachable state such an end is reached |
| HistogramSpecification.NewDefinition | common/HistogramSpecification.cpp:22-66 | Accepts exactly the well-formed definitions; each bound leads to its first place and there are as many bounds as buckets |
| HistogramSpecification.MadeAsWritten | common/HistogramSpecification.cpp:22-66 | From a definition written down with kind, min, max and bounds these very values come back, each under its own name |
| HistogramSpecification.NotAcceptable | common/HistogramSpecification.cpp:24-66 | A definition that lacks any of its five members, or has another number of bounds than it says, is refused |
| Json.LexicalIntExactly | common/HistogramSpecification.cpp:29-29 | A kind is a whole text of digits behind at most one sign that stands for an int, and stands for that |
| HistogramSpecification.BucketIndexInverse | common/HistogramSpecification.cpp:69-77 | With distinct bounds the index of a bound is the place it stands at, and nothing else has an index; bounds are longs looked up as ints |
| HistogramSpecification.LoadDefinitions | common/HistogramSpecification.cpp:118-145 | Succeeds exactly if all definitions are acceptable; of definitions with the same name the first is kept |
| HistogramSpecification.RepresentsOne | common/HistogramSpecification.cpp:118-145 | A document leads to one set of definitions |
| HistogramCaches.Specification.GetDefinition | common/HistogramSpecification.cpp:105-113 | The definition made from the first member of that name in the document, if there is any |
| HistogramCaches.NewSpecification | common/HistogramSpecification.cpp:80-89 | A specification exactly for a text that parses to acceptable definitions, and then theirs |
| HistogramCaches.HistogramCache.FindHistogram | common/HistogramCache.cpp:36-60 | Refines Revisions.Find in both maps, disk, counters and answer, and the answer is the object that the content cache holds for its text |
| HistogramCaches.HistogramCache.LoadHistogram | common/HistogramCache.cpp:85-196 | Refines Revisions.Load, which leaves both maps alone when it throws |
| HistogramCaches.HistogramCache.AdmitText | common/HistogramCache.cpp:180-195 | A text already known by its digest gives the revision the same object; a new one makes one entry in each map, or throws with both unchanged |
| HistogramCaches.HistogramCache.Sharing | common/HistogramCache.cpp:186-194 | Two revisions hold the same object if and only if the texts digested were equal |
| HistogramCaches.HistogramCache.GetMetrics | common/HistogramCache.cpp:63-80 | The message's fields become exactly the six counts under their names, it stays writable, and all six counts are reset |
| HistogramCaches.ReportedByName | common/HistogramCache.h:57-63 | Under each of the six names there is just one metric, with that very count and its unit |
| Revisions.AgreesWithFreshLoad | common/HistogramCache.cpp:36-196 | After any calls with any failures, an answer is that of loading afresh, or null from a visit to the server that failed in that very call; one answered from a map or from the disk never is |
| Revisions.FindIsFresh | common/HistogramCache.cpp:36-196 | One call keeps the cache sound and answers as a fresh load would, unless it had to visit the server and that failed |
| Revisions.SameFileExactly | common/HistogramCache.cpp:89-92 | Two keys share a file if and only if they are of one length and differ at most where each has a slash or a dash; so AgreesWithFreshLoad asks only that such keys have one specification |
| Revisions.EntriesStay | common/HistogramCache.cpp:149-195 | No entry of either map, and no file, ever changes or goes away |
| Revisions.AnswersStay | common/HistogramCache.cpp:45-48 | A revision once entered, null included, gets the same answer for ever, as a hit and without a visit to the server |
| Revisions.WhatIsEntered | common/HistogramCache.cpp:134-195 | A miss enters only its own key, with the answer given, and exactly if there is one or the server refused; a throwing load changes neither map |
| Revisions.SharedExactly | common/HistogramCache.cpp:180-190 | In every sound state equal digests mean one specification |
| Revisions.CountersBalance | common/HistogramCache.cpp:36-60 | Every call is counted once as invalid, hit or miss, and every miss is either answered or counted as exactly one error |
| Revisions.CountedExactly | common/HistogramCache.cpp:36-176 | For each call, in terms of key, reply and cache, exactly when each of the six counters rises, and what is saved: invalid revisions by the key alone; connection errors for a server that cannot be reached, a connection that fails in the text and a text of no specification; HTTP errors for what is no HTTP and for any status but 200; invalid histograms for a text that cannot be copied |
| Revisions.BadTextSticks | common/HistogramCache.cpp:165-192 | A text that makes no specification is saved and not answered |
| Revisions.BadFileSticks | common/HistogramCache.cpp:89-192 | From then on, over any calls and whatever the server says, each call with that key is a miss and a connection error without an answer, and enters and saves nothing |
| Revisions.FileDecides | common/HistogramCache.cpp:177-195 | Whoever wrote the file, a first load from it gives the specification of its text without white space |
| Revisions.DiskCopyExactly | common/HistogramCache.cpp:177-178 | A first load from the server's text on disk agrees with a fresh load if and only if white space does not matter to the specification |
| Revisions.SpaceMatters | common/HistogramCache.cpp:177-178 | A specification with a space in a name is another one when it comes back from the disk |
| Revisions.RestartFromDisk | common/HistogramCache.cpp:165-178 | What one cache has saved gives a later one the answer of a fresh load, even if the server is gone |
| Revisions.StripIsIdentity | common/HistogramCache.cpp:178-178 | Exactly the texts without white space are read back as they were written |
| Revisions.StripOne | common/HistogramCache.cpp:178-178 | One character survives the read unless it is white space |
| Revisions.StripConcat | common/HistogramCache.cpp:178-178 | And a text character by character, in order |
| Revisions.ClashExactly | common/HistogramCache.cpp:89-92 | Of two keys with one file, once the first was loaded and saved, the second is answered rightly if and only if the first one's text without white space makes the second one's specification |
| Revisions.ClashExists | common/HistogramCache.cpp:89-92 | http://a/b and http://a-b share a file, and the second gets the first one's specification |
| HistogramConverter.RewriteValues | common/HistogramConverter.cpp:85-110 | Succeeds exactly on histograms all of whose values are ints under known bounds; slot j is then the value of the last member whose bound maps to j, or 0, and every write is in range |
| Json.StrToLReads | common/HistogramConverter.cpp:100-100 | Behind any white space and in front of anything but digits, the decimal digits of n stand for n, behind a minus for -n, saturating at the ends of long |
| Json.NameStandsForNumber | common/HistogramConverter.cpp:100-100 | The name made of the digits of a long, signed if it is negative, stands for that long |
| Json.NarrowKeepsLowBits | common/HistogramConverter.cpp:102-102 | The long is looked up as the int with the same low 32 bits |
| HistogramConverter.NextMember | common/HistogramConverter.cpp:94-108 | One member more puts its value into its own slot, over what was there, and leaves all others alone |
| HistogramConverter.CountGoesToItsSlot | common/HistogramConverter.cpp:94-108 | With distinct bounds and counts named after bounds in decimal, each once, the count named after the j-th bound ends up in slot j |
| HistogramConverter.StrayIsRefused | common/HistogramConverter.cpp:96-106 | A count that is no int, or is named after a number that is no bound, makes the histogram not convertible |
| HistogramConverter.IndexInRange | common/HistogramSpecification.cpp:49-65 | Because of the count check no index is past the buckets |
| HistogramConverter.SlotsSum | common/HistogramConverter.cpp:94-109 | The total of the dense form is that of the sparse one less the counts that were replaced because their bound was given again |
| HistogramConverter.TotalPreservedExactly | common/HistogramConverter.cpp:94-109 | The total is preserved if and only if the replaced counts add up to 0; with distinct bounds nothing is replaced |
| HistogramConverter.Rebuilt | common/HistogramConverter.cpp:94-109 | The last nonzero count of each bound can be rebuilt from the dense form, for any members |
| DocumentConversion.ResolvedAsMeantExactly | common/HistogramConverter.cpp:123-134 | The definition found is the one meant if and only if the name is defined itself or the text eight characters on from its start, which may lie behind it in the buffer, is not defined |
| DocumentConversion.ResolvedWrongly | common/HistogramConverter.cpp:126-131 | TELEMETRX is taken for X, STARTUP_X is not, and ABCD is taken for GC_MS that stands four characters behind it |
| DocumentConversion.RewriteHistogram | common/HistogramConverter.cpp:113-170 | The members in place become RewriteAll of what they were |
| DocumentConversion.RewriteAt | common/HistogramConverter.cpp:122-167 | One member: found, renamed, rewritten or left, and no other changed |
| DocumentConversion.RewriteMember | common/HistogramConverter.cpp:136-161 | The array of counts and summaries exactly if the histogram is convertible, else the value as it was |
| DocumentConversion.RewriteShape | common/HistogramConverter.cpp:113-170 | On success each object with a definition has become exactly bucketCount + 5 numbers, its slots and its own summaries, and all others are unchanged; on failure exactly a prefix is rewritten, up to the first that is not convertible |
| DocumentConversion.FiveSummaries | common/HistogramConverter.cpp:141-160 | Behind the slots stand the five summaries in their order, numbers as reals, and -1 for one that is missing or no number |
| DocumentConversion.RewriteTwice | common/HistogramConverter.cpp:113-170 | Running it twice equals running it once, for all members |
| DocumentConversion.ConvertHistogramData | common/HistogramConverter.cpp:29-82 | Document, result and cache after the call; the cache is asked only for a document with all that is needed and version 1 |
| DocumentConversion.AttemptExactly | common/HistogramConverter.cpp:29-82 | Exactly a document whose info object has a text as revision, with a histograms object and version 1, has the cache asked for that revision; if the cache knows it the histograms are rewritten and the version is 2 or -1; otherwise nothing is touched |
| DocumentConversion.ConvertedOnce | common/HistogramConverter.cpp:49-81 | The version becomes 2 or -1, so the document is never ready again, and all else but the histograms is as it was |
| DocumentConversion.ConvertsAtMostOnce | common/HistogramConverter.cpp:49-81 | Over any sequence of calls the document is rewritten only by the first that finds a specification, and success is reported at most once |
| FileConversion.ExtractUuid | convert.cpp:187-190 | The path up to its first slash or its end |
| FileConversion.HandleRecord | convert.cpp:185-201 | One record: a line at the path of its converted document and its bytes counted, or a failure counted |
| FileConversion.LineExactly | convert.cpp:187-193 | For a path that starts with the id and then a slash or nothing, the line is the id, a tab, the document and a newline |
| FileConversion.ProcessFile | convert.cpp:171-230 | Handles the records that repeated reads give, in order: all of them, and successfully, unless a payload is cut short, memory cannot hold every payload twice, or the size cannot be told; and in these cases a prefix of them; a file that cannot be opened is an empty one |
| FileConversion.ConvertedHasInfo | common/TelemetrySchema.cpp:95-101 | A converted document has the info object without which the schema throws |
| FileConversion.CountsAddUp | convert.cpp:184-202 | Records processed = lines written + records failed, and data out = the length of the lines, whatever happened |
| FileConversion.CacheDoesNotShow | convert.cpp:184-202 | With a truthful server, whatever fails at it, the lines are those of converting with a fresh specification exactly the records for which nothing failed, whatever the cache holds |
| FileConversion.AllServed | convert.cpp:184-202 | If no visit goes wrong these are all records |
| FileConversion.EndToEnd | convert.cpp:171-230 | A file of records with rubbish between them: each record that can be unpacked, parsed and converted, and for which nothing failed at the server, comes out as its own line, in order, and nothing else does |

## Left out

- Sockets, HTTP parsing, files, inotify and signals: only their outcomes are modelled (a reply, an atomic rename, an
  event queue). The server's answer for a revision does not change, a text is saved whole or not at all, and nobody else
  changes the cached files.
- zlib, MD5, the JSON parser and the JSON writer other than for doubles: functions or producers with the promises stated
  at their declarations. MD5 is taken to be free of collisions where a law needs it (`Revisions.NoCollision`).
- InputStreams.InputStream.Get: a stream that is at its end but has not failed (eof without fail) does not occur when
  the reader is called, and is excluded by Valid.
- TelemetryRecords.TelemetryRecord.Read: the parser's rewriting of the buffer in place, and the document's pointers into
  it, are captured only as the text behind the names of histograms. Where memory cannot hold every payload twice it is
  left open on which of them it runs out.
- Inflation.Inflater.Inflate: a failure to initialise zlib and its 32-bit output count are not modelled; allocation
  fails beyond a fixed amount of memory.
- JsonWriter.Writer.WriteDouble: exact reals instead of IEEE doubles; the text of doubles above INT_MAX is a parameter;
  below -INT_MAX the original's conversion to int is undefined, so such values are excluded (`JsonWriter.InRange`).
- The protobuf runtime beyond the wire format: the recursion limit, UTF-8 checks, the check for required fields, sizes
  of 2 GB and more, string ownership, descriptors and registration. Doubles are their 64 bits.
- MessageParser.MessageObject.ReadMore: the runtime's loop is not part of the repository; it is modelled as reading on
  while it finds the tag it was given, for as long as it likes.
- MessageParser.MessageObject.MergePartialFromCodedStream: the three generated parsers are one method that follows
  tables of their cases and gotos; nested messages are kept as values.
- MessageWriter.SerializeWithCachedSizes: the two generated serialisers are one method; the array is a limited output
  whose identity is not captured.
- Converters.NoLostWakeUp: partially written files seen by the scan, overflow of the event queue, and renames across
  devices. A name is not delivered again while a namesake is in the temp directory, and a signal may stop a converter
  only between files.
- DocumentConversion.RewriteHistogram: what stands behind a name shorter than eight is a parameter.
- DocumentConversion.ConvertHistogramData: the members of the histograms object are copied out and back, so their
  identity is not captured; a document whose root is not an object, and names that hold a NUL.
- FileConversion.ProcessFile: time metrics and the file's size. The schema's path for a document is a parameter
  (`TelemetrySchema`: dimensions mapped to directory names, characters that are not safe in a path replaced), and the
  writer (`RecordWriter`, empty in the repository) keeps what it is given.
- MessageParser.MessageObject.MergePartialFromCodedStream: for input that mixes loose numbers and blocks only the reading
  of each field is stated (`ReadField`), not the message that comes out.
- Batch mode, which calls `ProcessFile` for each argument, `ReadConfig`, `RollLog` and console output: they hold no state
  that the rest depends on.
