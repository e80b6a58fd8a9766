# Hot path, verified

A Dafny model of the order-execution hot path: the wire protocol that carries wake messages and acks, the
connection loop that answers and fires them, the kill switch and the price grid in front of a real order, and the
telemetry pipeline behind it. `dafny verify dfyconfig.toml` checks the whole project.

The model keeps the form of the source. The ring, the JSON reader and writer, the codec, the telemetry writer, the
socket loops, the kill switch and the server are classes and methods that update fields, arrays and buffers in
place; each is proved against a function or predicate, and the properties are proved about those. Concurrency is
modelled as state machines with one transition per load, store or system call.

## How it fits together

- **Text.** `Bytes`, `Utf8`, `Errors`; `JsonStrings` and `JsonNumbers` hold the string and number grammar of sections 6
  and 7 of RFC 8259 as data (pieces of a literal, parts of a number), what the scanner does with text, and both
  directions between the two; `JsonGrammar` adds values, arrays, objects and the whitespace between tokens.
  `JsonReader` and `JsonWriter` are the pull parser and the writer, statement by statement; `JsonSpelling` holds the
  escapes, literals and layouts against text written out.
- **Records.** `WireKeys`, `WireText` (what the decoders read, as functions of the remaining text), `WireGrammar`,
  `WireSoundness` and `WireRecords` (the decoders accept exactly the records of the grammar), `Wire`,
  `WireRoundTrip`, `WireLengths`, `WireRejections` (how long a rejection can get), `WireDecoding`, `WireNames`
  (the records with every name and word written out), and `Codec`, the imperative encoders and decoders.
- **Ring and telemetry.** `RingIndex` (wrapping counters, masks), `SpscRing` (the class), `RingProtocol` (producer and
  consumer interleaved, acquire loads that may be stale, rows copied word by word), `TelemetryStore` (SQLite as committed tables
  plus one transaction whose statements may fail at will), `Telemetry` (`record`, `insert`, `write_batch`, the drain),
  `TelemetryRun` (recorder, writer and `close()` as one machine).
- **Executor.** `Pricing`, `KillSwitch`, `Frames`, `Sockets`, `Executor` (the server class and its event log),
  `Accounts` (its counters), `ExecutorRuns` (what every log satisfies), `Orders` (the orders against the
  frames they come from), `StopHandshake` (`stop()` against the serving thread).

Two things are parameters of the whole model rather than parts of it. `std::from_chars` for doubles is any function of the
sign and the decimal value of a token; the round trip of a wake asks only what the standard promises of the doubles in
that wake, that the shortest digits of each read back as it (`ReadsBack`). Acks hold no double and ask nothing of it.
SQLite, the kernel, the clocks and the file system are environments that may answer anything their interface allows.

Where the source and its comments disagree the model follows the source: `src/json.hpp` says that scientific notation
never carries a fractional digit, while `format_double` writes one whenever there is more than one digit.

## Facts that may surprise

- A real order passes the price guard before its price is snapped, and the ranges of a message are not checked, so the
  price on the order can be 0 (`SnapMayReachZero`), 1, or above 1 (`SnapMayExceedOne`): `SnappedPriceStaysOpen` gives, for
  every grid, the exact band in which it stays between them.
- `size()` is within the capacity for the producer and the consumer; for any other thread it holds exactly when the two
  loaded counters are in order, but for whole turns of them (`ThirdPartySize`), and `ThirdPartyCanWrap` is a run where they are not.
- A kill file that cannot be looked up counts as absent (`FailureReadsAsReleased`); the bound on the delay needs looks
  that succeed, and is then exact (`StaleJustBefore`).
- A rejected ack may exceed the frame cap (`RejectionMayNotFit`): it repeats up to the whole body, and every rejection of a
  body length fits exactly when that length leaves 108 bytes and the time stamp (`RejectionsFitExactly`). An accepted ack
  always fits (`AckShorterThanWake`).
- A NaN passes the price guard. It cannot come off the wire, because no number token is one.
- `acks_accepted` exceeds the fires by one for each connection that ended on an accepted ack that could not be sent.

## Model

| member | source | states |
|---|---|---|
| `RingIndex.CapacityOf` | include/hotpath/spsc_ring.hpp:30-34 | the number of slots is the least power of two that is at least two and at least what was asked for |
| `RingIndex.BitCeilIsLeast` | include/hotpath/spsc_ring.hpp:33 | `bit_ceil` is the least power of two not below its argument |
| `RingIndex.MaskIsModulo` | include/hotpath/spsc_ring.hpp:45 | bitwise and with one less than a power of two is the remainder modulo that power |
| `RingIndex.MaskedSlot` | include/hotpath/spsc_ring.hpp:45-58 | the masked position of a counter wrapped at 2^64 is the position of the unbounded counter, across overflow |
| `RingIndex.WrappedDifference` | include/hotpath/spsc_ring.hpp:72-74 | the subtraction of wrapped counters is the true difference while that is below 2^64 |
| `RingIndex.SlotsDiffer` | include/hotpath/spsc_ring.hpp:45-58 | counters less than a capacity apart have different slots |
| `SpscRing.Ring.constructor` | include/hotpath/spsc_ring.hpp:32-34 | an empty ring whose capacity is the least allowed one |
| `SpscRing.Ring.TryPush` | include/hotpath/spsc_ring.hpp:37-48 | refused exactly when every slot holds a row, otherwise the row is appended and nothing else changes |
| `SpscRing.Ring.TryPop` | include/hotpath/spsc_ring.hpp:50-61 | refused exactly when no row is left, otherwise the oldest row is removed and returned |
| `SpscRing.Ring.Size` | include/hotpath/spsc_ring.hpp:65-67 | the number of rows, within the capacity |
| `RingProtocol.StepHolds` | include/hotpath/spsc_ring.hpp:37-61 | every load, store and word copy of either side keeps the order of the counters, the contents of the slots and the rows in hand |
| `RingProtocol.NoRace` | include/hotpath/spsc_ring.hpp:45-58 | the slot being written is never the slot being read |
| `RingProtocol.RefusalShows` | include/hotpath/spsc_ring.hpp:39-56 | a push or pop is refused exactly when the index its reload returned shows the ring full or empty |
| `RingProtocol.SizeInRange` | include/hotpath/spsc_ring.hpp:63-67 | `size()` from the producer or the consumer lies within the capacity, and is exact when its load is the newest |
| `RingProtocol.ThirdPartySize` | include/hotpath/spsc_ring.hpp:65-67 | for a third thread the size is in range exactly when, but for whole turns of the counters, the head it saw is at the tail it saw or at most a ring ahead |
| `RingProtocol.ThirdPartyCanWrap` | include/hotpath/spsc_ring.hpp:65-67 | a run from the start in which a third thread gets 2^64 - 1 |
| `RingProtocol.RunHolds` | include/hotpath/spsc_ring.hpp:37-61 | the invariant holds in every state of every run |
| `RingProtocol.StepIsQueueStep` | include/hotpath/spsc_ring.hpp:37-67 | each step is a step of a bounded queue: the publishing store adds or removes a row, every other step changes nothing |
| `RingProtocol.RingRefinesQueue` | include/hotpath/spsc_ring.hpp:37-74 | every run, with stale loads and counter overflow, is a run of the bounded queue; with newest loads refusals happen only when it is full or empty |
| `RingProtocol.RingIsSafe` | include/hotpath/spsc_ring.hpp:37-74 | from the start: tail_cache <= tail <= head_cache <= head <= tail_cache + capacity, popped rows are a prefix of pushed rows, no shared slot, refinement of the queue |
| `Telemetry.PackedEvent` | src/telemetry.cpp:223-233 | copying an id into the fixed block of a row and reading it back gives the event |
| `Telemetry.Writer.Insert` | src/telemetry.cpp:321-344 | on success the parent and the event are in the open transaction; committed tables are untouched; fails exactly on a refused row when only rows are refused |
| `Telemetry.Writer.WriteWhole` | src/telemetry.cpp:287-305 | the whole batch is committed in order or nothing is, and no transaction stays open |
| `Telemetry.Writer.WriteRow` | src/telemetry.cpp:311-317 | one row and its parent are committed or nothing is |
| `Telemetry.Writer.WriteRows` | src/telemetry.cpp:307-318 | the row by row retry commits exactly the rows it counts as written, in order |
| `Telemetry.Writer.WriteBatch` | src/telemetry.cpp:286-319 | for every pattern of failures: written + failed grows by the batch size, the committed rows are the counted ones once each and in order with their parents, and when only some rows are refused exactly those are lost |
| `Telemetry.WithRowsAdds` | src/telemetry.cpp:321-344 | what committed rows add to the tables: themselves in order, and exactly their parents |
| `Telemetry.MarkedPartition` | src/telemetry.cpp:302-318 | kept and lost rows together are the batch, each row in one of them |
| `Telemetry.Sink.Record` | src/telemetry.cpp:217-240 | queued last, or dropped under exactly one counter: id over 128 bytes, or ring full |
| `Telemetry.Sink.TakeBatch` | src/telemetry.cpp:269-273 | the oldest rows, in order, as many as there are up to 500 |
| `Telemetry.Sink.DrainAndReturn` | src/telemetry.cpp:260-284 | once stopping is read, every queued row is written or counted as failed, the ring is emptied and the writer returns |
| `Telemetry.AccountedConcat` | src/telemetry.cpp:264-283 | the accounts of consecutive batches add up |
| `TelemetryRun.WordsReadBack` | src/telemetry.cpp:223-233 | a row copied word by word through a slot is the event that `insert` binds |
| `TelemetryRun.MoveSound` | src/telemetry.cpp:217-284 | every step of recorder, writer and `close()` keeps conservation, the known stop and the batch bound |
| `TelemetryRun.RunAccountsForEveryCall` | src/telemetry.cpp:217-284 | over every run each `record` call is in exactly one of oversized, ring full, written, failed, recorder, ring or batch; the writer has returned only after every push that happens before the stop was taken out |
| `TelemetryRun.DrainDecreases` | src/telemetry.cpp:264-283 | after the stop is read every move of the writer lowers a rank led by the ring occupancy |
| `TelemetryRun.WriterCanMove` | src/telemetry.cpp:264-283 | until it returns the draining writer has a move |
| `TelemetryRun.DrainTerminates` | src/telemetry.cpp:264-283 | the drain takes a bounded number of moves, and where it can go no further it has returned with the ring empty |
| `Utf8.EncodeIsOctets` | src/json.cpp:52-68 | every scalar value is encoded as one well-formed character of section 4 of RFC 3629, and decodes back |
| `Utf8.WellFormedIffEncoded` | src/json.cpp:52-68 | a byte string is well formed exactly when it is the encoding of some scalar values |
| `JsonStrings.ScanPrinted` | src/json.cpp:469-594 | every literal of the grammar, however written, scans to its denotation and stops after the quote |
| `JsonStrings.ScanSound` | src/json.cpp:469-594 | whatever is accepted is a literal of the grammar denoting the result |
| `JsonStrings.ScanStringComplete` | src/json.cpp:469-511 | the same for a literal after whitespace |
| `JsonStrings.ScanStringSound` | src/json.cpp:469-511 | an accepted text is whitespace, a literal and the rest |
| `JsonStrings.ScannedIsUtf8` | src/json.cpp:469-644 | every accepted string is well-formed UTF-8, whatever mix of raw runs, escapes and surrogate pairs produced it |
| `JsonStrings.EncodedStringScans` | src/json.cpp:171-211 | scanning an encoded string succeeds exactly when it is well-formed UTF-8, and then returns it and stops just after the quote |
| `JsonStrings.EncodedStringRoundTrip` | src/json.cpp:171-211 | the same through `scan_string`, whatever precedes as whitespace and whatever follows |
| `JsonStrings.ReencodingNotLonger` | src/json.cpp:171-211 | encoding a decoded string takes no more bytes than the literal it came from |
| `JsonNumbers.ScanNumberComplete` | src/json.cpp:412-467 | every number of section 6 of RFC 8259 followed by a delimiter is consumed exactly |
| `JsonNumbers.ScanNumberSound` | src/json.cpp:412-467 | every accepted token is such a number |
| `JsonNumbers.LayoutLength` | src/json.cpp:72-163 | the text of a finite double is at most 24 bytes |
| `JsonNumbers.LayoutValue` | src/json.cpp:72-163 | the text denotes exactly the decimal value, on all three layouts |
| `JsonNumbers.FormattedDoubleScans` | src/json.cpp:72-163 | the text is a number, short, read back whole as non-integral before a delimiter, with the same sign and value |
| `JsonNumbers.DoubleUnique` | src/json.cpp:72-163 | sign, shortest digits and exponent are determined by sign and value |
| `JsonReader.Reader.SkipWhitespace` | src/json.cpp:236-244 | the position moves past the whitespace and no further |
| `JsonReader.Reader.Expect` | src/json.cpp:255-267 | consumes exactly the expected byte, or keeps the first failure |
| `JsonReader.Reader.PushLevel` | src/json.cpp:269-276 | opens a level and marks it first, or fails at the depth cap |
| `JsonReader.Reader.Begin` | src/json.cpp:278-307 | an opening bracket starts a new level whose first flag is set, the flags of the other levels unchanged |
| `JsonReader.Reader.Next` | src/json.cpp:282-327 | finds a comma, the first member or element, or the end of the level, and keeps the flags of the enclosing levels |
| `JsonReader.Reader.ScanNumber` | src/json.cpp:412-467 | the token and its integrality are those of the number grammar |
| `JsonReader.Reader.ScanRuns` | src/json.cpp:469-511 | copying raw runs in batches gives what decoding a character at a time gives |
| `JsonReader.Reader.ScanString` | src/json.cpp:469-511 | the reader returns the string of the grammar and stops after it, or fails with its reason |
| `JsonReader.Reader.AppendEscape` | src/json.cpp:513-546 | short escapes and `\u` escapes append what they denote |
| `JsonReader.Reader.AppendCodePoint` | src/json.cpp:548-594 | one `\u` escape or surrogate pair appends the encoding of its scalar value; a lone half is refused |
| `JsonReader.Reader.ValidateUtf8Run` | src/json.cpp:599-644 | steps over exactly one multi-byte character, or fails |
| `JsonReader.Reader.ReadInt` | src/json.cpp:333-351 | an integral token in the 64-bit range gives its value |
| `JsonReader.Reader.ReadDouble` | src/json.cpp:353-371 | a number token gives what `from_chars` makes of its sign and value |
| `JsonReader.Reader.ReadBool` | src/json.cpp:373-389 | true and false and nothing else |
| `JsonReader.Reader.AtDocumentEnd` | src/json.cpp:404-410 | nothing but whitespace is left |
| `JsonWriter.ReadScientific` | src/json.cpp:72-110 | sign, digits and exponent are recovered from the scientific text |
| `JsonWriter.FormatDouble` | src/json.cpp:72-163 | the buffer holds the layout of the value, in at most 24 bytes; a non-finite value becomes null |
| `JsonWriter.Buffer.AppendString` | src/json.cpp:171-211 | appends the quoted and escaped text |
| `JsonWriter.Buffer.AppendDouble` | src/json.cpp:221-226 | appends the text of the double |
| `JsonSpelling.PunctuationSpelledOut` | src/json.cpp:236-244 | which characters the punctuation, the whitespace and the digits are |
| `JsonSpelling.WordsSpelledOut` | src/json.cpp:373-402 | the bytes of true, false, null and of the words of the protocol |
| `JsonSpelling.EscapedCharacter` | src/json.cpp:548-594 | for every character of the basic plane, its four hexadecimal digits in any mix of cases after a backslash and u scan to it |
| `JsonSpelling.EscapedPairCharacter` | src/json.cpp:548-594 | for every character beyond, the escapes of its two surrogates scan to that one character |
| `JsonSpelling.EscapedEmoji` | src/json.cpp:589 | the literal of U+1F600 in two escapes gives the bytes F0 9F 98 80 |
| `JsonSpelling.ShortEscapes` | src/json.cpp:513-546 | what each of the eight two-character escapes stands for |
| `JsonSpelling.EscapesSpelledOut` | src/json.cpp:171-211 | what the encoder writes for every byte |
| `JsonSpelling.EncodeKeepsOrder` | src/json.cpp:52-68 | characters in the order of their code points have encodings in dictionary order, which leaves no choice in the encoding |
| `JsonSpelling.IntSpelledOut` | src/json.cpp:213-219 | the text of an integer: a sign exactly when negative, as many digits as its size has |
| `JsonSpelling.NatDigit` | src/json.cpp:213-219 | each digit of that text is the decimal digit of its place |
| `JsonSpelling.ScientificSpelledOut` | src/json.cpp:47-50 | the powers of ten where scientific notation begins, at both ends |
| `JsonSpelling.FixedSpelledOut` | src/json.cpp:47-50 | the smallest power of ten in fixed notation, and zero |
| `JsonSpelling.LargestFixedSpelledOut` | src/json.cpp:47-50 | the largest power of ten in fixed notation |
| `JsonSpelling.RecordMessagesSpelledOut` | src/protocol.cpp:57-66 | the messages for unknown and missing members |
| `WireNames.AcceptsSpelledWakes` | src/protocol.cpp:188-253 | a wake is accepted exactly when its members have these names and types and the twelve required names are there |
| `WireNames.DecodedByName` | src/protocol.cpp:188-253 | which of the twenty fields each name sets, to the last value of that name or to the default; yes is Yes and no is No |
| `WireNames.AcceptsSpelledAcks` | src/protocol.cpp:255-289 | the same for an ack |
| `WireNames.DecodedAckByName` | src/protocol.cpp:255-289 | which field of an ack each name sets |
| `WireNames.WakeBodySpelledOut` | src/protocol.cpp:299-361 | the text of every encoded wake: these names in this order, with these words and values |
| `WireNames.AckBodySpelledOut` | src/protocol.cpp:363-383 | the text of every encoded ack |
| `Errors.MessageWellFormed` | src/json.cpp:29-36 | the message of every decode error is well-formed UTF-8, even when the body was not |
| `WireKeys.NamesDiffer` | src/protocol.cpp:188-253 | no two members share a name |
| `WireText.FirstMissing` | src/protocol.cpp:57-66 | nothing is missing exactly when every required key was seen; otherwise a required key that was not seen |
| `WireGrammar.FieldComplete` | src/protocol.cpp:188-253 | every well-typed value of a key reads as the value it denotes |
| `WireSoundness.FieldSound` | src/protocol.cpp:188-253 | every value that is read is a well-typed value of the grammar |
| `WireRecords.RecordComplete` | src/protocol.cpp:414-445 | every record of the grammar decodes to its members, assigned in order |
| `WireRecords.RecordSound` | src/protocol.cpp:414-445 | every accepted body is a record of the grammar |
| `WireRecords.AcceptsExactlyRecords` | src/protocol.cpp:414-477 | acceptance is exactly membership in the grammar, and the result is determined by it |
| `WireRecords.AssignKeys` | src/protocol.cpp:188-253 | the keys of the result are the keys present |
| `WireRecords.AssignLast` | src/protocol.cpp:188-253 | a repeated key takes its last value |
| `WireRecords.PermutedMembers` | src/protocol.cpp:414-445 | the order of members with distinct keys does not matter |
| `WireDecoding.DecodeWakeExactly` | src/protocol.cpp:414-445 | a wake is decoded exactly when the body is an object of known, well-typed members with every required key |
| `WireDecoding.DecodeAckExactly` | src/protocol.cpp:447-477 | the same for an ack |
| `WireDecoding.DecodedField` | src/protocol.cpp:188-253 | each field of the message is the last value of its key, or the default when the key is absent |
| `WireDecoding.PermutedBodies` | src/protocol.cpp:414-445 | bodies that differ in the order of distinct members decode alike |
| `WireDecoding.WakeFrameRoundTrip` | src/protocol.cpp:299-361 | an encoded wake decodes to itself, and its frame is split off the stream whole when within the cap |
| `WireDecoding.AckFrameRoundTrip` | src/protocol.cpp:363-383 | the same for an ack |
| `WireRoundTrip.WakeRoundTrip` | src/protocol.cpp:299-361 | for every message with UTF-8 strings, finite doubles whose digits read back, 64-bit integers and any ranges, decoding the encoded body returns it |
| `WireRoundTrip.AllCanReadBack` | src/json.cpp:353-371 | no two doubles ask the reader for different answers, so all can read back together |
| `WireRoundTrip.AckRoundTrip` | src/protocol.cpp:363-383 | for every ack with UTF-8 strings and 64-bit integers, whatever `from_chars` does |
| `WireRoundTrip.RejectionDecodes` | src/executor.cpp:208-221 | for every body that fails to decode, the rejected ack decodes back to that reason |
| `WireLengths.AckShorterThanWake` | src/executor.cpp:223-229 | the accepted ack body is shorter than the wake body it answers |
| `WireRejections.ReasonWithin` | src/protocol.cpp:188-253 | every reason a wake is rejected for is at most 300 bytes in the ack, or at most 18 longer than the body |
| `WireRejections.RejectedAckLength` | src/executor.cpp:210-215 | a rejected ack is 90 bytes, the time stamp and the reason as written |
| `WireRejections.RejectionLength` | src/executor.cpp:208-221 | for every body that does not decode the ack is short or at most 108 bytes and the time stamp longer than the body, so it fits when the body is 128 bytes below the cap |
| `WireRejections.LongestRejection` | src/protocol.cpp:153-169 | for every length a body whose rejection is that long |
| `WireRejections.RejectionsFitExactly` | src/executor.cpp:208-221 | all rejections of a body length fit the cap exactly when the length leaves that room |
| `WireRejections.RejectionMayNotFit` | src/executor.cpp:208-221 | a body at the cap whose rejection exceeds it |
| `Wire.PrefixTellsLength` | src/protocol.cpp:82-88 | the prefix of an encoded frame gives its length back up to the cap, and is refused above it |
| `Codec.AppendRanges` | src/protocol.cpp:299-361 | the ranges are written in order, separated by commas |
| `Codec.PatchPrefix` | src/protocol.cpp:82-88 | the prefix is the length of what follows it, most significant byte first |
| `Codec.EncodeWakeInto` | src/protocol.cpp:299-361 | the buffer holds the frame of the message, whatever it held before |
| `Codec.EncodeAckInto` | src/protocol.cpp:363-383 | the buffer holds the frame of the ack |
| `Codec.DecodeFrameLength` | src/protocol.cpp:397-412 | the length of four bytes, most significant first, refused above 65536 and for any other number of bytes |
| `Codec.ReadPriceRanges` | src/protocol.cpp:111-151 | reads a list of triples exactly as the text function does, at depth at most three, and leaves the enclosing level as it was |
| `Codec.ReadRange` | src/protocol.cpp:125-149 | one entry of exactly three numbers |
| `Codec.ReadDirection` | src/protocol.cpp:153-169 | yes or no, and nothing else |
| `Codec.ReadStatus` | src/protocol.cpp:171-186 | accepted or rejected, and nothing else |
| `Codec.ReadReason` | src/protocol.cpp:268-278 | null or a string |
| `Codec.ReadMember` | src/json.cpp:282-303 | one member by its key, from depth one back to depth one; an unknown key is refused |
| `Codec.SetWakeMatches` | src/protocol.cpp:188-253 | assigning a field is recording the value of its key |
| `Codec.DecodeWakeMessage` | src/protocol.cpp:414-445 | the loop over the reader decodes exactly as the specification, within the depth cap |
| `Codec.DecodeWakeAck` | src/protocol.cpp:447-477 | the same for acks |
| `Codec.DefaultWakeHolds` | include/hotpath/protocol.hpp:51-71 | a fresh message is the message of an empty record |
| `Frames.SplitJoin` | src/executor.cpp:180-199 | concatenated frames within the cap are recovered one for one, whatever follows |
| `Frames.SplitTaken` | src/executor.cpp:184-198 | a frame taken off the stream is the first of its split |
| `Frames.SplitStuck` | src/executor.cpp:188-198 | a refused prefix or a truncated frame ends the split |
| `Sockets.ReadExactly` | src/executor.cpp:51-67 | under every chunking and EINTR pattern the bytes are the next ones of the stream; without errors or stop it fails exactly at a short stream and reports a clean close exactly at its end |
| `Sockets.SendFrame` | src/executor.cpp:250-263 | a successful send puts the bytes out once and in order, a failed one a proper prefix of them |
| `Executor.Server.Acquire` | src/orders.cpp:24-30 | the template of that ticker and side, found or inserted |
| `Executor.Server.HandleFire` | src/executor.cpp:265-299 | one outcome, and which counter it raises: the price guard first, then the kill switch for real fires, then the order at the snapped price |
| `Executor.Server.ReadFrame` | src/executor.cpp:184-198 | the next body of the frame split, or none; without errors or stop, none exactly where the split ends |
| `Executor.Server.Answer` | src/executor.cpp:210-233 | the answer is counted and then sent |
| `Executor.Server.ServeFrame` | src/executor.cpp:199-246 | one body: read, stamped with the wall clock, answered, sent, then recorded and fired if accepted and sent |
| `Executor.Server.ServeConnection` | src/executor.cpp:180-248 | the bodies served are a prefix of the frame split of the stream, all of it when there is no error or stop; the peer gets their acks in order; each frame carries its own later reading of the wall clock; at every loop head and exit the counters balance |
| `Executor.Server.ServeOne` | src/executor.cpp:138-173 | serves the connection the wait brought, if any; false only when stopped, woken by the pipe, or when `poll` or `accept` failed for good |
| `Executor.Server.ServeForever` | src/executor.cpp:175-178 | the same over wait after wait with one log; ends early only for those reasons; frames read are acks, and accepted acks minus fires is the number of connections that ended on an unsent accepted ack |
| `Accounts.CountersBalance` | src/executor.cpp:180-248 | frames read are accepted plus rejected acks, and accepted acks minus fires is the number of connections that ended on an accepted ack that could not be sent |
| `Accounts.RunBalances` | src/executor.cpp:199-233 | what the run of one connection adds to the counters, whatever came before |
| `Accounts.CountersCount` | include/hotpath/executor.hpp:55-62 | each counter is the number of events of its kind in the log |
| `Accounts.UnsentOnlyLast` | src/executor.cpp:230-233 | at most the last frame of a connection is accepted without its ack being sent |
| `ExecutorRuns.FiresFollowAcks` | src/executor.cpp:223-246 | every fire follows the complete send of the accepted ack of that same frame, and its record when there is a recorder |
| `ExecutorRuns.FiresKeepFrameOrder` | src/executor.cpp:180-248 | fires belong to different frames, in the order of the frames |
| `ExecutorRuns.RealOrdersAreGuarded` | src/executor.cpp:265-299 | every real order comes from a frame whose own body carries a wire price strictly between 0 and 1, and none passes a check during which, and for the time to live before which, the kill file was there |
| `ExecutorRuns.PriceIsCarried` | include/hotpath/protocol.hpp:12-16 | the wire price of a message is the default or the last one its body carries |
| `ExecutorRuns.UnpricedFramesAreRefused` | include/hotpath/protocol.hpp:12-16 | a frame without a wire price is refused unless it is a dry run |
| `ExecutorRuns.AnswerFits` | src/executor.cpp:223-229 | an accepted answer is within the frame cap, a rejected one when its body leaves room for the overhead |
| `ExecutorRuns.AnswerDecodes` | src/executor.cpp:208-229 | every answer decodes, whatever `from_chars` does: version 4, the stamp, accepted exactly when the body decodes, then its id and no reason, otherwise no id and the error message |
| `ExecutorRuns.PeerReadsAnswers` | src/executor.cpp:208-233 | when rejected bodies are 128 bytes below the cap, the peer that splits what it received finds one ack per frame, in order, each with the fields that frame calls for |
| `Orders.OrdersMatchTheirFrames` | src/executor.cpp:277-297 | over every run: ticker, side, index, ids and dry-run flag of an order are those its own frame carries by name, and its price is the multiple nearest to the carried wire price of the step of the first carried range that holds it, or of one cent |
| `Orders.DecisionSpelledOut` | src/executor.cpp:271-284 | a real fire is refused for its price exactly at or below 0 and at or above 1; a dry run is dispatched without asking the kill switch |
| `KillSwitch.Switch.IsEngaged` | src/killswitch.cpp:17-28 | the answer is that of a look no older than the time to live, or made during the call; the file is looked at only when no unexpired answer is cached |
| `KillSwitch.Switch.Invalidate` | src/killswitch.cpp:59-62 | forgets the cached answer |
| `KillSwitch.EngagedWithinTtl` | include/hotpath/killswitch.hpp:19-21 | a file that has been there for the time to live, up to the end of the call, is reported, whatever happens to it later |
| `KillSwitch.ReleasedWithinTtl` | include/hotpath/killswitch.hpp:19-21 | a file that has been gone for the time to live, up to the end of the call, is reported gone |
| `KillSwitch.StaleJustBefore` | src/killswitch.cpp:17-28 | for every time to live, a switch that answers released one instant before the bound, with the file there |
| `KillSwitch.FailureReadsAsReleased` | src/killswitch.cpp:23-24 | a switch whose look fails answers released |
| `Pricing.NearestEvenIsRoundHalfEven` | src/pricing.cpp:15-21 | the result is the nearest integer, the even one of two, and the only such |
| `Pricing.RoundMonotone` | src/pricing.cpp:15-21 | rounding is monotone |
| `Pricing.SnapIsNearest` | src/pricing.cpp:26-29 | the snapped price is a multiple of the step within half a step, the nearest, the even one of two |
| `Pricing.FallbackIsOneCent` | src/pricing.cpp:29 | when no range holds the price, the nearest whole cent, the even one of two |
| `Pricing.FirstRangeSetsStep` | src/pricing.cpp:24-28 | on any grid, the nearest multiple of the step of the first range that holds the price |
| `Pricing.SnapStaysInRange` | src/pricing.cpp:23-30 | on a contiguous ladder the price snaps inside the first range that contains it |
| `Pricing.GridMonotone` | src/pricing.cpp:23-30 | on a ladder snapping is monotone |
| `Pricing.GridIdempotent` | src/pricing.cpp:23-30 | on a ladder snapping twice changes nothing |
| `Pricing.SnappedPriceStaysOpen` | src/executor.cpp:271-277 | for every price and every grid, the snapped price is strictly between 0 and 1 exactly when the price is above half the selected step and below the half that rounds up from the last multiple under 1 |
| `Pricing.SnapMayExceedOne` | src/executor.cpp:271-277 | a tradeable price that snaps to 1.5 |
| `Pricing.CentGridStaysOpen` | src/executor.cpp:271-277 | on the cent grid the snapped price is strictly between 0 and 1 exactly when the price is more than half a cent from both |
| `Pricing.SnapMayReachZero` | src/executor.cpp:271-277 | a tradeable price that snaps to zero |
| `StopHandshake.StepKeeps` | src/executor.cpp:121-198 | at every step of either thread: a busy connection is published, and a stop that has loaded the descriptor has that one |
| `StopHandshake.NoLostWakeup` | src/executor.cpp:121-198 | once `stop()` has returned no call the server sits in can stay blocked: the pipe has a byte, or the connection was shut down |
| `StopHandshake.ReturnsOnlyForCause` | src/executor.cpp:138-173 | the server returns only after a stop or a failed wait |
| `StopHandshake.LeavesOnlyForCause` | src/executor.cpp:183-198 | it gives up a connection only after a stop, a failed call or the end of the stream |
| `StopHandshake.ServesWhileNotStopped` | src/executor.cpp:138-178 | without a stop a waiting peer is accepted and read, and a finished connection leads back to waiting |
| `StopHandshake.StopMakesProgress` | src/executor.cpp:138-198 | after a stop every server step lowers a rank that no peer can raise |
| `StopHandshake.ServerNotStuck` | src/executor.cpp:138-198 | after a stop the server has a step until it has returned, and not by luck of an interrupt |
| `StopHandshake.ServerReturns` | src/executor.cpp:175-178 | the server returns within a bounded number of its own steps after a stop |

## Left out

- The signer and base64, which are wrappers over OpenSSL.
- The clocks themselves, `main`, `listen()`, socket paths and permissions: a clock is an input that does not go back, a socket a
  byte stream with arbitrary transfers.
- The SQLite schema, pragmas and version stamp, `created_at_ms`, and reopening a sink after `close()`.
- The digits that `std::to_chars` chooses, and how `std::from_chars` rounds: a double is its sign, shortest digits and exponent.
- IEEE-754 rounding in prices and durations: prices are exact reals, and an order whose price or grid involves a NaN or an
  infinity has no modelled price.
- `reason()`, `engage()` and `release()` of the kill switch beyond the invalidation they end with.
- Memory order of the executor's stop flag: that handshake is sequentially consistent. `accept` is taken to find the peer that
  `poll` reported, as it does for Unix sockets. An interrupted `poll` is retried in the handshake and does not appear in `ServeForever`.
- `is_clock_comparable_to`, the benchmark, CSV output and the poller client, which would only add easy members.
- Codec.EncodeInto: writes the members by a loop over the keys in wire order, where the source has one statement for each member.
- Codec.DecodeWakeMessage: keeps the set of keys seen, where the source keeps a bit mask of the required ones.
- Telemetry.Sink.DrainAndReturn: is the writer loop after it has read the stop flag, with no recorder beside it; the
  interleaved loop is `TelemetryRun`.
- KillSwitch.EngagedWithinTtl: assumes that every look after the file appeared succeeds, because a failed look counts as released.
