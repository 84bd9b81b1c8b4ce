# fplog core in Dafny

fplog is a logging system. Applications hand JSON log messages to the fplog
client library. The library filters them by priority and passes them over
`sprot`, a small framing protocol, to the `fplogd` daemon. The daemon queues
them, evicts entries from the queue when it grows too large, adds the host
name, and forwards them in batches.

This project models the parts of that system that decide what goes on the wire
and what stays in the queue:

- **sprot** (`sprot/sprot.cpp`, `sprot/sprot.h`) has several layers:
  - the CRC-7 frame seal and its lookup table (`Sprot`);
  - the ACK, NACK, SEQBEGIN, SEQEND, SETSEND and SETRECV control frames, and
    the DATA frames with their sequence numbers (`Sprot`);
  - how a message is split into frames that fit the MTU (`Sprot.WritePlan`);
  - the receiving state machine and the sender's retransmission rule, as
    functions of the protocol state and the wire (`SprotMachine`);
  - the `Protocol` class with its fields and methods, each proved to follow
    those functions (`SprotProtocol`). The transport is a scripted object: it
    returns the frames queued for reading and records the frames written.

  The proofs about the protocol are about the `SprotMachine` functions. Each
  `SprotProtocol.Protocol` method is proved to leave the fields and the
  transport as the matching function says, and to keep the class invariant
  `Valid()`, so the properties carry over to the class. The contracts of the
  `SprotMachine` functions state only simple facts (which reply is sent, what
  a success returns); what a whole exchange does is stated by the lemmas.

  The properties proved in `SprotProperties` include:
  - a message written over an acknowledging transport is read back whole;
  - corrupt frames are NACKed;
  - retransmitted frames are acknowledged but not added twice;
  - out-of-order frames are refused;
  - a read that overflowed can be retried;
  - a frame that is refused five times makes the write fail.
- **Queue_Controller** (`fplogd/Queue_Controller.cpp`) is the daemon's bounded
  message queue.
  - The model covers push, pop and the emergency handling.
  - It also covers the four eviction algorithms: oldest, newest, oldest below
    a priority, and newest below a priority.
  - Each algorithm is a method over the queue and is proved against a
    function on sequences. The lemmas say what is removed, what is kept, in
    which order, and what the size counter becomes.
- **fplogd helpers** (`fplogd/fplogd.cpp`):
  - choosing the batch size from the configuration;
  - inserting the host name into a JSON message;
  - the reader thread's rules for filling a batch and for flushing a partial
    batch.
- **Text utilities** (`common/utils.cpp`, `common/utils.h`, `fplog/utils.cpp`):
  - base64 encoding and decoding over caller-supplied buffers, with a proved
    round trip;
  - the ISO 8601 time-zone suffix;
  - trimming;
  - quote escaping.
- **UID** (`common/fplog_transport.h`, `sprot/fplog_transport.cpp`): the
  128-bit identifier, with equality, ordering, and the `to_string` and
  `from_string` text form.
- **Priority filter** (`fplog/fplog.h`, `fplog/fplog.cpp`): the set of
  enabled priorities and `should_pass`.

Integers are unbounded in Dafny. Where the source's widths matter, the model
spells them out:
- bytes are `bv8`, and sequence numbers wrap at 256;
- UID halves are 64-bit;
- the time-zone bias is a 32-bit `int`, and C's truncating `/` and `%` are
  written out.

## Model

| member | source | states |
|---|---|---|
| Decimal.Digits | common/fplog_transport.h:57-60 | `std::to_string` of a non-negative number is a non-empty digit string, one digit long exactly when the number is below 10 |
| Decimal.ParseDecimal | sprot/fplog_transport.cpp:9-42 | digit-string parsing succeeds exactly on non-empty all-digit strings |
| Decimal.ParseDigits | common/fplog_transport.h:57-60 | parsing the decimal text of n gives back n |
| Decimal.TwoDigits | common/utils.cpp:117-120 | `%02d` yields at least two digits whose value is n, and exactly two below 100 |
| CStrings.StrLen | fplogd/Queue_Controller.cpp:44-48 | strnlen counts the characters before the first NUL: none of them is NUL, and a NUL or the end follows |
| CStrings.Length | common/utils.cpp:323 | strlen's scan returns the length of the C string the buffer holds |
| TextUtils.StripLeading | common/utils.h:29-32 | the left-trimmed string is a suffix of the input |
| TextUtils.StripTrailing | common/utils.h:35-38 | the right-trimmed string is a prefix of the input |
| TextUtils.StripLeadingExact | common/utils.h:29-32 | ltrim removes exactly the leading whitespace: what it drops is all space, and what it keeps does not start with space |
| TextUtils.StripTrailingExact | common/utils.h:35-38 | rtrim removes exactly the trailing whitespace: what it drops is all space, and what it keeps does not end with space |
| TextUtils.LTrim | common/utils.h:29-32 | the in-place erase loop computes the left-trimmed string |
| TextUtils.RTrim | common/utils.h:35-38 | the in-place erase loop computes the right-trimmed string |
| TextUtils.Trim | common/utils.h:41-43 | trim is rtrim followed by ltrim |
| TextUtils.TrimIsCore | common/utils.h:41-43 | trim returns a slice s[a..b] with only whitespace outside it and non-space characters at both of its ends |
| TextUtils.TrimAllSpace | common/utils.h:41-43 | an all-whitespace string trims to the empty string |
| TextUtils.TrimIdempotent | common/utils.h:41-43 | trimming a trimmed string changes nothing |
| TextUtils.EscapedShape | common/utils.cpp:367-371 | escaping adds one character per quote, and every quote in the result is preceded by a backslash |
| TextUtils.UnescapeEscaped | common/utils.cpp:367-371 | escaping loses nothing: removing the backslash before each quote restores the input |
| TextUtils.EscapeQuotes | common/utils.cpp:367-371 | the replace loop computes the escaped string, whose length is the input's plus the number of quotes, and which unescapes to the input |
| TextUtils.CDivModBounds | common/utils.cpp:112-113 | C's truncating division of the bias by 60 gives an hour and minute part with the bias's sign and minutes below 60 |
| TextUtils.TimezoneSign | common/utils.cpp:108-123 | for a non-zero bias, the suffix starts with '+' exactly when the bias is at least 60 and with '-' otherwise |
| TextUtils.TimezoneToIso8601 | common/utils.cpp:108-123 | the suffix is empty exactly for a zero bias; otherwise its sign is '+' exactly when the truncated hour count is positive (the code's choice, see Findings) |
| TextUtils.TimezoneRoundTrip | common/utils.cpp:108-123 | outside 1..59, reading the `+hhmm`/`-hhmm` suffix back gives the bias, and a zero bias gives the empty string |
| TextUtils.TimezoneAgreesOutsideFirstHour | common/utils.cpp:108-123 | the function as written and the corrected one agree on every bias not in 1..59 |
| TextUtils.TimezoneCorrectedRoundTrip | common/utils.cpp:108-123 | the corrected suffix reads back as the bias for every bias under 100 hours |
| TextUtils.TimezoneSignForSubHourOffset | common/utils.cpp:112-120 | as written, a bias of 30 minutes yields "-0030", which reads back as -30 |
| FplogUtils.WholeHours | fplog/utils.cpp:32-47 | the client library's copy renders whole-hour offsets as a sign and two digits |
| FplogUtils.CopiesAgree | fplog/utils.cpp:32-47 | the client library's copy computes the same suffix as the common one for every bias |
| FplogUtils.TimezoneToIso8601 | fplog/utils.cpp:32-47 | the client library's copy is empty exactly for a zero bias, and otherwise signed by the truncated hour count |
| Base64.CharValue | common/utils.cpp:229-243 | a character's value is -1 or a 6-bit value |
| Base64.CharValueInverts | common/utils.cpp:151 | the value of the alphabet's v-th character is v, and a character has no value exactly when it is not in the alphabet |
| Base64.GroupValues | common/utils.cpp:159-174 | a triple encodes to four alphabet characters whose values are the triple's four sextets |
| Base64.Encode | common/utils.cpp:185-218 | the encoding is empty exactly when the input is; EncodeLength and EncodeShape give its length and form, and DecodeEncode inverts it |
| Base64.EncodeLength | common/utils.cpp:185-218 | the encoding of n bytes has 4·⌈n/3⌉ characters |
| Base64.EncodedLengthFits | common/utils.cpp:365 | base64_encoded_length is the encoding's length plus one for the terminator |
| Base64.EncodedLength | common/utils.cpp:365 | base64_encoded_length(n) is one more than a multiple of four, and that many characters decode to at least n and fewer than n + 3 bytes |
| Base64.EncodeShape | common/utils.cpp:203-215 | an encoding is alphabet characters followed by no padding, "==" or "=", for inputs of length 0, 1 or 2 modulo 3 |
| Base64.TrailingPads | common/utils.cpp:252-304 | the count of trailing '=' in a quadruple: those characters are '=' and the one before them is not |
| Base64.DecodeQuad | common/utils.cpp:252-304 | a quadruple yields at most three bytes, and three only when it has no padding |
| Base64.PadBeforeDataRejected | common/utils.cpp:261-278 | a quadruple with '=' before a data character is refused |
| Base64.InvalidCharRejected | common/utils.cpp:257-275 | a quadruple containing a character outside the alphabet is refused |
| Base64.Decode | common/utils.cpp:314-363 | the decoding reads the source only up to its first NUL, and gives at most three bytes per quadruple of that C string with the appended padding |
| Base64.DecodeStopsAtNul | common/utils.cpp:323-328 | `strlen` and `strcpy` end the source at its first NUL, so nothing after a NUL changes the decoding |
| Base64.DecodeSkipsNoise | common/utils.cpp:336-342 | characters other than alphabet characters, '=' and NUL are skipped wherever they stand |
| Base64.DecodeEncode | common/utils.cpp:185-363 | decoding the encoding of any byte string gives that byte string back |
| Base64.EncodeTriple | common/utils.cpp:159-174 | the shift-and-mask code writes the triple's group into the four target cells and changes nothing else |
| Base64.WriteSextets | common/utils.cpp:169-173 | the digit loop writes the triple value's four base64 characters, most significant first, and nothing else |
| Base64.EncodeGroups | common/utils.cpp:193-200 | the full-triple loop stops with fewer than three bytes left; the target holds the encoding so far, and the rest of the encoding is that of the remaining bytes |
| Base64.EncodeRemainder | common/utils.cpp:202-215 | the padded last group completes the encoding in the target, and nothing past it is touched |
| Base64.EncodeInto | common/utils.cpp:185-218 | succeeds exactly when the target holds the encoding and its terminator; on success the target starts with the encoding, then '\0', then its old contents; on failure it is untouched |
| Base64.CheckQuadruple | common/utils.cpp:254-282 | the validation loop accepts a quadruple only if it decodes, and then reports 3 minus the padding and each character's sextet |
| Base64.DecodeTriple | common/utils.cpp:252-304 | writes exactly the quadruple's decoded bytes, returns their count, and leaves the rest of the buffer alone |
| Base64.DecodeInto | common/utils.cpp:314-363 | decodes the source up to its first NUL; returns -1 when the decoding does not fit the target, and only then for targets below 2^31 bytes; otherwise it returns the decoding's length and has written it at the target's start, leaving the rest |
| Base64.DecodeQuadruples | common/utils.cpp:329-362 | the quadruple loop, with its skip of insignificant characters and its `(int)` fit check, produces the same outcome |
| Base64.CInt | common/utils.cpp:348 | the `(int)` cast of a size keeps a value below 2^31, takes 2^32 off one in [2^31, 2^32), and never exceeds the size |
| Uid.Equal | common/fplog_transport.h:42 | UIDs are equal exactly when both halves are |
| Uid.Less | common/fplog_transport.h:43-55 | the order compares the high halves, then the low halves |
| Uid.ToString | common/fplog_transport.h:57-60 | to_string has exactly one '_', right after the high half's digits |
| Uid.LessIsStrictTotalOrder | common/fplog_transport.h:43-55 | the order is irreflexive, asymmetric, transitive and total |
| Uid.RunLength | sprot/fplog_transport.cpp:9-42 | the tokenizer stops at the first '_' |
| Uid.LexicalCast | sprot/fplog_transport.cpp:23-29 | a token converts exactly when it is a non-empty digit string with a value up to ULLONG_MAX, and then to that value |
| Uid.Absorb | sprot/fplog_transport.cpp:19-39 | the token loop succeeds only if every token converts |
| Uid.Parse | sprot/fplog_transport.cpp:9-42 | from_string succeeds only if every token is a number, and a string without tokens leaves both halves at ULLONG_MAX |
| Uid.Uid.constructor | common/fplog_transport.h:41 | a new UID is zero |
| Uid.Uid.FromString | sprot/fplog_transport.cpp:9-42 | the token loop sets the halves as the sentinel-based parse does, and raises Invalid_Uid when it fails |
| Uid.HelperFromString | sprot/fplog_transport.cpp:44-48 | the helper returns the parsed UID or the error |
| Uid.ParseToString | sprot/fplog_transport.cpp:9-42 | from_string inverts to_string whenever the high half is not ULLONG_MAX |
| Uid.ParseToStringSentinelHigh | sprot/fplog_transport.cpp:19-31 | as written, a UID whose high half is ULLONG_MAX comes back with its halves swapped |
| Uid.SentinelRoundTripFails | sprot/fplog_transport.cpp:19-31 | as written, "18446744073709551615_5" parses to high 5 and low ULLONG_MAX |
| Uid.ParseNoTokens | sprot/fplog_transport.cpp:9-42 | a string of only separators parses to two ULLONG_MAX halves without error |
| Uid.ParseOneToken | sprot/fplog_transport.cpp:9-42 | a single number fills the high half and leaves the low half at ULLONG_MAX |
| Uid.ThirdTokenRejected | sprot/fplog_transport.cpp:33 | a third token after two good ones is an error |
| Uid.BadTokenRejected | sprot/fplog_transport.cpp:36-39 | a token that does not convert is an error |
| Uid.ParseCountedToString | sprot/fplog_transport.cpp:9-42 | the corrected parse, which counts tokens, inverts to_string for every UID |
| Uid.ParseCountedAgrees | sprot/fplog_transport.cpp:9-42 | the corrected parse and the one as written agree whenever no token is ULLONG_MAX |
| PriorityFilter.SeveritiesDistinct | fplog/fplog.cpp:6-13 | the eight priority names are distinct |
| PriorityFilter.Passes | fplog/fplog.cpp:15-22 | a message passes only with a priority field whose value is enabled, so an empty set passes nothing |
| PriorityFilter.Filter.ShouldPass | fplog/fplog.cpp:15-22 | should_pass holds exactly when the message's priority field is one of the filter's priorities |
| PriorityFilter.Filter.constructor | fplog/fplog.h:90 | a new filter has its id, or "" without one, and no priorities |
| PriorityFilter.Filter.Add | fplog/fplog.h:112 | add inserts the priority if one was given, and afterwards every message with that priority passes |
| PriorityFilter.Filter.Remove | fplog/fplog.h:113 | remove deletes the priority if one was given, and afterwards no message with that priority passes |
| PriorityFilter.NoPriorityNeverPasses | fplog/fplog.cpp:15-22 | a message without a priority field never passes |
| PriorityFilter.EmptyFilterBlocks | fplog/fplog.cpp:15-22 | a filter with no priorities lets nothing through |
| PriorityFilter.AddEffect | fplog/fplog.cpp:15-22 | after adding p, a message passes exactly when it passed before or has priority p |
| PriorityFilter.RemoveEffect | fplog/fplog.cpp:15-22 | after removing p, a message passes exactly when it passed before and its priority is not p |
| PriorityFilter.AddIdempotent | fplog/fplog.h:112-113 | adding twice is adding once, and removing an absent priority changes nothing |
| QueueControl.Controller.constructor | fplogd/Queue_Controller.cpp:14-24 | a new controller is empty, has the size limit, removes the oldest below warning, and falls back to removing the oldest |
| QueueControl.Controller.StateOfEmergency | fplogd/Queue_Controller.cpp:72-108 | an emergency needs both the size over the limit and the expired timer |
| QueueControl.Controller.Front | fplogd/Queue_Controller.cpp:31-34 | front returns the oldest entry |
| QueueControl.Controller.Pop | fplogd/Queue_Controller.cpp:36-52 | pop removes the oldest entry and subtracts its length from the size counter, which stays the queue's total length |
| QueueControl.Controller.Push | fplogd/Queue_Controller.cpp:54-70 | a null is ignored; otherwise the entry goes to the back, after the emergency handling has run if the queue was over its limit and timed out |
| QueueControl.Controller.HandleEmergency | fplogd/Queue_Controller.cpp:110-119 | runs the configured algorithm and, if the emergency persists, the fallback, keeping the size counter equal to the queue's total length |
| QueueControl.Controller.ChangeAlgo | fplogd/Queue_Controller.cpp:346-355 | installs the algorithm, and replaces the fallback only for the two known fallback options |
| QueueControl.Controller.ProcessQueue | fplogd/Queue_Controller.cpp:121-344 | dispatches to the chosen algorithm's eviction |
| QueueControl.Controller.ProcessOldest | fplogd/Queue_Controller.cpp:121-158 | Remove_Oldest pops from the front while the size is at or over the limit, as the eviction function says |
| QueueControl.Controller.ProcessNewest | fplogd/Queue_Controller.cpp:160-209 | Remove_Newest drops from the back while the size is at or over the limit, as the eviction function says |
| QueueControl.Controller.ProcessOldestBelowPriority | fplogd/Queue_Controller.cpp:217-265 | the oldest-first scan drops selected entries while over the limit and keeps the rest in order |
| QueueControl.Controller.ProcessNewestBelowPriority | fplogd/Queue_Controller.cpp:273-344 | the same scan run on the reversed queue and reversed back |
| QueueControl.Controller.Scan | fplogd/Queue_Controller.cpp:227-258 | the scan loop drains the queue and computes the scan function's kept entries, size and count |
| QueueControl.Controller.ScanFront | fplogd/Queue_Controller.cpp:229-255 | one scan step keeps the overall scan result unchanged |
| QueueControl.Controller.Drain | fplogd/Queue_Controller.cpp:168-173 | draining returns the whole queue and leaves it empty |
| QueueControl.Controller.DrainNonNull | fplogd/Queue_Controller.cpp:281-287 | draining and dropping nulls returns the non-null entries in order |
| QueueControl.Controller.PushAll | fplogd/Queue_Controller.cpp:199-202 | refilling appends the entries in order |
| QueueControl.Controller.PushReversed | fplogd/Queue_Controller.cpp:289-290 | the reverse refill appends the entries in reverse |
| QueueControl.TotalAppend | fplogd/Queue_Controller.cpp:54-70 | the queue's total length is additive |
| QueueControl.DropOldest | fplogd/Queue_Controller.cpp:121-158 | every entry is either kept or counted as removed |
| QueueControl.DropNewest | fplogd/Queue_Controller.cpp:160-209 | every entry is either kept or counted as removed |
| QueueControl.ScanOldest | fplogd/Queue_Controller.cpp:217-265 | kept and removed entries together are at most the queue (nulls are dropped without a count), and no kept entry is null |
| QueueControl.ScanNewest | fplogd/Queue_Controller.cpp:273-344 | kept and removed entries together are at most the queue |
| QueueControl.Evict | fplogd/Queue_Controller.cpp:121-344 | under every policy, kept and removed entries together are at most the queue |
| QueueControl.AfterEmergency | fplogd/Queue_Controller.cpp:110-119 | the emergency handling never grows the queue |
| QueueControl.DropOldestFacts | fplogd/Queue_Controller.cpp:121-158 | Remove_Oldest keeps a suffix, the size drops by exactly the removed lengths, and it stops only below the limit or when empty |
| QueueControl.DropNewestFacts | fplogd/Queue_Controller.cpp:160-209 | Remove_Newest keeps a prefix, with the same size and stopping facts |
| QueueControl.ScanBelowLimit | fplogd/Queue_Controller.cpp:231-252 | below the limit, the scan removes nothing and only drops nulls |
| QueueControl.ScanOldestFacts | fplogd/Queue_Controller.cpp:217-265 | the kept entries are non-null, an ordered subsequence, with every unselected entry kept and the oldest selected ones removed; the counts and sizes add up, and no selected entry is kept while still over the limit |
| QueueControl.ScanOldestOrder | fplogd/Queue_Controller.cpp:217-265 | the oldest-first scan keeps the queue's order |
| QueueControl.ScanOldestStops | fplogd/Queue_Controller.cpp:233-247 | if the size is still at the limit, no selected entry remains |
| QueueControl.ScanNewestFacts | fplogd/Queue_Controller.cpp:273-344 | the same facts for the newest-first scan, which removes the newest selected entries |
| QueueControl.ScanNewestOrder | fplogd/Queue_Controller.cpp:289-332 | the double reversal keeps the queue's order |
| QueueControl.ScanNewestStops | fplogd/Queue_Controller.cpp:306-320 | if the size is still at the limit, no selected entry remains |
| QueueControl.EvictConsistent | fplogd/Queue_Controller.cpp:121-344 | every algorithm started from the true size reports the kept entries' true size, and null-free queues stay null-free |
| QueueControl.ReverseFacts | fplogd/Queue_Controller.cpp:289-332 | reversing twice restores the queue |
| Daemon.ConfiguredBatchSize | fplogd/fplogd.cpp:399-413 | the batch size is the last acceptable configured value, or 30 when none is; it is always in range |
| Daemon.RFind | fplogd/fplogd.cpp:633 | rfind returns the last position of the character, or none when it is absent |
| Daemon.WithHostname | fplogd/fplogd.cpp:627-640 | when the last '}' is past the start, it becomes ',' and the hostname field and a closing brace are appended; otherwise the message is unchanged |
| Daemon.HostnameOfObject | fplogd/fplogd.cpp:627-640 | a JSON object gets `,"hostname":"…"}` in place of its closing brace |
| Daemon.HostnameUnchanged | fplogd/fplogd.cpp:633-634 | a message without '}' after its start is passed through |
| Daemon.Fill | fplogd/fplogd.cpp:660-684 | filling only moves messages: the batch never shrinks, and batch and queue together keep their count |
| Daemon.Flush | fplogd/fplogd.cpp:688-702 | the counter stays below 300, a flush resets it, and a full batch or a requested send always flushes |
| Daemon.FillFacts | fplogd/fplogd.cpp:660-684 | filling moves messages from the queue to the batch in order, never past the batch size, stopping only when the queue is empty or the batch is full, and a large message only goes alone |
| Daemon.FillSendsLarge | fplogd/fplogd.cpp:667-679 | a send is requested only for a lone large message or when a large message waits behind a non-empty batch |
| Daemon.PartialBatchFlushed | fplogd/fplogd.cpp:688-702 | a partial batch is flushed after the fixed number of idle passes |
| Daemon.FlushResets | fplogd/fplogd.cpp:688-702 | a flush resets the counter, a full batch or a requested send always flushes, and an empty batch never does |
| Daemon.Reader.constructor | fplogd/fplogd.cpp:383-390 | a reader holds the daemon's queue and host name, and starts with the default batch size |
| Daemon.Reader.Start | fplogd/fplogd.cpp:399-413 | start sets the batch size from the configuration |
| Daemon.Reader.AppendHostname | fplogd/fplogd.cpp:627-640 | a null message stays null; otherwise the hostname is added |
| Daemon.Reader.FillBatch | fplogd/fplogd.cpp:660-684 | the fill loop pops from the queue exactly as the fill function says |
| Daemon.Reader.ReaderPass | fplogd/fplogd.cpp:660-702 | one pass of the reader thread fills, then sends and empties the batch or keeps it, as the flush rule says |
| Sprot.GetByteCrc | sprot/sprot.cpp:12-24 | the bit loop computes the byte's CRC-7 table entry |
| Sprot.BuildCrcTable | sprot/sprot.cpp:26-32 | the table holds every byte's entry |
| Sprot.ComputeCrc7 | sprot/sprot.cpp:7-41 | the table loop computes the CRC-7 of the buffer |
| Sprot.Crc7 | sprot/sprot.cpp:7-41 | the CRC of any buffer is a 7-bit value, because each table entry is shifted right after the polynomial step |
| Sprot.CrcCheck | sprot/sprot.cpp:43-49 | crc_check needs at least one byte, and a one-byte frame passes exactly when it is 0 |
| Sprot.CheckCrc | sprot/sprot.cpp:43-49 | crc_check accepts exactly the frames whose last byte is the CRC of the rest |
| Sprot.CrcCheckSeal | sprot/sprot.cpp:43-49 | appending the CRC seals a frame, and the CRC is the only byte that does; the empty frame fails |
| Sprot.ControlFrame | sprot/sprot.cpp:444-446 | a control frame is its type byte and its CRC, and it passes crc_check |
| Sprot.ControlFrameVectors | sprot/sprot.cpp:434-453 | the six control frames have these exact bytes |
| Sprot.CrcVectors | sprot/sprot.cpp:43-49 | two frames pass crc_check and a corrupted ACK fails it |
| Sprot.ControlFramesDistinct | sprot/sprot.h:76-91 | different control types give different frames |
| Sprot.DataFrame | sprot/sprot.cpp:418-425 | a DATA frame is the type, the sequence number, the payload and the CRC, and it passes crc_check |
| Sprot.MakeDataFrame | sprot/sprot.cpp:455-464 | a frame shorter than the three-byte overhead is Invalid_Frame; otherwise the payload is the frame minus the overhead |
| Sprot.MakeDataFrameRoundTrip | sprot/sprot.cpp:416-464 | parsing a built DATA frame gives back its sequence number and payload |
| Sprot.ShortDataFrameRefused | sprot/sprot.cpp:455-464 | a two-byte DATA frame can pass crc_check and still be refused |
| Sprot.Encode | sprot/sprot.cpp:416-453 | every frame the writer emits passes crc_check |
| Sprot.Chunks | sprot/sprot.cpp:179-185 | the chunks are DATA frames, there are none for empty data, and there is at most one per byte |
| Sprot.WritePlan | sprot/sprot.cpp:145-244 | the plan is empty exactly for empty data, and has at most two frames more than the data has bytes |
| Sprot.ChunksPayloads | sprot/sprot.cpp:179-185 | the chunks' payloads concatenate to the data |
| Sprot.ChunksNumbered | sprot/sprot.cpp:179-185 | chunks carry consecutive sequence numbers and full MTU-sized payloads except the last |
| Sprot.WritePlanFacts | sprot/sprot.cpp:145-244 | a message is nothing when empty, one DATA frame numbered 1 when it fits, and otherwise SEQBEGIN, numbered chunks from 1, then SEQEND; the payloads always give back the message |
| SprotMachine.Reset | sprot/sprot.cpp:307-319 | reset clears the buffer, the sequence state and the output buffer, and keeps the mode |
| SprotMachine.CompleteRead | sprot/sprot.cpp:391-414 | an overflow marks the read incomplete; otherwise the data is copied out and a large buffer is released |
| SprotMachine.Finish | sprot/sprot.cpp:299-305 | finishing a read completes it and raises Buffer_Overflow exactly when it does not fit |
| SprotMachine.OnSeqBegin | sprot/sprot.cpp:292-297 | SEQBEGIN starts a sequence, ACKs and keeps reading |
| SprotMachine.OnSeqEnd | sprot/sprot.cpp:299-305 | SEQEND ends the sequence, ACKs, and either completes the read or reports Buffer_Overflow |
| SprotMachine.OnSetSend | sprot/sprot.cpp:321-331 | SETSEND switches to Client, ACKs, and tells whether it already was Client |
| SprotMachine.OnSetRecv | sprot/sprot.cpp:362-372 | SETRECV switches to Server, ACKs, and tells whether it already was Server |
| SprotMachine.OnData | sprot/sprot.cpp:333-360 | a DATA frame is ACKed when its number is the last or the next one and NACKed otherwise; any frame but the next leaves the state unchanged and keeps reading |
| SprotMachine.OnFrame | sprot/sprot.cpp:269-290 | frame dispatch only writes replies and never consumes incoming frames |
| SprotMachine.ReadLoop | sprot/sprot.cpp:96-109 | the receive loop only consumes incoming frames |
| SprotMachine.DeliverAsWritten | sprot/sprot.cpp:114-117 | as written, delivery hands out the output buffer with the size of `buf_` at that point, then resets |
| SprotMachine.Deliver | sprot/sprot.cpp:114-117 | the corrected delivery returns the data with its true length |
| SprotMachine.ReadImpl | sprot/sprot.cpp:67-118 | read_impl only consumes incoming frames, and what it delivers carries its true length |
| SprotMachine.WaitRecvMode | sprot/sprot.cpp:478-488 | only consumes incoming frames, and success leaves the protocol in Server mode |
| SprotMachine.WaitSendMode | sprot/sprot.cpp:466-476 | success leaves the protocol in Client mode |
| SprotMachine.ReadInClientAsWritten | sprot/sprot.cpp:85-89 | as written, a successful switching read leaves an empty buffer and an output size of 0 (the loss under Findings) |
| SprotMachine.Read | sprot/sprot.cpp:251-267 | read never reports Write_Failed, and what it delivers carries its true length |
| SprotMachine.Attempt | sprot/sprot.cpp:190-239 | the attempts only consume replies |
| SprotMachine.SendFrames | sprot/sprot.cpp:145-244 | sending the frames changes only the sequence number, and can fail only with Write_Failed |
| SprotMachine.WriteImpl | sprot/sprot.cpp:120-249 | a successful write_impl returns the data's length and leaves an empty buffer and sequence number 0 |
| SprotMachine.Write | sprot/sprot.cpp:374-389 | write never reports Read_Failed, and success returns the data's length |
| SprotProperties.GoodAckIsAckFrame | sprot/sprot.cpp:204-206 | the writer accepts exactly the ACK control frame as a reply |
| SprotProperties.RetransmissionIgnored | sprot/sprot.cpp:333-360 | a retransmitted DATA frame is ACKed again without being appended twice |
| SprotProperties.OutOfOrderRefused | sprot/sprot.cpp:333-360 | a DATA frame whose number is neither the last nor the next is NACKed and changes nothing |
| SprotProperties.SingleFrameCompletes | sprot/sprot.cpp:333-360 | outside a sequence, the next DATA frame completes the read, or overflows and keeps the data |
| SprotProperties.CorruptFrameNacked | sprot/sprot.cpp:104-108 | a frame failing crc_check is answered with NACK and the loop goes on |
| SprotProperties.RetryAfterOverflow | sprot/sprot.cpp:111-112 | after an overflow, the next read delivers the kept data without touching the wire if the new buffer is large enough, and overflows again otherwise |
| SprotProperties.ManualSwitchingRefuses | sprot/sprot.cpp:75-140 | with manual switching, a read in Client mode or a write in Server mode is Incorrect_Mode |
| SprotProperties.WaitInModeReturns | sprot/sprot.cpp:466-488 | waiting for the mode one is already in returns at once |
| SprotProperties.AttemptAcked | sprot/sprot.cpp:190-239 | a frame answered with ACK is sent once and counts as delivered |
| SprotProperties.AttemptRefused | sprot/sprot.cpp:190-239 | a frame answered k times without a good ACK is sent k times and fails |
| SprotProperties.AttemptTimesOut | sprot/sprot.cpp:190-239 | with no replies, every attempt times out and the frame is sent each time |
| SprotProperties.SendFramesAcked | sprot/sprot.cpp:145-244 | over a transport that ACKs each frame, every planned frame is sent in order and the write succeeds |
| SprotProperties.FirstFrameRefused | sprot/sprot.cpp:190-242 | five refusals of the first frame make the write fail with Write_Failed after five sends |
| SprotProperties.WriteOverAckingTransport | sprot/sprot.cpp:374-389 | write over an acknowledging transport returns the message length, sends the plan's frames and leaves the protocol reset in Client mode |
| SprotProperties.ReceiveChunks | sprot/sprot.cpp:333-360 | a run of chunks inside a sequence is appended and ACKed frame by frame |
| SprotProperties.ReceiveMessage | sprot/sprot.cpp:67-118 | the frames of a written message, received in order, assemble the message and ACK every frame |
| SprotProperties.DeliverMessage | sprot/sprot.cpp:111-117 | a received message that fits is delivered with its length and the protocol is reset |
| SprotProperties.ReadMessage | sprot/sprot.cpp:251-267 | read of a written message delivers it when the buffer is large enough, and otherwise overflows keeping it for a retry |
| SprotProperties.WriteThenRead | sprot/sprot.cpp:251-389 | what one side writes, the other side reads back, with one ACK per frame |
| SprotProperties.LargeReadCountLost | sprot/sprot.cpp:114-117 | as written, a delivered message larger than the receive reserve is reported as 0 bytes |
| SprotProperties.TakeSetRecv | sprot/sprot.cpp:362-372 | a SETRECV ends the receive loop with a reset protocol in Server mode |
| SprotProperties.WaitForSetRecv | sprot/sprot.cpp:478-488 | a Client waiting for the receive mode accepts SETRECV and becomes Server |
| SprotProperties.SwitchThenReadAsWritten | sprot/sprot.cpp:85-89 | as written, a Client read that switches modes first ends with Buffer_Overflow for any message |
| SprotProperties.SwitchThenRead | sprot/sprot.cpp:85-89 | with the buffer size restored after the switch, the Client read receives the message |
| SprotProtocol.Transport.constructor | common/fplog_transport.h:13-30 | the transport starts with its script of incoming frames and nothing sent |
| SprotProtocol.Transport.Read | common/fplog_transport.h:26 | a read takes the next incoming frame, or times out when there is none |
| SprotProtocol.Transport.Write | common/fplog_transport.h:27 | a write appends the frame to the outgoing frames |
| SprotProtocol.StepSeqBegin | sprot/sprot.cpp:159-164 | before a multi-frame message, the next frame is SEQBEGIN |
| SprotProtocol.StepSeqEnd | sprot/sprot.cpp:172-177 | after the last chunk of a sequence, the next frame is SEQEND |
| SprotProtocol.StepSingle | sprot/sprot.cpp:179-185 | a message that fits is sent as one DATA frame |
| SprotProtocol.StepChunk | sprot/sprot.cpp:166-185 | inside a sequence, the next frame is an MTU-sized chunk |
| SprotProtocol.StepLastChunk | sprot/sprot.cpp:179-185 | the rest of the data goes in the last chunk |
| SprotProtocol.RemainingStep | sprot/sprot.cpp:157-185 | the frame selected next is the head of the frames still to send |
| SprotProtocol.SelectFrame | sprot/sprot.cpp:157-188 | the selection code picks no frame exactly when the message is done, and otherwise the next frame of the plan |
| SprotProtocol.AfterAck | sprot/sprot.cpp:208-226 | after an ACK, the counters describe the rest of the plan |
| SprotProtocol.SendFirst | sprot/sprot.cpp:190-242 | the first frame's attempts decide between Write_Failed and sending the rest |
| SprotProtocol.PlanAcked | sprot/sprot.cpp:159-226 | after the next frame is ACKed, the cursor describes the plan without that frame, and the remaining work decreases |
| SprotProtocol.Protocol.constructor | sprot/sprot.cpp:51-65 | a new protocol is in its initial state, and its usable MTU is the transport's minus the three-byte overhead |
| SprotProtocol.Protocol.Reset | sprot/sprot.cpp:307-319 | reset as the state function says |
| SprotProtocol.Protocol.SendFrame | sprot/sprot.cpp:434-453 | sends the sealed control frame |
| SprotProtocol.Protocol.SendData | sprot/sprot.cpp:416-432 | sends the sealed DATA frame with the current sequence number |
| SprotProtocol.Protocol.CompleteRead | sprot/sprot.cpp:391-414 | complete_read updates the fields as the state function says and raises Buffer_Overflow on overflow |
| SprotProtocol.Protocol.OnSeqBegin | sprot/sprot.cpp:292-297 | SEQBEGIN handling as the state function says |
| SprotProtocol.Protocol.OnSeqEnd | sprot/sprot.cpp:299-305 | SEQEND handling as the state function says |
| SprotProtocol.Protocol.OnSetSend | sprot/sprot.cpp:321-331 | SETSEND handling as the state function says |
| SprotProtocol.Protocol.OnSetRecv | sprot/sprot.cpp:362-372 | SETRECV handling as the state function says |
| SprotProtocol.Protocol.OnData | sprot/sprot.cpp:333-360 | DATA handling as the state function says |
| SprotProtocol.Protocol.TakeData | sprot/sprot.cpp:342-359 | accepting the next DATA frame as the state function says |
| SprotProtocol.Protocol.OnFrame | sprot/sprot.cpp:269-290 | frame dispatch as the state function says |
| SprotProtocol.Protocol.ReceiveLoop | sprot/sprot.cpp:96-109 | the receive loop as the state function says |
| SprotProtocol.Protocol.ReadImpl | sprot/sprot.cpp:67-118 | read_impl as the corrected state function says |
| SprotProtocol.Protocol.WaitRecvMode | sprot/sprot.cpp:478-488 | wait_recv_mode as the state function says |
| SprotProtocol.Protocol.WaitSendMode | sprot/sprot.cpp:466-476 | wait_send_mode as the state function says |
| SprotProtocol.Protocol.Read | sprot/sprot.cpp:251-267 | read as the state function says |
| SprotProtocol.Protocol.IsGoodAck | sprot/sprot.cpp:204-206 | the reply check accepts exactly a good ACK |
| SprotProtocol.Protocol.OfferFrame | sprot/sprot.cpp:190-239 | the attempt loop sends and waits as the retransmission function says |
| SprotProtocol.Protocol.WriteNext | sprot/sprot.cpp:157-242 | one pass of the write loop either ends the write as the plan says or moves on to a strictly smaller rest of the plan |
| SprotProtocol.Protocol.SendNext | sprot/sprot.cpp:190-242 | offering the selected frame ends the write or moves on |
| SprotProtocol.Protocol.Acknowledged | sprot/sprot.cpp:208-226 | the counter updates after an ACK keep the write on its plan |
| SprotProtocol.Protocol.SendMessage | sprot/sprot.cpp:145-244 | the write loop sends the message's plan with the retransmission rule |
| SprotProtocol.Protocol.WriteImpl | sprot/sprot.cpp:120-249 | write_impl as the state function says |
| SprotProtocol.Protocol.Write | sprot/sprot.cpp:374-389 | write as the state function says |

## Left out

- The wall-clock timeouts of `read_impl`, `wait_*_mode` and the transport are not modelled. The transport returns its scripted frames, and an exhausted script stands for a timeout.
- Transport write failures and short writes are not modelled, because the transport is an abstract script. `send_frame`/`send_data` always write the whole frame.
- The null-buffer and null-transport `Incorrect_Parameter` checks are not modelled. Buffers and the transport are always present in Dafny.
- The transport reads frames into the caller's buffer of `buf_size` bytes. The model receives whole frames and does not model truncation by a small caller buffer.
- SprotProtocol.Protocol.constructor requires a transport MTU above the three-byte overhead. In the source, a smaller MTU wraps the unsigned subtraction and yields an unusable MTU.
- The `Incorrect_Parameter` that `write_impl` raises for an empty DATA payload is not modelled, because the frame selection never produces one.
- Where `sprot/sprot.h` and `sprot/sprot.cpp` disagree (declarations without definitions, default arguments), the model follows `sprot/sprot.cpp`.
- The static CRC table that `crc7` builds lazily is built by `Sprot.BuildCrcTable` and passed in. Algebraic properties of CRC-7 beyond `crc_check` are not stated.
- QueueControl.Controller.Push: the emergency timer of `state_of_emergency` is not modelled. Time is replaced by the `timedOut` and `stillTimedOut` inputs; the size test is modelled.
- QueueControl.Controller.Front: requires a non-empty queue, because `front()` on an empty queue is undefined behaviour and callers test `empty()` first. The same applies to QueueControl.Controller.Pop.
- The priority selection of the below-priority algorithms is a predicate on the message text. The JSON parsing of `fplog::Message` and `Filter_Base::add_all_below` are not modelled.
- The `int` conversion of `size_t` sizes in the eviction algorithms is not modelled, because sizes are unbounded. The clamp of a negative size to 0 is modelled.
- The JSON codec (libjson), the message object and the filter's JSON access are not modelled. A message is a map from field names to strings.
- Threads, sleeps, the `should_stop` flag, the JSON batch text, the emergency log files and sending the batch are not modelled. The reader pass returns the batch it would send.
- Daemon.Reader.constructor: starts the batch size at 30. The source leaves `batch_size_` uninitialised until `start()` sets it.
- Daemon.ConfiguredBatchSize: configuration values are already integers. The `std::stoi` exception for a non-numeric value is not modelled.
- Base64.EncodeInto: requires a target of at least one byte, because `targetlen - 1` wraps for an empty target in the source.
- Base64.DecodeInto: promises that -1 means the decoding does not fit only for targets below 2^31 bytes. For larger targets the `(int)` cast at common/utils.cpp:348 can turn the remaining length negative, and the source may then return -1 although the decoding fits.
- Base64.DecodeInto: says nothing about the target when it returns -1. The source may already have written earlier triples by then.
- The `malloc` failure path of `base64_decode` is not modelled.
- Uid.LexicalCast: accepts only non-empty decimal digit strings up to ULLONG_MAX. boost's treatment of leading signs and whitespace is not modelled.
- Trimming uses the C-locale `isspace` set. Locales and Unicode are not modelled.
- The other transports (UDP, shared memory, sockets), fpcollect, the storage back-ends and the client library's message API are not part of this model.

## Findings

| source | as written | input that shows it | evidently intended | confidence | as-written member | corrected member |
|---|---|---|---|---|---|---|
| common/utils.cpp:112-120 (and fplog/utils.cpp:36-44) | the sign is chosen by `hours > 0`, so a bias of 1 to 59 minutes gets '-' | bias 30 gives "-0030" | "+0030" | not executed; high | TextUtils.TimezoneSignForSubHourOffset | TextUtils.TimezoneCorrectedRoundTrip |
| sprot/fplog_transport.cpp:19-31 | ULLONG_MAX marks an unfilled half, so a high half equal to ULLONG_MAX is taken as unfilled | UID high 18446744073709551615, low 5: to_string then from_string gives high 5, low 18446744073709551615 | the original UID | not executed; medium (needs the extreme value) | Uid.SentinelRoundTripFails | Uid.ParseCountedToString |
| sprot/sprot.cpp:114-117 with 407-412 | `read_impl` returns `buf_.size()` after `complete_read` has released a buffer larger than `recv_buf_reserve_` | a message of recv_buf_reserve + 1 bytes, read with a large enough buffer | the message length | not executed; high | SprotProperties.LargeReadCountLost | SprotProperties.ReadMessage |
| sprot/sprot.cpp:85-89 with 307-319 | `wait_recv_mode`'s nested `read_impl` ends with `reset`, which sets `out_buf_sz_` to 0, and the outer read keeps going with that size | a Client read under auto switching that receives SETRECV and then a one-byte message | the message is delivered | not executed; high | SprotProperties.SwitchThenReadAsWritten | SprotProperties.SwitchThenRead |
