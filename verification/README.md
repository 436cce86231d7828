# logfence, verified

logfence reads framed RFC 5424 syslog from a byte stream or from datagrams, validates the JSON
payload, rewrites and canonicalises it, and forwards it to rsyslog. This project models the parts of
it where the arithmetic, the scanning and the concurrency are hard, and proves what they promise.
`dafny verify dfyconfig.toml` checks everything.

Text is modelled as a sequence of bytes, one character per byte; every separator in the protocol is
ASCII. `std::str::from_utf8`, the JSON parser and printer, the JSON schemas, the process id, the local
hostname and the outcomes of system calls are parameters.

## Layout

| file | what it models |
|---|---|
| `Text.dfy` | the string operations of the standard library that the source uses |
| `Timestamp.dfy` | the TIMESTAMP recogniser and its grammar |
| `StructuredData.dfy`, `SdGrammar.dfy` | the two STRUCTURED-DATA scanners, and the SD-ELEMENT grammar as trees |
| `Syslog.dfy` | the message parser and printer |
| `Frame.dfy`, `Session.dfy`, `Chunking.dfy` | the RFC 6587 codecs, the session read loop, and how bytes arrive |
| `Rewrite.dfy` | sender rewriting and SD-PARAM escaping |
| `Calendar.dfy`, `ClientTime.dfy` | days to dates, and the client's timestamp text |
| `Json.dfy`, `Validator.dfy` | canonical JSON, validation, preparation for forwarding |
| `Pipeline.dfy`, `Metrics.dfy` | sessions, hot reload and counters as an interleaved step system |
| `Dispatch.dfy`, `Listener.dfy` | round-robin dispatch to workers; permits and drain |
| `Retry.dfy`, `Writer.dfy` | datagram retry and shutdown; the reconnecting stream writer |
| `EndToEnd.dfy` | from a client's sends to what the daemon forwards |

## Main results

- **Parse and print.** Exactly which texts parse, and to which message (`AcceptsExactly`); exactly which fail
  with which error (`ParseFailsExactly`). Parsing the printed form gives a message back if and only if the
  message meets an explicit condition on its fields (`DisplayParse`), and every parsed message meets it.
- **Stream fidelity.** However the encoded stream is cut into chunks, the session handles exactly the
  messages sent, if and only if each is printable, has a UTF-8 rendering and is one to which the framing is
  transparent (`StreamFidelity`); for octet-count
  frames written by any sender, if and only if no length prefix is over twenty bytes (`PrefixedFrameChunks`).
- **Scanners and grammar.** Exactly where the end scanner stops and what the content validator accepts, on every
  text (`FindEndExactly`, `AcceptedExactly`). Both STRUCTURED-DATA scanners agree on every rendering of the grammar except
  when the last element's closing bracket is escaped (`ScannersOnGrammar`); the content validator with an
  aligned cursor accepts exactly the renderings (`AcceptedExactlyRuns`), each of which has one reading
  (`RunInjective`).
- **Panics.** A character in the wrong place makes the structured-data validator slice inside it and panic,
  which ends the session. It does so if and only if one of the turns it starts is on a byte that a
  continuation byte follows (`PanicsExactly`, `ParsePanicsExactly`, `DecodePanicsExactly`,
  `RecoversAfterError`); no accepted text has such a turn (`AcceptedUncut`).
- **Calendar.** The closed form equals n single-day steps if and only if n is at most 784 351 576 776, the
  last day whose year fits 32 bits (`CalendarCorrect`), and the client's text is a valid timestamp if and
  only if the year modulo 2^32 is at most 9999 (`TimestampAccepted`).
- **Canonical JSON.** Keys come out in bytewise order (`SortedIsCanonical`, `LessExactly`). Equal canonical forms mean equal up to key order, and conversely
  (`CanonicalFormComplete`), also of the text that goes out (`CanonicalOutput`).
- **Filter safety.** In every interleaving, whatever is forwarded was judged and prepared by the one
  validator current at its message's snapshot, no decoded message is forwarded twice, and a session's
  messages keep their order; what goes out has the payload the validator asks for and, of the other fields,
  exactly those that the sender mode changes differ (`FilterSafety`). Counters balance (`CountersConserved`, `ForwardedTallied`).
- **Reconnecting writer.** Over every sequence of sends, with oversized messages and arbitrary failures, the
  session on each connection handles exactly the messages whose send succeeded on it, if and only if those
  are printable with UTF-8 renderings (`ReceiverSeesSent`); exactly when a send succeeds (`SendExactly`), also
  after a lost connection (`Reconnects`).
- **End to end.** What is forwarded for a connection are outgoing forms of messages whose send succeeded on
  it, each of its own, in the order sent (`ClientToForwarder`).
- **Datagrams.** After a drain every datagram is accounted for, and all were processed, in round-robin order,
  if and only if no worker died (`DrainedProcessesAll`); a drain that has begun completes (`DrainCompletes`).

## Where the code and its documentation differ

The model follows the code.

- `SyslogMessage::parse` trims only trailing LF, CR and NUL, not leading whitespace as
  crates/logfence-proto/src/syslog.rs:192-193 says.
- `validate_structured_data_content` does not start every turn on a `[`, as
  crates/logfence-proto/src/syslog.rs:545 says: after a parameter without a closing `]` the next turn starts on
  whatever byte follows, which can be accepted (`UnalignedAccepted`) or panic (`PanicExample`). The session
  then ends, although crates/logfence-daemon/src/session.rs:145-146 keeps it open after bad bytes.
- Second 60 is a valid timestamp second, although section 6.2.3 of RFC 5424 excludes it.
- The retry delay reaches its cap of one second at attempt 16, not at attempt 24 as README.md:143 says.
- `snapshot` reads the four counters one after another, not atomically as
  crates/logfence-daemon/src/metrics.rs:58 says.
- `rewrite_sender` joins a new SD-ELEMENT to existing ones with a space, which ends the field for a
  receiver; section 6.3 of RFC 5424 concatenates elements.
- The `as` casts of `civil_from_days` are not safe for every `u64`, as
  crates/logfence-client/src/builder.rs:233-234 says: from day 784 351 576 777 on the year wraps at 32 bits,
  and the start of the year 4 294 969 266 is written as the start of 1970 (`YearWraps`, `WrappedTimestamp`).
- The drain asks for at most `u32::MAX` permits, so it is complete only for limits within 32 bits; a
  retry limit of `u32::MAX` never ends, because the attempt counter saturates there.

## Model

| member | source | states |
|---|---|---|
| Text.ParseUnsignedExactly | crates/logfence-proto/src/syslog.rs:209-211 | a number is parsed from exactly its numeral with or without one `+` and leading zeros, and only up to its type's maximum |
| Timestamp.CheckDateTime | crates/logfence-proto/src/syslog.rs:427-464 | the indexed tests on the first nineteen bytes hold exactly when they are a full date, `T` and a partial time of the grammar |
| Timestamp.ScanFraction | crates/logfence-proto/src/syslog.rs:466-479 | the digit loop finds the one position at which any valid split can put the zone |
| Timestamp.CheckZone | crates/logfence-proto/src/syslog.rs:481-510 | the zone test accepts exactly `Z` or a signed hh:mm offset in range, with nothing after it |
| Timestamp.ValidateTimestamp | crates/logfence-proto/src/syslog.rs:415-513 | accepts exactly the strings that split as date, `T`, time, optional fraction and zone; no index leaves the string |
| StructuredData.FindStructuredDataEnd | crates/logfence-proto/src/syslog.rs:342-378 | the nested loops with two flags compute where a byte-by-byte automaton stops between elements |
| StructuredData.FindEndOfPrefix | crates/logfence-proto/src/syslog.rs:373-377 | the end found is decided by the bytes before it and the next byte not being a bracket |
| StructuredData.ValidateSdName | crates/logfence-proto/src/syslog.rs:619-641 | accepts exactly 1 to 32 visible ASCII characters other than `=`, `]` and the quote |
| StructuredData.ScanValue | crates/logfence-proto/src/syslog.rs:586-604 | the escape-aware loop ends just past the closing quote of a value, or reports none |
| StructuredData.ScanParams | crates/logfence-proto/src/syslog.rs:555-605 | the parameter loop, with the tolerated space before `]`, ends where the recursive reading of parameters ends |
| StructuredData.ScanElement | crates/logfence-proto/src/syslog.rs:545-610 | one outer turn moves the cursor past one element, is refused, or panics on a slice inside a character, as the recursive reading says |
| StructuredData.ValidateContent | crates/logfence-proto/src/syslog.rs:536-614 | accepts `-` and the texts through which the cursor runs to the end, and otherwise is refused or panics where the first turn that does not complete does |
| StructuredData.PanicsExactly | crates/logfence-proto/src/syslog.rs:543-553 | on UTF-8 text the validator panics iff one of the turns it starts is on a byte that a continuation byte follows |
| StructuredData.AcceptedUncut | crates/logfence-proto/src/syslog.rs:543-553 | no turn of an accepted text slices inside a character, whatever its bytes |
| SdGrammar.FindEndExactly | crates/logfence-proto/src/syslog.rs:342-378 | on every text the end scanner stops where no element starts, goes on behind an element's first bracket that follows an even number of backslashes and of unescaped quotes, and finds no end without one |
| SdGrammar.AcceptedExactly | crates/logfence-proto/src/syslog.rs:536-614 | the validator accepts exactly `-` and the sequences of turns: a byte not looked at, an SD-ID, parameters, and a closing bracket that may be missing at the end of the text or after a parameter |
| SdGrammar.ScannersOnGrammar | crates/logfence-proto/src/syslog.rs:338-614 | on every run of SD-ELEMENTs the validator accepts with every turn on an element's `[`, and the end scanner stops at the run's end iff the last closing bracket is not escaped |
| SdGrammar.ScannersAgree | crates/logfence-proto/src/syslog.rs:342-614 | when no SD-ID holds a backslash both scanners accept the whole run |
| SdGrammar.AcceptedExactlyRuns | crates/logfence-proto/src/syslog.rs:530-614 | the validator accepts a text with an aligned cursor iff the text renders a non-empty run of SD-ELEMENTs; the trees are those of section 6.3 of RFC 5424 and also allow a bare `]` in a value and one space before a closing `]` |
| SdGrammar.RunInjective | crates/logfence-proto/src/syslog.rs:530-614 | two runs of SD-ELEMENTs with the same text are the same run |
| SdGrammar.UnalignedAccepted | crates/logfence-proto/src/syslog.rs:545-553 | a text that no run renders is found as one field by the end scanner and accepted by the validator, because the byte at the cursor is stepped over unchecked |
| SdGrammar.PanicExample | crates/logfence-proto/src/syslog.rs:545-553 | at one UTF-8 text that the end scanner finds as a whole field, the second turn starts on a two-byte character and panics |
| SdGrammar.DanglingExample | crates/logfence-proto/src/syslog.rs:357-368 | a name ending in a backslash is accepted by one scanner and unterminated for the other |
| Syslog.PriorityFromInteger | crates/logfence-proto/src/syslog.rs:151-158 | succeeds exactly up to 191, and re-encodes to the same integer |
| Syslog.PriorityRoundTrip | crates/logfence-proto/src/syslog.rs:151-164 | decoding an encoded priority gives it back |
| Syslog.SplitHeaderField | crates/logfence-proto/src/syslog.rs:293-310 | a split field and its rest print back to the text it was split from, and the field has no space |
| Syslog.ValidatePrintUsAscii | crates/logfence-proto/src/syslog.rs:387-413 | accepts exactly 1 to the maximum number of visible ASCII characters |
| Syslog.AcceptsExactly | crates/logfence-proto/src/syslog.rs:199-335 | a text parses to a message iff the message is printable and the text is `<`, the priority with or without `+` and zeros, `>1 `, the five fields, the structured data, a space and MSG or a text that is dropped, and any line breaks and NULs |
| Syslog.ParseFailsExactly | crates/logfence-proto/src/syslog.rs:199-335 | for each error, and the panic, the parser ends with it iff the trimmed text has that defect: PRI, version, a missing field, structured data without start or end, or the first field with wrong content |
| Syslog.ParsedIsPrintable | crates/logfence-proto/src/syslog.rs:199-265 | every parsed message is printable, and prints no longer than the text it was parsed from |
| Syslog.DisplayParse | crates/logfence-proto/src/syslog.rs:199-287 | for every message, printing and parsing gives it back iff it is printable |
| Syslog.ParsePrintParse | crates/logfence-proto/src/syslog.rs:199-287 | for every accepted text, parse, print and parse again equals the first parse |
| Syslog.ParsePanicsExactly | crates/logfence-proto/src/syslog.rs:199-265 | on UTF-8 text the parser panics iff the text has the shape of a message with valid header fields and its structured data starts such a turn |
| Syslog.WireExample | crates/logfence-proto/src/syslog.rs:269-287 | the order of the fields on the wire |
| Frame.OctetDecode | crates/logfence-proto/src/frame.rs:84-121 | consuming the buffer in place has the outcome and leaves the bytes of the decoding function |
| Frame.DelimiterDecode | crates/logfence-proto/src/frame.rs:182-206 | the same for delimiter framing |
| Frame.Encode | crates/logfence-proto/src/frame.rs:127-225 | appends exactly one frame, or reports the size and leaves the buffer alone |
| Frame.FrameExample | crates/logfence-proto/src/frame.rs:127-225 | both frames of one message in full |
| Frame.WholeFrame | crates/logfence-proto/src/frame.rs:84-142 | an encoded frame at the front decodes to its message and is consumed exactly, iff the message is printable with a UTF-8 rendering |
| Frame.PartialFrame | crates/logfence-proto/src/frame.rs:86-111 | a proper prefix of a frame neither decodes nor fails |
| Frame.CutFrame | crates/logfence-proto/src/frame.rs:182-206 | a rendering that holds the delimiter is never decoded as itself |
| Frame.DecodeExactly | crates/logfence-proto/src/frame.rs:84-206 | for arbitrary bytes, the decoder yields a message iff the buffer starts with one complete frame within the limit whose UTF-8 body parses to it |
| Frame.DecodeWaitsExactly | crates/logfence-proto/src/frame.rs:84-206 | for arbitrary bytes, the decoder asks for more iff the separator is missing and has room, or a length has arrived and bytes of its frame are missing; the buffer stays as it is |
| Frame.DecodeFailsExactly | crates/logfence-proto/src/frame.rs:84-206 | for arbitrary bytes and each error, and for a panic, the decoder ends with it iff the buffer has the defect it names |
| Frame.DecodePanicsExactly | crates/logfence-proto/src/frame.rs:84-206 | the decoder panics iff the buffer starts with a complete frame within the limit whose UTF-8 body makes the parser slice inside a character |
| Frame.OversizedFrame | crates/logfence-proto/src/frame.rs:99-104 | a frame over the limit is refused once its length has arrived, whatever follows |
| Session.RunWithCodec | crates/logfence-daemon/src/session.rs:123-178 | the loop over one mutable buffer produces the events and leftover bytes of the session function, and ends at a panic of the decoder |
| Session.DrainLoop | crates/logfence-daemon/src/session.rs:160-176 | the loop at end of file produces the events and leftover bytes of the drain function |
| Session.StreamFidelity | crates/logfence-daemon/src/session.rs:135-177 | for every list of messages within the size limit and every split into non-empty chunks, exactly that list is handled with nothing left over, iff each is printable, has a UTF-8 rendering and is one to which the framing is transparent |
| Session.TruncatedStream | crates/logfence-daemon/src/session.rs:160-176 | a stream cut inside a frame handles its whole frames and reports the rest once, as an I/O error, iff the same holds of its messages |
| Session.ReadStops | crates/logfence-daemon/src/session.rs:151-178 | a read error ends the loop with the events so far, without the drain that end of file would bring; a read of no bytes is end of file; nothing read later matters |
| Session.RecoversAfterError | crates/logfence-daemon/src/session.rs:143-148 | after a frame error the buffer is dropped and the stream that follows is handled in full iff the same holds of its messages; a panic of the decoder ends the session with nothing more handled |
| Session.PanicEndsSession | crates/logfence-daemon/src/session.rs:135-149 | the frame of one message with the wrongly placed character ends the session, whatever is still to come |
| Chunking.PrefixedFrameChunks | crates/logfence-proto/src/frame.rs:85-97 | a stream of any octet-count frames, with zeros or `+` in lengths and bodies that get trimmed, is handled in full under every chunking iff every prefix has at most twenty bytes |
| Rewrite.EscapeSdParam | crates/logfence-daemon/src/session.rs:48-60 | the loop's output unescapes to its input, and every quote, backslash and `]` in it is escaped |
| Rewrite.RewriteRoundTrip | crates/logfence-daemon/src/session.rs:64-91 | the rewritten message survives the wire unchanged iff it had no structured data and the hostname is valid and not `-` |
| Rewrite.RewriteKeepsSender | crates/logfence-daemon/src/session.rs:64-91 | hostname, app and pid become logfenced's own, and every reading of the text added to the structured data is one element `logfence-src@65944` with fully escaped values that give, unescaped, the original three; nothing else changes |
| Rewrite.RewriteWithStructuredData | crates/logfence-daemon/src/session.rs:75-79 | with structured data, the receiver sees the original structured data and a MSG that begins with the new element |
| Rewrite.RewriteSeen | crates/logfence-daemon/src/session.rs:64-91 | for every valid hostname, including `-`, the rewritten message parses, and to what |
| Calendar.CalendarCorrect | crates/logfence-client/src/builder.rs:242-254 | for every 64-bit day count the closed form is the date reached by single-day steps iff the count is at most 784 351 576 776 |
| Calendar.YearWraps | crates/logfence-client/src/builder.rs:253 | at day 1 568 704 592 610, in the year 4 294 969 266, the closed form gives 1970-01-01 |
| Calendar.CalendarInjective | crates/logfence-client/src/builder.rs:242-254 | up to that last day dates are valid and later days give later dates |
| ClientTime.TimestampAccepted | crates/logfence-client/src/builder.rs:219-227 | for every 64-bit number of seconds the text is an RFC 5424 timestamp iff the cast year is between 0 and 9999, that is, the year is at most 9999 modulo 2^32 |
| ClientTime.TimestampThrough9999 | crates/logfence-client/src/builder.rs:219-227 | as long as the year fits 32 bits, that is exactly up to the end of the year 9999 |
| ClientTime.WrappedTimestamp | crates/logfence-client/src/builder.rs:219-253 | the start of the year 4 294 969 266 gets the valid text of the start of 1970 |
| ClientTime.TimestampReadsBack | crates/logfence-client/src/builder.rs:219-227 | date and second of the day can be read back from the text |
| Json.LessExactly | crates/logfence-daemon/src/validator.rs:334-346 | the order of keys is bytewise: a proper prefix comes first, else the first bytes that differ decide |
| Json.SortedIsCanonical | crates/logfence-daemon/src/validator.rs:334-346 | keys strictly increase in that order at every level of the result, for any input |
| Json.SortedIsSame | crates/logfence-daemon/src/validator.rs:334-346 | sorting changes only the order of keys; arrays keep theirs |
| Json.SortedFixedPoint | crates/logfence-daemon/src/validator.rs:334-346 | sorting leaves a tree alone iff it is canonical, and twice is once |
| Json.CanonicalFormComplete | crates/logfence-daemon/src/validator.rs:324-346 | two trees have the same sorted form iff they differ only in key order at any depths |
| Validator.StringFieldLookup | crates/logfence-daemon/src/validator.rs:303-305 | the discriminator value is the string stored under the field |
| Validator.SchemaMatchesExactly | crates/logfence-daemon/src/validator.rs:302-317 | an object matches iff the schema its discriminator selects accepts it, or none is selected and there are no plain schemas or one of them accepts it |
| Validator.ValidateExactly | crates/logfence-daemon/src/validator.rs:175-222 | for each outcome, exactly which messages have it: pass, the two cookie errors, no JSON, no object, rejected by schema |
| Validator.LawfulExists | crates/logfence-daemon/src/validator.rs:240-296 | every tree without duplicate keys is parsed from some text by some library that meets, on every text, the assumption made of the JSON library on single texts |
| Validator.PrepareValidated | crates/logfence-daemon/src/validator.rs:240-296 | of a validated message only MSG changes, the cookie follows the output policy and is never doubled, the JSON is the same up to key order and sorted if asked for, else untouched, and preparing twice is preparing once |
| Validator.CanonicalOutput | crates/logfence-daemon/src/validator.rs:253-258 | two validated messages leave with the same JSON text iff their payloads differ only in key order |
| Validator.PreparedIsPrintable | crates/logfence-daemon/src/validator.rs:240-296 | a prepared message parses back from its wire form |
| Pipeline.FilterSafety | crates/logfence-daemon/src/session.rs:209-248 | in every interleaving with reloads, every forwarded message comes from a decoded one that passed, judged and prepared by the validator current at its snapshot; different ones come from different decodes, in order within a session; each has the payload its validator asks for, and only the fields of the sender mode changed |
| Pipeline.StepsAvailable | crates/logfence-daemon/src/session.rs:135-248 | in every state reloads and new sessions can come, an idle session can decode, report or close, and any other can take its next step |
| Pipeline.ForwardedParsesBack | crates/logfence-daemon/src/session.rs:234-241 | with the original sender, every forwarded message parses back from the wire |
| Pipeline.RewrittenParsesBack | crates/logfence-daemon/src/session.rs:234-241 | with logfenced as sender, every forwarded message parses as the rewrite of the prepared form of the message its session decoded |
| Pipeline.CurrentIsLastReload | crates/logfence-daemon/src/main.rs:210-222 | the validator changes only by a successful reload; failed reloads keep it |
| Metrics.CountersConserved | crates/logfence-daemon/src/session.rs:216-247 | received equals forwarded plus dropped plus errors plus in flight, after every step of every run |
| Metrics.ForwardedTallied | crates/logfence-daemon/src/session.rs:241-247 | the forwarded counter equals the number of messages that went out, less those handed over and not yet counted |
| Metrics.OnlyMessagesCount | crates/logfence-daemon/src/session.rs:250-287 | framing errors, reports and reloads move no counter |
| Metrics.SnapshotsOrdered | crates/logfence-daemon/src/metrics.rs:64-71 | successive snapshots never decrease in any counter, whatever the order of the relaxed loads; when the load of `received` takes effect first, no more is missing than was in flight |
| Metrics.QuietSnapshot | crates/logfence-daemon/src/metrics.rs:64-71 | a snapshot during which no message is counted shows exactly the counters |
| Metrics.HandleMessage | crates/logfence-daemon/src/session.rs:209-248 | one message counts once as received and once as its outcome, and produces that outcome's output; a forwarded one has the payload the validator asks for and only the sender mode's fields changed |
| Metrics.StepsAreHandleMessage | crates/logfence-daemon/src/session.rs:209-248 | a session's steps, uninterrupted, do what the sequential handler does |
| Dispatch.ShareExact | crates/logfence-daemon/src/datagram_listener.rs:213-226 | the k-th datagram is item k / n of worker k mod n, and loads differ by at most one |
| Dispatch.ReceivedExactly | crates/logfence-daemon/src/datagram_listener.rs:189-203 | what counts as received is every datagram read from the socket, in order |
| Dispatch.RoundRobin | crates/logfence-daemon/src/datagram_listener.rs:157-227 | in every run, also with workers that die, each worker is given its share of the datagrams read, in order, and no channel holds more than 256 |
| Dispatch.DrainedProcessesAll | crates/logfence-daemon/src/datagram_listener.rs:229-271 | after a drain every datagram read was processed, lost with a dead worker or dropped when the loop met one; all were processed exactly once, by their worker, in order, iff no worker died |
| Dispatch.DrainCompletes | crates/logfence-daemon/src/datagram_listener.rs:229-271 | once the loop has stopped every step lessens the work left, and until the pool is drained some worker can go on |
| Dispatch.LoopProgress | crates/logfence-daemon/src/datagram_listener.rs:175-227 | the loop is never stuck; a datagram is dealt to a live worker with fewer than 256 waiting, stops the loop at a dead one, and else its worker can go on |
| Listener.PermitsAccounted | crates/logfence-daemon/src/listener.rs:97-142 | free, held and session permits add up to the limit at every step, and a loop that left either wait holds none |
| Listener.AdmitsExactly | crates/logfence-daemon/src/listener.rs:97-142 | a permit is taken iff not cancelled and fewer sessions than the limit are active; then any connection is accepted iff not cancelled; the loop can be left iff cancelled |
| Listener.LimitReached | crates/logfence-daemon/src/listener.rs:97-142 | some run has as many sessions active at once as the limit |
| Listener.NoneAfterCancel | crates/logfence-daemon/src/listener.rs:97-142 | after cancellation no connection is accepted and sessions only end |
| Listener.DrainIsComplete | crates/logfence-daemon/src/listener.rs:144-150 | a completed drain means no active session, in every run, iff the limit fits 32 bits |
| Listener.DrainEnabledExactly | crates/logfence-daemon/src/listener.rs:144-150 | within 32 bits the drain completes exactly when no session is active |
| Retry.DelayLaw | crates/logfence-daemon/src/forwarder.rs:51-63 | the saturating arithmetic equals min(1 s, 100 µs · 2^(attempt-2)), and reaches the cap exactly from attempt 16, both with the numbers written out |
| Retry.SendDgramWithRetry | crates/logfence-daemon/src/forwarder.rs:72-97 | at most the allowed tries; the first outcome that is neither would-block nor OS error 105 or 55, else the last error; total sleep is the sum of the delays taken |
| Retry.AnswerIsUnique | crates/logfence-daemon/src/forwarder.rs:72-97 | that promise leaves only one answer |
| Retry.ForwardDgram | crates/logfence-daemon/src/forwarder.rs:215-238 | shutdown is requested exactly when a token is given, the mode is Terminate and every allowed try was buffer-full |
| Writer.UnixTransport.Send | crates/logfence-client/src/transport.rs:107-146 | the slot and the bytes of every connection after one send |
| Writer.PacketsAreFramed | crates/logfence-client/src/transport.rs:108-117 | the frame the transport writes is the octet-count encoder's frame of the message, and what its limit lets through fits any receiver with no smaller limit |
| Writer.SendExactly | crates/logfence-client/src/transport.rs:107-146 | a send is too large iff over the limit, and succeeds iff not, a connection is there or can be made, and the write does not fail; the slot after each |
| Writer.Reconnects | crates/logfence-client/src/transport.rs:119-146 | after a cut write the next send, if its connect and write succeed, goes alone on a connection never used before |
| Writer.SendEffect | crates/logfence-daemon/src/forwarder.rs:239-262 | a send adds to one connection a whole frame, or a proper prefix after which the connection leaves the slot |
| Writer.WireShape | crates/logfence-client/src/transport.rs:107-146 | over every run each connection carries the frames sent on it and at most one cut frame |
| Writer.ReceiverSeesSent | crates/logfence-client/src/transport.rs:107-146 | over every run, including sends refused as too large, the octet-count session on a connection, however its bytes arrive, handles exactly the messages whose send succeeded on it, iff each of them is printable with a UTF-8 rendering |
| EndToEnd.TracedToDecoded | crates/logfence-daemon/src/session.rs:135-248 | in every interleaving, a session's forwarded messages are outgoing forms of the messages it decoded, each of its own, in order |
| EndToEnd.ClientToForwarder | crates/logfence-daemon/src/session.rs:123-248 | when the session decodes what its read loop hands over, they are outgoing forms of the messages whose send succeeded on its connection, each of its own, in the order sent |

## Left out

- Frame.Decode: the addition of prefix length and message length does not wrap; in the source it can, for size limits within a prefix length of 2^64.
- Syslog.Parse: the wording of error messages; errors keep their kind and field. All errors of the content validator carry one field name.
- Metrics.SnapshotsOrdered: the source's loads and increments are relaxed, so the bound by the messages in flight is stated only for snapshots whose load of `received` takes effect before the other three; the source does not promise that order.
- Metrics.HandleMessage: counters do not wrap at 2^64.
- Dispatch.RoundRobin: the receiving loop and its workers are modelled on values as interleaved steps, not as updates in place; a worker dies only while it processes a datagram, whatever the reason.
- Listener.PermitsAccounted: the accept loop is modelled on values as interleaved steps; the 30 s drain timeout is not, so drain results hold when the drain completes.
- Listener.DrainIsComplete: the limit is any natural number; the semaphore of the tokio library refuses limits above an eighth of 2^64, so the leaking run exists only for limits up to there.
- Calendar.CalendarCorrect: one subtraction on negative shifted days is not wrapped, and in a build with overflow checks the addition before it stops the program; both concern days from 2^63 - 719 468 on, which no number of seconds in 64 bits reaches.
- Dispatch.DrainedProcessesAll: datagrams longer than the receive buffer are truncated by the operating system before they reach the model.
- Validator.PrepareValidated: the JSON parser and printer are parameters, assumed to be inverse on the sorted tree of the payload at hand, which excludes payloads with a float that does not print back; number text is not modelled.
- Session.StreamFidelity: UTF-8 validity is a parameter; only the results about panics ask something of it, that continuation bytes follow bytes that are not ASCII.
- Cancellation of a send in the middle of a write, select fairness, socket permissions and shutdown directions: operating-system and runtime effects.
- The client's datagram transport and its socket slot: the same retry loop as the forwarder's, so only an easy member more.
- The message builder's setters, configuration loading, schema loading, logging, the stats socket, the C API: no hard property.
