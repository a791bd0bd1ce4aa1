# Verification of the TLS proxy's parsers, connection lifecycle and buffers

This project models the parts of the proxy whose correctness is hardest to see from the code, in
Dafny, and proves what they are for. `dafny verify dfyconfig.toml` checks all of it.

**The chunked decoder** (`ChunkedAutomaton`, `ChunkedDecoder`, `ChunkedGrammar`, `HexSize`). The decoder
rewrites its buffer in place and carries its state from call to call. It is proved equal, call by
call, to an automaton that takes one byte at a time; the automaton is proved independent of how the
stream is cut, and to accept exactly the chunked messages of a grammar, payload and tail included;
sizes are read as the numbers they were printed from.

**The request, response and header parsers** (`HttpGrammar`, `HttpScan`, `HttpParser`,
`HttpStability`, `HttpHopeless`, `HttpPrint`, `HttpHeads`, `HttpBytes`). The loops with their fast
paths are proved equal to a plain left-to-right grammar. Of the grammar it is proved that verdicts are stable
under extension of the buffer, that the `last_len` shortcut is sound (and exactly when it is not, for
bare header blocks), which buffers no further input can complete, that printing and parsing are
inverse in both directions, that what is parsed is well formed, and exactly when more input is asked
for.

**The edit of a header value** (`HeaderEdit`, `HeaderModify`, `WordCompare`). The edit in the
buffer commutes with parsing. The routine around it does that one edit under an exact condition,
which is proved, with an input that fails it. The names are compared by machine words; that
comparison is proved equal to what it computes on every input, and to be the documented one on
strings free of NUL, except at length 8.

**The life of a connection** (`Lifecycle`, `Batches`, `EventLoop`). `Lifecycle` is a step machine over any
number of connections, with three handlers, a reference count and an inactivity timer each, and the
global list of blocks to be freed; its theorems hold of every run. `EventLoop` has the objects the
program updates in place, and each of its methods is proved to do what the machine does. Of epoll it
is assumed that a batch reports each registered descriptor at most once, and no other.

**The ring buffer** (`CircularBuffer`). It is proved to be a queue of the last N bytes.

## How to read it

Methods and classes follow the code; functions say what they compute; lemmas say what that means.
Buffers are arrays of bytes and pointers are indices. The parsers of heads, which only read their
buffer, take it as a sequence; the decoder, the edit and the ring buffer work on arrays.
`size_t` has 64 bits. The parameter `sse` chooses between the two builds of the scans.

Where the code and its documentation differ, the model follows the code:

- `zxy_modify_http_headers` is documented to return the difference in length; it always returns 0,
  because it subtracts after `value_len` was overwritten, and for the same reason does not shift the
  records behind the edited one (`HeaderModify.ReportedDifference`, `HeaderModify.WrongReport`).
- Hence it goes on comparing names where they were before the edit. Even when a single header
  matches, a later record may then match in the moved text, and a second edit corrupts the message:
  replacing the value of `A` by `z` in a request with the headers `A:xx` and `BA:y`
  (`HeaderModify.SecondEdit`; exactly when: `HeaderModify.ScanOnlyMatch`).
- Header names are compared as far as the wanted name goes: `Host` also matches a longer name that
  begins with it (`HeaderModify.MatchesExactly`).
- At a continuation line, whose name is a null pointer, it compares through that pointer
  (`HeaderModify.FoldReached`, `HeaderModify.NullName`; exactly when: `HeaderModify.EditableExactly`).
- `fast_compare` at length 8 enters neither of its loops and reports equality
  (`WordCompare.BlindSpot`); a wanted header name of eight bytes therefore matches every header
  (`HeaderModify.EightByteNames`).
- `phr_parse_headers` can reject a complete empty header block when `last_len` is 1
  (`HttpStability.HeadersShortcutUnsound`, `HttpStability.HeadersOverlooked`).
- With `last_len` set, a head that has failed is reported as partial until the bytes from
  `last_len - 3` on hold a blank line or a carriage return without line feed
  (`HttpStability.RequestFailureShows`, `HttpStability.LateFailure`).
- Because a version is looked at nine bytes at a time, a status four, a method only together with the
  target and the space before a message only at the end of its line, a request or response that
  nothing can complete may be reported as partial. Which buffers those are is stated by
  `HttpHopeless.RequestHopeless` and `HttpHopeless.ResponseHopeless`, and exactly when the answer is
  still -2 by `HttpBytes.RequestPartialExactly` and `HttpBytes.ResponsePartialExactly`.
- A connection on which no client or backend callback ever ran is never taken down by its timer
  (`Lifecycle.TwoTimersTearDown`, `Lifecycle.IdleForever`).
- A read past the content of the ring buffer makes its size wrap around
  (`CircularBuffer.ReadKeepsSize`, `CircularBuffer.ReadFromEmpty`).

## Model

| member | source | states |
|---|---|---|
| `ChunkedDecoder.Decoder.Decode` | src/parsers/http/detail/picohttpparser.c:537-650 | one call in place: returned value, length and bytes of the decoded data, decoder fields and the undecoded tail behind the data are exactly those of the byte-at-a-time automaton; nothing beyond the given size changes |
| `ChunkedAutomaton.SplitInvariance` | src/parsers/http/detail/picohttpparser.h:69-78 | for every way of cutting a stream into successive calls, decoded bytes, outcome, consumed count (hence the undecoded tail) and carried decoder state are those of one call on the whole stream |
| `ChunkedAutomaton.FeedAppend` | src/parsers/http/detail/picohttpparser.c:537-650 | an incomplete run continues on the next bytes as if they had come at once; a finished run (done or failed) ignores all further input |
| `ChunkedAutomaton.Feed` | src/parsers/http/detail/picohttpparser.c:646-649 | an outcome of -2 means every input byte was consumed; the data never outgrows what was consumed |
| `ChunkedAutomaton.FeedData` | src/parsers/http/detail/picohttpparser.c:585-601 | moving a run of data bytes in bulk is the same as decoding them one by one, with the same remainder carried over |
| `ChunkedAutomaton.StepKeepsValid` | src/parsers/http/detail/picohttpparser.c:542-641 | every step keeps the decoder legal: at most 16 digits, the counter below 16^digits in the size state, a positive remainder in the data state, and `consume_trailer` untouched |
| `ChunkedAutomaton.FeedKeepsValid` | src/parsers/http/detail/picohttpparser.c:542-641 | the same invariant over whole streams |
| `ChunkedAutomaton.SizeIsDigitsRead` | src/parsers/http/detail/picohttpparser.c:545-601 | after any stream, `bytes_left_in_chunk` is the hexadecimal value of the digits just read in the size state, of the digits of the line in the extension state, and that value less the data read since in the data state; the line starts at the beginning or behind a line feed; 16^digits never exceeds the size_t range |
| `ChunkedAutomaton.AlwaysCompletable` | src/parsers/http/detail/picohttpparser.c:542-641 | from every legal configuration some further input completes the encoding |
| `ChunkedAutomaton.FailsExactlyWhenHopeless` | src/parsers/http/detail/picohttpparser.h:69-77 | the decoder has failed on a stream if and only if no extension of the stream completes |
| `ChunkedAutomaton.OnlyDataIsDecoded` | src/parsers/http/detail/picohttpparser.c:585-601 | a byte is decoded if and only if it is read in the data state |
| `ChunkedDecoder.Decoder.IsInDataMeans` | src/parsers/http/detail/picohttpparser.c:652-655 | the query answers whether the next byte, whichever it is, will be decoded as data |
| `ChunkedAutomaton.Pow16Fits` | src/parsers/http/detail/picohttpparser.c:556-561 | 16 digits fit a size_t of 64 bits |
| `ChunkedDecoder.NoWrap` | src/parsers/http/detail/picohttpparser.c:560 | the size_t arithmetic of the counter, taken modulo 2^64, never wraps |
| `ChunkedDecoder.Decoder.ReadChunkSize` | src/parsers/http/detail/picohttpparser.c:544-564 | the size case reaches the automaton state of the bytes it consumed, or ends the run as the automaton does |
| `ChunkedDecoder.Decoder.ReadChunkExt` | src/parsers/http/detail/picohttpparser.c:566-583 | the extension case, likewise; when it goes on it has consumed at least one byte |
| `ChunkedDecoder.Decoder.ReadChunkData` | src/parsers/http/detail/picohttpparser.c:585-601 | the data case, likewise: the bytes moved down are the data decoded, the unread suffix keeps its original bytes |
| `ChunkedDecoder.Decoder.ReadChunkCrlf` | src/parsers/http/detail/picohttpparser.c:603-616 | the line end behind data, likewise |
| `ChunkedDecoder.Decoder.ReadTrailersLineHead` | src/parsers/http/detail/picohttpparser.c:617-626 | the head of a trailer line, likewise |
| `ChunkedDecoder.Decoder.ReadTrailersLineMiddle` | src/parsers/http/detail/picohttpparser.c:628-637 | the rest of a trailer line, likewise |
| `ChunkedDecoder.Decoder.Turn` | src/parsers/http/detail/picohttpparser.c:542-641 | one trip around the outer loop with its fall-throughs: dst never passes src, and every back edge consumes at least one byte |
| `ChunkedDecoder.Decoder.constructor` | src/parsers/http/detail/picohttpparser.h:61-67 | a zero-filled decoder is in the start configuration |
| `ChunkedDecoder.Memmove` | src/parsers/http/detail/picohttpparser.c:646-647 | an overlapping downward move: bytes below the target and behind the source keep their values |
| `ChunkedDecoder.CloseUp` | src/parsers/http/detail/picohttpparser.c:643-648 | on the way out the unread bytes are moved up behind the decoded ones |
| `ChunkedDecoder.MoveData` | src/parsers/http/detail/picohttpparser.c:595-598 | data bytes are appended to the decoded prefix while the input behind them stays |
| `ChunkedGrammar.DecodeEncode` | src/parsers/http/detail/picohttpparser.c:524-650 | every legal chunked message (nonempty chunks, 1 to 16 hex digits, LF-free extensions, optional trailer) followed by arbitrary bytes decodes to the concatenated chunks and leaves exactly the following bytes |
| `ChunkedGrammar.EncodeDecode` | src/parsers/http/detail/picohttpparser.c:537-650 | every stream the decoder accepts is the encoding of some legal message followed by the undecoded tail, and what was decoded is that message's payload |
| `ChunkedGrammar.AcceptsExactlyEncodings` | src/parsers/http/detail/picohttpparser.c:537-650 | the decoder completes on a stream if and only if the stream begins with the encoding of a legal message |
| `ChunkedGrammar.StrictChunkIsLegal` | src/parsers/http/detail/picohttpparser.c:544-616 | chunks as in section 4.1 of RFC 7230 (digits, extension, CR LF, data, CR LF) are among the encodings |
| `HexSize.DigitValues` | src/parsers/http/detail/picohttpparser.c:524-535 | each byte of 0123456789abcdef and of 0123456789ABCDEF has the value of its place |
| `HexSize.OnlyDigits` | src/parsers/http/detail/picohttpparser.c:524-535 | no other byte is a digit |
| `HexSize.HexReads` | src/parsers/http/detail/picohttpparser.c:545-562 | a number printed in hexadecimal, in either case, reads as that number |
| `HexSize.PrintedSizesDecode` | src/parsers/http/detail/picohttpparser.c:537-650 | any data, cut into pieces of less than 2^64 bytes and chunked with printed sizes, decodes to that data and leaves what follows |
| `HexSize.TooManyDigits` | src/parsers/http/detail/picohttpparser.c:556-559 | seventeen digits fail, whatever they are |
| `ChunkedAutomaton.WhereItStops` | src/parsers/http/detail/picohttpparser.c:549-559 | a failure leaves data and fields as they were before the byte that caused it, which is not consumed; a completion happens on the last byte consumed |
| `ChunkedAutomaton.CompletedFields` | src/parsers/http/detail/picohttpparser.c:575-582 | the decoder fields after a completion |
| `HttpScan.TokenCharMapIsTchar` | src/parsers/http/detail/picohttpparser.c:90-97 | the token table holds exactly the tchar of section 3.2.6 of RFC 7230 |
| `HttpScan.OutsideTokenRanges` | src/parsers/http/detail/picohttpparser.c:242-251 | a byte the prescan for tokens may skip is a token character, and is neither of the bytes a token can end with |
| `HttpScan.OutsideTargetRanges` | src/parsers/http/detail/picohttpparser.c:65-70 | a byte the prescan for the request target may skip belongs to the target |
| `HttpScan.EolRangesAreControls` | src/parsers/http/detail/picohttpparser.c:128-189 | the ranges of the end-of-line search are exactly the bytes that may not stand in a field value |
| `Bytes.ClassesOnNumbers` | src/parsers/http/detail/picohttpparser.c:65-70 | the character classes on the numbers of the codes |
| `HttpScan.FirstInRanges` | src/parsers/http/detail/picohttpparser.c:108-110 | the block search finds the first of 16 bytes that is in the ranges |
| `HttpScan.FindCharFast` | src/parsers/http/detail/picohttpparser.c:99-126 | with or without the block instruction: only bytes outside the ranges are skipped, and `found` is truthful |
| `HttpScan.ParseToken` | src/parsers/http/detail/picohttpparser.c:239-271 | prescan and table loop give the outcome, position and token of the plain left-to-right scan |
| `HttpScan.AdvanceToken` | src/parsers/http/detail/picohttpparser.c:65-88 | the same for the request target |
| `HttpScan.ScanByEight` | src/parsers/http/detail/picohttpparser.c:128-164 | the eight-way unrolled loop skips only text and stops at a control byte it reports |
| `HttpScan.GetTokenToEol` | src/parsers/http/detail/picohttpparser.c:128-189 | all variants of the search give the outcome, position and token of the plain scan to the line end |
| `HttpScan.CheckComplete` | src/parsers/http/detail/picohttpparser.c:191-217 | the completeness test equals the search for two line ends in a row from `last_len - 3` |
| `HttpParser.ParseHttpVersion` | src/parsers/http/detail/picohttpparser.c:274-290 | the version loop equals the grammar, including the nine-byte look-ahead |
| `HttpParser.TrimValue` | src/parsers/http/detail/picohttpparser.c:335-342 | trailing SP and HT are cut off as by the grammar |
| `HttpParser.ParseHeaderLine` | src/parsers/http/detail/picohttpparser.c:309-345 | one header line or fold, with its record filled in and the other records untouched |
| `HttpParser.ParseHeaderBlock` | src/parsers/http/detail/picohttpparser.c:292-347 | the header loop: outcome, number and records of the grammar's header block; records behind them untouched |
| `HttpParser.ParseMethodAndPath` | src/parsers/http/detail/picohttpparser.c:353-378 | method and target, the empty line before them and the spaces around them |
| `HttpParser.ParseVersionAndStatus` | src/parsers/http/detail/picohttpparser.c:426-444 | version, spaces and the three digits of the status |
| `HttpParser.ParseMessage` | src/parsers/http/detail/picohttpparser.c:446-463 | stripping the leading spaces of the message ends before the line end, so its length never underflows |
| `HttpParser.ScanEolStops` | src/parsers/http/detail/picohttpparser.c:453-454 | what the comment promises: a line end, not a space, follows the message |
| `HttpParser.PhrParseRequest` | src/parsers/http/detail/picohttpparser.c:395-421 | return code and all outputs are those of the grammar, guarded by the completeness test when `last_len` is not 0 |
| `HttpParser.PhrParseResponse` | src/parsers/http/detail/picohttpparser.c:468-492 | the same for responses |
| `HttpParser.PhrParseHeaders` | src/parsers/http/detail/picohttpparser.c:494-513 | the same for header blocks |
| `HttpStability.RequestStable` | src/parsers/http/detail/picohttpparser.c:349-393 | a verdict on a buffer is kept, with the same outputs, on every extension of it; and a partial buffer stays undecided below what the longer one consumes |
| `HttpStability.ResponseStable` | src/parsers/http/detail/picohttpparser.c:423-466 | the same for responses |
| `HttpStability.HeadersStable` | src/parsers/http/detail/picohttpparser.c:292-347 | the same for header blocks |
| `HttpStability.RequestPrefix` | src/parsers/http/detail/picohttpparser.h:49-52 | for an accepted request of p bytes: shorter prefixes are partial, all others give the same result |
| `HttpStability.ResponsePrefix` | src/parsers/http/detail/picohttpparser.h:54-56 | the same for responses |
| `HttpStability.HeadersPrefix` | src/parsers/http/detail/picohttpparser.h:58-59 | the same for header blocks |
| `HttpStability.VersionStable` | src/parsers/http/detail/picohttpparser.c:276-280 | the nine-byte look-ahead asks for at most one byte more than is consumed |
| `HttpStability.RequestShortcutSound` | src/parsers/http/detail/picohttpparser.c:409-413 | if parsing the first `last_len` bytes did not succeed, the call with that `last_len` succeeds exactly when the call with 0 does, with identical outputs |
| `HttpStability.RequestFailureFinal` | src/parsers/http/detail/picohttpparser.c:409-417 | after such an attempt a -1, be it from the completeness test or from the parser, is final: no extension of the buffer is accepted |
| `HttpStability.RequestRetries` | src/parsers/http/detail/picohttpparser.c:395-421 | over any growing sequence of calls that pass the previous length: as long as no call succeeded, the next one succeeds exactly when the head is complete in what has arrived, with the outputs of one call on everything; a -1 is final |
| `HttpStability.SearchResult` | src/parsers/http/detail/picohttpparser.c:191-217 | the completeness test fails if and only if a bare carriage return comes before any blank line, and asks for more if and only if there is neither |
| `HttpStability.RequestFailureShows` | src/parsers/http/detail/picohttpparser.c:409-417 | a request the parser has failed on is reported as failed, with a nonzero `last_len`, if and only if from `last_len - 3` on there is a carriage return without line feed or a line end directly behind a line feed; else as partial |
| `HttpStability.ResponseFailureShows` | src/parsers/http/detail/picohttpparser.c:481-489 | the same for responses |
| `HttpStability.HeadersFailureShows` | src/parsers/http/detail/picohttpparser.c:502-510 | the same for header blocks |
| `HttpStability.FailureShows` | src/parsers/http/detail/picohttpparser.c:409-417 | the same whatever is parsed; and where the parser would go on, the call fails if and only if a bare carriage return comes before any blank line |
| `HttpStability.LateFailure` | src/parsers/http/detail/picohttpparser.c:409-413 | an instance: with `last_len` 1 the request line `G(` is reported as partial, with 0 as failed |
| `HttpStability.PromptFailure` | src/parsers/http/detail/picohttpparser.c:409-413 | an instance: followed by CR and `X` it is reported as failed |
| `HttpStability.ResponseShortcutSound` | src/parsers/http/detail/picohttpparser.c:481-485 | as for requests |
| `HttpStability.ResponseFailureFinal` | src/parsers/http/detail/picohttpparser.c:481-489 | as for requests |
| `HttpStability.ResponseRetries` | src/parsers/http/detail/picohttpparser.c:468-492 | as for requests |
| `HttpStability.TestFailsAtBareCr` | src/parsers/http/detail/picohttpparser.c:198-201 | the completeness test fails only at a carriage return without line feed |
| `HttpStability.HeadersShortcut` | src/parsers/http/detail/picohttpparser.c:502-506 | for bare header blocks the shortcut is sound if and only if the block is not CR LF first seen as CR, or another line end directly behind a line end follows before any bare CR; a success is always the right one |
| `HttpStability.HeadersFailureFinal` | src/parsers/http/detail/picohttpparser.c:502-510 | after an attempt that did not succeed, a -1 on a header block is wrong if and only if the block is CR LF first seen as CR |
| `HttpStability.HeadersRetries` | src/parsers/http/detail/picohttpparser.c:494-513 | over any growing sequence of calls, as for requests, unless the block is CR LF first seen as CR |
| `HttpStability.EmptyBlockSeen` | src/parsers/http/detail/picohttpparser.c:502-510 | in the excepted case a call succeeds if and only if from `last_len - 3` on there is a blank line before any bare carriage return |
| `HttpStability.HeadersOverlooked` | src/parsers/http/detail/picohttpparser.c:502-506 | in the excepted case the block CR LF followed by `a` stays partial over calls with lengths 1, 2 and 3 |
| `HttpHopeless.HeadersFailExactly` | src/parsers/http/detail/picohttpparser.c:292-347 | on header blocks the parser fails if and only if no extension of the buffer is accepted |
| `HttpHopeless.RequestHopeless` | src/parsers/http/detail/picohttpparser.c:349-393 | no extension of a buffer is accepted as a request if and only if the parser has failed, or the method is missing, or what has arrived of the version is no beginning of one |
| `HttpHopeless.ResponseHopeless` | src/parsers/http/detail/picohttpparser.c:423-466 | no extension is accepted as a response if and only if the parser has failed, or what has arrived of the version or of the status digits is no beginning of them, or text follows the status without a space |
| `HttpBytes.RequestPartialExactly` | src/parsers/http/detail/picohttpparser.c:349-393 | the answer for a request is -2 in exactly the stated cases, on the bytes: a missing method counts only once target, spaces and one more byte are there, the version once nine bytes of it are |
| `HttpBytes.ResponsePartialExactly` | src/parsers/http/detail/picohttpparser.c:423-466 | the answer for a response is -2 in exactly the stated cases: fewer than nine bytes, fewer than four behind version and spaces, three digits and no line end yet, or unfinished header lines |
| `HttpBytes.StillPartial` | src/parsers/http/detail/picohttpparser.c:439-444 | instances that are hopeless and reported as partial: a lone space, and a response whose status is `x` |
| `HttpHopeless.HeadersFailExactlyFrom` | src/parsers/http/detail/picohttpparser.c:292-347 | the header part of a request or response fails if and only if nothing behind what has arrived helps |
| `HttpStability.BlankLineIs` | src/parsers/http/detail/picohttpparser.c:191-217 | a test that succeeds has found a line end directly behind a line feed, with no bare CR before |
| `HttpStability.HeadersShortcutUnsound` | src/parsers/http/detail/picohttpparser.c:502-506 | the block CR LF, seen one byte at a time, is turned away by the shortcut |
| `HttpStability.GuardPasses` | src/parsers/http/detail/picohttpparser.c:191-217 | a test that starts in the middle, at `last_len - 3`, still finds the blank line that ends the head |
| `HttpStability.RequestShape` | src/parsers/http/detail/picohttpparser.c:349-393 | an accepted request has no CR without LF and ends in a blank line |
| `HttpStability.ResponseShape` | src/parsers/http/detail/picohttpparser.c:423-466 | an accepted response likewise |
| `HttpPrint.BlockAt` | src/parsers/http/detail/picohttpparser.c:292-347 | a printed header block, folds and mixed line ends included, parses to its headers and its length |
| `HttpPrint.BlockRead` | src/parsers/http/detail/picohttpparser.c:292-347 | every accepted header block is a printed one |
| `HttpPrint.BlockWellFormed` | src/parsers/http/detail/picohttpparser.h:40-47 | accepted headers: slices in order, names nonempty tokens except on folds, the first is named, values free of CTL and DEL (HT excepted) and of trailing blanks |
| `HttpBytes.NamedLineParses` | src/parsers/http/detail/picohttpparser.c:309-345 | a header whose value stands between any strings of the bytes 9 and 32 parses to exactly that value |
| `HttpBytes.FoldParses` | src/parsers/http/detail/picohttpparser.c:309-329 | a later line that begins with 9 or 32 is a record without a name, whose value begins with that byte and ends before the last blanks |
| `HttpBytes.HeadersOnBytes` | src/parsers/http/detail/picohttpparser.c:292-347 | of every accepted block, on the bytes: lines start behind a line feed, a later record has no name if and only if its line begins with 9 or 32, a name ends in a colon, only 9 and 32 stand around a value, and it neither begins (if named) nor ends with them |
| `HttpHeads.ParsePrintRequest` | src/parsers/http/detail/picohttpparser.c:349-421 | a request printed by sections 3.1.1 and 3.2 of RFC 7230 with any mix of line ends, followed by anything, parses to its fields and exactly its length |
| `HttpHeads.PrintParseRequest` | src/parsers/http/detail/picohttpparser.c:349-421 | every accepted request is the print of some legal request with the fields that were parsed, followed by the rest of the buffer |
| `HttpHeads.ParsePrintResponse` | src/parsers/http/detail/picohttpparser.c:423-492 | the round trip for responses |
| `HttpHeads.PrintParseResponse` | src/parsers/http/detail/picohttpparser.c:423-492 | its converse |
| `HttpHeads.RequestWellFormed` | src/parsers/http/detail/picohttpparser.c:349-393 | method, path, names and values of an accepted request are disjoint, ordered slices of legal bytes inside what was consumed; at most `max_headers` headers |
| `HttpHeads.ResponseWellFormed` | src/parsers/http/detail/picohttpparser.c:423-466 | the same for responses; the status is the number the three digits before the message denote, and the message is set off by a space and has none in front |
| `HttpHeads.StatusAt` | src/parsers/http/detail/picohttpparser.c:227-236 | the status is the number its three digits denote |
| `HeaderEdit.ReplaceValue` | src/parsers/http/http_parser.h:203-229 | the three-case edit leaves prefix, new value and suffix, in either order of the two moves, and nothing behind them changes |
| `HeaderEdit.EditRequest` | src/parsers/http/http_parser.h:203-229 | editing commutes with parsing: the edited request parses to the same method, path, version, names and values, but for the one value |
| `HeaderEdit.EditResponse` | src/parsers/http/http_parser.h:203-229 | the same for responses |
| `HeaderEdit.EditBlock` | src/parsers/http/http_parser.h:203-229 | the same for a header block: records before the edited one stay, those behind move by the difference |
| `HeaderModify.HttpDetail.EditRecord` | src/parsers/http/http_parser.h:203-236 | the edit of one record: buffer and length are updated; the difference comes out 0 because it is computed from the updated length, so the shifts do nothing |
| `HeaderModify.HttpDetail.ModifyHeaders` | src/parsers/http/http_parser.h:193-240 | the whole routine: the buffer and the first `number_of_actual_headers` records, or the first 20, end as the scan over them says, the records behind stay, and the difference returned is 0 |
| `HeaderModify.HttpDetail.ParseRequestText` | src/parsers/http/http_parser.h:154-160 | parsing a request fills the records that the edit uses |
| `HeaderModify.HttpDetail.ParseResponseText` | src/parsers/http/http_parser.h:167-173 | the same for a response |
| `HeaderModify.HttpDetail.RewriteRequest` | src/events/peers/ssl/ssl_backend_callbacks.c:311-328 | parse and edit in a row: what is in the buffer is the scan that `ModifyRequest` speaks of, and the number of bytes then sent is the old one |
| `HeaderModify.HttpDetail.RewriteResponse` | src/parsers/http/http_parser.h:167-240 | the same for a response |
| `HeaderModify.MatchesExactly` | src/parsers/http/http_parser.h:200 | a record matches if and only if the bytes where its name begins are the wanted name, however long its own name is; but for lengths 0 and 8 |
| `HeaderModify.ScanFirstSame` | src/parsers/http/http_parser.h:224-228 | a first match whose length stays is edited, and nothing behind it |
| `HeaderModify.ScanFirstOther` | src/parsers/http/http_parser.h:203-239 | after a first match whose length changes, the scan goes on behind it |
| `HeaderModify.ScanNoMatch` | src/parsers/http/http_parser.h:198-202 | without a matching name nothing changes |
| `HeaderModify.ScanOnlyMatch` | src/parsers/http/http_parser.h:198-229 | when one record matches, buffer and records end as the one edit if and only if the length stays, or no later record matches where it then points in the edited text, or the first that does holds the new value at the new length |
| `HeaderModify.UndisturbedWhen` | src/parsers/http/http_parser.h:198-229 | before the call it is enough that the length stays or no header follows |
| `HeaderModify.ModifyRequest` | src/parsers/http/http_parser.h:193-240 | on a parsed request with one matching record: the same if and only if; and when it holds, the buffer parses to the original request with that one value changed and nothing behind the text moved |
| `HeaderModify.ModifyResponse` | src/parsers/http/http_parser.h:193-240 | the same for responses |
| `HeaderModify.TextUndisturbed` | src/parsers/http/http_parser.h:193-240 | the text alone, up to its end, is the one edit also when all later records point behind that end |
| `HeaderModify.SecondEdit` | src/parsers/http/http_parser.h:198-236 | a parsed request in which one header matches and the routine edits twice: up to the end of the edited text the buffer is no request, and the length the caller is told makes it one whose second value is wrong |
| `HeaderModify.EditableWhen` | src/parsers/http/http_parser.h:198-229 | the routine may be called when all headers are named and there is room |
| `HeaderModify.FoldReached` | src/parsers/http/http_parser.h:200 | a continuation line the scan reaches makes it compare through a null pointer, unless the wanted name has 0 or 8 bytes |
| `HeaderModify.EditableExactly` | src/parsers/http/http_parser.h:198-240 | given room for the edits, the routine compares through no null pointer if and only if the records before the one where it stops, which is the match whose length stays or the end, all have names; or the wanted name has 0 or 8 bytes |
| `HeaderModify.StopWhen` | src/parsers/http/http_parser.h:198-240 | where it stops, seen before the call: at the end when no name matches or no value has the new length, at the first match when that keeps its length |
| `HeaderModify.EditableBeforeCall` | src/parsers/http/http_parser.h:198-240 | hence what a caller can check: no continuation line at all in the first two cases, none before the first match in the third |
| `HeaderModify.NullName` | src/parsers/http/http_parser.h:200 | a parsed request on which that happens, although there is room for every edit |
| `HeaderModify.EightByteNames` | src/utils/algorithms/string_comp.h:22-25 | every record, named or not, matches a wanted name of 8 bytes, or of none |
| `HeaderModify.ReportedDifference` | src/parsers/http/http_parser.h:231-236 | against its documentation, for every value: the returned difference is right if and only if the length stayed; the records describe the edited message if and only if the length stayed or no header follows, and no blanks remain behind a value that was emptied |
| `HeaderModify.WrongReport` | src/parsers/http/http_parser.h:231-236 | a parsed request for which both are wrong |
| `WordCompare.FastCompare` | src/utils/algorithms/string_comp.h:20-53 | the value computed on every input, word loop and tail loop together |
| `WordCompare.AgreesExceptAtEight` | src/utils/algorithms/string_comp.h:20-53 | for NUL-free strings it is the documented comparison if and only if the length is not 8 |
| `WordCompare.BlindSpot` | src/utils/algorithms/string_comp.h:22-25 | two header names of eight bytes, Location and If-Match, that compare equal |
| `WordCompare.CompareMeans` | src/utils/algorithms/string_comp.h:12-18 | the documented comparison is 0 if and only if the bytes agree, and otherwise the unsigned difference at the first mismatch |
| `WordCompare.PaddingIrrelevant` | src/utils/algorithms/string_comp.h:31-43 | bytes past the length never affect the result |
| `WordCompare.WordsDiffer` | src/utils/algorithms/string_comp.h:32 | two words differ as numbers exactly when one of their bytes does |
| `CircularBuffer.Ring.constructor` | src/utils/io/circular_buffer.c:33-46 | a new buffer is empty |
| `CircularBuffer.Ring.AdvancePointer` | src/utils/io/circular_buffer.c:8-23 | head moves on with wraparound, tail too when full, and full means that they met |
| `CircularBuffer.Ring.RetreatPointer` | src/utils/io/circular_buffer.c:25-31 | tail moves on with wraparound and the buffer is no longer full |
| `CircularBuffer.Ring.PutByte` | src/utils/io/circular_buffer.c:96-97 | one byte is appended, the oldest goes when there is no room |
| `CircularBuffer.Ring.Write` | src/utils/io/circular_buffer.c:93-101 | the content is the last N bytes of the old content followed by what was written, across wraparound, exact fill and overwrite |
| `CircularBuffer.Ring.TakeByte` | src/utils/io/circular_buffer.c:106-107 | the oldest byte comes out first |
| `CircularBuffer.Ring.Get` | src/utils/io/circular_buffer.c:103-111 | a read within the content delivers its first bytes in order and leaves the rest |
| `CircularBuffer.Ring.Clear` | src/utils/io/circular_buffer.c:75-83 | the content is empty afterwards |
| `CircularBuffer.Ring.CurrentSize` | src/utils/io/circular_buffer.c:118-130 | it is the length of the content |
| `CircularBuffer.ReadKeepsSize` | src/utils/io/circular_buffer.c:103-111 | the size after a read is reduced by its length if and only if the read stays within the content; past it the size wraps around |
| `CircularBuffer.Execute` | src/utils/io/circular_buffer.c:93-130 | running any sequence of writes and of reads within the content on a buffer: content and delivered bytes are those of the recorded history |
| `CircularBuffer.AllInOrder` | src/utils/io/circular_buffer.c:93-111 | in every such history the content is the end of the written stream, every read delivered a piece of that stream, and the pieces follow each other in order without overlap |
| `CircularBuffer.Conservation` | src/utils/io/circular_buffer.c:8-23 | as many bytes as were written were delivered, are in the buffer, or were overwritten by writes that found too little room |
| `CircularBuffer.Reassembly` | src/utils/io/circular_buffer.c:8-23 | every byte written is accounted for in its place: the runs that left the buffer, each read or overwritten as the oldest content, and then the content, are the written stream |
| `CircularBuffer.NothingLost` | src/utils/io/circular_buffer.c:8-23 | delivered bytes and content together are the written stream if and only if nothing was ever overwritten |
| `CircularBuffer.ReadFromEmpty` | src/utils/io/circular_buffer.c:103-111 | a read of one byte from an empty buffer leaves it with one byte less than its capacity |
| `Lifecycle.RunKeepsInv` | src/events/io/epoll_manager.c:60-99 | in every run over any number of interleaved connections: each is wholly live or wholly going down, its timer status matches its callbacks, the batch holds live handlers, and the free list exactly the unreleased handlers of connections going down |
| `Lifecycle.ReclamationSafe` | src/events/peers/proxy_callbacks.c:184-273 | no run uses freed memory, frees, closes or deregisters twice, or frees a handler before its descriptor is out of the way; the reference count is the number of unfreed handlers, and the proxy object lives exactly as long as there are any |
| `Lifecycle.SingleEnqueue` | src/events/peers/proxy_callbacks.c:29-80 | `set_free` is set on either side if and only if the timer is up, so neither close check ever fires; the three handlers are enqueued once, by the timer, and the free list never holds one twice |
| `Lifecycle.TornDownByTimeout` | src/events/peers/proxy_callbacks.c:238-253 | a connection is down if and only if its latest callbacks were a client or backend one followed by two timer ones |
| `Lifecycle.TwoTimersTearDown` | src/events/peers/proxy_callbacks.c:238-253 | two timer callbacks in a row take a connection down if and only if its status is not the initial 0, that is, if a client or backend callback ever ran |
| `Lifecycle.CallbackEffect` | src/events/peers/proxy_callbacks.c:204-259 | all a callback does while the timer is not up: a client or backend one closes its own side on a hangup, leaves the other side alone and relaxes the timer; a timer one moves the timer on or, the second in a row, takes both sides down |
| `Lifecycle.TimerUpIsFinal` | src/events/peers/proxy_callbacks.c:211-212 | once the timer is up no callback changes anything |
| `Lifecycle.IdleForever` | src/events/peers/proxy_callbacks.c:238-253 | a connection on which only the timer ever fires is still up after any number of timer events |
| `Lifecycle.PendingAlive` | src/events/io/epoll_manager.c:77-85 | every handler about to be called exists, and so does its proxy object, also when the timer tore its connection down earlier in the batch |
| `Lifecycle.NothingLeft` | src/events/io/epoll_manager.c:87-97 | when the list has been drained, every connection whose timer is up is completely released |
| `Lifecycle.CallbackGood` | src/events/peers/proxy_callbacks.c:204-259 | one callback on a live connection leaves it live or takes it down as a whole; on one going down it does nothing |
| `Lifecycle.FreeHandlerGood` | src/events/peers/proxy_callbacks.c:261-273 | releasing a handler gives up one reference, and the last one frees the proxy object |
| `Lifecycle.NewConnGood` | src/connections/handle_client.c:63-81 | a new connection has three registered handlers and a reference count of three |
| `Lifecycle.MisuseOfPeer` | src/events/peers/ssl/ssl_client_callbacks.c:397-407 | the flags behind `ReclamationSafe` catch every second close, close or use after a free, second free, and never recover |
| `Lifecycle.MisuseOfClientData` | src/events/peers/proxy_callbacks.c:106-128 | and reading from or writing to a side that is gone, on a client event |
| `Lifecycle.MisuseOfBackendData` | src/events/peers/proxy_callbacks.c:156-175 | and on a backend event |
| `Lifecycle.MisuseOfCallback` | src/events/peers/proxy_callbacks.c:204-212 | and a callback through a freed handler or on a freed proxy object |
| `Lifecycle.MisuseOfHandler` | src/events/io/epoll_manager.c:89-97 | and releasing a handler twice, without its proxy object, or while its descriptor is open or watched |
| `EventLoop.Loop.Turn` | src/events/io/epoll_manager.c:60-99 | one turn on the objects, for any batch epoll may report: the callback of each event runs once and in order, then blocks are freed until the list is empty, and nothing else happens. In numbers: each new client has a new connection; a side that hung up is closed and not watched; a connection with one event changes as that event says, one without events not at all. Nothing unsound has happened, and connections that timed out are wholly freed |
| `EventLoop.Loop.ServeBatch` | src/events/io/epoll_manager.c:77-85 | the loop over the batch |
| `EventLoop.Loop.DrainList` | src/events/io/epoll_manager.c:87-97 | the loop over the free list |
| `EventLoop.AfterTurn` | src/events/io/epoll_manager.c:60-99 | from the effects of the events and of the drain to what a turn comes to |
| `Batches.NextServed` | src/events/peers/proxy_callbacks.c:204-259 | the next callback of a batch has the stated effect: timer -1 and its own side closed on a hangup for client and backend; -1 to -3 and -3 to torn down for the timer; none at -2 |
| `Batches.NextDrained` | src/events/io/epoll_manager.c:87-97 | freeing a handler changes only connections that are up and still have handlers |
| `Batches.NewConnIsNew` | src/connections/handle_client.c:63-81 | a new connection, field by field |
| `EventLoop.Loop.Dispatch` | src/events/io/epoll_manager.c:77-85 | the call of a handler's callback is one step of the machine and has the effect `Served` states in numbers; other connections are untouched |
| `EventLoop.Loop.DrainFirst` | src/events/io/epoll_manager.c:89-97 | the release of the first block on the list is one step of the machine |
| `EventLoop.Loop.Accept` | src/connections/handle_client.c:63-81 | accepting a client is one step of the machine |
| `EventLoop.FreeList.AddBlock` | src/events/io/epoll_manager.c:19-25 | a block is put in front of the list |
| `EventLoop.PeerBase.OnClose` | src/events/peers/ssl/ssl_client_callbacks.c:397-407 | deregister, mark closed, close; each recorded as illegal when done twice |
| `EventLoop.PeerBase.ForceClose` | src/events/peers/ssl/ssl_backend_callbacks.c:500-514 | the same unless the side is closed already |
| `EventLoop.PeerBase.FreeParams` | src/events/peers/ssl/ssl_client_callbacks.c:486-501 | the structure behind the side is freed and `set_free` is set |
| `EventLoop.ProxyConnection.CheckBackendClose` | src/events/peers/proxy_callbacks.c:29-53 | the effects of the close check, and whether it fired |
| `EventLoop.ProxyConnection.CheckClientClose` | src/events/peers/proxy_callbacks.c:56-80 | the effects of the close check, and whether it fired |
| `EventLoop.ProxyConnection.HandleClientEvents` | src/events/peers/proxy_callbacks.c:83-136 | the lifecycle effects of a client event in all its branches |
| `EventLoop.ProxyConnection.HandleBackendEvents` | src/events/peers/proxy_callbacks.c:138-182 | the lifecycle effects of a backend event in all its branches |
| `EventLoop.ProxyConnection.HandleTimerUpEvents` | src/events/peers/proxy_callbacks.c:184-202 | both sides are closed and freed unless that was done, and both handlers are enqueued |
| `EventLoop.ProxyConnection.FreeTimerHandler` | src/events/timers/timer_callback.c:21-25 | the timer is deregistered and its handler enqueued |
| `EventLoop.ProxyConnection.TimerTick` | src/events/peers/proxy_callbacks.c:238-253 | the timer branch of the callback |
| `EventLoop.ProxyConnection.EventsCallback` | src/events/peers/proxy_callbacks.c:204-259 | the whole callback, with the handlers it enqueues on the shared list |
| `EventLoop.ProxyConnection.MakeHandler` | src/connections/connections.c:19-33 | a new handler adds one reference |
| `EventLoop.ProxyConnection.constructor` | src/connections/connections.c:35-48 | a zero-filled proxy object with two open sides |
| `EventLoop.MakeProxyConnection` | src/connections/handle_client.c:63-81 | a proxy object with the three handlers that refer to it |
| `EventLoop.ProxyConnection.FreeProxyObj` | src/events/peers/proxy_callbacks.c:261-273 | one reference less; the last one frees the object |
| `EventLoop.ProxyConnection.FreeHandler` | src/events/io/epoll_manager.c:90-93 | a drained block: its reference is given up and the handler freed |
| `EventLoop.PushAllJoins` | src/events/io/epoll_manager.c:19-25 | enqueuing in two goes gives the list of one |

## Left out

- OpenSSL and BIO calls, handshakes, sockets, `epoll_wait`, timer descriptors, address resolution, Lua configuration and logging: foreign calls. Readiness flags and the outcome of reads are parameters.
- Failing calls: a failing `epoll_ctl`, `close`, `malloc` or `connect` is not part of this model.
- Conservation of the bytes passed between client and backend: the code does not keep it (src/events/peers/proxy_callbacks.c:119-127, 169-174).
- The timer descriptor is deregistered but never closed by the code; the model requires only the deregistration before the handler is freed.
- `buffer_manager.c`, `zxy_double_size_of_circular_buffer` and `zxy_is_circular_buffer_empty`: the recorded and the reallocated size disagree, `tail` is used after it was zeroed, and the emptiness test is also true of a full buffer; what remains is simple arithmetic.
- The callbacks of plain connections: for the lifecycle they do what those of SSL connections do.
- The instruction `_mm_cmpestri` bit by bit: `HttpScan.FirstInRanges` is its contract.
- The return values of the ring buffer's functions as `int32_t` and `int8_t`, and lengths of heads beyond the range of `int`: no narrowing is modelled.
- Negative lengths given to `fast_compare`.
- HttpParser.PhrParseRequest: the outputs of a failed or partial parse are not specified, nor are the records it may have begun to fill; the documentation promises nothing about them.
- HttpParser.PhrParseResponse: the same.
- HttpParser.PhrParseHeaders: the same.
- HeaderModify.HttpDetail.ModifyHeaders: requires, of the records the scan reaches, that the comparison reads within the buffer and that there is room for the edit, which the code leaves to its caller; at a continuation line that is reached this fails, as the code does. When several records match before any edit it is specified by the scan, and no further meaning is claimed for the result.
- HeaderModify.ModifyRequest: the equivalence is about the buffer and the records together; for the text alone a sufficient condition is proved (`HeaderModify.TextUndisturbed`), because a second edit may also happen to leave every byte of the text as it is. The same goes for HeaderModify.ModifyResponse.
- HttpStability.HeadersRetries: excludes a block CR LF of which the CR was seen first; for it `HttpStability.EmptyBlockSeen` states what each call comes to.
- CircularBuffer.Ring.Get: the bytes delivered past the end of the content are not specified, only the size that results.
- EventLoop.Loop.Turn: pointers to connections and handlers are indices and roles, and the list is a sequence, so aliasing between handlers is not modelled. That a side which was closed but not freed can still be read and written is the code's behaviour and not excluded.
- EventLoop.PeerBase.ForceClose: models the functions of both sides, which do the same on the client and the backend; so do the other methods of this class.
