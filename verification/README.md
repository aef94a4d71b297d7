# attender: a verified model

attender is an HTTP server library in C++ on top of boost::asio. This project models its four
pieces of real logic in Dafny and proves what they are for:

1. **Reading a request.** The head parser consumes a byte buffer in place while reads arrive, one
   word or line at a time; the request handler then moves the bytes behind the head, and later reads,
   into a sink until the announced body is complete. `RequestParser.dfy` and `RequestHandler.dfy`
   hold the objects with their loops and fields; `RequestSyntax.dfy` and `RequestReading.dfy` hold
   the same behaviour as functions on states; `HeadGrammar.dfy` describes heads independently, as
   text made of words and lines, `HeadErrors.dfy` the texts that are refused, and `HeadWaiting.dfy`
   those behind which the parser waits for ever.
   `FieldReading.dfy` and `CookieReading.dfy` say what every line of the fields is stored as,
   `ContentLengthReading.dfy` what number the length field stands for. `HeaderPrinting.dfy` is the
   printer and `UrlSyntax.dfy` the url; `Characters.dfy` ties the character classes to the characters.
2. **Chunked transfer.** A producer with a growing buffer and the response that frames it call each
   other back under three flags. `ChunkedProtocol.dfy` is the state machine over push, flush, finish,
   attach, start and write completion; `ChunkedDelivery.dfy` proves what every run keeps;
   `StreamingProducer.dfy` holds the two objects; `ChunkFrame.dfy` builds frames in a buffer of
   computed size and decodes them with a reference decoder; `HexLength.dfy` has the bit arithmetic
   behind that size. `StreamWriter.dfy` is the other way to send: a stream in blocks.
3. **Base64 and Basic credentials**, `Base64.dfy` and `BasicAuthorizer.dfy`.
4. **Routing**, `Router.dfy` (templates), `RequestRouter.dfy` (the priority search) and
   `RoutedUrl.dfy` (from the encoded url to the parameters).

Objects whose methods update fields are classes. Each of their methods is proved equal to a function
on the abstract state, and the properties are lemmas about runs of these functions. Sockets are
replaced by events: a read delivers bytes or an error, a write completes or fails. Each public call
and each completion is one atomic step. A `string` is a sequence of bytes, one char each.

`dafny verify dfyconfig.toml` checks the whole project.

## What holds, and where it stops

- Cutting the stream differently never changes what is parsed, with one exception: the 4096-byte limit
  is applied to what earlier feeds left unconsumed and the new read together. It strikes if and only if
  this sum is too large for some read before which the head is neither complete nor refused
  (`LimitStrikesExactly`), and two ways of cutting agree if and only if it strikes in both or in neither
  (`CutsAgreeExactly`). So a longer head can be refused as one read and accepted as two
  (`LimitDependsOnChunking`).
- Parsing what `to_string` prints gives the header back if and only if it has no cookies, at most 256
  fields, and parts that can stand in a head (`PrintParseExactly`).
- Body reading ends with the last byte when the peer sends what it announced (`EndToEnd`). A peer that
  sends more is not stopped at the announced length. The surplus of the read that brings the last
  announced byte goes into the sink; and when that read also ends the head, the unsigned subtraction in
  `body_read_start` wraps around, the promise is not fulfilled, and one more read is waited for and
  taken. So the same bytes give different sinks when they are cut differently (`OverSentBody`,
  `BodyIsExactExactly`, `SurplusWithHeadWaits`, `SurplusDependsOnCuts`).
- `read_body` documents a maximum amount of bytes to read (include/attender/http/request.hpp:59). The
  code tests it before writing a read, so up to max - 1 bytes and one full read can be taken
  (`ReadLimit`). It is overshot if and only if a read that starts below the limit and before the end of
  the body goes beyond the limit (`LimitIsOvershotExactly`), and the bound is reached for every limit
  (`LimitBoundIsReached`).
- source/attender/http/request.cpp:118 says that a Content-Length that is no number throws. `atoll`
  does not: "abc" is read as 0, and "-1" as 2^64 - 1, of which the signed cast makes -1 again, so that
  nothing is read in either case (`NotALength`, `NoLengthReadsNothing`). The number read is the one
  announced if and only if the field announces one that is not negative and below 2^63; otherwise it is
  the number of the leading digits with its sign, or the `long long` nearest to it, as an unsigned word
  (`AnnouncedIsReadExactly`, `LengthIsLeadingNumber`). What `atoll` does with a number that is no
  `long long` is undefined in C; the model goes to the nearest one, as `strtoll` does.
- `finish()` cuts a chunked stream off behind the last byte that was framed before it
  (`FinishCutsOff`). It completes the stream whole by itself if and only if the consumer is attached, not
  consuming, and the buffer is empty (`FinishDeliversExactly`), and the stream can become whole later if
  and only if everything in the buffer is framed already and the consumer is attached or still to come
  (`WholeIsReachableExactly`). Data that was pushed before the attachment, or behind a chunk in flight,
  is lost (`UnstartedLoss`, `InFlightLoss`); with nothing behind the chunk in flight, the last chunk is
  not written at all until someone signals again (`FinishInFlight`).
- The path is percent-decoded before it is routed, so an escaped slash in a parameter's value makes
  another segment, and the route does not match (`RoutedExactly`).
- A request line that a carriage return cuts short behind its first or second word is neither accepted
  nor refused, whatever follows, and the parser waits behind exactly these texts for good
  (`WaitsForGoodExactly`), until the size limit strikes. Any other text that can never become a head is
  refused, but only when the word or the line that spoils it has ended; until then the parser asks for
  more (`FailsExactlyOnRefused`, `LateRefusal`).
- A query is percent-decoded before it is split, so an escaped separator still separates
  (`UrlRoundTrip`, `EscapedSeparatorSplits`).
- In the branch for other compilers than GCC, the macro at source/attender/encoding/producer.cpp:37
  does not hand its argument on. The model takes the call of `fast_log_base2` that is meant.

## Model

| member | source | states |
|---|---|---|
| RequestParserObject.RequestParser.GetLineFromBuffer | source/attender/http/request_parser.cpp:189-213 | the line taken ends at the first CRLF of the buffer, which is removed with it; without one the buffer stays |
| RequestParserObject.RequestParser.GetWordFromBuffer | source/attender/http/request_parser.cpp:215-228 | the word taken ends before the first space or carriage return, and the buffer is then not empty |
| RequestParserObject.RequestParser.ExpectSpace | source/attender/http/request_parser.cpp:178-187 | removes one leading space if there is one and says so |
| RequestParserObject.RequestParser.ParseWords | source/attender/http/request_parser.cpp:104-156 | true leaves the parser before the fields with the same final outcome ahead; false and exceptions are the final outcome of the run |
| RequestParserObject.RequestParser.StoreField | source/attender/http/request_parser.cpp:158-176 | counts the line even when it is bad, and stores it as a field or as cookies |
| RequestParserObject.RequestParser.Feed | source/attender/http/request_parser.cpp:47-102 | one feed has the state and outcome of the specification, and asks for one read exactly when more input is needed |
| RequestParserObject.RequestParser.ReadFront | source/attender/http/request_parser.cpp:235-241 | what is returned and what stays make up the old buffer; as much as asked for, or all |
| RequestSyntax.WordEnd | source/attender/http/request_parser.cpp:215-228 | a word holds neither space nor carriage return and ends at one of them |
| RequestSyntax.LineEnd | source/attender/http/request_parser.cpp:189-213 | a line ends at the first CRLF; a lone carriage return belongs to the line |
| RequestSyntax.Step | source/attender/http/request_parser.cpp:104-176 | every step that advances makes the buffer shorter, so the field loop terminates |
| RequestChunking.RunResumes | source/attender/http/request_parser.cpp:47-228 | a run that ended is not changed by bytes that follow; a run that waits continues as if the bytes had been there |
| RequestChunking.SplitEqualsWhole | source/attender/http/request_parser.cpp:47-228 | for every split, feeding the pieces gives the outcome, the header and the remaining bytes of feeding the whole |
| RequestChunking.ChunkingIrrelevant | source/attender/http/request_parser.cpp:47-102 | any two splits of the same bytes, neither of which meets the size limit, agree on success, error, header and leftover |
| RequestChunking.SmallStreamChunking | source/attender/http/request_parser.cpp:47-102 | for at most 4096 bytes every split agrees with the whole |
| RequestChunking.LimitUnnoticed | source/attender/http/request_parser.cpp:58-60 | a run in which no feed exceeds the limit is the run without a limit |
| RequestChunking.LimitStrikesExactly | source/attender/http/request_parser.cpp:47-102 | for every stream and every way of cutting it: the size error comes if and only if, at some read before which the head is neither complete nor refused, what is unconsumed and that read exceed 4096 bytes |
| RequestChunking.CutsAgreeExactly | source/attender/http/request_parser.cpp:47-102 | two ways of cutting the same stream come to the same outcome if and only if the limit strikes in both or in neither; in neither, header and leftover agree as well |
| RequestChunking.RunConserves | source/attender/http/request_parser.cpp:47-102 | the remaining buffer is a tail of what was there, and progress never goes back |
| RequestChunking.RunCountsFields | source/attender/http/request_parser.cpp:87-91 | never more than 256 fields are stored, and each of them was counted |
| RequestChunking.StreamConserves | source/attender/http/request_parser.cpp:47-102 | for every stream from the start and every split, refused or not: consumed bytes, buffer and reads not made are the bytes sent, and at most 256 fields are stored |
| RequestChunking.SeparatorIsPresent | source/attender/http/request_parser.cpp:106-126 | the test for the space after a word never lacks input; a carriage return there parks the parser for good |
| RequestChunking.EndedIsObservable | source/attender/http/request_parser.cpp:37-40 | finished is reported exactly when the end of the head was consumed |
| HeadGrammar.GrammarIsParsed | source/attender/http/request_parser.cpp:104-176 | every text made of three words and at most 256 storable lines is parsed to exactly these parts, whatever follows |
| HeadGrammar.OnlyGrammarIsParsed | source/attender/http/request_parser.cpp:104-176 | nothing else is accepted |
| HeadGrammar.FinishesExactlyOnGrammar | source/attender/http/request_parser.cpp:47-102 | the parser finishes if and only if the input starts with such a head |
| HeadErrors.FailsExactlyOnRefused | source/attender/http/request_parser.cpp:66-176 | the parser fails with an error if and only if the input is one of the texts that error stands for: no slash in the third word, something before the end of its line, or a bad line behind good ones |
| HeadErrors.RefusedForGood | source/attender/http/request_parser.cpp:66-176 | what was refused is refused with the same error whatever follows, and no continuation begins with a head |
| HeadErrors.LateRefusal | source/attender/http/request_parser.cpp:129-156 | a space behind the third word can never become part of a head, and yet the parser asks for more until the line ends |
| HeadWaiting.WaitsForGoodExactly | source/attender/http/request_parser.cpp:104-126 | the parser waits whatever follows if and only if the request line is cut short by a carriage return behind its first or second word |
| HeadWaiting.ParkedWordIsOverwritten | source/attender/http/request_parser.cpp:106-126 | the word before the carriage return is taken over, and the next feed overwrites it with nothing |
| HeaderPrinting.ToString | source/attender/http/request_header.cpp:81-89 | prints the text that the grammar describes, for any iteration order |
| HeaderPrinting.PrintedFieldIsStored | source/attender/http/request_parser.cpp:158-176 | a printed field line stores its key and value unchanged |
| HeaderPrinting.PrintParse | source/attender/http/request_header.cpp:81-89 | parsing undoes printing, for every iteration order of the fields and whatever follows |
| HeaderPrinting.PrintParseExactly | source/attender/http/request_header.cpp:81-89 | for every header and order: parsing what is printed gives the header back if and only if it has no cookies, at most 256 fields, and well-formed words, keys and values |
| HeaderPrinting.FinishedIsPrintable | source/attender/http/request_parser.cpp:104-176 | whatever the parser finishes with can be printed, but for its cookies |
| HeaderPrinting.PrintFeed | source/attender/http/request_parser.cpp:47-102 | a printed header of at most 4096 bytes is read back however it is cut |
| HeaderPrinting.LimitDependsOnChunking | source/attender/http/request_parser.cpp:58-60 | a head can be refused as one read and accepted as two |
| CookieReading.CookiesRoundTrip | source/attender/http/cookie.cpp:17-43 | cookies with any names, joined with a semicolon and a blank, are read back exactly, later ones on top |
| CookieReading.PiecesAreRead | source/attender/http/cookie.cpp:30-41 | pieces of blanks, a name, '=' and a value, in any number, give exactly their names, each with its last value |
| CookieReading.CompressedPieces | source/attender/http/cookie.cpp:24-27 | what is split off is what stands between semicolons, without the empty pieces, but for one at an end where a semicolon stands |
| CookieReading.CookieTextFailsExactly | source/attender/http/cookie.cpp:17-43 | a text is refused if and only if it is empty, begins or ends with a semicolon, or has a piece without '=' |
| FieldReading.FieldIsStored | source/attender/http/request_parser.cpp:158-176 | any line whose key is not the cookie name is stored under the key, without the blanks before the colon, with the value, without the blanks behind it, over an earlier value |
| FieldReading.CookiesAreStored | source/attender/http/request_parser.cpp:168-173 | a line whose key is cookie in any letter case leaves the fields alone; known cookies keep their value, all others of the line are added and nothing else; refused if and only if the value is no cookie text |
| FieldReading.CookieFieldIsStored | source/attender/http/request_parser.cpp:168-173 | cookies that a client joined arrive, each with its last value, under any spelling of the field name |
| FieldReading.CookieNamesAre | source/attender/http/request_parser.cpp:168 | the field name is recognised letter by letter in upper or lower case, and no other name is |
| FieldReading.NoColonIsRefusedExactly | source/attender/http/request_parser.cpp:162-164 | refused for want of a colon if and only if the line has none |
| Characters.LowersAre | source/attender/http/request_parser.cpp:168 | each upper-case letter becomes the lower-case one at its place, and nothing else changes |
| Characters.AlnumsAre | source/attender/http/request_parser.cpp:83-84 | a field may begin with exactly the digits and the letters of either case |
| Characters.HexDigitsAre | source/attender/http/request_header.cpp:114 | the digits of an escape have the values of their places in either case |
| UrlSyntax.DecodeUrl | source/attender/http/request_header.cpp:106-121 | the loop over the text computes the decoding, or fails where an escape has no digits |
| UrlSyntax.EscapesAreDecoded | source/attender/http/request_header.cpp:109-118 | for every two characters behind a '%': the byte of two digits of either case, of one digit, or of a digit behind a blank or a sign; an error for anything else |
| UrlSyntax.OthersAreKept | source/attender/http/request_header.cpp:109-122 | other characters, and a '%' too close to the end, stand for themselves |
| UrlSyntax.ParseQuery | source/attender/http/request_header.cpp:91-104 | later pairs win, a pair without '=' has an empty value |
| UrlSyntax.ParseUrl | source/attender/http/request_header.cpp:123-134 | splits at the last '?' and decodes both sides, or fails if one of them does |
| UrlSyntax.UrlIsReadAtLastMark | source/attender/http/request_header.cpp:125-134 | the last '?' separates path and query, both decode on their own and either can fail; pieces with or without '=' give exactly their keys, each with its last value |
| UrlSyntax.UrlWithoutMark | source/attender/http/request_header.cpp:133-134 | without a '?' the whole url is decoded to the path, and the query is empty |
| UrlSyntax.DecodeInvertsEncoding | source/attender/http/request_header.cpp:106-121 | decoding inverts every percent-encoder that escapes '%' and '?' |
| UrlSyntax.PairwiseEncoding | source/attender/http/request_header.cpp:91-104 | encoding keys and values one by one and joining them is such an encoding of the query |
| UrlSyntax.QueryIsRecoveredExactly | source/attender/http/request_header.cpp:91-103 | the pairs come back, later ones on top, if no key or value holds a separator, and with distinct keys only then |
| UrlSyntax.UrlRoundTrip | source/attender/http/request_header.cpp:105-134 | for every percent-encoder the path comes back, and the pairs come back if they hold no separator, and with distinct keys only then |
| UrlSyntax.PathRoundTrip | source/attender/http/request_header.cpp:123-134 | a url without query gives the path and no query |
| UrlSyntax.EscapedSeparatorSplits | source/attender/http/request_header.cpp:123-134 | an escaped ampersand cuts its value short and makes up a key |
| Connection.HttpConnection.Deliver | include/attender/http/http_connection_base.hpp:347-357 | a read overwrites the front of the buffer and answers one pending read |
| Connection.HttpStreamDevice.Read | include/attender/http/http_connection_base.hpp:453-465 | hands out the next ready bytes in order, never beyond them |
| Connection.Drain | source/attender/http/request_parser.cpp:52-56 | reading the device to its end gives exactly the ready bytes, in any block size |
| RequestHandlerObject.HttpStringSink.Write | source/attender/http/http_read_sink.cpp:40-45 | the bytes are appended and counted |
| RequestHandlerObject.HttpStringSink.WriteBuffer | source/attender/http/http_read_sink.cpp:47-50 | no more than the buffer holds is appended and counted |
| RequestHandlerObject.RequestHandler.HeaderReadHandler | source/attender/http/request.cpp:45-84 | feeds the parser; a bad head or url is answered with 400, a finished one starts the body |
| RequestHandlerObject.RequestHandler.ReadBody | source/attender/http/request.cpp:185-194 | installs the body handler and the limit, and starts with a fresh sink |
| RequestHandlerObject.RequestHandler.BodyReadStart | source/attender/http/request.cpp:207-249 | takes over what the parser has left, then fulfils or reads on, with unsigned arithmetic as in the source |
| RequestHandlerObject.RequestHandler.BodyReadHandler | source/attender/http/request.cpp:122-155 | tests the limit, writes the read, and fulfils or reads on |
| RequestHandlerObject.RequestHandler.OnDelivery | source/attender/http/request.cpp:31-38 | the callback that is set runs, and the object stays in a valid state |
| RequestReading.ContentLength | source/attender/http/request.cpp:109-120 | absent if and only if the field is; otherwise a 64-bit unsigned number |
| ContentLengthReading.AnnouncedIsReadExactly | source/attender/http/request.cpp:109-120 | a number that is announced, with blanks and a sign allowed before its digits, is the one read if and only if it is not negative and below 2^63 |
| ContentLengthReading.LengthIsLeadingNumber | source/attender/http/request.cpp:118-119 | for every text of the field the number of its leading digits with its sign is read, or the nearest long long, as an unsigned word, and 0 without digits; it announces a number if and only if there are digits and nothing behind them |
| ContentLengthReading.NoLengthReadsNothing | source/attender/http/request.cpp:237-246 | a text that begins with no digit and every negative number end the body before it begins |
| ContentLengthReading.NotALength | source/attender/http/request.cpp:118-119 | the texts abc, -1 and 1a are read as 0, 2^64 - 1 and 1 |
| RequestReading.DeliverIsValid | source/attender/http/request.cpp:122-155 | after every event a read is outstanding or the request is concluded, never both, and the promise settles at most once |
| BodyDelivery.HeadPhaseFeeds | source/attender/http/request.cpp:45-84 | until the head is complete each read is a feed; then the body starts with what is left |
| BodyDelivery.BadHeadIsRefused | source/attender/http/request.cpp:62-66 | a malformed head stops reading, is answered with 400, and touches neither sink nor promise |
| BodyDelivery.BadUrlIsRefused | source/attender/http/request.cpp:69-83 | a head whose url cannot be decoded is answered with 400, and sink and promise are left alone |
| BodyDelivery.ReadErrorEnds | source/attender/http/request.cpp:124-130 | a read that fails ends the request: during the head the connection is given up, during the body the promise fails once and the response is ended unless the read was aborted; nothing is written |
| BodyDelivery.MissingLengthIsRefused | source/attender/http/request.cpp:209-219 | 411 and a failed promise if and only if there is no Content-Length |
| BodyDelivery.BodyReads | source/attender/http/request.cpp:122-155 | while the body is read, exactly the reads that begin below the limit and before the announced end are written, and this is how the reading ends |
| BodyDelivery.BodyRun | source/attender/http/request.cpp:122-249 | every run of reads from the end of the head, for every length, limit and cut: which bytes are in the sink, whether the promise is fulfilled, and what is left unread |
| BodyDelivery.HeadEndsInRead | source/attender/http/request.cpp:45-84 | feeding stops with the read that brings the end of the head, and what that read holds behind the head is left in the buffer |
| BodyDelivery.OverSentBody | source/attender/http/request.cpp:122-249 | a peer that sends more than announced, cut in any way: the read with the last announced byte fulfils and its surplus is in the sink, unless it also ends the head; then one more read is waited for and taken |
| BodyDelivery.BodyIsExactExactly | source/attender/http/request.cpp:222-237 | the sink is exactly the body if and only if some read ends where the body ends; the last announced byte fulfils if and only if it does not come in one read with the end of the head and a surplus |
| BodyDelivery.EndToEnd | source/attender/http/request.cpp:207-249 | head and body cut in any way: the sink is the body, fulfilled once, no read left over |
| BodyDelivery.ReadLimit | source/attender/http/request.cpp:132-146 | in every run with a limit the sink is a prefix of what arrived and at most max - 1 bytes and one read long |
| BodyDelivery.LimitIsOvershotExactly | source/attender/http/request.cpp:132-146 | over whole runs: more than max bytes are taken if and only if some read that is taken begins below the limit and ends beyond it |
| BodyDelivery.HugeLimitReadsNothing | source/attender/http/request.cpp:132-142 | a limit from 2^63 on becomes negative in the signed cast, and no read is written |
| RequestRoundTrip.ContentLengthIsRead | source/attender/http/request.cpp:109-120 | the length written in decimal is the length read if and only if it is below 2^63 |
| RequestRoundTrip.PrintedRequestArrives | source/attender/http/request.cpp:45-155 | a printed header followed by its body, cut in any way, arrives as the same header and body |
| RequestRoundTrip.LimitBoundIsReached | source/attender/http/request.cpp:132-146 | for every limit, and every request that announces as much, there are reads by which max - 1 bytes and one full read are taken |
| RequestRoundTrip.SurplusWithHeadWaits | source/attender/http/request.cpp:222-237 | a read that brings head, body and more: all of it behind the head is in the sink, and the promise waits for another read |
| RequestRoundTrip.SurplusDependsOnCuts | source/attender/http/request.cpp:122-249 | one announced and two sent bytes, cut in three ways, with three different results |
| HexLength.HexLenIsExact | source/attender/encoding/producer.cpp:32-49 | hexlen is exactly the number of hexadecimal digits, for every number |
| HexLength.Log2Bounds | source/attender/encoding/producer.cpp:34-42 | the logarithm is the floor of the binary logarithm |
| HexLength.ValCounts | source/attender/encoding/producer.cpp:12-29 | the number of a word is 0 for 0 and one more for the next word |
| HexLength.SmearIsMask | source/attender/encoding/producer.cpp:21-26 | the six shifts leave all bits up to the highest set one, and no other |
| HexLength.LookupOfMask | source/attender/encoding/producer.cpp:14-28 | multiplication and table give the length of every one of the 64 masks |
| HexLength.FastLogIsLog | source/attender/encoding/producer.cpp:12-29 | the branch-free form is the binary logarithm of every word but zero |
| HexLength.FastHexLen | source/attender/encoding/producer.cpp:32-43 | computed with it, the size is the number of digits of every word |
| ChunkFrame.BuildFrame | source/attender/http/response.cpp:228-250 | every store is in bounds and the buffer is filled exactly with size, CRLF, payload, CRLF |
| ChunkFrame.DecodeFrame | source/attender/http/response.cpp:228-256 | the reference decoder takes the payload out of a frame, whatever follows |
| ChunkFrame.DecodeFrames | source/attender/http/response.cpp:219-256 | any sequence of frames decodes to all payloads in order, complete if and only if terminated |
| ChunkFrame.DecodeCut | source/attender/http/response.cpp:219-256 | any part of the wire decodes to a prefix of the payloads, and is complete only when all has arrived |
| StreamingProducerObject.StreamingProducer.Append | include/attender/encoding/streaming_producer.hpp:45-57 | appends and signals, as one step of the protocol |
| StreamingProducerObject.StreamingProducer.Flush | source/attender/encoding/streaming_producer.cpp:22-25 | signals, as one step of the protocol |
| StreamingProducerObject.StreamingProducer.Finish | source/attender/encoding/streaming_producer.cpp:27-31 | completes and signals, as one step of the protocol |
| StreamingProducerObject.StreamingProducer.StartProduction | source/attender/encoding/streaming_producer.cpp:76-81 | signals only if data is waiting |
| StreamingProducerObject.StreamingProducer.HasConsumed | source/attender/encoding/streaming_producer.cpp:54-63 | drops what was written, then calls the consumer or lets it go idle |
| StreamingProducerObject.StreamingProducer.ProducedData | source/attender/encoding/producer.cpp:79-89 | calls the consumer unless it is consuming or not attached |
| StreamingProducerObject.StreamingProducer.EndProduction | source/attender/encoding/producer.cpp:109-114 | detaches the consumer and calls the finish callback |
| StreamingProducerObject.ChunkedResponse.Attach | source/attender/http/response.cpp:278-279 | installs the callback |
| StreamingProducerObject.ChunkedResponse.OnProduce | source/attender/http/response.cpp:201-256 | the flag is set, then the last chunk, nothing or one frame of the whole buffer goes out |
| StreamingProducerObject.ChunkedResponse.LastWritten | source/attender/http/response.cpp:221-224 | the end of production, with or without an error |
| StreamingProducerObject.ChunkedResponse.FrameWritten | source/attender/http/response.cpp:252-275 | success consumes the payload, failure reports the error and ends production |
| StreamingProducerObject.ChunkedResponse.WriteDone | source/attender/http/response.cpp:252-275 | the handler of the write that was answered runs |
| ChunkedDelivery.StepKeeps | source/attender/http/response.cpp:201-276 | every event keeps the invariant on data, writes and flags |
| ChunkedDelivery.ProtocolSafety | source/attender/encoding/producer.cpp:51-90 | in every reachable state pushed is acknowledged plus buffered, one write at most is outstanding and carries the front of the buffer, no wake-up is lost, and end, finish and error are told once and only when due |
| ChunkedDelivery.NothingToClear | source/attender/encoding/streaming_producer.cpp:57-60 | an acknowledged write never exceeds the buffer, so the clearing branch is dead |
| ChunkedDelivery.FailedWriteIsReported | source/attender/http/response.cpp:252-275 | an error is reported if and only if a chunk failed; that and any answer to the last chunk end production and response, and acknowledge nothing |
| ChunkedDelivery.ReceiverSeesPrefix | source/attender/http/response.cpp:201-276 | in every run, whatever a receiver has seen decodes to a prefix of what was pushed |
| ChunkedDelivery.FinishCutsOff | source/attender/http/response.cpp:219-227 | for every reachable state and everything that may follow: after finish() a receiver decodes what had been framed before it, and nothing else |
| ChunkedDelivery.FinishDeliversExactly | source/attender/encoding/streaming_producer.cpp:27-31 | finish() completes the stream whole if and only if the consumer is attached and idle and the buffer is empty, which is so whenever it is idle after the start |
| ChunkedDelivery.WholeIsReachableExactly | source/attender/http/response.cpp:219-276 | after finish() some continuation makes the stream whole if and only if the whole buffer is framed and the consumer is attached or still to come |
| ChunkedDelivery.UnstartedLoss | source/attender/encoding/streaming_producer.cpp:76-81 | a run in which data pushed before the attachment is lost in a completed stream |
| ChunkedDelivery.InFlightLoss | source/attender/http/response.cpp:219-227 | a run in which data behind the chunk in flight is lost in a completed stream |
| ChunkedDelivery.FinishInFlight | source/attender/http/response.cpp:219-227 | finishing during a write drops pending data if there is any, and otherwise writes no last chunk before the next signal; whole it is in neither case |
| ChunkedDelivery.FinishedBeforeStart | source/attender/encoding/streaming_producer.cpp:76-81 | finished before the start, attached or not: when the last chunk is written, that waiting data is lost, and exactly when the stream is whole |
| ChunkedDelivery.TwoAcknowledgementsDrain | source/attender/encoding/streaming_producer.cpp:54-63 | without failures two acknowledgements deliver all that was pushed |
| ChunkedDelivery.EndedStaysSilent | source/attender/encoding/producer.cpp:109-114 | after the end nothing is written and no callback repeats, in every continuation |
| StreamWriter.ConnectionWriter.Write | include/attender/http/http_connection_base.hpp:190-222 | the recursion through completions writes the specified blocks and makes one call of the handler |
| StreamWriter.StreamIsSent | include/attender/http/http_connection_base.hpp:190-222 | blocks of at most 4096 bytes form a prefix of the stream, all of it when no write fails |
| StreamWriter.ErrorEndsTheRun | include/attender/http/http_connection_base.hpp:199-215 | the handler hears of an error if and only if the last write failed, with what that write was answered; all earlier ones were full and succeeded |
| StreamWriter.NoErrorSendsAll | include/attender/http/http_connection_base.hpp:190-222 | without errors the content goes out whole, in one write for each block begun, exact multiples included |
| Base64.Base64Encode | include/attender/encoding/base64.hpp:9-48 | the loop computes the encoding, group by group |
| Base64.Base64Decode | include/attender/encoding/base64.hpp:51-108 | the loop computes the decoding with every store in bounds, or the error |
| Base64.TableIsUndone | include/attender/encoding/base64.hpp:72-88 | the decoder's arithmetic inverts the encoder's table at all 64 places |
| Base64.AlphabetIs | include/attender/encoding/base64.hpp:11 | the table is the alphabet of RFC 4648, place by place |
| Base64.GroupsAreTheBits | include/attender/encoding/base64.hpp:17-32 | four groups of six bits are the bits of three bytes, from left to right |
| Base64.StoresFit | include/attender/encoding/base64.hpp:64-107 | for every input of whole quads, '=' anywhere, the stores fit the computed size |
| Base64.StoresFillExactly | include/attender/encoding/base64.hpp:64-107 | they fill it if and only if '=' in the second half of a quad is only padding at the end |
| Base64.MisplacedPadding | include/attender/encoding/base64.hpp:72-105 | what a '=' in the first half of a quad does to the bytes |
| Base64.DecodesExactly | include/attender/encoding/base64.hpp:57-88 | decoding succeeds on exactly the inputs of whole quads of base64 characters, with an error each for length and characters; the output is the stores and zeros up to the computed size |
| Base64.RoundTrip | include/attender/encoding/base64.hpp:9-108 | four characters for each three bytes begun, and decoding gives the bytes back with nothing behind them |
| Base64.Injective | include/attender/encoding/base64.hpp:9-48 | different bytes have different encodings |
| BasicAuthorizer.TryPerformAuthorization | source/attender/session/basic_authorizer.cpp:17-67 | verdict, status and the call of the accepting function are those of the specification |
| BasicAuthorizer.AskedExactly | source/attender/session/basic_authorizer.cpp:23-60 | a pair is asked for if and only if its colon-join is what the value decodes to and the user has no colon |
| BasicAuthorizer.VerdictExactly | source/attender/session/basic_authorizer.cpp:17-67 | for every field: access if and only if it carries credentials that are accepted, 401 if and only if they are not, negotiation if and only if there is no field or another method, and 400 for all else |
| BasicAuthorizer.CredentialsArrive | source/attender/session/basic_authorizer.cpp:17-67 | encoded credentials reach the accepting function unchanged, and its answer decides |
| Router.Pattern | source/attender/http/router.cpp:22-31 | a literal part becomes a pattern that is anchored on both sides, with nothing else added |
| Router.Initialize | source/attender/http/router.cpp:75-89 | a route has the segments of its template, or one part when mounted; a nameless parameter fails |
| Router.MatchRoute | source/attender/http/router.cpp:91-129 | part by part for routes, by prefix for mounts, then the method |
| Router.GetPathParameters | source/attender/http/router.cpp:131-146 | every parameter gets its segment, with all accesses in bounds |
| Router.AccessesInBoundsExactly | source/attender/http/router.cpp:139-143 | all accesses are in bounds if and only if each parameter has a segment |
| Router.MatchedPathIsInBounds | source/attender/http/router.cpp:131-146 | for a path that a route without mount matches, they are |
| Router.MatchesExactlyInstances | source/attender/http/router.cpp:91-112 | a route without mount matches exactly the paths its template stands for: any line for a parameter, what the pattern matches for a literal |
| Router.MatchesExactly | source/attender/http/router.cpp:109-128 | a path that matches is a full match if and only if the methods are equal, and a path match otherwise |
| Router.MountMatchesExactly | source/attender/http/router.cpp:114-128 | a mounted route matches exactly the paths that begin with its template |
| Router.TemplateInverse | source/attender/http/router.cpp:131-146 | a path made from a template is matched, fully if and only if the methods are equal, and the parameters are exactly the texts put in, under the names without their colon |
| RoutedUrl.RoutedExactly | source/attender/http/router.cpp:91-146 | texts put into a template and the path percent-encoded in any way, with or without a query: the url is routed there, with the texts under their names, if and only if no text holds a slash and the method is the route's |
| RequestRouter.RequestRouter.AddRoute | source/attender/http/router.cpp:168-171 | the multimap is the one built from all calls so far |
| RequestRouter.RequestRouter.FindRoute | source/attender/http/router.cpp:327-340 | the loop computes the search over the multimap |
| RequestRouter.BuildIsOrdered | include/attender/http/router.hpp:93 | the multimap holds every added entry once, by falling priority and then in the order of the calls |
| RequestRouter.FindIsFirst | source/attender/http/router.cpp:327-340 | the first full match is returned, or whether a path matched |
| RequestRouter.RoutingSpecification | source/attender/http/router.cpp:327-340 | after any calls the result is the route of the request's method and path that no other such route precedes by priority and age; otherwise a path match is reported if and only if a route of another method matches the path |

## Left out

- Sockets, TLS, acceptors, timers, the thread pool and io_context: events take their place.
- Data races: each public call and each completion handler is one atomic step.
- RequestReading.Atoll: undefined in C for a number that is no `long long`; the model goes to the nearest one, as `strtoll` does.
- RequestReading.StartBody: the count of bytes written is unbounded, where the library has a `size_t`.
- RequestSyntax.ParseCookies: a function on the pieces instead of the loop of source/attender/http/cookie.cpp:29-41.
- Strings.IsAlnum: the ASCII letters and digits, as in the default locale, and likewise for blanks and lower case.
- Router.PartMatches: `std::regex` is a parameter for literal parts; only ".*" is spelled out, and a template that is no valid pattern is not rejected.
- Router.Initialize: the callback of a route is a number, and the handlers that `mount` builds are not modelled.
- StreamingProducerObject.ChunkedResponse.OnProduce: the two branches named for ChunkedProtocol.OnProduce.
- ChunkedProtocol.OnProduce: the branches for a destroyed response handler (object lifetime) and for `production_failure`, which only the Brotli encoder calls.
- ChunkedProtocol.Step: a producer is attached to one response in its life, and the finish callback does not call back into it.
- RequestHandlerObject.RequestHandler.HeaderReadHandler: the route's callback reads the body at once; routes that never do, 100-continue and `rewind` are not modelled.
- Base64.Base64Decode: the partly filled output that an exception leaves behind.
- The Brotli encoder, sessions, mime and status tables, dates, hashes, response setters, cookie printing and the WebSocket classes.
