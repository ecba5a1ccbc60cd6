# A verified model of wolfCert's protocol code

wolfCert is an EST (RFC 7030) and SCEP (RFC 8894) client and server on a hand-written HTTP/1.1 layer. This project models the parts of it whose behaviour spans many calls or many bytes, and proves what callers rely on. Cryptography, TLS and wolfSSL are left uninterpreted: what they answer enters the model as functions, scripts and outcome records, so every theorem holds whatever they do.

`dafny verify dfyconfig.toml` checks the whole project.

## What is proved

**HTTP responses (`Numerals`, `Chunked`, `ChunkScanner`, `ChunkDecoder`, `ChunkedGrammar`, `ResponseStream`, `ResponseGrammar`).** Section 7.1 of RFC 9112 is written down as a grammar with its own wire text. Its sizes are numerals, written from the alphabets of the hexadecimal digits by division, so the grammar owes nothing to the parser. The resumable scanner accepts exactly the grammar's texts, at the same place however the bytes were cut up. The in-place decoder returns exactly their payload and loses no byte it has not read yet. One level up, a whole response (interim blocks, final head, and a body by length, chunks or close) is a grammar too, told by the fields of its heads and by status numbers. The session publishes a reply if and only if the stream carries such a response, and then exactly what it says.

**The HTTP session (`Transport`, `HttpSession`, `HttpRuns`, `HttpLimits`).** The session is a class over a transport that follows a plan. The plan fixes how many bytes each call moves, when it asks to wait and when it fails, so a theorem over all plans is one over all schedules. A call may wait or fail only as the plan, the allocator or the stream makes it. Its invariant says that the buffered bytes are a window on the peer's stream and that the outcome of the request in flight is already fixed by the stream. From it follow segmentation independence, keep-alive replies that tile the stream, requests sent once and in order, bounds on memory, and termination of the loop. The schedule also fixes what the clock says at each reading and which allocations are granted. Sizes are `size_t` values that wrap: `HttpLimits` gives the body caps for which the limits are what they should be, and for the others which header blocks come through on which schedules.

**Dates (`CivilDate`, `HttpDate`, `RetryAfter`).** The day-number formula is 0 at the epoch, advances by 86400 from each Gregorian date to the next, and orders instants as they follow each other over all years. The two-digit-year loop ends and finds the only year in the 100-year window. HTTP-date text scans exactly when it is one of the three forms of section 5.6.7 of RFC 9110. The wait of a Retry-After is a function of its text and the clock, and the texts whose wait no clock changes are known exactly.

**EST and SCEP sessions (`EstClient`, `ScepClient`).** An operation is in flight in the upper session exactly when the HTTP session holds a request, and it is that session's own. This is the class invariant, so it holds between any two calls of any mix. A mismatched call changes nothing of the operation in flight. A completed operation sent exactly the request that was built for it. What its caller is then told follows from the reply's status number, its body and the decoder alone: when an enrolment succeeded, failed or is pending, and which code comes with it. A SCEP reply is judged with the signer and bundle bytes the first call saw, even if the caller has since overwritten the buffers.

**Manual approval (`ApprovalTrace`, `ScepServer`, `EstServer`).** The servers keep a ghost history of what they parked, released and issued. The invariant says that every event was allowed when it happened. Theorems over histories then bound the queue and account for every parked request. What the CA mints is a function of the CSR it is given, and each reply carries the certificate itself. So in any run with approval on, a certificate sent out is the one minted for exactly the CSR parked under that transactionID, it goes to the signer that parked it, the same key signed the poll, and the poll names this CA and that CSR's subject. In the other direction, a proper enrolment is parked if there is room, nobody else can end its stay, and its own poll gets its certificate. After any run with memory for the registry, each of the last 16 certificates issued can be fetched by its serial.

**Codecs (`Der`, `IssuerAnd`, `CsrAttrs`, `IpText`, `Ipv6Text`, `Ipv6Parser`, `HttpUrl`, `UrlText`, `GetUrl`, `RequestFields`, `FieldText`, `GetTrip`).** Encoders fill their computed size exactly and parsers return what was encoded. The DER parsers accept exactly the elements their grammar describes, and the URL parser exactly the URL texts, with host, port and target as the text has them. IPv6 text (section 2.2 of RFC 4291) parses to an address if and only if it renders that address. A pkiMessage sent by GET is followed from the base URL through the request line, the header fields and the server's parameter lookup to the decoded text, with the exact set of base URLs for which every message arrives.

**Recipient and CA (`RaSelect`, `PinnedBundle`, `CaStore`).** The multi-pass recipient filter refines a choice on the set of certificates, so their order cannot matter. The choice itself is told by key usage and by who issued whom, without ranks. With pins, whoever receives a request is the pinned CA or an RA that is pinned and signed by it. Over any run of server starts with any store failures, every start that succeeds runs the same CA.

## Where a stated property needs a condition

- CSR attributes: building and parsing again is the identity exactly when the body is shorter than 2^32 bytes, because lengths pass through a 32-bit parameter (`CsrAttrs.RoundTrip`).
- HTTP limits: the receive bound is body cap plus 8192, and nothing checks that the sum fits a `size_t`. Header blocks within their budget always find room, however they are delivered, if and only if cap + 8192 does not wrap (`HttpLimits.HeadRoomIff`). A reply can be read to the close if and only if its head plus the cap does not wrap (`HttpLimits.ReadToCloseIff`). `HttpLimits.NoLimitFails` shows both with the largest size as the cap: a 6200-byte head is refused or taken depending on how it is cut up. Segmentation independence is therefore stated for caps that fit. For the others the wrapped bound decides. Below 2048 no request is ever answered (`HttpLimits.NothingIsAnswered`). From 2048 on, a block finds room on every schedule, on some or on none by its length (`HttpLimits.AlwaysRoomIff`, `HttpLimits.SometimesRoomIff`), and lengths that come through on one session and not on another always exist (`HttpLimits.SomeBlocksDiffer`, `HttpLimits.SchedulesDiffer`).
- Retry-After: the published wait is measured from the clock when the head is read, so two schedules see the same reply but maybe not the same wait. They see the same wait under all clocks if and only if there is no value, or it is a number, does not scan as a date, names a day that never comes, or names an instant not after the earliest set clock (`RetryAfter.WaitsAgreeIff`, `HttpRuns.SeenAlikeIff`). `HttpRuns.DatedReplyDiffers` is a reply that asks for 60 seconds under one clock and 59 under another.
- GET transport: having no fragment and no own `message` parameter is not enough. A `?` inside a bracketed host makes the client append `&` where no query has started, a blank or newline in the target cuts the request line, and an own `operation` parameter is the one the server dispatches on. A newline inside a bracketed host can make a header line the server refuses. `GetTrip.RoundTripIff` gives the exact condition over the texts that fit the URL limit. `GetTrip.QuestionInHost` and `GetTrip.NewlineInHost` are base URLs that fail, and a host without a newline is never the reason (`GetTrip.PlainHostWorks`).

## Modelling choices

- Bytes are integers from 0 to 255, and byte strings are sequences. A C string is its bytes before the terminator.
- The session's receive buffer is a sequence with its capacity beside it. The in-place decode of a finished chunked body runs on an array copy of it.
- An incoming SCEP message arrives with its signature and envelope already opened, and with a `Luck` record that fixes what the CA mints for each CSR and every allocation, signing and sending outcome while it is handled.
- A store read may fail, but answers "not found" only for an absent slot. A failed write or removal may or may not have happened (wolfcert/store.h).
- The command-line client measures certificates with wolfSSL's length reader. It may refuse lengths the library's own reader takes, and is taken to agree on those it accepts.
- `MAX_PKCS7_CERTS`, the body cap and the largest `size_t` are parameters; a `size_t` has at least 32 bits. What the allocator grants may depend on the size and on how often it was asked, and is nothing over half the largest size.
- A transport plan is finite; when it has run out, every further call waits. "Long enough" means that it moves bytes more often than there are bytes to send and receive.
- What the clock says may depend in any way on how often it was read; it need not be set, nor move forward.
- A content length is a C `long`, so head plus length never wraps.
- The server's `strtoul` has 64 bits. A SCEP GET carries the header fields Host, User-Agent, Connection and Content-Length.
- Error codes of request building come back unchanged as `NotBuilt(code)`.

## Model

| member | source | states |
|---|---|---|
| ChunkScanner.FindCrlf | src/http.c:718-728 | finds the first CRLF at or after a position, and otherwise says how far a later search may start |
| ChunkScanner.ParseChunkSize | src/http.c:732-770 | digit by digit it yields the number that the hexadecimal digits write, when it has 32 bits and nothing or blanks and an extension follow, and refuses every other line, however long |
| Chunked.ChunkSizeIs | src/http.c:732-770 | a line has size n exactly when its leading digits, taken from the alphabets 0-9a-f and 0-9A-F, write n by division by 16, n has 32 bits, and nothing or blanks and a semicolon follow |
| Chunked.EverySizeIsRead | src/http.c:732-770 | the numeral of any number, in either case and behind any zeros, is read as that number if it has 32 bits and refused otherwise |
| ChunkScanner.ChunkedComplete | src/http.c:772-820 | resumed from any earlier incomplete answer on a shorter prefix, it gives the verdict, end and total of one fresh scan of all the bytes |
| ChunkScanner.ScanningExtends | src/http.c:772-820 | a cached resume point stays right when more bytes arrive |
| Chunked.SelfDelimiting | src/http.c:772-820 | a complete message ends at the same place in every extension, and every shorter prefix says "more" |
| ChunkedGrammar.ScannerIsGrammar | src/http.c:772-820 | the scanner calls a stream complete exactly when it starts with the wire text of a well-formed message within the cap, and reports that text's length and payload size; a size line of the grammar is a numeral, not what the parser takes for one |
| ChunkedGrammar.ScannerDecoderAgree | src/http.c:772-889 | the span found by the scanner is one message of the grammar, and decoding it yields the announced total or fails only on trailer syntax |
| ChunkedGrammar.DecoderAccepts | src/http.c:861-889 | every span the decoder accepts is complete for the uncapped scanner with as many bytes as were decoded, and nothing after its end matters |
| ChunkedGrammar.DecodeIgnoresRest | src/http.c:861-889 | decoding more than the scanned span gives the same result, of the size the scanner counted |
| ChunkedGrammar.DecodeOnWire | src/http.c:861-889 | the wire text of a message decodes to its payload exactly when its trailer lines are well-formed |
| ChunkedGrammar.ScanOnWire | src/http.c:788-820 | the wire text of a message scans to its end with its payload size, or is malformed once the payload passes the cap |
| ChunkedGrammar.TrailerLineIs | src/http.c:824-858 | a trailer line is taken exactly when it has a name before its first colon, or starts with a blank and is not the first |
| ChunkDecoder.CheckTrailers | src/http.c:824-858 | accepts exactly the trailer sections whose lines are field lines, with continuation lines only after one |
| ChunkDecoder.DecodeInto | src/http.c:861-889 | with source and destination in one array and the destination not after the source, the output is the functional decode of the bytes as they were, and nothing outside the output changes |
| ServerReceive.ChunkedDecode | src/http.c:891-919 | decodes into a buffer of its own, refusing a body over the limit |
| ServerReceive.ReadChunked | src/server.c:243-312 | for any receive sizes the answer is the one fixed by the stream, whenever the receives that go well get far enough to decide or reach the end of the stream; otherwise it is an I/O error |
| ServerReceive.Verdicts | src/server.c:279-311 | a verdict reached on the bytes so far is the verdict on the whole stream |
| ServerReceive.FramedIs | src/server.c:243-312 | a stream amounts to a body exactly when a chunked message starts it whose payload is within the limit and whose wire text is within 64 KiB more, and then to its payload |
| ResponseStream.HeadEnd | src/http.c:1553-1610 | the end of a header block is its first blank line |
| ResponseStream.PublishedBounds | src/http.c:1553-1700 | in all three framings no published body is over the cap, at least one byte of the stream is used and none beyond it, and no interim status is published |
| ResponseStream.ReplyIsSelfDelimiting | src/http.c:1553-1682 | a response not ended by the close is the same response, of the same length, on every stream that starts with its bytes |
| ResponseGrammar.TextIsPublished | src/http.c:1405-1700 | a stream that starts with a response text is read as exactly what the text says, and nothing after it is used |
| ResponseGrammar.PublishedIsText | src/http.c:1405-1700 | whatever is published, the stream carries a response text for it |
| ResponseGrammar.PublishedIff | src/http.c:1405-1700 | a stream yields an outcome exactly when it starts with a response text that says it; the text is told by the fields of its heads and the numbers of their statuses, with chunked before a length and a length before close, no body for HEAD, 204 and 304, and at most eight of 100 and 102 to 199 before it |
| ResponseGrammar.ChunkedReply | src/http.c:1434-1456 | a chunked response, whatever length it also names within the cap, is published with its decoded payload and leaves what follows for the next reply |
| ResponseGrammar.SizedReply | src/http.c:1443-1460 | a response with a length has exactly that many bytes of body, and leaves what follows |
| ResponseGrammar.CloseReply | src/http.c:1457-1463 | a response with neither has everything up to the close as its body, and the session is not used again |
| ResponseGrammar.BareReply | src/http.c:1434-1436 | the reply to HEAD, a 204 and a 304 end with their head, whatever coding or length it names |
| ResponseGrammar.InterimSkipped | src/http.c:1430-1433 | a 100 and any of 102 to 199 is dropped and the next head read, eight times at most |
| ResponseGrammar.HeadRefused | src/http.c:1405-1451 | no status line, a 101, and a length over the cap on a body that would be read are refused |
| Transport.Conn.Read | src/http.c:1240-1330 | a read moves at least one and at most the asked number of the peer's next bytes, or closes only at the stream's end, or waits or fails as the plan says |
| Transport.Conn.Write | src/http.c:1174-1209 | a write appends a non-empty prefix of the data to what the transport accepted, or waits or fails as the plan says |
| HttpSession.Session.constructor | src/http.c:1038-1091 | an opened session is idle, in step with the stream, and has the configured or default body cap, of any size |
| HttpSession.Session.Reserve | src/http.c:1211-1236 | answers by the room there is, the wrapped bound and the allocator, in that order, and the capacity grows by doubling and stops at the bound |
| HttpSession.Session.ReadSome | src/http.c:1240-1330 | the buffer grows by the stream's next bytes, never past the limit; it fails only because the transport did, an allocation was refused, the bound wrapped, or the stream holds more than the limit |
| HttpSession.Session.WriteSome | src/http.c:1174-1209 | the transport has accepted exactly the bytes the offset moved over |
| HttpSession.Session.InspectHeaders | src/http.c:1405-1475 | refuses, drops or frames a header block by the interim and no-body rules, with the next state and length that go with them, and holds the content type and the wait of a final one; it fails for memory exactly when its copy of the block is refused |
| HttpSession.Session.Note | src/http.c:1464-1471 | the wait held is what the Retry-After text comes to, by a reading of the clock made now if it is not a number; for a number the clock is not read |
| HttpSession.Session.SmReadHead | src/http.c:1553-1610 | keeps the promised outcome while it looks for the blank line, resuming where it stopped, and refuses a block over the budget |
| HttpSession.Session.DropInterim | src/http.c:1598-1607 | dropping an interim block leaves the outcome as it was, shifted by the block |
| HttpSession.Session.SmReadBodyCl | src/http.c:1612-1644 | a body by length is published as exactly its bytes, and a surplus byte closes the session |
| HttpSession.Session.SmReadBodyChunked | src/http.c:1646-1682 | a chunked body is published as its decoded payload, and a surplus byte closes the session |
| HttpSession.Session.DecodeBody | src/http.c:1669-1678 | decoding on top of the received bytes gives the payload of the span |
| HttpSession.Session.SmReadBodyEof | src/http.c:1684-1700 | a body by close is published as everything up to the close, within the cap, and closes the session; it fails whenever head end plus cap wraps |
| HttpSession.Session.SmPublish | src/http.c:1493-1502 | the caller's response gets exactly the promised status, content type and body, and the wait held since the head was read |
| HttpSession.Session.SmHandshake | src/http.c:1504-1527 | moves on to writing only when the transport is connected, and sends nothing of the request |
| HttpSession.Session.SmWriteHead | src/http.c:1529-1541 | over any partial writes, what was sent and what is left is head and body, in order |
| HttpSession.Session.SmWriteBody | src/http.c:1543-1551 | over any partial writes, what was sent and what is left is head and body, in order |
| HttpSession.Session.SmStep | src/http.c:1718-1761 | every state either keeps the invariant and lowers a lexicographic measure, waits because the transport said so, publishes the promised reply, or fails because the transport did, an allocation was refused, the stream holds no response or the bound wraps; each transport event that moves something is paid for by a byte |
| HttpSession.Session.SmRun | src/http.c:1718-1761 | ends against any transport: with the promised reply, its wait as of a reading made for this request, the request sent exactly once, and the session closed exactly when more than the response was read or only the close ended it; or waiting as the transport said; or failed for a cause that holds |
| HttpSession.Session.SmDone | src/http.c:1702-1715 | a finished exchange is logged at the place in the stream where it lay; the session is closed exactly when more than it was read or only the close ended it, and otherwise stays in step with the stream |
| HttpSession.Session.SmBegin | src/http.c:1764-1800 | a request is held with the caller's response exactly when its head was built; otherwise the builder's own code comes back, nothing is held and the response is cleared |
| HttpSession.Session.SmFail | src/http.c:1145-1150 | a failure closes the session and forgets the request |
| HttpSession.Session.Call | src/http.c:1805-1842 | keeps the invariant over new, resumed, blocking, mismatched and late calls; says exactly when a call is refused with which code, and that it then changes nothing of the session, the transport or the response; ties success to the logged reply, the reading of the clock and the bytes sent, and says whether the session stays open; a wait or a failure has its cause in the plan, the allocator or the stream |
| HttpRuns.RepliesDependOnStream | src/http.c:1553-1842 | two runs with the same kinds of request over one stream log the same replies, Retry-After texts included, at the same places |
| HttpRuns.RepliesTileStream | src/http.c:1604-1842 | reply k starts where reply k-1 ended, uses at least one byte and stays within the stream and the cap |
| HttpRuns.RepliesAreTexts | src/http.c:1405-1842 | every reply of a run is what a response text on the stream says, at the place and over the bytes of that text |
| HttpRuns.Drive | src/http.c:1718-1842 | resumed to its end, a request publishes the response the stream holds, with the wait as of a reading made meanwhile, or fails only when there is none, the transport failed, an allocation was refused or the bound wrapped; it ends waiting only if the plan moved less often than there are bytes |
| HttpRuns.WaitingIsPaid | src/http.c:1174-1330 | a request that waits has used no more events that move something than it has bytes to send and receive, and one for the handshake |
| HttpRuns.TwoSchedules | src/http.c:1240-1842 | with a body cap that fits, one request over one stream under two long enough schedules, with their own clocks and allocators, neither of which failed or was refused memory: both publish the same reply, each with the wait its own clock gives the same Retry-After text, or both fail |
| HttpRuns.SeenAlikeIff | src/http.c:653-683 | a reply is seen alike under all clocks if and only if its Retry-After text is one no clock changes |
| HttpRuns.DatedReplyDiffers | src/http.c:668-674 | one dated reply over one stream, under clocks a second apart: the callers are told to wait 60 and 59 seconds, and all else is the same |
| HttpRuns.MemoryIsBounded | src/http.c:1211-1330 | received bytes and capacity are within body cap plus header budget, capacity within half the address range, and head end and dropped interims within their bounds, in every reachable state |
| HttpLimits.HeadRoomIff | src/http.c:1033-1236 | over all deliveries of header blocks within the budget, room is always found if and only if body cap plus budget does not wrap |
| HttpLimits.ReadToCloseIff | src/http.c:1684-1700 | the limit of a body by close lies past the head exactly when head and cap do not wrap, and is then their sum |
| HttpLimits.NoLimitFails | src/http.c:1033-1330 | with the largest size as body cap a 6200-byte head is longer than what always finds room, finds it in pieces of 1000 and not in pieces of 2048, and no reply can be read to the close |
| HttpLimits.NoLimitDiffers | src/http.c:1033-1330 | two sessions opened with the largest size as body cap, on one stream with a 6200-byte head and an allocator that grants a header block: byte by byte the request fails, in steps of 1000 it is answered |
| HttpLimits.AlwaysRoomIff | src/http.c:1211-1330 | when cap and budget do not fit, a header block finds room under every delivery if and only if it ends at least 2047 bytes below the wrapped bound |
| HttpLimits.SometimesRoomIff | src/http.c:1211-1330 | and under some delivery if and only if the wrapped bound holds the block and one read |
| HttpLimits.EveryHeadHadRoom | src/http.c:1211-1330 | in every reachable state, every reply published so far began with a header block within the wrapped bound, and well within it if the transport moved single bytes |
| HttpLimits.Bytewise | src/http.c:1553-1842 | a session whose transport moves single bytes never publishes a head that does not always find room, and fails if the plan is long enough |
| HttpLimits.Stepwise | src/http.c:1553-1842 | one whose transport moves steps that suit the wrapped bound publishes it, if the plan is long enough and no allocation the size of a header block is refused |
| HttpLimits.SchedulesDiffer | src/http.c:1033-1842 | so one request over one stream has two outcomes: it fails on one session and is answered on the other |
| HttpLimits.SomeBlocksDiffer | src/http.c:1033-1236 | for every cap that does not fit and whose wrapped bound holds one read, there are lengths of header blocks for which it does |
| HttpLimits.NothingIsAnswered | src/http.c:1033-1236 | for every other cap that does not fit, no session ever publishes a reply |
| CivilDate.Epoch | src/http.c:566-575 | the formula gives 0 at 1970-01-01 |
| CivilDate.AdvancesOneDay | src/http.c:566-575 | from every valid date of every year to the next it advances by 86400 |
| CivilDate.StrictlyMonotone | src/http.c:566-575 | the value of an earlier date is smaller by at least a day, over all years |
| CivilDate.OrderIsTime | src/http.c:566-575 | two dates, each with a time within its day, are ordered by value exactly as by date and then time |
| CivilDate.LaterYear | src/http.c:566-575 | the same day of a later year has a larger value, even for days a month does not have |
| CivilDate.FloorIs2026 | src/http.c:506-507 | the clock floor is the formula's value at 2026-01-01 |
| CivilDate.WindowIsUnique | src/http.c:636-641 | at most one year with the given two digits lies within 50 years of now |
| CivilDate.ResolveYear | src/http.c:636-641 | the loop ends, and for a set clock finds the year in that window |
| CivilDate.YearIsInWindow | src/http.c:636-641 | with a set clock, the year the loop is defined by lies in the window |
| CivilDate.Resolve | src/http.c:636-649 | a date its month does not have is refused, any other gives the formula's value for the resolved year |
| HttpDate.HttpDateIs | src/http.c:518-634 | a text scans to given fields if and only if it is an IMF-fixdate, RFC 850 or asctime date with those fields |
| HttpDate.TextScans | src/http.c:579-634 | every HTTP-date, of any day name and with trailing blanks, scans to its fields |
| HttpDate.ScannedIsText | src/http.c:579-634 | nothing else scans |
| HttpDate.ScannedInRange | src/http.c:518-634 | scanned fields are in the ranges the date arithmetic needs |
| HttpDate.MonthsAre | src/http.c:535-548 | the twelve months are known by their English names in order, and the zone as GMT |
| RetryAfter.TakeDigits | src/http.c:518-533 | reads the value of at least the fewest and at most the most digits asked for, and what follows them |
| RetryAfter.TakeMonth | src/http.c:535-548 | finds the month name the text starts with |
| RetryAfter.TakeTimeOfDay | src/http.c:550-563 | reads a time of day as its seconds, a leap second included, and refuses one out of range |
| RetryAfter.ScanHttpDate | src/http.c:579-634 | reads exactly the texts of the date grammar |
| RetryAfter.ParseDelta | src/http.c:657-665 | the number clamped to a day however many digits it has, 0 when anything but blanks follows |
| RetryAfter.ParseRetryAfter | src/http.c:653-683 | yields the wait its text and the clock fix: never more than a day, none for a text that is neither number nor date or for a clock not set, and otherwise the time left until the instant named, in the year the window selects |
| RetryAfter.WaitsAgreeIff | src/http.c:653-683 | the wait is the same for all clock readings if and only if there is no value, or it is a number, no date, a day that never comes, or an instant not after the earliest set clock |
| RetryAfter.WaitShrinks | src/http.c:653-683 | read later by a set clock, a date with its whole year asks for no more, and for less by no more than the time gone |
| RetryAfter.EverySecondCounts | src/http.c:653-683 | within a day before such a date, a second later is a second less |
| RetryAfter.DatedWaits | src/http.c:653-683 | a text that asks for 60 seconds at one reading and 59 at the next |
| RetryAfter.NumberIsWaited | src/http.c:653-683 | the decimal text of any number of seconds, with blanks behind it, is waited, a day at most, whatever the clock says, and no value is no wait |
| RetryAfter.JunkIsNotWaited | src/http.c:657-665 | a number with anything else behind it is not waited |
| RetryAfter.DateIsWaited | src/http.c:653-683 | an HTTP-date is waited for, a day at most, if the clock says 2026 or later, the day exists, and it is still to come |
| EstClient.EstSession.Reset | src/est/est_client.c:254-261 | nothing is in flight and no output is named |
| EstClient.EstSession.CallClear | src/est/est_client.c:302-312 | clears the caller's output unless it is the one in flight, which stays as it was |
| EstClient.EstSession.Begin | src/est/est_client.c:327-368 | puts the built request in flight under its operation, encoding and output, or returns the builder's code with nothing in flight |
| EstClient.EstSession.Deliver | src/est/est_client.c:70-126 | parses the reply into the output: what a cleared output then shows is what the status number, the body and the decoder make of it, operation by operation |
| EstClient.FinishTells | src/est/est_client.c:70-126 | an enrolment shows Success if and only if the reply is a 200 with a body that decodes, Pending with its wait if and only if a 202, and Failure for every other status, with an authentication error for 401 and 403 and an HTTP error else; 204, 404, 405, 501 and an empty 200 mean no CSR attributes |
| EstClient.EstSession.Send | src/est/est_client.c:404-421 | waits as the transport said, with the operation and its request in flight; or ends it having sent exactly that request, with the reply the stream held delivered; or ends without a reply for the cause the HTTP session gives |
| EstClient.EstSession.Call | src/est/est_client.c:373-421 | keeps the two layers in lockstep; a refused call changes neither session, transport, response in flight nor its output; one that waits keeps the request built for the operation in flight; one that ends sent exactly that request and delivers the reply the stream held for it; one that ends without a reply could not build its request, or the HTTP session was closed or gives the cause; an output that was clear then tells of that reply as `FinishTells` has it, and stays clear without one |
| ScepClient.CheckCodes | src/scep/scep_client.c:640-694 | the checks of a new call accept, or refuse as a bad argument or an unsupported key |
| ScepClient.CheckIs | src/scep/scep_client.c:640-694 | a call is taken exactly when it brings every argument its operation needs, by a table of needs, and signs with an RSA key if it signs; the other two codes are for a missing argument and another key |
| ScepClient.BasisIs | src/scep/scep_client.c:1148-1334 | a request is made from, and its reply judged against, the certificate the call brings, or one made from its CSR when it brings none, and its bundle |
| ScepClient.FinishTells | src/scep/scep_client.c:1292-1325 | only a 200 is looked into; a 404 to GetNextCACert is not-found, and every other status an HTTP error that leaves the output clear |
| ScepClient.ScepSession.CallClear | src/scep/scep_client.c:882-895 | clears the caller's output unless it is the one in flight, which stays as it was |
| ScepClient.ScepSession.Begin | src/scep/scep_client.c:1148-1334 | puts in flight the request prepared from the CSR, recipient, transactionID, serial, signer and bundle of this call, with signer and bundle copied when the call may return before the reply; a part that cannot be made gives its own code |
| ScepClient.ScepSession.Send | src/scep/scep_client.c:1338-1357 | waits as the transport said, with everything still held; or ends having sent exactly the held request, with the reply judged by what was held; or ends without a reply for the cause the HTTP session gives |
| ScepClient.ScepSession.Call | src/scep/scep_client.c:1360-1388 | lockstep as for EST, with the same causes for an end without a reply; a completed call sent exactly the request prepared for it; between calls no caller's buffer is held, and a reply is judged by the signer and bundle bytes the first call saw |
| ApprovalTrace.QueueIsBounded | src/scep/scep_server.c:419-461 | in every safe history at most 16 requests are parked |
| ApprovalTrace.ParksAreAccounted | src/scep/scep_server.c:957-1023 | under every transactionID, parks are issues plus releases plus one if it is parked now, so issues never exceed parks |
| ApprovalTrace.ParkedEntryHasOrigin | src/scep/scep_server.c:834-929 | a parked entry is the one some earlier event parked after signer binding, challenge and CSR checks, unchanged since |
| ApprovalTrace.IssueNeedsApproval | src/scep/scep_server.c:957-1023 | with approval on, every issue is on a poll, of exactly the CSR an earlier event parked, and the poll's signer has the parked signer's key |
| ScepServer.Server.PendingFind | src/scep/scep_server.c:408-417 | finds the entry of a transactionID exactly when it is parked |
| ScepServer.Server.PendingAdd | src/scep/scep_server.c:419-461 | adds at the end unless the queue is full or memory is short |
| ScepServer.Server.PendingRemove | src/scep/scep_server.c:463-478 | takes out one entry by moving the last into its place |
| ScepServer.Server.IssuedRecord | src/scep/scep_server.c:699-731 | a registered certificate is the newest, and the registry holds the newest 16 in order |
| ScepServer.Server.IssuedFind | src/scep/scep_server.c:733-756 | finds a held certificate with the serial, and misses only when there is none |
| ScepServer.NewestAreKept | src/scep/scep_server.c:699-731 | each of the last 16 certificates the history registered is in the registry, in every reachable state |
| ScepServer.ClientAsksForSerial | src/scep/scep_server.c:1027-1082 | the request a client encodes for a serial asks for exactly the certificates with that serial's magnitude |
| ScepServer.Server.IssueAndReply | src/scep/scep_server.c:769-831 | what the CA mints for this CSR goes to the given recipient and into the registry when lookup is on and there is memory; a refusal and a lack of memory answer differently |
| ScepServer.Server.HandleEnroll | src/scep/scep_server.c:834-929 | with approval on it never issues, parks exactly the CSR and signer that pass every check while there is room, and answers PENDING exactly for that and for the parking key's resend of the same CSR; otherwise the reply carries what the CA minted for this CSR; a server error only for want of memory, the CA's key or a sendable reply |
| ScepServer.Server.HandleGetCertInitial | src/scep/scep_server.c:957-1023 | releases a parked request exactly when the payload is this CA's name and its CSR's subject and the parking key signed the poll, mints for exactly the parked CSR, and keeps it when memory runs out before; every other poll leaves the queue alone and gets badCertId, unless memory ran out |
| ScepServer.Server.HandleGetCert | src/scep/scep_server.c:1027-1082 | succeeds exactly when a registered certificate has the CA name and serial asked for, and then with such a certificate, sent to the asker |
| ScepServer.Server.HandlePkiOp | src/scep/scep_server.c:1084-1190 | keeps the invariant and handles every message by its type, with that type's effect on the history and its answer; it adds at most one event, about that message's transactionID and payload, whose certificate is what was minted for its CSR and is the one in the reply |
| ScepServer.Server.Serve | src/scep/scep_server.c:1084-1190 | over any run, each message is handled by its type after what those before it did, and each new certificate sent has its own event in the history, made by the message it answers |
| ScepServer.CertificateWasApproved | src/scep/scep_server.c:834-1023 | with approval on, a message of any run is answered with a new certificate only if it polls, an earlier event parked a CSR under its transactionID by the same key, and its payload parses to this CA's name and the subject of that CSR; the certificate is the one minted for exactly that CSR and goes to the signer that parked it |
| ScepServer.ClientPollsFor | src/scep/scep_server.c:970-985 | a poll as a client encodes it, with the CA's name and a subject, names exactly the parked CSRs with that subject |
| ScepServer.Server.AdmittedIs | src/scep/scep_server.c:834-880 | an enrolment passes exactly when it knows the challenge and is signed by a certificate of this CA to renew it, by the key it asks a certificate for, or by nobody |
| ScepServer.Server.ResendIsChecked | src/scep/scep_server.c:880-929 | a proper enrolment under a parked transactionID is PENDING when it is the parked CSR by the parking key, badRequest when it is not, and changes nothing |
| ScepServer.Server.EnrollThenPoll | src/scep/scep_server.c:834-1023 | a proper enrolment is answered PENDING, and whatever others send before it, its own poll gets the certificate that the CA mints for exactly its CSR |
| ScepServer.RecentAreHeld | src/scep/scep_server.c:699-731 | after any such run the last 16 certificates it issued, by whatever route, are in the registry |
| ScepServer.Server.ServeThenFetch | src/scep/scep_server.c:699-1190 | after any run with memory for the registry, a client's request for the serial of any of the last 16 certificates issued is answered with a certificate of that serial |
| EstServer.AlternatesOn | src/est/est_server.c:821-851 | adding a 202 when none is owed, or an attempt when one is, keeps the strict alternation |
| EstServer.Queue.Find | src/est/est_server.c:72-79 | finds a hash exactly when it is parked |
| EstServer.Queue.Add | src/est/est_server.c:82-92 | parks at the end unless eight are parked |
| EstServer.Queue.Remove | src/est/est_server.c:94-103 | takes out exactly one hash and keeps the rest distinct |
| EstServer.Queue.Enroll | src/est/est_server.c:821-851 | keeps, for every CSR hash over any run, 202 replies and issue attempts strictly alternating from a 202, with at most eight parked; a full queue answers 503, a bad CSR 400, short memory 500 |
| Der.ReadsBack | src/scep/scep_msg.c:45-220 | a written element is read back with its tag and content, whatever follows it |
| Der.HeaderIsMinimal | src/scep/scep_msg.c:188-220 | no header the reader accepts is shorter than the one that would be written |
| Der.ReadTlvIs | src/scep/scep_msg.c:188-220 | a header is read exactly when a tag and length octets of section 8.1.3 of X.690, at most four of them, stand there and as much content follows |
| Der.DerReadTlv | src/scep/scep_msg.c:188-220 | the byte loop computes the announced length and accepts it only within the input |
| Der.DerPutLen | src/scep/scep_msg.c:45-98 | writes the shortest length form, or nothing when it does not fit |
| IssuerAnd.IntMagnitude | src/scep/scep_msg.c:138-144 | yields the magnitude: the bytes from the first that is not zero, and at least one byte |
| IssuerAnd.MagnitudeKeepsValue | src/scep/scep_msg.c:138-144 | stripping leading zeros keeps the number the bytes stand for |
| IssuerAnd.SameMagnitudeIff | src/scep/scep_msg.c:138-144 | two serials have the same magnitude exactly when they are the same number |
| IssuerAnd.EncTlv | src/scep/scep_msg.c:124-176 | writes the element exactly, or refuses one that does not fit |
| IssuerAnd.PairDer | src/scep/scep_msg.c:1081-1146 | the sizes computed beforehand are the bytes written, or the pair is refused |
| IssuerAnd.IssuerAndSerialDer | src/scep/scep_msg.c:1081-1146 | encodes issuer and serial exactly when both are present and fit |
| IssuerAnd.IssuerAndSubjectDer | src/scep/scep_msg.c:976-1058 | encodes issuer and subject exactly when the issuer is present and both fit |
| IssuerAnd.PairParses | src/scep/scep_msg.c:1171-1208 | parsing an encoded pair returns its two parts |
| IssuerAnd.SerialRoundTrip | src/scep/scep_msg.c:1081-1230 | a parsed serial request returns the same issuer and the serial without leading zeros |
| IssuerAnd.SubjectRoundTrip | src/scep/scep_msg.c:976-1239 | a parsed subject request returns the same issuer and subject |
| IssuerAnd.ParseIssuerAndIs | src/scep/scep_msg.c:1171-1208 | the parser accepts exactly one SEQUENCE of a Name and an element with the wanted tag, with nothing after either, and yields their contents |
| IssuerAnd.ContentIsPositive | src/scep/scep_msg.c:124-176 | a serial is written as the two's complement INTEGER of its number, never negative and with no octet to spare |
| CsrAttrs.WriteItem | src/est/csr_attrs.c:406-454 | writes as many bytes as were computed for the item |
| CsrAttrs.Build | src/est/csr_attrs.c:456-498 | fills a buffer of the computed size with all items in order, or refuses an invalid one |
| CsrAttrs.PassesAgree | src/est/csr_attrs.c:231-374 | whenever the filling pass succeeds the counting pass counted exactly its items |
| CsrAttrs.Parse | src/est/csr_attrs.c:231-374 | the two passes together return the items the bytes hold, or refuse |
| CsrAttrs.BuiltParses | src/est/csr_attrs.c:231-498 | within 32-bit lengths parsing what was built returns the same items in order |
| CsrAttrs.OversizedDiffers | src/est/csr_attrs.c:420-498 | with a body of 2^32 bytes or more it does not |
| CsrAttrs.RoundTrip | src/est/csr_attrs.c:231-498 | building then parsing is the identity if and only if the body is shorter than 2^32 bytes |
| CsrAttrs.ParsedIs | src/est/csr_attrs.c:231-374 | the parser accepts nothing at all, or a SEQUENCE of OIDs and of pairs of an OID and a SET that is not empty, and yields those items in order |
| IpText.ParseOctet | src/internal.c:116-132 | reads one to three digits as a value up to 255 without a leading zero |
| IpText.ParseIpv4 | src/internal.c:134-153 | fills four bytes and leaves the rest of the buffer |
| IpText.Ipv4TextIs | src/internal.c:116-153 | text is read as four bytes if and only if it is their dotted decimal text |
| Ipv6Parser.HasDottedGroup | src/internal.c:168-178 | says whether a dot comes before the next colon |
| Ipv6Parser.Slide | src/internal.c:243-253 | in place, the buffer becomes the bytes before the gap, zeros, and the bytes after it, none lost |
| Ipv6Parser.ScanGroups | src/internal.c:192-236 | fills the buffer with the bytes of the groups and finds the gap |
| Ipv6Parser.ParseIpv6 | src/internal.c:180-257 | yields the address the text renders, and leaves the output alone otherwise |
| Ipv6Parser.ParseIp | src/internal.c:259-276 | prefers IPv4 text and accepts exactly the two kinds of text |
| Ipv6Text.RenderingReads | src/internal.c:180-257 | every rendering, with at most one compressed run, one to four digits a group in any case, and an optional dotted tail, parses to the address it renders |
| Ipv6Text.ReadIsRendering | src/internal.c:180-257 | nothing else parses |
| Ipv6Text.Ipv6TextIs | src/internal.c:180-257 | text parses to an address if and only if it renders it |
| Ipv6Text.GroupIs | src/internal.c:155-226 | a group is one to four hexadecimal digits, and its two bytes are the number they write |
| Ipv6Text.EightGroups | src/internal.c:180-257 | eight numerals between colons are read as their numbers, high byte first |
| Ipv6Text.GapIsZeros | src/internal.c:180-257 | up to seven numerals around a double colon are read with zeros in its place |
| HttpUrl.TargetStartExtends | src/http.c:146-267 | a query appended by the client does not move the end of scheme, host and port |
| UrlText.UrlReads | src/http.c:146-267 | a URL text is taken apart into its scheme, host and port, with https and the scheme's port as defaults, and its target is what is left |
| UrlText.ReadIsUrl | src/http.c:146-267 | only URL texts are taken: http or https in any case or no scheme at all, a host of at most 256 bytes up to a delimiter or in brackets, and a port from 1 to 65535 |
| UrlText.UrlIs | src/http.c:146-267 | a string is taken, and its target starts at a place, exactly when it is a URL text whose host and port end there |
| UrlText.TargetIs | src/http.c:239-267 | what is sent is the target up to its fragment, with a slash before it when it has none, and nothing over 8192 bytes |
| RequestFields.AuthorityExtends | src/http.c:146-267 | a query appended by the client changes neither scheme, host nor port |
| RequestFields.ReadRequestFields | src/scep/scep_server.c:228-236 | the header loop reads the block line by line as its definition says: name and value, length, coding, and the lines it refuses |
| RequestFields.PlainFields | src/http.c:1332-1403 | the header fields the client sends are accepted by the server for every host without a newline |
| FieldText.HostFieldNames | src/http.c:1332-1403 | the Host field, read back as a URL after the scheme, names the host and port the request goes to, with brackets for IPv6 and no port that is the default |
| FieldText.Ipv6HostIs | src/http.c:124-131 | exactly the texts of IPv6 addresses are bracketed |
| FieldText.LengthField | src/server.c:205-217 | a Content-Length in any case, with any blanks before its digits, is the number they write |
| FieldText.NegativeLength | src/server.c:214-217 | a minus sign before them wraps the number at 64 bits, 0 staying 0 |
| FieldText.CodingField | src/server.c:218-224 | a Transfer-Encoding is taken once, and only as chunked in any case with blanks around it |
| FieldText.OddLines | src/http.c:90-109 | a blank before the colon refuses the line, and a line without a colon says nothing |
| FieldText.LengthIsAccepted | src/scep/scep_server.c:228-262 | a request with a length is accepted exactly when it is at most 1 MiB and as many bytes follow |
| FieldText.ChunkedIsAccepted | src/scep/scep_server.c:228-262 | a chunked request is accepted exactly when a chunked body within 1 MiB follows |
| GetUrl.UrlEncode | src/scep/scep_client.c:198-222 | percent-encodes into a buffer of three bytes per byte |
| GetUrl.EncodedIsPlain | src/scep/scep_client.c:198-222 | encoded text holds unreserved characters and percent signs only |
| GetUrl.EncodeByteIs | src/scep/scep_client.c:198-222 | letters, digits and -._~ are sent as themselves, every other byte as a percent sign and its two upper-case digits |
| GetUrl.UrlDecode | src/scep/scep_server.c:1235-1252 | the decoding loop, refusing a percent sign without two hexadecimal digits inside the value |
| GetUrl.DecodeIs | src/scep/scep_server.c:1235-1252 | a text is decoded exactly when it spells bytes as themselves or as a percent sign and the two digits of their number, in either case, and then to those bytes |
| GetUrl.DecodeEncode | src/scep/scep_client.c:198-222 | decoding undoes encoding for every byte string |
| GetUrl.BuildPkiGetUrl | src/scep/scep_client.c:257-299 | a URL that fits the limit carries the message as its last parameter and is one the HTTP client takes if it takes the base |
| GetTrip.QueryParam | src/scep/scep_server.c:1201-1216 | finds the first parameter of that whole name |
| GetTrip.ParamSplits | src/scep/scep_server.c:1201-1216 | a parameter is found in the text before an ampersand if it is there, and otherwise after it |
| GetTrip.ReadMessage | src/scep/scep_server.c:1219-1308 | the decoded value of the first message parameter when the first operation parameter starts with PKIOperation, and nothing otherwise |
| GetTrip.TargetArrives | src/scep/scep_server.c:150-228 | the server reads the target as sent up to its first blank, and loses a request with a newline in it |
| GetTrip.EveryMessageArrives | src/scep/scep_client.c:257-299 | under a base URL that works, the server decodes exactly the text the client encoded, for every text that fits the URL limit |
| GetTrip.PlainBaseWorks | src/scep/scep_client.c:41-299 | under any URL whose host has no newline or question mark and whose path is slashes and unreserved characters, every text that fits arrives as it was sent |
| GetTrip.NoMessageArrives | src/scep/scep_client.c:41-52 | under any other, all texts that are decoded at all are decoded as one and the same |
| GetTrip.RoundTripIff | src/scep/scep_client.c:41-299 | every text that fits arrives if and only if the base URL parses, its target has no fragment, blank or newline, no own message parameter, no operation but PKIOperation, and its query mark if it has one, and the server accepts the header its host leads to |
| GetTrip.QuestionInHost | src/scep/scep_client.c:41-52 | a base URL with neither fragment nor parameter under which nothing arrives |
| GetTrip.PlainHostWorks | src/scep/scep_client.c:41-52 | a host without a newline leaves only the target to look at |
| GetTrip.HeadFitsServer | src/scep/scep_server.c:166-190 | the whole head of every GET the client sends fits the server's buffer |
| GetTrip.BrokenHostLoses | src/scep/scep_server.c:228-236 | a host with a newline before a blank and a colon loses every text, whatever the target |
| GetTrip.NewlineInHost | src/scep/scep_client.c:41-52 | a base URL with a good target, whose host breaks the header, under which nothing arrives |
| RaSelect.CandidateIssuedCa | src/scep/scep_msg.c:1441-1453 | says whether some subordinate CA of the bundle was issued by the candidate, and that skipping the candidate itself changes nothing |
| RaSelect.KeepLowest | src/scep/scep_msg.c:1502-1509 | keeps exactly the best-ranked candidates, and among CAs those that issued no subordinate |
| RaSelect.KeepSubordinate | src/scep/scep_msg.c:1510-1515 | keeps self-issued CAs only when no subordinate is left |
| RaSelect.PickFirst | src/scep/scep_msg.c:1516-1525 | the first eligible candidate when all eligible ones share its key |
| RaSelect.CountCerts | src/scep/scep_msg.c:1475-1486 | the number of leading certificates, or a refusal past the maximum |
| RaSelect.SelectRaCert | src/scep/scep_msg.c:1455-1538 | each answer holds exactly for its condition on the set of certificates: a recipient when the eligible ones share one key, a conflict when they do not, unsupported when there is none |
| RaSelect.ChoiceIsUnique | src/scep/scep_msg.c:1455-1538 | a set of certificates has one choice |
| RaSelect.CaOnlyAsLastResort | src/scep/scep_msg.c:1402-1439 | a CA can receive only when every other RSA certificate has a keyUsage without keyEncipherment and dataEncipherment |
| RaSelect.RankPrefers | src/scep/scep_msg.c:1400-1439 | the ranks order certificates by use: keyEncipherment without, then with digitalSignature, then no keyUsage, then dataEncipherment, then a CA, each only when nothing better is there |
| RaSelect.LeafIsFit | src/scep/scep_msg.c:1400-1439 | a non-CA that can receive is RSA and may encipher, has keyEncipherment if any has it, no digitalSignature if one with keyEncipherment has none, and failing those no keyUsage if any has none |
| RaSelect.CaIsLowest | src/scep/scep_msg.c:1441-1515 | a CA that can receive issued no subordinate CA of the set, and is a root only when every subordinate CA issued another |
| RaSelect.RecipientIsFit | src/scep/scep_msg.c:1455-1538 | against every other certificate of the bundle, the recipient is an RSA key, no CA when another is usable, and prefers keyEncipherment and then no digitalSignature |
| RaSelect.OrderIsIrrelevant | src/scep/scep_msg.c:1455-1538 | permuting the certificates of a bundle keeps the kind of answer and the chosen key |
| RaSelect.SplitJoin | src/scep/scep_msg.c:1475-1500 | a bundle splits into the certificates it was joined from |
| RaSelect.CertIs | src/scep/scep_msg.c:1305-1315 | what is measured as a certificate is exactly one SEQUENCE |
| RaSelect.VerifyRepSigner | src/scep/scep_msg.c:1337-1384 | a signer is accepted exactly when its key is that of a certificate of the bundle |
| PinnedBundle.ServedIs | cli/wolfcert_client.c:1059-1072 | whole certificates that the length reader takes are served one by one, up to what it takes no more |
| PinnedBundle.RaPinned | cli/wolfcert_client.c:1021-1036 | says whether an RA pin names the certificate, and marks exactly the pins that do |
| PinnedBundle.Mark | cli/wolfcert_client.c:1092-1120 | succeeds exactly when every other named certificate is signed by the pinned one and every pin named some certificate |
| PinnedBundle.Assemble | cli/wolfcert_client.c:1122-1140 | the pinned certificate and then the other kept ones in served order fill a buffer of exactly their size |
| PinnedBundle.CaSetFromDer | cli/wolfcert_client.c:1040-1155 | the answer and the kept bundle are exactly those of the declarative narrowing |
| PinnedBundle.TrustedSplits | cli/wolfcert_client.c:1122-1140 | the kept bundle splits again into the certificates it was put together from |
| PinnedBundle.RecipientIsTrusted | cli/wolfcert_client.c:1158-1181 | every certificate of the kept bundle is trusted, and all but the first are named by an RA pin |
| PinnedBundle.ResolveCa | cli/wolfcert_client.c:1219-1233 | whoever receives a request was served, is the pinned CA or an RA pinned and signed by it, and is named by an RA pin once any is given; every other answer holds for its stated reason |
| CaStore.Store.Read | wolfcert/store.h:34-36 | reads a slot, and answers "not found" only for an absent one |
| CaStore.Store.Write | wolfcert/store.h:37-40 | a write that succeeds replaced the slot; one that fails replaced it or left it |
| CaStore.Store.Remove | wolfcert/store.h:41-42 | a removal that fails may have happened |
| CaStore.Load | src/ca_issue.c:251-327 | the answer is the first read fault, or else fixed by the contents: success means the store holds exactly the loaded usable pair, "not found" means it is empty, and nothing is written |
| CaStore.Save | src/ca_issue.c:329-350 | the answer is the first write fault; success stores the pair, and after a lost key write the certificate is taken back when the store can |
| CaStore.SetUpCa | src/server.c:492-520 | a start that finds either half never writes, one that gets past this point runs exactly the stored CA, and the answer is fixed by the faults met, the contents and what was minted |
| CaStore.NeverReplaced | src/server.c:492-520 | once a slot is filled no later start changes the store |
| CaStore.OneCa | src/server.c:492-520 | in any run of starts with any failures, all that succeed run the same CA |
| CaStore.HalfStaysHalf | src/server.c:492-520 | a store with one half of a pair stays as it is and every start on it fails |
| CaStore.Starts | src/server.c:492-520 | any sequence of starts on one store is such a run |

## Left out

- TLS, PKCS#7, certificate and key handling, hashing, signing and base64: foreign functions or outcome records in the model.
- Header text parsing inside the response head: a function of the header bytes that gives status, framing, length, content type and Retry-After text.
- Sockets, deadlines, the accept loop and request dispatch of the servers, and the receive loop of a request body with a length.
- Heap hints, secret wiping, error strings, logging, test fault injection and command-line option parsing.
- Allocation failure, except for the session's receive buffer and its copy of a header block, in the SCEP server, where it is part of each message's `Luck`, and where a request cannot be built. A header value that cannot be copied for lack of memory reads as absent in the source; that is left out.
- The receive buffer's reallocation and the static-memory build of it: capacity is modelled, the copy is not.
- HTTP session: a handshake that fails reports one code; `set_close` and session teardown are not modelled.
- Dates: a build without date support ignores dated Retry-After values; the clock is a mathematical integer, so the overflow of a C `int` year for clocks beyond the year 2147483647 is not modelled.
- GET transport: the server's receive calls, its reuse of a connection after the request, `GetCACaps` and the other operations' URLs, Basic authentication, and base64 itself.
- CSR attributes: classification of items and applying them to a request.
- SCEP server: the poll counter kept for tests, the capability and CA certificate answers, and the content of CertRep messages.
- Recipient selection: memory failure while parsing a certificate.
- CA store: generation of a CA is a parameter of each start, and the steps of a server start after the CA is set up are not modelled; a server without a store always mints its own.
- Command-line client: the notes it prints about certificates it ignores.
