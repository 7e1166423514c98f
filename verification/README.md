# hottpd in Dafny

hottpd is a single-threaded HTTP server. This project models its cores and proves what
they keep over every run: the connection engine with its request parser, output queue
and file cursor; the URI canonicaliser; the glob matcher; the configuration parser; the
stat cache and the path walk; the connection lifecycle; and the utility structures
(growable bit allocator, tokenizer, port-range expander, timer queue, CIDR comparison,
duration evaluator). Code that changes state is a class or a method with loops, proved
against a function of its inputs or of its old state; the promises of the source are
then lemmas about these functions and invariants that every method keeps.

`dafny verify dfyconfig.toml` checks everything.

## Reading guide

| file | what it holds |
|---|---|
| Text.dfy | `find`, `rfind`, case folding, decimal numbers |
| Bits.dfy | bytes as sets of bits |
| Headers.dfy, Requests.dfy | the header map; cutting a stream at blank lines; the head of a request |
| Exchanges.dfy | what one request is answered with; the log of a connection; what a client reads off its bytes |
| Connections.dfy | the five-state connection, as a class with ghost input, wire, blocks and log |
| Protocol.dfy | every status, keepalive and field that a client reads, in terms of the text of its request and of the walk along its path |
| Runs.dfy | what the invariant of a connection says about whole runs, and that write events bring all responses to the client |
| Samples.dfy, Departures.dfy | single requests, and runs in which the connection departs from its promises |
| Uri.dfy, DotSegments.dfy | the canonicaliser, its specification, and RFC 3986 section 5.2.4 as a second one |
| FileSystem.dfy, DocumentRoot.dfy | the stat caches and the path walk; which requests are served from inside the document root |
| Wildcard.dfy, ConfigFile.dfy | the glob matcher; the configuration automaton and a printer for it |
| Bitmask.dfy, Tokens.dfy, Ports.dfy, Timers.dfy, Duration.dfy, Cidr.dfy | the utility structures |
| Lifecycle.dfy | accepting, deleting, timing out and culling connections |

**The engine.** A `Connection` keeps, besides the fields of the source, the ghost fields
`input` (all bytes handed to it), `fed` (those that entered `requestbuf`), `blocks` (the
request heads taken so far), `log` (one exchange for every response head written), `wire`
(bytes the socket took), `pending` (body bytes not yet queued or sent), and `dropped` and
`ended` (a client that hung up or sent too much, and the closing by EndRequest). `socket` is
a function that gives the answers to all its sends, and every statement is for all such
functions. `Valid()` says that `wire + sendq + pending` is the concatenation of the responses
in the log, that every response is the one its request and the file system call for, and,
state by state, what is left to do. Events come in any order, chunks have any size, and every
send takes any part of what it is given. What it takes is on the wire: `Asked` says so of every
write event, and `Settled` of every error page. The engine's mutual recursion (CheckRequest,
SendError, FlushWriteBuf, EndRequest, CheckRequest) ends because every block that is taken
shortens `requestbuf`.

**Where the code departs from what it promises, or from a standard.** Each of these is kept
as the code has it, with the exact condition under which the promise holds, stated by the
member in parentheses; DocumentRoot.dfy and Departures.dfy hold inputs and runs that fail:

- `unhexchar` accepts pairs that are not hexadecimal (`Uri.UnhexcharRejectsIff`), and an encoded
  byte that is not printable ASCII vanishes (`Uri.DecodeUndoesEscapeIff`).
- A second pass of the canonicaliser changes a path that still holds a `%`, `?` or `#`
  (`Uri.CanonicalIdempotentIff`, with the input `Uri.SecondPassDiffers`); an empty segment is collapsed, which RFC 3986 does not
  do (`DotSegments.CanonicalIsRemoveDotSegmentsIff`).
- The URI of a request with a body is not canonicalised, and one without a leading slash is
  appended to the document root as it stands. The path of a file that is sent may then lead out
  of the root, exactly if the slash is missing or some ".." steps above the root
  (`DocumentRoot.FoundIsInsideIff`, `DocumentRoot.AsksInsideIff`).
- A header value starts two characters behind the name and runs to the end of the line, so that
  it is the one of RFC 2616 section 4.2 only when exactly one blank follows the colon and none
  ends the line (`Requests.FieldValueIff`).
- A read is cut at a NUL, so that the input depends on the chunks (`Runs.HeardIsDeliveredIff`).
- A chunk that reaches beyond a request body enters the request buffer as a whole, against
  the comment above that code (`Connections.Connection.ReceiveBody`).
- EndRequest closes a connection without keepalive at once; if the last response is an
  empty file, its head is still in the queue (`Runs.OrderlyClose`).
- A fatal SendError switches keepalive off only after the response has been flushed, so the
  response itself may announce Keep-Alive, and it need not be the last one, against the
  comment at src/request.cpp:158: it is the last exactly if keepalive was off already or the
  socket does not take all that is unsent at once (`Connections.Connection.SendError`, with the
  run `Departures.FatalIsNotTheEnd`); `Exchanges.ConnectionFieldDecided` says what clients see.
- Behind an empty token the tokenizer skips a character when it looks for the next separator
  (`Tokens.SepStream.GetToken`, with the input `Tokens.EmptyTokenCosts`).
- With tracking on, the port parser may lose ports of a list that repeats one: a range whose first
  port was seen is skipped, and behind one whose last port was seen a further number counts as
  seen (`Ports.Drain`, `Ports.EveryPortIff`, with the input `Ports.RepeatLosesAPort`). It may then
  also return numbers that are not in the list, but only where a pair of the list is no range
  (`Ports.NothingInvented`, with the input `Ports.PairInventsAPort`).

## Model

| member | source | states |
|---|---|---|
| Runs.Run | src/connections.cpp:197-218 | After any sequence of events with any chunks and partial sends: the input is what the events up to the giving up of the connection delivered; it is given up only where the client hangs up, too much is buffered, a send fails for good or EndRequest closes it; the requests taken are those of the input, and each logged response is the one its request calls for; sent, queued and pending bytes add up to the responses; a client reads a prefix of the messages; at most max(1, KeepAliveMax) files; and whatever is unsent has a write event asked for |
| Runs.HeardIsDeliveredIff | src/buffer.cpp:38-48 | The input is the byte stream that was sent if and only if no read holds a NUL |
| Runs.NulMakesChunkingMatter | src/buffer.cpp:40-48 | With a NUL in it the same stream reads differently in one chunk and in two |
| Runs.ConservedOutput | src/buffer.cpp:145-194 | The bytes on the wire are a prefix of the responses in request order, the rest is the queue and the unsent part of the file, and the file is only sent while the queue is empty |
| Runs.ClientSeesResponses | src/request.cpp:378-431 | A client that frames by Content-Length reads a prefix of the sent messages, and all of them once queue and file are drained |
| Runs.TakenInOrder | src/request.cpp:19-108 | The blocks taken, up to the first request with a body, are a prefix of cutting the input at each first blank line |
| Runs.BlocksOfStream | src/buffer.cpp:115-127 | Without bodies every block taken is the next one of the stream, and none is left whenever the connection waits for a request |
| Runs.ChunkingIsIrrelevant | src/buffer.cpp:77-137 | Two connections with the same input, however it was chunked and interleaved with writes, have taken the same requests up to how far they have come |
| Runs.FileLimit | src/request.cpp:119-130 | A connection gets at most max(1, KeepAliveMax) file responses |
| Runs.OrderlyClose | src/request.cpp:433-445 | Where no send failed and the client did not hang up, a connection is only closed behind a response announcing Close or behind a fatal error; everything has been sent by then if and only if the last response has a body |
| Runs.WriteMoves | src/buffer.cpp:145-194 | A write event that has something to offer takes a further request from the buffer, answers the one that was taken, brings a byte to the wire, or has asked a socket that takes none |
| Runs.Deliver | src/connections.cpp:204-213 | Over a socket that takes a byte again and again, the write events that are asked for end with every response on the wire and read by the client; where the requests have no bodies, every complete one has been answered; otherwise the connection was closed by EndRequest or a send failed for good |
| Runs.RunAndDeliver | src/connections.cpp:197-218 | Behind any events on such a socket the client of an open connection reads exactly the messages that answer the requests of the stream, in their order |
| Departures.EmptyFileMayAnswer | src/request.cpp:308-375 | An empty file is one of the answers to "GET /e" with "Connection: close" |
| Departures.EmptyFileIsLost | src/request.cpp:426-445 | A run on that request: if it is answered by an empty file and no send fails, EndRequest closes the connection with the response head still in the queue |
| Departures.FatalIsNotTheEnd | src/connections.cpp:63-84 | A run: the connection stays open behind the response to a fatal error if and only if the socket takes the whole response at once; then the next request that asks for keepalive gets it |
| Departures.BodyByteIsBufferedTwice | src/buffer.cpp:95-102 | A run: one missing body byte and the start of the next request in one chunk leave both in the request buffer |
| Connections.Connection.constructor | src/connections.cpp:19-32 | A new connection is idle and valid, with keepalive on and nothing read or sent |
| Connections.Connection.CheckRequest | src/request.cpp:19-201 | With no blank line before newpos: without a complete block nothing happens; otherwise the first one is taken and either waits for its body or is answered by the response it calls for, and an error page is on the wire exactly if the socket takes all that is unsent; the connection is not given up without cause; ends because the buffer shrinks |
| Connections.Connection.ReadRequestLine | src/request.cpp:48-90 | Method, URI, version and error code are those of the line, and keepalive is dropped only for a first HTTP/1.0 request |
| Connections.Connection.ReadField | src/request.cpp:96-104 | A header line either is read as its field, which is set, or is refused |
| Connections.Connection.ReadHead | src/request.cpp:40-114 | The loop over the raw buffer reads exactly the block up to reqend+4, however much follows, and gives its meaning or its error code |
| Connections.Connection.TakeHead | src/request.cpp:28-108 | One block leaves the buffer and joins the blocks of the stream |
| Connections.Connection.AnswerHead | src/request.cpp:48-201 | A head that does not parse is answered by 400 or 505, any other waits for its body or gets the response it calls for |
| Connections.Connection.ReadLength | src/request.cpp:132-137 | The announced length is that of the request that was taken, and it is too large exactly if the request is to be answered by 413 |
| Connections.Connection.UpdateKeepalive | src/request.cpp:119-130 | keepalive takes the value that request, version and limit decide, unless a fatal error has switched it off before and the request does not ask for it |
| Connections.Connection.Weigh | src/request.cpp:116-137 | Method, keepalive, length and its verdict are those that the head calls for |
| Connections.Connection.ServeRequest | src/request.cpp:116-166 | A well-formed head waits for its body if it is to, and otherwise the next entry of the log is its response, with the status it calls for; behind an error keepalive is off, and the response is the last one exactly if keepalive was off before or the socket did not take all of it |
| Connections.Connection.Refuse | src/request.cpp:137-197 | A fatal error is logged with the status that the head calls for, and keepalive is off |
| Connections.Connection.AwaitBody | src/request.cpp:152-166 | The connection waits for exactly the announced number of body bytes |
| Connections.Connection.ServeTarget | src/request.cpp:168-200 | Other methods than GET and POST are answered by 501; the others get the canonical path served, with the status of the file answer |
| Connections.Connection.ServeData | src/request.cpp:308-335 | The response to a path that is not found is logged with 403, 404 or 500 as its errno says, and otherwise the one of the file |
| Connections.Connection.OpenAndSend | src/request.cpp:337-375 | The response to a file that cannot be opened is logged with 403, 404 or 500, to any other with its own bytes |
| Connections.Connection.StartFile | src/request.cpp:369-375 | A response with 200 and the bytes of the file is logged; unless it is empty, the cursor stands at the first byte of the file whose length is announced |
| Connections.Connection.SendError | src/connections.cpp:63-84 | The error page is logged with its status as the next response, and it is on the wire if and only if the socket takes all that is unsent at once; behind a fatal one keepalive is off, and it is the last response of the connection if and only if keepalive was off already or the socket did not take all |
| Connections.Connection.QueuePage | src/connections.cpp:72-74 | The page moves behind its head into the queue and completes the response |
| Connections.Connection.QueueError | src/connections.cpp:63-74 | Head and page of an error are queued as the next response, and nothing is sent yet |
| Connections.Connection.FlushPage | src/connections.cpp:76-83 | A page is on the wire exactly if the socket takes all of the queue; a fatal one then leaves the connection going on exactly if keepalive was on |
| Connections.Connection.FillHeaders | src/request.cpp:389-421 | The fields are exactly Date, Server, Content-Length, Connection and, for a body, Content-Type; they describe the body and the keepalive that is in force |
| Connections.Connection.WriteStatusLine | src/request.cpp:382-387 | The status line carries the version of the request and the phrase of the code |
| Connections.Connection.WriteHead | src/request.cpp:382-424 | The queue grows by the status line, one line for each of the fields that describe the body, and a blank line; keepalive is as before |
| Connections.Connection.QueueHead | src/request.cpp:380-424 | What is appended to the queue is the head of a response that is logged as the answer to the block taken last |
| Connections.Connection.SendHeaders | src/request.cpp:378-431 | A head with a body leaves the body pending; an empty one ends the request |
| Connections.Connection.EndRequest | src/request.cpp:433-474 | Without keepalive the connection is closed and nothing else happens; with it the connection is idle if no complete request is buffered, and otherwise takes the next one |
| Connections.Connection.Close | src/request.cpp:439-445 | The connection is finished, and what was still queued is recorded |
| Connections.Connection.TakeNext | src/request.cpp:447-473 | Everything about the last request is cleared, and the first buffered one is taken and answered |
| Connections.Connection.SendFromFile | src/request.cpp:486 | What the socket takes of the rest of the file moves to the wire, and the cursor with it |
| Connections.Connection.SendStaticData | src/request.cpp:476-502 | What the socket takes of the file is on the wire; behind a part of it the rest stays pending, a write event is asked for and nothing else happens; behind all of it the request ends, so that without keepalive the connection is closed; a failure for good gives it up; the check for a missing file never fires |
| Connections.ServeFile | src/backend_write.cpp:9-33 | The cursor moves by what the socket has room for, not at all where it asks to wait or fails, and never beyond the file |
| Connections.Connection.SendQueued | src/buffer.cpp:149-176 | What the socket took moves from the front of the queue to the wire; what remains has a write event asked for |
| Connections.Connection.FlushQueue | src/buffer.cpp:149-176 | The queue loses exactly what the socket took, or the connection is given up at a failure for good; an emptied queue leaves the state that GoOn expects |
| Connections.Connection.FlushWriteBuf | src/buffer.cpp:145-194 | What the socket takes of a queue is on the wire; if that is only a part, the rest stays queued and nothing else happens; behind an emptied queue a page ends its request and a file is offered; behind the last response nothing is taken any more |
| Connections.Connection.GoOn | src/buffer.cpp:179-193 | With the queue empty a page ends its request, and a file behind its head is offered to the socket |
| Connections.Connection.ReceiveBody | src/buffer.cpp:87-104 | The body takes what it still needs, in order; the request buffer gets only what the body does not need, as the comment promises, if and only if the chunk does not reach beyond the body |
| Connections.Connection.AddBuffer | src/buffer.cpp:77-137 | The chunk joins the input; a waiting connection takes and answers the first complete request; the connection is not given up without cause; the answer is whether at most 5120 bytes are buffered |
| Connections.Connection.BufferRequest | src/buffer.cpp:115-127 | The chunk is appended, and a waiting connection takes and answers the first complete request |
| Connections.Connection.ReadData | src/buffer.cpp:19-75 | What was read up to a NUL is taken in; end of stream, errors and more than 5120 buffered bytes finish the connection, and nothing else but a close or a failed send; EAGAIN changes nothing |
| Connections.Connection.HandleWrite | src/connections.cpp:208-213 | The queue, or else the file, is offered to the socket, what it takes is on the wire, and what remains has a write event asked for again |
| Connections.Connection.HandleEvent | src/connections.cpp:197-218 | Every event keeps the invariant, adds what it delivers to the input, takes nothing back, gives the connection up only for the listed causes, and takes and answers nothing behind the last response; at a write event what the socket takes of the next bytes is on the wire; no unsent byte is left without a write event |
| Connections.TakeBlock | src/request.cpp:28-108 | Erasing up to the first blank line continues the cutting of the stream |
| Connections.MoreInput | src/buffer.cpp:115-127 | Appending to the buffer keeps the blocks a prefix of the cutting of the longer stream |
| Connections.AllTaken | src/request.cpp:28-38 | With no blank line buffered every block of a stream without bodies has been taken |
| Connections.IncrementalSearch | src/request.cpp:21-28 | Searching from three bytes before the new data finds what a search from the start finds |
| Connections.NoTerminatorInFront | src/buffer.cpp:121-126 | A waiting buffer without blank line has none in front of the new data either |
| Connections.BlockLine | src/request.cpp:40-44 | The next line end in the whole buffer is the one of the block, so the header loop never reads behind it |
| Connections.StandardHeaders | src/request.cpp:389-396 | Setting date, server and length on the core's headers gives exactly these fields |
| Exchanges.ClientReadsMessages | src/request.cpp:378-431 | From any prefix of the output a client framing by Content-Length reads a prefix of the statuses, heads and bodies in order, and from all of it all of them |
| Exchanges.HeadParses | include/connections.h:98-106 | A formatted response head has its only blank line at its end and is read back to its own fields |
| Exchanges.HeadStatusIs | src/request.cpp:382-387 | Read word by word, the first line of every response gives the text of the version of the request, the code and its phrase |
| Exchanges.Reasons | src/request.cpp:308-375 | The phrases of the statuses, which the client reads |
| Exchanges.FramedHead | src/request.cpp:396-421 | The head of every response announces the length of its body and its keepalive |
| Exchanges.ConnectionFieldDecided | src/request.cpp:119-130 | The Connection field that the client sees says exactly what request, version and limit decide; behind a fatal error this still holds where they decide to close, and where a request without body asks for keepalive itself |
| Exchanges.CloseIsLast | src/request.cpp:439-445 | Behind a response that announces Close there is no other (RFC 2616 section 8.1.2.1) |
| Exchanges.FileResponsesBounded | src/request.cpp:119-130 | However Connection headers are set and broken requests mixed in, at most max(1, KeepAliveMax) responses are files |
| Exchanges.LogExtends | src/request.cpp:378-431 | A justified exchange behind a kept connection continues a well-formed log |
| Protocol.StatusOfHead | src/request.cpp:66-200 | Every response that is no answer of the file system is the error of its head: 400 or 505, 413 above the limit, 500 with Transfer-Encoding or with a body of another method than POST, and 501 for other methods than GET and POST; for all others the path asked for is the canonical one, or the URI as sent where there is a body |
| Protocol.StatusOfAnswer | src/request.cpp:316-375 | Where a path is not found the status is 403 for EACCES, 404 for ENOENT, ELOOP, ENAMETOOLONG and ENOTDIR, and otherwise 500; where a file does not open it is 403 for EACCES, 404 for ENOENT and ENOTDIR, and otherwise 500; where it opens, 200; an error of the head has none of 200, 403 and 404 |
| Protocol.StatusOfWalk | src/request.cpp:314-375 | What the walk along the path finds decides between 200, 403, 404 and 500, up to the errno of open |
| Protocol.BodyOfEntry | src/connections.cpp:63-74 | The body is the file, or the page with the phrase of the status |
| Protocol.ConnectionFieldMeans | src/request.cpp:119-130 | A request that parses reads "Close" if it asks for it or reaches the limit, and otherwise "Keep-Alive" if it asks for that, whatever its version and place; any other reads "Close" exactly if it is a first one of HTTP/1.0; only behind a fatal error may it be otherwise |
| Protocol.FieldsOfEntry | src/request.cpp:389-421 | The client reads Date, the server, the length of the body, and exactly for a body its type |
| Protocol.TypeOf | src/request.cpp:398-412 | The characters behind the last dot give image/jpeg, image/gif, text/html or application/x-octet-stream |
| Protocol.WantsBodyIff | src/request.cpp:132-166 | A body is awaited exactly for a POST that announces one within the limit and has no Transfer-Encoding |
| Protocol.RequestLineMeans | src/request.cpp:46-90 | For every line: 400 exactly for fewer than three words, otherwise 505 exactly for another version than HTTP/1.0 and HTTP/1.1 in any case |
| Protocol.FieldRefusedIff | src/request.cpp:94-101 | A header line is refused exactly if its first colon is missing, first or last |
| Protocol.HeadCode | src/request.cpp:40-114 | The code of a head is that of its first line, or 400 where a header line is refused |
| Protocol.RequestSample | src/request.cpp:40-114 | "GET /e HTTP/1.1" and "GET /e HTTP/1.0" with a blank line behind them, letter by letter |
| Protocol.StatusLineSample | src/request.cpp:382-387 | "HTTP/1.1 200 OK" and "HTTP/1.0 404 File Not Found", letter by letter |
| Protocol.LetterCases | src/request.cpp:61-117 | tolower and toupper exchange the letters of the alphabet and nothing else |
| Requests.RequestRoundTrip | src/request.cpp:28-106 | A request line with formatted headers and a blank line is one block, and is read back as the same request with the same case-insensitive map |
| Requests.PipelineRoundTrip | src/request.cpp:19-108 | Printed requests that follow one another are cut apart again, each is read back, and the rest is cut as if it stood alone |
| Requests.HeadIsBlock | src/request.cpp:28 | A line, formatted fields and a blank line are one block, whatever printable fields they are and even without any |
| Requests.TerminatorIsLast | include/connections.h:98-106 | Formatted fields hold no blank line before the closing one |
| Requests.FormattedFieldsParse | src/request.cpp:92-105 | Reading formatted fields inserts all of them in order |
| Requests.FieldLineParses | src/request.cpp:94-104 | A formatted field is read back from its line |
| Requests.FieldLineReads | include/connections.h:98-106 | A reader that follows RFC 2616 section 4.2 finds the name and the value of a formatted field |
| Requests.FieldValueIff | src/request.cpp:96-104 | The value read is the one of RFC 2616 section 4.2 exactly when one blank and no more follows the colon and a value that is not empty does not end in a blank |
| Requests.FieldValueLosesACharacter | src/request.cpp:104 | Without a blank the first character of the value is dropped |
| Requests.FieldValueKeepsABlank | src/request.cpp:104 | A blank at the end of the line stays in the value |
| Requests.SplitUnique | src/request.cpp:28-38 | Blocks followed by anything without a complete block are cut into just these blocks |
| Requests.SplitSound | src/request.cpp:28-38 | A stream is its blocks followed by a rest without a complete one |
| Requests.SplitMonotone | src/buffer.cpp:121-126 | More input only adds blocks at the end |
| Headers.LastSetWins | include/connections.h:46-49 | After any sequence of SetHeader calls GetHeader gives the value set last under any spelling of the name, and IsSet whether there is one |
| Headers.HTTPHeaders.GetFormattedHeaders | include/connections.h:98-106 | One line for every field of the map, each once, in the ascending order of the lower-case names |
| Headers.LeastExists | include/hashcomp.h:33-44 | Among any keys one is least in the case-insensitive order |
| Uri.HandleURI | src/request.cpp:204-306 | The one-pass rewriting equals decoding, splitting at slashes and folding a stack of segments; the query is what follows the first bare question mark |
| Uri.ClosePart | src/request.cpp:257-274 | Finishing a path part pushes it, ignores it or pops the enclosing directory, on the path as on the stack |
| Uri.ParentDirectory | src/request.cpp:262-268 | Cutting at the last slash but one, in size_t arithmetic, is popping the stack, and nothing at the root |
| Uri.CanonicalIsClean | src/request.cpp:204-306 | The result starts with exactly one slash and has no empty, "." or ".." segment, escaped or not |
| Uri.CanonicalIdempotentIff | src/request.cpp:204-306 | A second pass changes nothing if and only if the result holds no percent sign, question mark or hash |
| Uri.SecondPassDiffers | src/request.cpp:204-306 | "/%25" becomes "/%", and that becomes "/" |
| Uri.PathAndQuery | src/request.cpp:204-306 | Whatever of a path is escaped in whatever spelling, what is behind a question mark is the query, and what is behind a hash is dropped |
| Uri.DecodeBehind | src/request.cpp:216-250 | Decoding an escaped byte string in front of any text drops the encoded bytes outside printable ASCII, gives back the others, and goes on with the text |
| Uri.DecodeSkips | src/request.cpp:226-233 | An escape that is refused is passed over |
| Uri.DecodeEnds | src/request.cpp:212-224 | A question mark starts the query; a hash, a NUL and an escape that is cut short end the URI |
| Uri.CanonicalNoLonger | src/request.cpp:213-306 | The result is no longer than a slash and the decoded path |
| Uri.CanonicalHasNoNul | src/request.cpp:220-250 | No NUL gets into the path |
| Uri.DecodeEscape | src/request.cpp:216-250 | Decoding a byte string that was escaped, with digits in either case, drops exactly the encoded bytes outside printable ASCII |
| Uri.DecodeUndoesEscapeIff | src/request.cpp:226-238 | Decoding undoes percent-encoding (RFC 3986 section 2.1) if and only if every encoded byte is printable ASCII |
| Uri.EncodedBytesVanish | src/request.cpp:226-238 | "%C3%A9" decodes to nothing, since char is signed |
| Uri.EscapingIsIrrelevant | src/request.cpp:204-306 | For every byte string the path addressed depends on the escapes only in that encoded bytes outside printable ASCII are lost; escaping more or fewer printable characters, dots and slashes included, addresses the same path |
| Uri.UnhexcharRejectsIff | src/hashcomp.cpp:97-110 | Failure for invalid characters, promised in include/hashcomp.h:53-59, is kept for a pair exactly when no character of an accepted pair falls into a gap of the table |
| Uri.UnhexcharReads | src/hashcomp.cpp:97-110 | Any two hexadecimal digits, each in either case, give 16 times the first and the second, as a signed char |
| Uri.GapsCountMinusOne | src/hashcomp.cpp:99-108 | A character in a gap of the table counts as -1 |
| Uri.EscapedSlash | src/request.cpp:226-250 | "%2F" and "%2f" are both a slash |
| Uri.UnhexcharAcceptsAGap | src/hashcomp.cpp:97-110 | "3:" is not hexadecimal and decodes to a slash |
| DotSegments.CanonicalIsRemoveDotSegmentsIff | src/request.cpp:204-306 | The result is the one of RFC 3986 section 5.2.4 if and only if behind every inner empty segment the path leads back to the root |
| DotSegments.RemovalIsFold | src/request.cpp:253-280 | The algorithm of the RFC is a fold over the segments that keeps the inner empty ones, for every path |
| DotSegments.StacksAgreeIff | src/request.cpp:257-274 | The server's stack is never deeper than the one of the RFC, and the same exactly when no empty segment still counts |
| DotSegments.EmptySegmentsDiffer | src/request.cpp:257-274 | With an empty segment it is not |
| DocumentRoot.ServedInsideRoot | src/request.cpp:152-375 | In every log, the path of a file that was sent leads into the root and, lexically, never out of it, if the URI of its request starts with a slash and, where it has a body, no ".." in it steps above the root; without a body the file is reached through ordinary names only |
| DocumentRoot.FoundIsInsideIff | src/filesystem.cpp:23-79 | Whatever is found for a path stays inside the root, on every disk, if and only if the path starts with a slash and no ".." in it steps above the root |
| DocumentRoot.AsksInsideIff | src/request.cpp:152-207 | A request asks for such a path exactly when its URI starts with a slash and, if it has a body, no ".." in it as it was sent steps above the root |
| DocumentRoot.EmptySegmentStaysInside | src/request.cpp:152-166 | "/a//b" stays inside as it was sent, although it is not in canonical form |
| DocumentRoot.EverythingFound | src/filesystem.cpp:44-78 | For every path there is a disk on which the walk finds just that path |
| DocumentRoot.RawUriLeavesTheRoot | src/request.cpp:152-166 | A POST with a body and the URI "/../x" may be answered by the file of that path |
| DocumentRoot.SlashlessUriLeavesTheRoot | src/request.cpp:207-208 | A URI without a leading slash may be answered by a file beside the root |
| FileSystem.FileSystem.Stat | src/filesystem.cpp:81-142 | The result is what the disk reported at some time not later than now: for a success less than the cache duration ago, for a failure within the same second, and now if caching is off; the two caches never mix |
| FileSystem.FileSystem.CheckFilePath | src/filesystem.cpp:23-79 | The loop is the walk over observations that are each fresh, covers every prefix the walk asks for, and fst is the observation of the returned path; it is the lookup that the engine is answered by |
| FileSystem.WalkDecides | src/filesystem.cpp:44-78 | The walk succeeds exactly when the first prefix that is not a directory, or else the full path, is a regular file; otherwise it gives that errno or EACCES |
| FileSystem.DecidedOnce | src/filesystem.cpp:44-78 | There is one place where the walk is decided |
| FileSystem.FoundIsRegular | src/filesystem.cpp:23-79 | A returned path is a regular file and a prefix cut at a slash, with directories above |
| FileSystem.WalkAgrees | src/filesystem.cpp:44-78 | The walk depends on nothing but the prefixes it asks for |
| FileSystem.SlashBehindBase | src/filesystem.cpp:23-32 | A slash at the end of the document root makes no difference |
| FileSystem.UnchangingDisk | src/filesystem.cpp:23-142 | On a disk that does not change the cache is not noticed |
| Wildcard.Match | src/wildcard.cpp:32-149 | The loop answers true exactly for the strings in the language of the mask, case-sensitive or not, and ends |
| Wildcard.MatchLiteralFront | src/wildcard.cpp:38-46 | Up to the first star the text fits character by character or does not match |
| Wildcard.LastStarSuffices | src/wildcard.cpp:48-71 | Once the text since the previous star has matched, no earlier choice can do better than the next star's |
| Wildcard.MismatchAdvances | src/wildcard.cpp:65-69 | A mismatch rules out exactly the current start |
| Wildcard.CaselessIsLower | src/wildcard.cpp:81-128 | match is csmatch on lower-case strings |
| ConfigFile.LoadConf | src/configreader.cpp:680-892 | The loop over lines and characters computes the run of a character automaton, errors and line numbers included |
| ConfigFile.ReadLine | src/configreader.cpp:703-843 | Reading one line by index is the run of the automaton up to the line end |
| ConfigFile.LoadUndoesPrint | src/configreader.cpp:699-891 | Any printed list of valid sections is loaded as the same list, in every layout: blanks and comments of all kinds around words and signs, braces and signs on lines of their own, values in quotes, with newlines in them, or as words, comments behind them, and with or without a newline at the end |
| ConfigFile.LoadsLikeTheExample | docs/hottpd.conf.example:19-23 | The layout of the example configuration, letter by letter |
| ConfigFile.FaultsAtTop | src/configreader.cpp:739-815 | Behind valid sections a sign fails with the fault of its own and the number of its line |
| ConfigFile.FaultsInSection | src/configreader.cpp:739-800 | In a section another one, or a quote without a key, fails with its line |
| ConfigFile.FaultsBehindKey | src/configreader.cpp:739-815 | Behind a key without an equals sign a brace or a quote fails with its line |
| ConfigFile.SecondWordIsAFault | src/configreader.cpp:822-838 | Two words in a row fail with their line |
| ConfigFile.FaultsBehindEquals | src/configreader.cpp:765-865 | Behind an equals sign the end of the line, a brace or another equals sign fails with its line |
| ConfigFile.FaultsBehindValue | src/configreader.cpp:739-815 | Behind a value a quote, a brace or an equals sign fails with its line |
| ConfigFile.OpenSectionAtEnd | src/configreader.cpp:885-889 | A section that is open at the end of the file is a fault |
| ConfigFile.WordAtEnd | src/configreader.cpp:879-883 | So is a word that is left over |
| ConfigFile.OpenCommentAtEnd | src/configreader.cpp:867-871 | So is an open comment |
| ConfigFile.OpenQuoteAtEnd | src/configreader.cpp:873-877 | So is an open quote |
| ConfigFile.LoadedIsValid | src/configreader.cpp:699-891 | On success every stored name, key and value is non-empty and well-formed |
| ConfigFile.FinishIsOk | src/configreader.cpp:867-891 | On success no collected item is left behind |
| ConfigFile.LoadableIffValid | src/configreader.cpp:680-892 | A configuration can be loaded from some file if and only if it is valid |
| ConfigFile.ReloadIsStable | src/configreader.cpp:680-892 | Printing what was loaded and loading it again changes nothing |
| Bitmask.DynamicBitmask.constructor | src/hashcomp.cpp:224-232 | 32 clear bits, none reserved |
| Bitmask.DynamicBitmask.Allocate | src/hashcomp.cpp:240-295 | The scan with its shifted bit and the reallocation equal the first-free-bit function on the contents |
| Bitmask.DynamicBitmask.Grow | src/hashcomp.cpp:268-294 | One byte is added behind unchanged contents, its first bit reserved |
| Bitmask.DynamicBitmask.Deallocate | src/hashcomp.cpp:297-316 | The state becomes the one of the operation on values; out of range nothing changes and the answer is false |
| Bitmask.DynamicBitmask.Toggle | src/hashcomp.cpp:318-330 | The state becomes the one of the operation on values |
| Bitmask.DynamicBitmask.Get | src/hashcomp.cpp:332-343 | The value of the field, or the exception for an index out of range |
| Bitmask.LowestClear | src/hashcomp.cpp:253-260 | Shifting a bit until it is clear or falls out finds the lowest clear bit or 0 |
| Bitmask.AllocateReservesOne | src/hashcomp.cpp:240-295 | Exactly one bit that was free is reserved; every other reservation and every value stays, also across growth |
| Bitmask.AllocateFailsIff | src/hashcomp.cpp:247-266 | Allocation fails exactly when all 255 bytes are in use and fully reserved |
| Bitmask.DeallocateReleasesOne | src/hashcomp.cpp:297-316 | One reservation goes, no other and no value changes |
| Bitmask.ToggleChangesOne | src/hashcomp.cpp:318-330 | One value is set, no other and no reservation changes |
| Bitmask.FieldsAreDisjoint | src/hashcomp.cpp:253-259 | Different one-bit fields share no bit |
| Bitmask.ReservedFieldIsPrivate | src/hashcomp.cpp:224-343 | Over any sequence of operations on other fields a reserved field stays reserved, keeps its value and is not handed out again |
| Tokens.Joiner | src/hashcomp.cpp:112-131 | The elements from begin to end with the separator between them |
| Tokens.SepStream.GetToken | src/hashcomp.cpp:35-60 | On any text: what stands between the start and the next separator, or the end, without the separators it ends in, with the exact new positions; over joined clean tokens the next one is returned and the rest stays ahead; any call that returns true advances |
| Tokens.SepStream.Seek | src/hashcomp.cpp:37-41 | The scan ends at the next separator or at the last character |
| Tokens.Drain | src/hashcomp.cpp:29-60 | Draining the stream over joined tokens returns these tokens |
| Tokens.EmptyTokenCosts | src/hashcomp.cpp:35-60 | On "a,,b" the second call returns false, and "b" is lost |
| Ports.PortParser.Overlaps | src/hashcomp.cpp:149-161 | With tracking on, whether the port was seen, and it is remembered; otherwise never |
| Ports.PortParser.GetToken | src/hashcomp.cpp:163-222 | The next port of the trace of the list, 0 at its end; with tracking on, on any text, never a port that was returned before |
| Ports.PortParser.NextInRange | src/hashcomp.cpp:165-185 | The next port of the range that has not been seen, which is then marked, or 0; if the last port of the range had been seen, the number behind it is marked too |
| Ports.PortParser.NextItem | src/hashcomp.cpp:187-221 | Items whose first port has been seen are skipped; the next one returns what it means, and nothing is returned when none is left |
| Ports.PortParser.ReadItem | src/hashcomp.cpp:199-221 | Any item is a range exactly if the numbers around its last dash are ports in order, and otherwise the number in front counts |
| Ports.Drain | src/hashcomp.cpp:138-222 | With tracking on, over any string, no port twice; over a printed list the ports of its trace, which are exactly those of the list in its order if and only if tracking is off or no port stands in the list twice |
| Ports.OutIff | src/hashcomp.cpp:163-222 | A number comes out exactly if an item that is not skipped or a range leads to it, and it neither has been seen nor is marked behind a range |
| Ports.EveryPortIff | src/hashcomp.cpp:163-222 | Every port of a list comes out if and only if each is reached by an item that is not skipped or by its range, and none is marked behind a range |
| Ports.SinglePortsAreKept | src/hashcomp.cpp:187-197 | In a list without ranges a repeat loses nothing |
| Ports.NothingInvented | src/hashcomp.cpp:163-222 | Where every pair of the list is a range, nothing comes out that is not in the list |
| Ports.RepeatLosesAPort | src/hashcomp.cpp:172-184 | "8,7-8,9" yields 8 and 7, but not 9 |
| Ports.PairInventsAPort | src/hashcomp.cpp:199-216 | "2,1-2,9-4" also yields 4 |
| Ports.DistinctIsExpanded | src/hashcomp.cpp:138-222 | A list that names no port twice, and any list without tracking, comes out as it is |
| Ports.PairExpands | src/hashcomp.cpp:199-216 | A pair expands to all ports from 1 to 65535 in between if they are in order, and otherwise to its first number |
| Ports.AtoiPrefix | src/hashcomp.cpp:199-205 | atoi in front of the dash reads the number that stands there |
| Timers.TimerManager.TickTimers | src/timer.cpp:23-42 | Every timer that was due fires once, in the order of the triggers; repeating ones are re-armed at the time of the tick plus their interval, the others are dropped, and all timers that were not due stay as they were |
| Timers.TimerManager.TickFirst | src/timer.cpp:27-40 | The first timer fires, and is back in the sorted queue exactly if it still repeats |
| Timers.TimerManager.AddTimer | src/timer.cpp:55-64 | The timer joins the others, sorted by trigger |
| Timers.TimerManager.DelTimer | src/timer.cpp:44-53 | Exactly this timer leaves the queue |
| Timers.TimerManager.Sort | src/timer.cpp:58-64 | Some sorted arrangement of the same timers |
| Duration.Duration | src/helperfuncs.cpp:140-178 | The loop from right to left equals the left-to-right sum of numbers times their units |
| Duration.SecondsAdd | src/helperfuncs.cpp:140-178 | Durations add up over concatenation behind a unit letter |
| Duration.SecondsOfUnit | src/helperfuncs.cpp:117-178 | n years of 365 days, weeks, days, hours or minutes count as many seconds as they have, with the letter in either case; any other character and a bare number at the end count seconds |
| Cidr.MatchIffBitsAgree | src/cidr.cpp:34-51 | A match exactly when the first n bits agree, for every n up to the width |
| Cidr.HighBitIsShifted | src/cidr.cpp:23-32 | Bit j of a byte is its most significant bit shifted down j times |
| Cidr.BytePrefix | src/cidr.cpp:23-43 | Masking with the table compares exactly the first bits of a byte |
| Cidr.PrefixesAreBlocks | src/cidr.cpp:34-51 | An equivalence for fixed n, and a match on more bits is one on fewer (RFC 4632 section 3.1) |
| Lifecycle.Server.AddItem | src/cull_list.cpp:24-31 | A client is queued once, and is quitting exactly from then on |
| Lifecycle.Server.Delete | src/connectionmanager.cpp:48-53 | The client is queued, quitting and finished |
| Lifecycle.Server.Add | src/connectionmanager.cpp:17-46 | The client joins the live list, and is quitting at once exactly if the socket engine refuses it |
| Lifecycle.Server.AcceptAll | src/socket.cpp:81-141 | No more than SoftLimit clients are ever live; the number of descriptors taken is exactly what room, failures and multi-accept allow; each usable descriptor becomes one client, quitting exactly if the engine refuses it; nobody else is touched |
| Lifecycle.Server.TimeOut | src/inspircd.cpp:520-545 | Exactly the clients that are too old or too idle join the queue |
| Lifecycle.Server.Apply | src/cull_list.cpp:33-56 | Exactly the queued clients are closed, each once and in order, and leave the live list in place |
| Lifecycle.Server.Turn | src/inspircd.cpp:507-594 | In a turn of the main loop, with the timeouts if they are due and the events in any order, exactly those clients are closed, each once, that were quitting, are due for a timeout, are named by a quit event or were refused by the socket engine; the others, old and new, stay in their order; the bound holds and no live client is quitting |
| Lifecycle.Server.HandleEvents | src/inspircd.cpp:591 | The events mark exactly the clients that a quit event hits, and add the accepted ones |
| Lifecycle.Server.HandleEvent | src/inspircd.cpp:591 | One event marks exactly the client that it hits, or adds those that are accepted, the refused ones marked |
| Lifecycle.MarkedIff | src/inspircd.cpp:591 | A client that was there before is marked exactly if it was marked, or one of the events is its quit event |
| Lifecycle.AdmittedIs | src/socket.cpp:114-139 | A descriptor without a name becomes no client, any other one, as the socket engine says |
| Lifecycle.KeepErase | src/cull_list.cpp:40-48 | Erasing the first occurrence removes just this client |

## Left out

- Modules: no module is attached, so the FOREACH hooks, the CGI module and backends other than the file backend are not modelled.
- Sockets, mmap, open, stat and the clock are parameters: a send takes any part of what it is given or fails, and a mapping that fails counts as a send that fails; in the engine the path check is the walk of FileSystem.dfy over any answers of stat, open gives any answer, and an open file is its bytes, which do not change while they are sent and whose number is the size that stat gave.
- The Date field holds any string without a carriage return.
- Write's check of the descriptor range, the descriptor of a closed connection, logging and LastSocketEvent inside the engine are not modelled; timing out is in Lifecycle.dfy.
- The streams that are compared with the cutting of the input end with the first request that has a body. Behind it the code feeds body bytes to the request buffer again, and body bytes that were already buffered when the head was complete stay in the request buffer; the output side is proved for these requests as well.
- Atoi reads mathematical integers, which are then taken modulo 2^32 where the code stores an unsigned int; tolower and toupper change ASCII letters only; a string is a sequence of characters, and a character beyond 127 is not negative.
- Exchanges.ConnectionFieldDecided: leaves the field open for a response behind a fatal error whose request neither closes nor asks for keepalive, or had to wait for its body; there keepalive depends on how far the flush of the error had come.
- Header fields that are continued on further lines, which RFC 2616 section 4.2 allows, are not joined by the code, and each line is read as a field of its own.
- The query string has no effect on the core without modules; only Uri.HandleURI says what it becomes.
- Tokens.Drain: the round trip is for tokens that are non-empty and free of the separator; what a single call returns on any other text is said by Tokens.SepStream.GetToken.
- Ports.PortParser.GetToken: the trace is that of lists printed from ports and pairs whose first number is not 0, since a 0 ends the stream; on any other text single items are read as Ports.PortParser.ReadItem says. The parameter named allow_overlapped switches tracking on when true, against its documentation.
- Bitmask.DynamicBitmask.Deallocate: does not clear the stored value, as in the source, so a bit that is handed out again keeps its old value. One instance with its own reservations is modelled, not several that share them.
- Timers.TimerManager.TickTimers: assumes that no repeating timer that is due has a negative interval, without which the loop need not end, and handlers that leave the manager alone except for cancelling their own repetition.
- Duration works on mathematical integers; overflow of long is not modelled.
- Cidr: the parsing of addresses and prefix lengths in MatchCIDR is not modelled.
- Absolute URIs, which the code does not treat specially, are passed through unchanged like every URI that does not start with a slash.
- BoolSet, ModuleManager::SetPriority, the MIME table's editing, the typed accessors of the configuration, string copying helpers, hexadecimal output, address formatting and src/urlencode.cpp are left out, since they would only add easy members.
