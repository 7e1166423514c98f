/** The connection engine: requests are cut from the input buffer, answered in order
    through the output queue and the file cursor, and pipelined behind each other. */
module Connections {
  import opened Text
  import opened Headers
  import opened Requests
  import opened Exchanges
  import FS = FileSystem
  import Uri

  datatype HttpState = WAIT_REQUEST | RECV_REQBODY | SEND_HEADERS | SEND_DATA | FINISHED

  /** A file descriptor, identified with the bytes of the file it is open on. */
  datatype File = Closed | Open(data: string)

  datatype ReadResult = Received(bytes: string) | EndOfStream | Again | Failed
  datatype Event = ReadReady(result: ReadResult) | WriteReady | ErrorEvent

  predicate HangsUp(event: Event) {
    event.ErrorEvent? || (event.ReadReady? && (event.result.EndOfStream? || event.result.Failed?))
  }

  // ---------- what the operating system may answer ----------

  /** What the socket does when it is asked to take bytes: it takes as many as it has room
      for, asks to be asked again, or fails for good. */
  datatype SendAnswer = Took(room: nat) | Again | Refused

  type Socket = nat -> SendAnswer

  /** One of these answers of the socket is a failure for good. */
  ghost predicate Refusal(socket: Socket, from: nat, to: nat) {
    exists k :: from <= k < to && socket(k).Refused?
  }

  /** What the socket takes of the bytes that it is offered. */
  function Accepted(offered: string, answer: SendAnswer): (r: string)
    ensures r <= offered
  {
    if answer.Took? then if answer.room < |offered| then offered[..answer.room] else offered else ""
  }

  predicate TakesAll(answer: SendAnswer, n: int) { answer.Took? && answer.room >= n }

  /** send, with its errno if it fails. */
  method Send(len: nat, answer: SendAnswer) returns (n: int, again: bool)
    ensures -1 <= n <= len && (n == -1 <==> !answer.Took?)
    ensures answer.Took? ==> n == if answer.room < len then answer.room else len
    ensures again <==> answer.Again?
  {
    n := if answer.Took? then if answer.room < len then answer.room else len else -1;
    again := answer.Again?;
  }

  /** FileSystem::CheckFilePath: the walk along the path, over whatever stat and its cache
      say of the prefixes. */
  method CheckFilePath(docRoot: string, uri: string) returns (found: FS.Found)
    requires uri != ""
    ensures MayFind(docRoot, uri, found)
  {
    var obs: map<string, FS.StatResult> := *;
    found := FS.Lookup(docRoot, uri, FS.Observed(obs));
    SeenIsFound(docRoot, uri, found, obs);
  }

  /** open and fstat: the file, or an errno. */
  method OpenFile() returns (fd: File, errno: FS.Errno) {
    fd := *;
    errno := *;
  }

  /** asctime of the current time, without its newline. */
  method CurrentDate() returns (date: string)
    ensures '\r' !in date
  {
    date := *;
    if '\r' in date { date := ""; }
  }

  /** What is left of a read buffer once it is passed on as a C string. */
  function CutAtNul(bytes: string): string {
    if bytes == "" || bytes[0] == '\0' then "" else [bytes[0]] + CutAtNul(bytes[1..])
  }

  /** What an event adds to the input of a connection. */
  function Chunk(event: Event): string {
    if event.ReadReady? && event.result.Received? then CutAtNul(event.result.bytes) else ""
  }

  // ---------- the input side ----------

  ghost predicate BodyFree(blocks: seq<string>, cfg: Config) {
    forall i :: 0 <= i < |blocks| ==> !WantsBody(blocks[i], cfg)
  }

  /** The blocks up to and including the first one that announces a body. */
  function UpToBody(blocks: seq<string>, cfg: Config): seq<string> {
    if blocks == [] then []
    else if WantsBody(blocks[0], cfg) then [blocks[0]]
    else [blocks[0]] + UpToBody(blocks[1..], cfg)
  }

  lemma {:induction false} UpToBodyAppend(blocks: seq<string>, b: string, cfg: Config)
    ensures BodyFree(blocks, cfg) ==> UpToBody(blocks, cfg) == blocks && UpToBody(blocks + [b], cfg) == blocks + [b]
    ensures !BodyFree(blocks, cfg) ==> UpToBody(blocks + [b], cfg) == UpToBody(blocks, cfg)
  {
    hide WantsBody;
    if blocks != [] {
      UpToBodyAppend(blocks[1..], b, cfg);
      assert (blocks + [b])[1..] == blocks[1..] + [b];
      assert BodyFree(blocks, cfg) <==> !WantsBody(blocks[0], cfg) && BodyFree(blocks[1..], cfg) by {
        if !WantsBody(blocks[0], cfg) && BodyFree(blocks[1..], cfg) {
          forall i | 0 <= i < |blocks| ensures !WantsBody(blocks[i], cfg) {
            if i > 0 { assert blocks[i] == blocks[1..][i - 1]; }
          }
        }
      }
    }
  }

  /** fed is what entered the request buffer, which differs from the input of the
      connection only behind a request with a body. */
  ghost predicate InputTracked(input: string, fed: string, blocks: seq<string>, requestbuf: string, cfg: Config) {
    && fed == Concat(blocks) + requestbuf
    && (forall i :: 0 <= i < |blocks| ==> IsBlock(blocks[i]))
    && UpToBody(blocks, cfg) <= SplitBlocks(input)
    && (BodyFree(blocks, cfg) ==> fed == input)
  }

  lemma TakeBlock(input: string, fed: string, blocks: seq<string>, requestbuf: string, end: nat, cfg: Config)
    requires InputTracked(input, fed, blocks, requestbuf, cfg)
    requires Find(requestbuf, TERMINATOR, 0) == end
    ensures IsBlock(requestbuf[..end + 4])
    ensures InputTracked(input, fed, blocks + [requestbuf[..end + 4]], requestbuf[end + 4..], cfg)
  {
    hide Find, IsBlock, SplitBlocks, WantsBody, Concat;
    var b, rest := requestbuf[..end + 4], requestbuf[end + 4..];
    FirstTerminatorInPrefix(requestbuf, end, "");
    ConcatAppend(blocks, b);
    UpToBodyAppend(blocks, b, cfg);
    assert Concat(blocks) + requestbuf == Concat(blocks) + b + rest;
    if BodyFree(blocks, cfg) { SplitUnique(blocks + [b], rest); }
    if BodyFree(blocks + [b], cfg) {
      assert forall i :: 0 <= i < |blocks| ==> blocks[i] == (blocks + [b])[i];
    }
  }

  /** More input, of which the request buffer gets the given part. */
  lemma MoreInput(input: string, fed: string, blocks: seq<string>, requestbuf: string, cfg: Config,
                  data: string, part: string)
    requires InputTracked(input, fed, blocks, requestbuf, cfg)
    requires BodyFree(blocks, cfg) ==> part == data
    ensures InputTracked(input + data, fed + part, blocks, requestbuf + part, cfg)
  {
    hide IsBlock, SplitBlocks, WantsBody, Concat, UpToBody;
    SplitMonotone(input, data);
    assert Concat(blocks) + requestbuf + part == Concat(blocks) + (requestbuf + part);
  }

  /** With no complete block left in the buffer, every block of the input has been taken. */
  lemma AllTaken(input: string, fed: string, blocks: seq<string>, requestbuf: string, cfg: Config)
    requires InputTracked(input, fed, blocks, requestbuf, cfg)
    requires BodyFree(blocks, cfg) && Find(requestbuf, TERMINATOR, 0) == -1
    ensures blocks == SplitBlocks(input)
  {
    SplitUnique(blocks, requestbuf);
    assert SplitBlocks(requestbuf) == [];
  }

  /** A search that starts three bytes before the new data finds what a full search finds. */
  lemma IncrementalSearch(buf: string, newpos: nat)
    requires forall k :: 0 <= k && k + 4 <= newpos ==> !At(buf, TERMINATOR, k)
    ensures Find(buf, TERMINATOR, if newpos >= 3 then newpos - 3 else 0) == Find(buf, TERMINATOR, 0)
  {
    var from := if newpos >= 3 then newpos - 3 else 0;
    var all := Find(buf, TERMINATOR, 0);
    if all != -1 { FindIs(buf, TERMINATOR, from, all); }
  }

  /** Data that holds no blank line still holds none where it is followed by more. */
  lemma NoTerminatorInFront(buf: string, more: string)
    requires Find(buf, TERMINATOR, 0) == -1
    ensures forall k :: 0 <= k && k + 4 <= |buf| ==> !At(buf + more, TERMINATOR, k)
  {
    forall k | 0 <= k && k + 4 <= |buf| ensures !At(buf + more, TERMINATOR, k) {
      AtSlice(buf + more, 0, |buf|, TERMINATOR, k);
      assert (buf + more)[0..|buf|] == buf;
      assert !At(buf, TERMINATOR, k);
    }
  }

  // ---------- the output side ----------

  /** WriteBackend::ServeFile: maps the file and sends from the cursor on. The answer covers
      both calls. */
  method ServeFile(filefd: File, sent: nat, filesize: nat, answer: SendAnswer) returns (re: int, cursor: nat)
    requires sent <= filesize
    requires filefd.Open? ==> filesize == |filefd.data|
    ensures sent <= cursor <= filesize && (re > 0 ==> cursor == sent + re) && (re <= 0 ==> cursor == sent)
    ensures re < 0 <==> filefd.Closed? || filesize == 0 || answer.Refused?
    ensures !answer.Took? ==> cursor == sent
    ensures filefd.Open? && filesize > 0 && answer.Took? ==>
              cursor == if answer.room < filesize - sent then sent + answer.room else filesize
  {
    cursor := sent;
    // mmap fails
    if filefd.Closed? || filesize == 0 || answer.Refused? { return -1, sent; }
    var n, again := Send(filesize - sent, answer);
    if n < 0 {
      re := if again then 0 else -1;
      return;
    }
    cursor := sent + n;
    re := n;
  }

  /** keepalive as it stands when the head of the response to o is about to be written. */
  ghost predicate KeepFits(keepalive: bool, log: seq<Exchange>, o: Outcome, cfg: Config) {
    && (keepalive ==> KeepAfter(|log|, o, cfg))
    && (!keepalive && KeepAfter(|log|, o, cfg) ==> HadFatal(log, cfg) && !KeepStated(o, cfg))
  }

  /** e is the response with this status and body to this block. */
  ghost predicate Replies(e: Exchange, block: string, status: nat, body: string, path: string, answer: FileAnswer) {
    e.block == block && e.response.status == status && e.response.body == body && e.path == path && e.answer == answer
  }

  /** Entry n of the log is a response to this block, and one that the block calls for. */
  ghost predicate RepliedTo(log: seq<Exchange>, n: nat, block: string, cfg: Config) {
    && n < |log| && log[n].block == block
    && Answers(block, log[n].path, log[n].answer, log[n].response.status, log[n].response.body, cfg)
  }

  /** Moreover an error page is offered to the socket at once, in one piece with all that was
      unsent, and arrives if it is taken as a whole. Behind a fatal error, which switches
      keepalive off, the connection goes on exactly if it does and keepalive was on until then. */
  ghost predicate Settled(log: seq<Exchange>, n: nat, block: string, sent: nat, answer: SendAnswer, wire: string,
                          keepalive: bool, final: bool, cfg: Config) {
    && RepliedTo(log, n, block, cfg)
    && var taken := TakesAll(answer, |Output(log[..n + 1])| - sent);
    && (!log[n].answer.Opened? ==> (Output(log[..n + 1]) <= wire <==> taken))
    && (Fatal(log[n], cfg) ==> !keepalive && (|log| == n + 1 && final <==> !log[n].keep || !taken))
  }

  /** What a response that was justified, and then flushed, amounts to. */
  lemma SettledIs(log: seq<Exchange>, n: nat, block: string, sent: nat, answer: SendAnswer, wire: string,
                  keepalive: bool, final: bool, cfg: Config,
                  status: nat, body: string, path: string, file: FileAnswer)
    requires n < |log| && Replies(log[n], block, status, body, path, file)
    requires Answers(block, path, file, status, body, cfg)
    requires var taken := TakesAll(answer, |Output(log[..n + 1])| - sent);
             && (!file.Opened? ==> (Output(log[..n + 1]) <= wire <==> taken))
             && (FailsFor(block, cfg) ==> !keepalive && (|log| == n + 1 && final <==> !log[n].keep || !taken))
    ensures Settled(log, n, block, sent, answer, wire, keepalive, final, cfg)
  {
    hide Answers, ParseBlock, VerdictOf, Output;
  }

  /** The head parses, and calls for an error. */
  predicate FailsFor(block: string, cfg: Config) {
    ParseBlock(block).code == 0 && VerdictOf(ParseBlock(block).request, cfg).Fail?
  }

  lemma FatalIs(e: Exchange, cfg: Config)
    ensures Fatal(e, cfg) <==> FailsFor(e.block, cfg)
  {
  }

  /** The log answers the first of the blocks, each by its own exchange. */
  ghost predicate Logged(log: seq<Exchange>, blocks: seq<string>, cfg: Config) {
    && WellFormedLog(log, cfg)
    && |log| <= |blocks| && forall k :: 0 <= k < |log| ==> log[k].block == blocks[k]
  }

  lemma LoggedGrows(log: seq<Exchange>, blocks: seq<string>, b: string, cfg: Config)
    requires Logged(log, blocks, cfg)
    ensures Logged(log, blocks + [b], cfg)
  {
    hide WellFormedLog;
  }

  /** Conservation: what was sent, what is queued and what is still in the file add up
      to the responses. */
  ghost predicate Balanced(wire: string, sendq: string, pending: string, log: seq<Exchange>) {
    wire + sendq + pending == Output(log)
  }

  /** The socket takes a part of the queue. */
  lemma BalancedSend(wire: string, sendq: string, pending: string, log: seq<Exchange>, n: nat)
    requires Balanced(wire, sendq, pending, log) && n <= |sendq|
    ensures Balanced(wire + sendq[..n], sendq[n..], pending, log)
  {
    hide Output;
    assert sendq == sendq[..n] + sendq[n..];
  }

  /** The whole output is on the wire exactly if the socket took all of the queue. */
  lemma PageIsTaken(before: string, sendq: string, log: seq<Exchange>, wire: string, answer: SendAnswer)
    requires Balanced(before, sendq, "", log) && sendq != "" && before + Accepted(sendq, answer) <= wire
    requires Accepted(sendq, answer) != sendq ==> wire == before + Accepted(sendq, answer)
    ensures Output(log) <= wire <==> TakesAll(answer, |Output(log)| - |before|)
  {
    hide Output;
    assert Output(log) == before + sendq;
  }

  /** With nothing pending, the output is on the wire exactly when the queue is empty. */
  lemma BalancedAll(wire: string, sendq: string, log: seq<Exchange>)
    requires Balanced(wire, sendq, "", log)
    ensures Output(log) <= wire <==> sendq == ""
  {
    hide Output;
    assert Output(log) == wire + sendq;
  }

  /** The socket takes a part of the file while the queue is empty. */
  lemma BalancedFile(wire: string, data: string, from: nat, to: nat, log: seq<Exchange>)
    requires from <= to <= |data| && Balanced(wire, "", data[from..], log)
    ensures Balanced(wire + data[from..to], "", data[to..], log)
  {
    hide Output;
    assert data[from..] == data[from..to] + data[to..];
  }

  lemma FilePart(data: string, from: nat, to: nat, answer: SendAnswer)
    requires from <= to <= |data| && (!answer.Took? ==> to == from)
    requires answer.Took? ==> to == if answer.room < |data| - from then from + answer.room else |data|
    ensures var taken := Accepted(data[from..], answer);
            data[from..to] == taken && |taken| == to - from && data[to..] == data[from..][|taken|..]
  {
  }

  /** The pending body moves to the queue. */
  lemma BalancedQueue(wire: string, sendq: string, pending: string, log: seq<Exchange>)
    requires Balanced(wire, sendq, pending, log)
    ensures Balanced(wire, sendq + pending, "", log)
  {
    hide Output;
    assert wire + (sendq + pending) + "" == wire + sendq + pending;
  }

  /** While something is to be sent the socket engine has been asked for a write event. */
  predicate Armed(state: HttpState, sendq: string, wantWrite: bool) {
    state != FINISHED && (sendq != "" || state == SEND_HEADERS || state == SEND_DATA) ==> wantWrite
  }

  /** The last response has a body. */
  ghost predicate LastHasBody(log: seq<Exchange>) {
    log != [] && log[|log| - 1].response.body != ""
  }

  ghost predicate LastKept(log: seq<Exchange>) {
    log != [] ==> log[|log| - 1].keep
  }

  /** The parse of the block that was taken last. */
  ghost function Current(blocks: seq<string>): Outcome {
    if blocks == [] then Outcome(400, NO_REQUEST) else ParseBlock(blocks[|blocks| - 1])
  }

  lemma WantsBodyIs(block: string, cfg: Config)
    ensures WantsBody(block, cfg) <==>
              ParseBlock(block).code == 0 && VerdictOf(ParseBlock(block).request, cfg).ReadBody?
  {
  }

  /** The checks that are left where the announced length is not too large. */
  lemma VerdictIs(r: Request, cfg: Config)
    ensures VerdictOf(r, cfg) != Fail(413) ==>
              VerdictOf(r, cfg) ==
                if Has(r.headers, "Transfer-Encoding") then Fail(500)
                else if BodyLength(r) > 0 then if Upper(r.verb) != "POST" then Fail(500) else ReadBody(BodyLength(r))
                else if Upper(r.verb) != "GET" && Upper(r.verb) != "POST" then Fail(501) else Serve
  {
    hide Has, BodyLength, Upper, Unsigned;
  }

  lemma NotBodyFree(blocks: seq<string>, cfg: Config)
    requires blocks != [] && WantsBody(blocks[|blocks| - 1], cfg)
    ensures !BodyFree(blocks, cfg)
  {
    hide WantsBody;
  }

  lemma FatalIsHad(log: seq<Exchange>, cfg: Config)
    requires log != [] && Fatal(log[|log| - 1], cfg)
    ensures HadFatal(log, cfg)
  {
    hide Fatal;
  }

  lemma HadFatalGrows(log: seq<Exchange>, longer: seq<Exchange>, cfg: Config)
    requires log <= longer && HadFatal(log, cfg)
    ensures HadFatal(longer, cfg)
  {
    hide Fatal;
    var j :| 0 <= j < |log| && Fatal(log[j], cfg);
    assert longer[j] == log[j];
  }

  /** The response to a head that does not parse. */
  lemma AnswersHead(block: string, cfg: Config)
    requires ParseBlock(block).code != 0
    ensures var code := ParseBlock(block).code;
            (code == 400 || code == 505) && Answers(block, "", NotAsked, code, ErrorPage(Reason(code)), cfg)
  {
    ParseCodes(block);
  }

  /** The responses to a head that parses: an error that the head calls for, or what
      the file system answers. */
  lemma AnswersFail(block: string, cfg: Config)
    requires ParseBlock(block).code == 0 && VerdictOf(ParseBlock(block).request, cfg).Fail?
    ensures var s := VerdictOf(ParseBlock(block).request, cfg).status;
            Answers(block, "", NotAsked, s, ErrorPage(Reason(s)), cfg)
  {
  }

  lemma AnswersFile(block: string, path: string, a: FileAnswer, cfg: Config)
    requires ParseBlock(block).code == 0 && !VerdictOf(ParseBlock(block).request, cfg).Fail? && a != NotAsked
    requires path == AskedPath(ParseBlock(block).request, cfg) && Located(cfg.docRoot, path, a)
    ensures Answers(block, path, a, StatusOf(a), if a.Opened? then a.data else ErrorPage(Reason(StatusOf(a))), cfg)
  {
  }

  lemma AskedPathIsNotEmpty(block: string, cfg: Config)
    requires ParseBlock(block).code == 0
    ensures AskedPath(ParseBlock(block).request, cfg) != ""
  {
    hide VerdictOf;
    UriIsNotEmpty(block);
  }

  lemma DistinctHeaderNames()
    ensures Lower("Date") != Lower("Server") && Lower("Date") != Lower("Content-Length")
    ensures Lower("Date") != Lower("Content-Type") && Lower("Date") != Lower("Connection")
    ensures Lower("Server") != Lower("Content-Length") && Lower("Server") != Lower("Content-Type")
    ensures Lower("Server") != Lower("Connection") && Lower("Content-Length") != Lower("Content-Type")
    ensures Lower("Content-Length") != Lower("Connection") && Lower("Content-Type") != Lower("Connection")
  {
    hide Lower;
  }

  /** Setting a header that was absent adds exactly it. */
  lemma PutFresh(m: HeaderMap, name: string, data: string)
    requires AllClean(m) && Clean(Field(name, data)) && Lower(name) !in m
    ensures Put(m, name, data) == m[Lower(name) := Field(name, data)]
    ensures AllClean(Put(m, name, data))
  {
    hide Lower;
  }

  /** The fields that lines 389-396 of SendHeaders leave. */
  ghost predicate HasStandard(m: HeaderMap, size: nat, typed: bool) {
    && m.Keys == {Lower("Date"), Lower("Server"), Lower("Content-Length")}
               + (if typed then {Lower("Content-Type")} else {})
    && Get(m, "Server") == "hottpd" && Get(m, "Content-Length") == Decimal(size)
    && (typed ==> Get(m, "Content-Type") == "text/html")
    && AllClean(m)
  }

  /** The headers that ServeData and SendError pass to SendHeaders. */
  ghost predicate FromCore(base: HeaderMap, size: nat, isFile: bool) {
    && base == (if isFile then map[] else Put(map[], "Content-Type", "text/html"))
    && (size == 0 ==> isFile)
  }

  lemma StandardHeaders(base: HeaderMap, date: string, size: nat, typed: bool)
    requires base == if typed then Put(map[], "Content-Type", "text/html") else map[]
    requires '\r' !in date
    ensures Lower("Date") !in base && Lower("Server") !in Put(base, "Date", date)
    ensures HasStandard(Put(Put(Put(base, "Date", date), "Server", "hottpd"), "Content-Length", Decimal(size)),
                        size, typed)
  {
    hide Lower, Decimal, Put, HasStandard, AllClean, Clean, Has;
    DistinctHeaderNames();
    StandardClean(date, size);
    PutFresh(map[], "Content-Type", "text/html");
    PutFresh(base, "Date", date);
    PutFresh(Put(base, "Date", date), "Server", "hottpd");
    PutFresh(Put(Put(base, "Date", date), "Server", "hottpd"), "Content-Length", Decimal(size));
    StandardKeys(base, date, size, typed);
  }

  lemma StandardClean(date: string, size: nat)
    requires '\r' !in date
    ensures Clean(Field("Content-Type", "text/html")) && Clean(Field("Date", date))
    ensures Clean(Field("Server", "hottpd")) && Clean(Field("Content-Length", Decimal(size)))
    ensures AllClean(map[])
  {
  }

  lemma StandardKeys(base: HeaderMap, date: string, size: nat, typed: bool)
    requires base == if typed then map[Lower("Content-Type") := Field("Content-Type", "text/html")] else map[]
    requires AllClean(base[Lower("Date") := Field("Date", date)][Lower("Server") := Field("Server", "hottpd")]
                          [Lower("Content-Length") := Field("Content-Length", Decimal(size))])
    ensures HasStandard(base[Lower("Date") := Field("Date", date)][Lower("Server") := Field("Server", "hottpd")]
                            [Lower("Content-Length") := Field("Content-Length", Decimal(size))], size, typed)
  {
    hide Lower, Decimal, AllClean;
    DistinctHeaderNames();
  }

  lemma AddType(m: HeaderMap, size: nat, mime: string)
    requires HasStandard(m, size, false) && '\r' !in mime
    ensures var n := Put(m, "Content-Type", mime);
            && n.Keys == m.Keys + {Lower("Content-Type")} && AllClean(n)
            && Get(n, "Server") == "hottpd" && Get(n, "Content-Length") == Decimal(size)
            && Get(n, "Content-Type") == mime
  {
    hide Lower, Decimal, Put, AllClean, Clean;
    DistinctHeaderNames();
    TypeIsClean(mime);
    PutFresh(m, "Content-Type", mime);
  }

  lemma TypeIsClean(mime: string)
    requires '\r' !in mime
    ensures Clean(Field("Content-Type", mime))
  {
  }

  lemma AddConnection(m: HeaderMap, size: nat, keep: bool, ctype: string)
    requires m.Keys == {Lower("Date"), Lower("Server"), Lower("Content-Length")}
                     + (if size > 0 then {Lower("Content-Type")} else {})
    requires Get(m, "Server") == "hottpd" && Get(m, "Content-Length") == Decimal(size) && AllClean(m)
    requires size > 0 ==> Get(m, "Content-Type") == ctype
    ensures Get(m, "Connection") == ""
    ensures HeadersDescribe(Put(m, "Connection", if keep then "Keep-Alive" else "Close"), size, keep, ctype)
  {
    hide Lower, Decimal, Put, AllClean, Clean;
    DistinctHeaderNames();
    ConnectionClean();
    var value := if keep then "Keep-Alive" else "Close";
    PutFresh(m, "Connection", value);
  }

  lemma ConnectionClean()
    ensures Clean(Field("Connection", "Keep-Alive")) && Clean(Field("Connection", "Close"))
  {
  }

  lemma QueuedHead(queued: string, r: Response)
    ensures queued + (StatusLine(r.version, r.status) + CRLF) + (FormatFields(r.fields) + CRLF) == queued + Head(r)
  {
    hide StatusLine, FormatFields;
  }

  lemma MimeIsClean(uri: string)
    ensures '\r' !in MimeOf(uri)
  {
  }

  lemma ExchangeJustified(e: Exchange, completed: nat, cfg: Config, m: HeaderMap)
    requires IsBlock(e.block) && e.response.version == ParseBlock(e.block).request.version
    requires e.keep ==> KeepAfter(completed, ParseBlock(e.block), cfg)
    requires Answers(e.block, e.path, e.answer, e.response.status, e.response.body, cfg)
    requires Enumerates(e.response.fields, m)
    requires HeadersDescribe(m, |e.response.body|, e.keep, if e.answer.Opened? then MimeOf(e.path) else "text/html")
    ensures Justified(e, completed, cfg)
  {
  }

  lemma BlocksAreBlocks(input: string, fed: string, blocks: seq<string>, requestbuf: string, cfg: Config)
    requires InputTracked(input, fed, blocks, requestbuf, cfg)
    ensures forall i :: 0 <= i < |blocks| ==> IsBlock(blocks[i])
  {
  }

  class Connection {
    const cfg: Config
    const headers: HTTPHeaders
    /** The answers of the socket, and how many of them have been given. */
    const socket: Socket
    var sends: nat

    var state: HttpState
    var requestbuf: string
    var sendq: string
    var verb: string
    var uri: string
    var uriquery: string
    var httpVersion: Version
    var keepalive: bool
    var requestBodyLength: nat
    var requestBody: string
    var responseBufferDone: bool
    var responseBackend: bool
    var filefd: File
    var rfilesize: nat
    var rfilesent: nat
    var requestsCompleted: nat
    var quitting: bool
    /** SocketEngine::WantWrite has been called since the last write event. */
    var wantWrite: bool

    /** Everything handed to AddBuffer, and the part of it that entered requestbuf. */
    ghost var input: string
    ghost var fed: string
    /** The request blocks taken from requestbuf, and the exchanges they led to. */
    ghost var blocks: seq<string>
    ghost var log: seq<Exchange>
    /** The bytes accepted by the socket, and the body bytes not yet in sendq. */
    ghost var wire: string
    ghost var pending: string
    /** The client has hung up, or sent too much at once. */
    ghost var dropped: bool
    /** EndRequest has closed the connection, and what it left in the queue. */
    ghost var ended: bool
    ghost var unsent: string

    /** What holds whenever control is in any of the methods. */
    ghost predicate Core()
      reads this
    {
      && InputTracked(input, fed, blocks, requestbuf, cfg)
      && Logged(log, blocks, cfg)
      && Balanced(wire, sendq, pending, log)
      && (quitting <==> state == FINISHED) && (quitting ==> ended || dropped || Refusal(socket, 0, sends))
      && (ended ==> quitting && !keepalive && (LastKept(log) ==> HadFatal(log, cfg)))
      && (ended ==> log != [] && pending == "" && (unsent == "" ==> sendq == "")
                    && (unsent == "" <==> LastHasBody(log)))
    }

    /** Ready for the next request: everything about the last one has been cleared. */
    ghost predicate Idle()
      reads this, headers
    {
      && state == WAIT_REQUEST && pending == ""
      && |log| == |blocks| == requestsCompleted
      && verb == "" && uri == "" && httpVersion == UNSPECIFIED && headers.fields == map[]
      && requestBodyLength == 0 && requestBody == "" && !responseBackend && !responseBufferDone
      && LastKept(log) && (keepalive || HadFatal(log, cfg))
    }

    /** A block has been taken and its response has not been written. */
    ghost predicate Taken()
      reads this
    {
      && (state == WAIT_REQUEST || state == RECV_REQBODY) && pending == ""
      && |blocks| == |log| + 1 == requestsCompleted + 1
      && LastKept(log)
      && httpVersion == Current(blocks).request.version
    }

    /** Moreover keepalive has taken its value for the response. */
    ghost predicate Responding()
      reads this
    {
      Taken() && KeepFits(keepalive, log, Current(blocks), cfg)
    }

    ghost predicate Receiving()
      reads this
    {
      && state == RECV_REQBODY && Responding()
      && Current(blocks).code == 0 && uri == Current(blocks).request.uri
      && VerdictOf(Current(blocks).request, cfg) == ReadBody(requestBodyLength)
      && |requestBody| < requestBodyLength && !responseBufferDone
    }

    /** The head of the last response has been written, and its body is on its way. In the
        two predicates below there is always something left to send. */
    ghost predicate Answered()
      reads this
    {
      && |log| == |blocks| == requestsCompleted + 1
      && (if keepalive then LastKept(log) else LastKept(log) ==> HadFatal(log, cfg))
    }

    /** The cursor stands where the unsent part of the file begins. */
    ghost predicate CursorFits()
      reads this
    {
      rfilesent <= rfilesize &&
      (filefd.Open? ==> rfilesize == |filefd.data| && pending == filefd.data[rfilesent..])
    }

    ghost predicate SendingFile()
      reads this
    {
      && Answered() && CursorFits() && filefd.Open? && LastHasBody(log)
      && responseBackend && !responseBufferDone && pending != ""
      && ((state == SEND_HEADERS && sendq != "") || (state == SEND_DATA && sendq == ""))
    }

    ghost predicate SendingPage()
      reads this
    {
      && Answered() && state == SEND_DATA && pending == "" && sendq != ""
      && !responseBackend && responseBufferDone && LastHasBody(log)
    }

    ghost predicate PageSent()
      reads this
    {
      && Answered() && state == SEND_DATA && pending == "" && sendq == ""
      && !responseBackend && responseBufferDone && LastHasBody(log)
    }

    /** The queue has been emptied. */
    ghost predicate Drained()
      reads this, headers
    {
      && sendq == ""
      && (state == WAIT_REQUEST ==> Idle() && Find(requestbuf, TERMINATOR, 0) == -1)
      && (state == RECV_REQBODY ==> Receiving())
      && (state == SEND_HEADERS ==>
            && Answered() && CursorFits() && filefd.Open? && LastHasBody(log)
            && responseBackend && !responseBufferDone && pending != "")
      && (state == SEND_DATA ==> SendingFile() || PageSent())
    }

    /** The invariant between events. */
    ghost predicate Valid()
      reads this, headers
    {
      && Core()
      && (state == WAIT_REQUEST ==> Idle() && Find(requestbuf, TERMINATOR, 0) == -1)
      && (state == RECV_REQBODY ==> Receiving())
      && (state == SEND_HEADERS ==> SendingFile())
      && (state == SEND_DATA ==> SendingFile() || SendingPage())
    }

    /** Nothing but the response under way is still to come: no further request is answered. */
    ghost predicate Final()
      reads this
    {
      quitting || ((state == SEND_HEADERS || state == SEND_DATA) && !keepalive)
    }

    /** Nothing that was received, decided or sent is taken back, and the connection is only
        given up where EndRequest closes it or a send fails for good. */
    twostate predicate Grows()
      reads this
    {
      && old(wire) <= wire && old(blocks) <= blocks && old(log) <= log
      && input == old(input) && fed == old(fed)
      && GivesUpForCause()
    }

    twostate predicate GivesUpForCause()
      reads this
    {
      && old(sends) <= sends && dropped == old(dropped)
      && (old(quitting) ==> quitting)
      && (quitting ==> old(quitting) || ended || Refusal(socket, old(sends), sends))
    }

    /** Without a complete block in the buffer nothing happens. The first complete one is
        taken and answered, unless it has to wait for its body. */
    twostate predicate Proceeds(new buffer: string)
      reads this
    {
      var end := Find(buffer, TERMINATOR, 0);
      if end == -1 then log == old(log) && blocks == old(blocks) && requestbuf == buffer && state == WAIT_REQUEST
      else
        && |blocks| > |old(blocks)| && blocks[|old(blocks)|] == buffer[..end + 4]
        && if WantsBody(blocks[|old(blocks)|], cfg) then state == RECV_REQBODY && log == old(log)
           else Settles(blocks[|old(blocks)|])
    }

    /** The next response answers this block. */
    twostate predicate Settles(new block: string)
      reads this
    {
      Settled(log, |old(log)|, block, |old(wire)|, socket(old(sends)), wire, keepalive, Final(), cfg)
    }

    /** What the next write event offers to the socket. */
    ghost function Offered(): string
      reads this
    {
      if sendq != "" then sendq else if quitting then "" else pending
    }

    /** The socket has been offered these bytes, and what it took is on the wire. If that is
        not all of them, nothing else has happened. */
    twostate predicate Asked(new offered: string)
      reads this
    {
      var answer := socket(old(sends));
      var taken := Accepted(offered, answer);
      && sends > old(sends) && old(wire) + taken <= wire && (answer.Refused? ==> quitting)
      && (taken != offered ==> sends == old(sends) + 1 && wire == old(wire) + taken && Still())
    }

    /** No request has been taken and none answered. */
    twostate predicate Still()
      reads this
    {
      log == old(log) && blocks == old(blocks) && requestbuf == old(requestbuf)
    }

    constructor (cfg: Config, socket: Socket)
      ensures Valid() && this.cfg == cfg && this.socket == socket && state == WAIT_REQUEST && keepalive && sendq == ""
      ensures input == fed == requestbuf == wire == "" && blocks == [] && log == []
      ensures sends == 0 && !dropped && !ended
      ensures fresh(headers)
    {
      this.cfg, this.socket, sends := cfg, socket, 0;
      headers := new HTTPHeaders();
      state, keepalive, quitting, wantWrite := WAIT_REQUEST, true, false, false;
      requestbuf, sendq, verb, uri, uriquery := "", "", "", "", "";
      httpVersion, requestBodyLength, requestBody := UNSPECIFIED, 0, "";
      responseBufferDone, responseBackend := false, false;
      filefd, rfilesize, rfilesent, requestsCompleted := Closed, 0, 0, 0;
      input, fed, wire, pending, blocks, log := "", "", "", "", [], [];
      dropped, ended, unsent := false, false, "";
    }

    /** ConnectionManager::Delete, seen from the connection. */
    method Delete()
      modifies this`quitting, this`state
      ensures quitting && state == FINISHED
    {
      quitting, state := true, FINISHED;
    }

    method Write(text: string)
      modifies this`sendq, this`wantWrite
      ensures sendq == old(sendq) + text && wantWrite
    {
      sendq := sendq + text;
      wantWrite := true;
    }

    /** Lines 48-90 of CheckRequest. */
    method ReadRequestLine(line: string) returns (code: int)
      requires verb == "" && uri == "" && httpVersion == UNSPECIFIED
      modifies this`verb, this`uri, this`httpVersion, this`keepalive
      ensures var o := ParseRequestLine(line);
              && code == o.code && httpVersion == o.request.version
              && verb == o.request.verb && uri == o.request.uri
              && keepalive == (old(keepalive) && !(httpVersion == HTTP10 && requestsCompleted == 0))
              && (code == 0 ==> verb != "" && uri != "" && httpVersion != UNSPECIFIED && o.request.headers == map[])
    {
      hide NextWord, Upper;
      var word1 := NextWord(line);
      var word2 := NextWord(word1.1);
      verb, uri := word1.0, word2.0;
      var tmpversion := NextWord(word2.1).0;
      if verb == "" || uri == "" || tmpversion == "" { return 400; }
      tmpversion := Upper(tmpversion);
      if tmpversion == "HTTP/1.1" {
        httpVersion := HTTP11;
      } else if tmpversion == "HTTP/1.0" {
        httpVersion := HTTP10;
        if requestsCompleted == 0 { keepalive := false; }
      } else {
        return 505;
      }
      return 0;
    }

    /** Lines 96-104 of CheckRequest: a header line. */
    method ReadField(line: string) returns (ok: bool)
      modifies headers
      ensures match ParseField(line)
              case None => !ok && headers.fields == old(headers.fields)
              case Some(f) => ok && headers.fields == Put(old(headers.fields), f.name, f.value)
    {
      hide Find, At, Put;
      var fieldsep := Find(line, ":", 0);
      if fieldsep == -1 || fieldsep == 0 || fieldsep == |line| - 1 { return false; }
      headers.SetHeader(line[..fieldsep], line[fieldsep + 2..]);
      ok := true;
    }

    /** Lines 40-114 of CheckRequest: the request line and the header lines, up to reqend. */
    method ReadHead(reqend: nat) returns (code: int)
      requires Find(requestbuf, TERMINATOR, 0) == reqend
      requires verb == "" && uri == "" && httpVersion == UNSPECIFIED && headers.fields == map[]
      modifies this`verb, this`uri, this`httpVersion, this`keepalive, headers
      ensures var o := ParseBlock(requestbuf[..reqend + 4]);
              && code == o.code && httpVersion == o.request.version
              && keepalive == (old(keepalive) && !(httpVersion == HTTP10 && requestsCompleted == 0))
              && (code == 0 ==> verb == o.request.verb && uri == o.request.uri && headers.fields == o.request.headers)
    {
      hide Find, At, ParseRequestLine, ParseFields, ParseField, Put;
      ghost var block := requestbuf[..reqend + 4];
      ghost var firstEnd := Find(block, CRLF, 0);
      assert block[0..] == block;
      BlockLine(requestbuf, reqend, 0);
      ghost var first := ParseRequestLine(block[..firstEnd]);
      var hbegin := 0;
      var hend := Find(requestbuf, CRLF, hbegin);
      while hend != -1
        invariant hbegin <= reqend || hbegin == reqend + 2
        invariant hend == Find(requestbuf, CRLF, hbegin)
        invariant hbegin <= hend == hbegin + Find(block[hbegin..], CRLF, 0) <= reqend + 2
        invariant hbegin == reqend + 2 ==> hend == hbegin
        invariant hbegin <= reqend ==> hend <= reqend && hend != reqend - 1
        invariant hbegin == 0 ==>
            && verb == "" && uri == "" && httpVersion == UNSPECIFIED && headers.fields == map[]
            && keepalive == old(keepalive) && hend == firstEnd
        invariant hbegin > 0 ==>
            && firstEnd > 0 && first.code == 0
            && verb == first.request.verb != "" && uri == first.request.uri != ""
            && httpVersion == first.request.version != UNSPECIFIED && first.request.headers == map[]
            && keepalive == (old(keepalive) && !(httpVersion == HTTP10 && requestsCompleted == 0))
            && ParseFields(map[], block[firstEnd + 2..]) == ParseFields(headers.fields, block[hbegin..])
        decreases reqend + 4 - hbegin
      {
        FieldsStep(headers.fields, block, hbegin, hend);
        if hbegin == hend { break; }
        var line := requestbuf[hbegin..hend];
        SliceOfPrefix(requestbuf, reqend + 4, hbegin, hend);
        if verb == "" {
          code := ReadRequestLine(line);
          if code != 0 { return; }
        } else {
          var ok := ReadField(line);
          if !ok { return 400; }
        }
        BlockLine(requestbuf, reqend, hend + 2);
        hbegin := hend + 2;
        hend := Find(requestbuf, CRLF, hbegin);
      }
      code := if verb == "" || uri == "" || httpVersion == UNSPECIFIED then 400 else 0;
    }

    /** Reads the head of the first block and erases the block from the buffer. */
    method TakeHead(reqend: nat) returns (code: int)
      requires Core() && Idle() && Find(requestbuf, TERMINATOR, 0) == reqend
      modifies this`verb, this`uri, this`httpVersion, this`keepalive, this`requestbuf, this`blocks, headers
      ensures Core() && Taken() && state == WAIT_REQUEST
      ensures blocks == old(blocks) + [old(requestbuf)[..reqend + 4]] && requestbuf == old(requestbuf)[reqend + 4..]
      ensures code == Current(blocks).code
      ensures keepalive ==> !(httpVersion == HTTP10 && requestsCompleted == 0)
      ensures !keepalive ==> (httpVersion == HTTP10 && requestsCompleted == 0) || HadFatal(log, cfg)
      ensures code == 0 ==> verb == Current(blocks).request.verb && uri == Current(blocks).request.uri
                            && headers.fields == Current(blocks).request.headers
    {
      hide Find, At, InputTracked, Logged, Balanced, ParseBlock, HadFatal, LastKept, LastHasBody;
      code := ReadHead(reqend);
      TakeBlock(input, fed, blocks, requestbuf, reqend, cfg);
      LoggedGrows(log, blocks, requestbuf[..reqend + 4], cfg);
      blocks := blocks + [requestbuf[..reqend + 4]];
      requestbuf := requestbuf[reqend + 4..];
    }

    method CheckRequest(newpos: nat)
      requires Core() && Idle() && newpos <= |requestbuf| && Armed(state, sendq, wantWrite)
      requires forall k :: 0 <= k && k + 4 <= newpos ==> !At(requestbuf, TERMINATOR, k)
      modifies this, headers
      ensures Valid() && Grows() && Armed(state, sendq, wantWrite)
      ensures Proceeds(old(requestbuf))
      decreases |requestbuf|, 0, 0
    {
      hide Find, At, InputTracked, Logged, Balanced, ParseBlock, HadFatal, LastKept, LastHasBody, WantsBody,
           Settled, Receiving, SendingFile, SendingPage, VerdictOf;
      IncrementalSearch(requestbuf, newpos);
      var reqend := Find(requestbuf, TERMINATOR, if newpos >= 3 then newpos - 3 else 0);
      if reqend == -1 { return; }

      var code := TakeHead(reqend);
      AnswerHead(code);
    }

    /** What follows a head that has been read: an error, or serving the request. */
    method AnswerHead(code: int)
      requires Core() && Taken() && state == WAIT_REQUEST && Armed(state, sendq, wantWrite)
      requires code == Current(blocks).code
      requires keepalive ==> !(httpVersion == HTTP10 && requestsCompleted == 0)
      requires !keepalive ==> (httpVersion == HTTP10 && requestsCompleted == 0) || HadFatal(log, cfg)
      requires code == 0 ==> verb == Current(blocks).request.verb && uri == Current(blocks).request.uri
                             && headers.fields == Current(blocks).request.headers
      requires requestBodyLength == 0 && requestBody == "" && !responseBufferDone
      modifies this, headers
      ensures Valid() && Grows() && Armed(state, sendq, wantWrite)
      ensures if WantsBody(old(blocks)[|old(blocks)| - 1], cfg)
              then state == RECV_REQBODY && log == old(log) && blocks == old(blocks)
              else Settles(old(blocks)[|old(blocks)| - 1])
      decreases |requestbuf|, 9
    {
      hide Find, At, InputTracked, Logged, Balanced, ParseBlock, HadFatal, Answers, ErrorPage, LastKept,
           LastHasBody, Reason, Valid, VerdictOf, WantsBody, Settled;
      ghost var block := blocks[|blocks| - 1];
      WantsBodyIs(block, cfg);
      if code != 0 {
        AnswersHead(block, cfg);
        Reasons();
        var text := if code == 505 then "Version Not Supported" else "Bad Request";
        SendError(code, text, false, "", NotAsked);
        return;
      }
      ServeRequest();
    }

    /** Lines 119-130 of CheckRequest. */
    method UpdateKeepalive()
      requires Taken() && Current(blocks).code == 0 && headers.fields == Current(blocks).request.headers
      requires keepalive ==> !(httpVersion == HTTP10 && requestsCompleted == 0)
      requires !keepalive ==> (httpVersion == HTTP10 && requestsCompleted == 0) || HadFatal(log, cfg)
      modifies this`keepalive
      ensures KeepFits(keepalive, log, Current(blocks), cfg)
    {
      hide ParseBlock, HadFatal, Lower;
      if Lower(headers.GetHeader("Connection")) == "close" {
        keepalive := false;
      } else if Lower(headers.GetHeader("Connection")) == "keep-alive" {
        keepalive := true;
      }
      if requestsCompleted + 1 >= cfg.keepAliveMax { keepalive := false; }
    }

    /** Lines 132-137 of CheckRequest: the announced length, and whether it is too large. */
    method ReadLength() returns (tooLong: bool)
      requires requestBodyLength == 0 && headers.fields == Current(blocks).request.headers
      modifies this`requestBodyLength
      ensures requestBodyLength == BodyLength(Current(blocks).request)
      ensures tooLong <==> VerdictOf(Current(blocks).request, cfg) == Fail(413)
    {
      hide Has, Get, Atoi, Unsigned, ParseBlock, Upper;
      tooLong := false;
      if headers.IsSet("Content-Length") {
        requestBodyLength := Unsigned(Atoi(headers.GetHeader("Content-Length")));
        tooLong := requestBodyLength > Unsigned(cfg.maxPostBody);
      }
    }

    method AwaitBody()
      requires Core() && Responding() && state == WAIT_REQUEST && Armed(state, sendq, wantWrite)
      requires Current(blocks).code == 0 && uri == Current(blocks).request.uri
      requires VerdictOf(Current(blocks).request, cfg) == ReadBody(requestBodyLength) && requestBodyLength > 0
      requires requestBody == "" && !responseBufferDone
      modifies this`state
      ensures Valid() && Grows() && Armed(state, sendq, wantWrite) && state == RECV_REQBODY
    {
      hide Find, At, InputTracked, Logged, Balanced, ParseBlock, HadFatal, VerdictOf, KeepAfter;
      state := RECV_REQBODY;
    }

    /** Lines 116-137 of CheckRequest: what the head says, before anything is answered. */
    method Weigh() returns (tooLong: bool)
      requires Core() && Taken() && state == WAIT_REQUEST
      requires keepalive ==> !(httpVersion == HTTP10 && requestsCompleted == 0)
      requires !keepalive ==> (httpVersion == HTTP10 && requestsCompleted == 0) || HadFatal(log, cfg)
      requires Current(blocks).code == 0 && verb == Current(blocks).request.verb
      requires headers.fields == Current(blocks).request.headers && requestBodyLength == 0
      modifies this`verb, this`keepalive, this`requestBodyLength
      ensures Core() && Responding() && verb == Upper(Current(blocks).request.verb)
      ensures requestBodyLength == BodyLength(Current(blocks).request)
      ensures tooLong <==> VerdictOf(Current(blocks).request, cfg) == Fail(413)
    {
      hide InputTracked, Logged, Balanced, ParseBlock, HadFatal, Upper, KeepFits, LastKept, LastHasBody, VerdictOf,
           BodyLength;
      verb := Upper(verb);
      UpdateKeepalive();
      tooLong := ReadLength();
    }

    /** Lines 116-200 of CheckRequest: what a well-formed head leads to. */
    method ServeRequest()
      requires Core() && Taken() && state == WAIT_REQUEST && Armed(state, sendq, wantWrite)
      requires keepalive ==> !(httpVersion == HTTP10 && requestsCompleted == 0)
      requires !keepalive ==> (httpVersion == HTTP10 && requestsCompleted == 0) || HadFatal(log, cfg)
      requires Current(blocks).code == 0 && verb == Current(blocks).request.verb
      requires uri == Current(blocks).request.uri && headers.fields == Current(blocks).request.headers
      requires requestBodyLength == 0 && requestBody == "" && !responseBufferDone
      modifies this, headers
      ensures Valid() && Grows() && Armed(state, sendq, wantWrite)
      ensures if WantsBody(old(blocks)[|old(blocks)| - 1], cfg)
              then state == RECV_REQBODY && log == old(log) && blocks == old(blocks)
              else Settles(old(blocks)[|old(blocks)| - 1])
      decreases |requestbuf|, 8
    {
      hide Core, Responding, ParseBlock, HadFatal, Upper, LastKept, Has, Valid, Reason, Settled, WantsBody, VerdictOf,
           BodyLength;
      Reasons();
      VerdictIs(Current(blocks).request, cfg);
      WantsBodyIs(blocks[|blocks| - 1], cfg);
      var tooLong := Weigh();
      if tooLong {
        Refuse(413, "Request Entity Too Large");
        return;
      }
      if headers.IsSet("Transfer-Encoding") {
        Refuse(500, "Internal Server Error");
        return;
      }
      if requestBodyLength > 0 {
        if verb != "POST" {
          Refuse(500, "Internal Server Error");
          return;
        }
        AwaitBody();
        return;
      }
      ServeTarget();
    }

    /** A fatal error that the head calls for. */
    method Refuse(code: nat, text: string)
      requires Core() && Responding() && text == Reason(code)
      requires Current(blocks).code == 0 && VerdictOf(Current(blocks).request, cfg) == Fail(code)
      modifies this, headers
      ensures Valid() && Grows() && Armed(state, sendq, wantWrite) && !keepalive
      ensures Settles(old(blocks)[|old(blocks)| - 1])
      decreases |requestbuf|, 5
    {
      hide Find, At, InputTracked, Logged, Balanced, ParseBlock, HadFatal, VerdictOf, Answers, ErrorPage, LastKept,
           LastHasBody, Reason, Valid, Settled;
      AnswersFail(blocks[|blocks| - 1], cfg);
      SendError(code, text, true, "", NotAsked);
    }

    /** Lines 168-200 of CheckRequest. */
    method ServeTarget()
      requires Core() && Responding() && !responseBufferDone
      requires Current(blocks).code == 0 && verb == Upper(Current(blocks).request.verb)
      requires uri == Current(blocks).request.uri
      requires VerdictOf(Current(blocks).request, cfg) == if verb != "GET" && verb != "POST" then Fail(501) else Serve
      modifies this, headers
      ensures Valid() && Grows() && Armed(state, sendq, wantWrite)
      ensures Settles(old(blocks)[|old(blocks)| - 1])
      decreases |requestbuf|, 7
    {
      hide Find, At, InputTracked, Logged, Balanced, ParseBlock, HadFatal, Upper, KeepFits, LastKept, LastHasBody,
           VerdictOf, Valid, Uri.Canonical, Uri.QueryOf, Reason, Settled;
      Reasons();
      uri, uriquery := Uri.HandleURI(uri, uriquery);
      if verb != "GET" && verb != "POST" {
        Refuse(501, "Not Implemented");
        return;
      }
      ServeData();
    }

    method ServeData()
      requires Core() && Responding() && !responseBufferDone
      requires Current(blocks).code == 0 && !VerdictOf(Current(blocks).request, cfg).Fail?
      requires uri == AskedPath(Current(blocks).request, cfg)
      modifies this, headers
      ensures Valid() && Grows() && Armed(state, sendq, wantWrite)
      ensures Settles(old(blocks)[|old(blocks)| - 1])
      decreases |requestbuf|, 6
    {
      hide Find, At, InputTracked, Logged, Balanced, ParseBlock, HadFatal, VerdictOf, Answers, KeepFits, KeepAfter,
           ErrorPage, LastKept, Valid, Uri.Canonical, Reason, Settled;
      Reasons();
      ghost var block := blocks[|blocks| - 1];
      AskedPathIsNotEmpty(block, cfg);
      var found := CheckFilePath(cfg.docRoot, uri);
      if found.NotFound? {
        ghost var answer := NoPath(found.errno);
        AnswersFile(block, uri, answer, cfg);
        var (code, text) := match found.errno
          case EACCES => (403, "Forbidden")
          case ENOENT | ELOOP | ENAMETOOLONG | ENOTDIR => (404, "File Not Found")
          case OTHER => (500, "Internal Server Error");
        SendError(code, text, false, uri, answer);
        return;
      }

      OpenAndSend(found.path);
    }

    /** Lines 337-375 of ServeData. */
    method OpenAndSend(upath: string)
      requires Core() && Responding() && !responseBufferDone
      requires Current(blocks).code == 0 && !VerdictOf(Current(blocks).request, cfg).Fail?
      requires Located(cfg.docRoot, uri, NoOpen(upath, FS.OTHER))
      requires uri == AskedPath(Current(blocks).request, cfg)
      modifies this, headers
      ensures Valid() && Grows() && Armed(state, sendq, wantWrite)
      ensures Settles(old(blocks)[|old(blocks)| - 1])
      decreases |requestbuf|, 5
    {
      hide Find, At, InputTracked, Logged, Balanced, ParseBlock, HadFatal, VerdictOf, Answers, KeepFits, KeepAfter,
           ErrorPage, LastKept, Valid, Uri.Canonical, Reason, Settled;
      Reasons();
      ghost var block := blocks[|blocks| - 1];
      var errno;
      filefd, errno := OpenFile();
      if filefd.Closed? {
        ghost var answer := NoOpen(upath, errno);
        AnswersFile(block, uri, answer, cfg);
        var (code, text) := match errno
          case EACCES => (403, "Forbidden")
          case ENOENT | ENOTDIR => (404, "File Not Found")
          case ELOOP | ENAMETOOLONG | OTHER => (500, "Internal Server Error");
        SendError(code, text, false, uri, answer);
        return;
      }

      AnswersFile(block, uri, Opened(upath, filefd.data), cfg);
      StartFile(upath);
    }

    /** Lines 369-375 of ServeData. */
    method StartFile(ghost upath: string)
      requires Core() && Responding() && !responseBufferDone && filefd.Open?
      requires Answers(blocks[|blocks| - 1], uri, Opened(upath, filefd.data), 200, filefd.data, cfg)
      requires !FailsFor(blocks[|blocks| - 1], cfg)
      modifies this, headers
      ensures Valid() && Grows() && Armed(state, sendq, wantWrite) && |log| > |old(log)|
      ensures Settles(old(blocks)[|old(blocks)| - 1])
      ensures Replies(log[|old(log)|], old(blocks)[|old(blocks)| - 1], 200, old(filefd).data, old(uri),
                      Opened(upath, old(filefd).data))
      ensures old(filefd).data != "" ==>
                && state == SEND_HEADERS && |log| == |old(log)| + 1
                && filefd == old(filefd) && rfilesent == 0 && rfilesize == |filefd.data|
      decreases |requestbuf|, 3
    {
      hide Find, At, InputTracked, Logged, Balanced, ParseBlock, HadFatal, VerdictOf, Answers, KeepFits, KeepAfter,
           LastKept, Put, Idle, Receiving, SendingPage, Reason, Output, Settled, FailsFor;
      Reasons();
      ghost var block, path, file := blocks[|blocks| - 1], uri, Opened(upath, filefd.data);
      rfilesize, rfilesent := |filefd.data|, 0;
      responseBackend := true;
      var empty := new HTTPHeaders();
      assert filefd.data[0..] == filefd.data;
      SendHeaders(rfilesize, 200, "OK", empty, filefd.data, uri, file);
      SettledIs(log, |old(log)|, block, |old(wire)|, socket(old(sends)), wire, keepalive, Final(), cfg,
                200, file.data, path, file);
    }

    /** Lines 72-74 of SendError: the page follows the head into the queue. */
    method QueuePage(data: string)
      requires Core() && Answered() && !responseBackend && pending == data && LastHasBody(log)
      requires sendq != "" && !quitting
      modifies this`state, this`sendq, this`wantWrite, this`pending, this`responseBufferDone
      ensures Core() && SendingPage() && wantWrite && sendq == old(sendq) + data
    {
      hide Find, At, InputTracked, Logged, Balanced, LastKept, LastHasBody;
      state := SEND_DATA;
      BalancedQueue(wire, sendq, pending, log);
      Write(data);
      pending := "";
      responseBufferDone := true;
    }

    /** Lines 63-74 of SendError. */
    method QueueError(code: nat, text: string, ghost path: string, ghost answer: FileAnswer)
      requires Core() && Responding() && text == Reason(code) && !answer.Opened?
      requires Answers(blocks[|blocks| - 1], path, answer, code, ErrorPage(text), cfg)
      modifies this, headers
      ensures Valid() && SendingPage() && Grows() && Armed(state, sendq, wantWrite) && !quitting
      ensures unchanged(`wire, `sends, `requestbuf, `blocks)
      ensures |log| == |old(log)| + 1 && log[|old(log)|].keep == keepalive
      ensures Replies(log[|old(log)|], old(blocks)[|old(blocks)| - 1], code, ErrorPage(text), path, answer)
      decreases |requestbuf|, 3
    {
      hide Find, At, InputTracked, Logged, Balanced, ParseBlock, VerdictOf, Reason, Answers, KeepAfter, KeepFits,
           LastKept, LastHasBody, HadFatal, Idle, Receiving, SendingFile, Replies;
      var empty := new HTTPHeaders();
      empty.SetHeader("Content-Type", "text/html");
      var data := ErrorPage(text);
      responseBackend := false;
      SendHeaders(|data|, code, text, empty, data, path, answer);

      QueuePage(data);
    }

    method SendError(code: nat, text: string, fatal: bool, ghost path: string, ghost answer: FileAnswer)
      requires Core() && Responding() && text == Reason(code) && !answer.Opened?
      requires Answers(blocks[|blocks| - 1], path, answer, code, ErrorPage(text), cfg)
      requires fatal <==> FailsFor(blocks[|blocks| - 1], cfg)
      modifies this, headers
      ensures Valid() && Grows() && Armed(state, sendq, wantWrite) && |log| > |old(log)|
      ensures Replies(log[|old(log)|], old(blocks)[|old(blocks)| - 1], code, ErrorPage(text), path, answer)
      ensures Settles(old(blocks)[|old(blocks)| - 1]) && (fatal ==> !keepalive)
      decreases |requestbuf|, 4
    {
      hide Core, KeepFits, Answers, Output, SendingPage, Settled, FailsFor, Fatal, Final, Valid, ErrorPage, Reason,
           ParseBlock, VerdictOf, LastKept, HadFatal;
      ghost var block := blocks[|blocks| - 1];
      QueueError(code, text, path, answer);
      ghost var logged := log;
      FatalIs(logged[|logged| - 1], cfg);
      FlushPage(fatal);
      assert log[..|logged|] == logged;
      SettledIs(log, |old(log)|, block, |old(wire)|, socket(old(sends)), wire, keepalive, Final(), cfg,
                code, ErrorPage(text), path, answer);
    }

    /** Lines 76-83 of SendError. */
    method FlushPage(fatal: bool)
      requires Valid() && SendingPage() && Armed(state, sendq, wantWrite)
      requires log[|log| - 1].keep == keepalive && (fatal ==> Fatal(log[|log| - 1], cfg))
      modifies this, headers
      ensures Valid() && Grows() && Armed(state, sendq, wantWrite) && (fatal ==> !keepalive)
      ensures var taken := TakesAll(socket(old(sends)), |Output(old(log))| - |old(wire)|);
              && (Output(old(log)) <= wire <==> taken)
              && (fatal ==> (|log| == |old(log)| && Final() <==> !old(keepalive) || !taken))
      decreases |requestbuf|, 4, 0
    {
      hide Find, At, InputTracked, Logged, Balanced, LastKept, LastHasBody, HadFatal, Fatal, Output, KeepFits,
           VerdictOf, Idle, Receiving, SendingFile;
      FlushWriteBuf();
      PageIsTaken(old(wire), old(sendq), old(log), wire, socket(old(sends)));
      if fatal {
        FatalIsHad(old(log), cfg);
        HadFatalGrows(old(log), log, cfg);
        DisableKeepalive();
      }
    }

    method DisableKeepalive()
      requires Valid() && HadFatal(log, cfg)
      modifies this`keepalive
      ensures Valid() && Grows() && !keepalive
    {
      hide Find, At, InputTracked, Logged, Balanced, ParseBlock, HadFatal, VerdictOf, KeepAfter, LastKept,
           LastHasBody;
      keepalive := false;
    }

    /** Lines 389-421 of SendHeaders: the header fields of a response. */
    method FillHeaders(size: nat, rheaders: HTTPHeaders, ghost isFile: bool)
      modifies this`keepalive, rheaders
      ensures old(FromCore(rheaders.fields, size, isFile)) ==>
                && keepalive == old(keepalive)
                && HeadersDescribe(rheaders.fields, size, keepalive, if isFile then MimeOf(uri) else "text/html")
    {
      hide Decimal, MimeOf, Put, Get, HeadersDescribe, AllClean;
      MimeIsClean(uri);
      DistinctHeaderNames();
      var date := CurrentDate();
      ghost var fromCore := FromCore(rheaders.fields, size, isFile);
      if fromCore { StandardHeaders(rheaders.fields, date, size, !isFile); }
      rheaders.CreateHeader("Date", date);
      rheaders.CreateHeader("Server", "hottpd");
      rheaders.SetHeader("Content-Length", Decimal(size));
      if size > 0 && !rheaders.IsSet("Content-Type") {
        if fromCore { AddType(rheaders.fields, size, MimeOf(uri)); }
        rheaders.SetHeader("Content-Type", MimeOf(uri));
      } else if size == 0 {
        assert fromCore ==> rheaders.fields - {Lower("Content-Type")} == rheaders.fields;
        rheaders.RemoveHeader("Content-Type");
      }
      if fromCore { AddConnection(rheaders.fields, size, keepalive, if isFile then MimeOf(uri) else "text/html"); }
      if Lower(rheaders.GetHeader("Connection")) == "close" {
        keepalive := false;
      } else if keepalive {
        rheaders.SetHeader("Connection", "Keep-Alive");
      } else {
        rheaders.SetHeader("Connection", "Close");
      }
    }

    /** The bookkeeping for a head that has been queued. */
    ghost method Record(e: Exchange, queued: string)
      requires InputTracked(input, fed, blocks, requestbuf, cfg) && Logged(log, blocks, cfg)
      requires |blocks| == |log| + 1 == requestsCompleted + 1
      requires Balanced(wire, queued, "", log) && sendq == queued + Head(e.response)
      requires LastKept(log) && Justified(e, |log|, cfg)
      requires e.block == blocks[|log|] && e.keep == keepalive
      requires !e.keep && KeepAfter(|log|, ParseBlock(e.block), cfg) ==>
                 HadFatal(log, cfg) && !KeepStated(ParseBlock(e.block), cfg)
      requires !quitting && !ended && state == SEND_HEADERS
      modifies this`log, this`pending
      ensures Core() && Answered()
      ensures log == old(log) + [e] && pending == e.response.body
    {
      hide InputTracked, WellFormedLog, Output, Justified, KeepAfter, ParseBlock, HadFatal, Head;
      LogExtends(log, e, cfg);
      OutputAppend(log, e);
      log := log + [e];
      pending := e.response.body;
      assert wire + queued + "" + (Head(e.response) + pending) == wire + sendq + pending;
    }

    method WriteStatusLine(response: nat, rtext: string)
      modifies this`sendq, this`wantWrite
      ensures rtext == Reason(response) ==> sendq == old(sendq) + (StatusLine(httpVersion, response) + CRLF)
    {
      hide Decimal, Reason;
      if httpVersion == HTTP10 { Write("HTTP/1.0 "); } else { Write("HTTP/1.1 "); }
      Write(Decimal(response) + " " + rtext + CRLF);
    }

    /** Lines 382-424 of SendHeaders. The order is the one in which the fields are written. */
    method WriteHead(size: nat, response: nat, rtext: string, rheaders: HTTPHeaders, ghost isFile: bool)
      returns (ghost order: seq<Field>)
      requires rtext == Reason(response) && FromCore(rheaders.fields, size, isFile)
      modifies this`sendq, this`wantWrite, this`keepalive, rheaders
      ensures keepalive == old(keepalive) && wantWrite
      ensures sendq == old(sendq) + (StatusLine(httpVersion, response) + CRLF) + (FormatFields(order) + CRLF)
      ensures Enumerates(order, rheaders.fields)
      ensures HeadersDescribe(rheaders.fields, size, keepalive, if isFile then MimeOf(uri) else "text/html")
    {
      hide Reason, Enumerates, FormatFields, HeadersDescribe, MimeOf, StatusLine, FromCore;
      WriteStatusLine(response, rtext);
      FillHeaders(size, rheaders, isFile);
      var formatted := rheaders.GetFormattedHeaders();
      order :| Enumerates(order, rheaders.fields) && formatted == FormatFields(order);
      Write(formatted + CRLF);
    }

    /** Lines 380-424 of SendHeaders. */
    method QueueHead(size: nat, response: nat, rtext: string, rheaders: HTTPHeaders,
                     ghost body: string, ghost path: string, ghost answer: FileAnswer)
      requires Core() && Responding() && size == |body| && rtext == Reason(response)
      requires size == 0 ==> answer.Opened?
      requires Answers(blocks[|blocks| - 1], path, answer, response, body, cfg)
      requires answer.Opened? ==> path == uri
      requires rheaders.fields == if answer.Opened? then map[] else Put(map[], "Content-Type", "text/html")
      modifies this`state, this`sendq, this`wantWrite, this`keepalive, this`log, this`pending, rheaders
      ensures Core() && Answered() && state == SEND_HEADERS && pending == body && sendq != "" && wantWrite
      ensures old(log) <= log && |log| == |old(log)| + 1 && log[|old(log)|].keep == keepalive
      ensures Replies(log[|old(log)|], blocks[|blocks| - 1], response, body, path, answer)
    {
      hide Find, At, InputTracked, Logged, Balanced, ParseBlock, HadFatal, VerdictOf, Reason, Answers, KeepAfter,
           Enumerates, Head, FormatFields, Decimal, HeadersDescribe, Justified, Put, LastKept, Valid, MimeOf,
           IsBlock, StatusLine;
      ghost var block := blocks[|blocks| - 1];
      state := SEND_HEADERS;
      ghost var order := WriteHead(size, response, rtext, rheaders, answer.Opened?);
      BlocksAreBlocks(input, fed, blocks, requestbuf, cfg);
      ghost var r := Response(httpVersion, response, order, body);
      ghost var e := Exchange(block, keepalive, path, answer, r);
      ExchangeJustified(e, |log|, cfg, rheaders.fields);
      QueuedHead(old(sendq), r);
      Record(e, old(sendq));
    }

    method SendHeaders(size: nat, response: nat, rtext: string, rheaders: HTTPHeaders,
                       ghost body: string, ghost path: string, ghost answer: FileAnswer)
      requires Core() && Responding() && size == |body| && rtext == Reason(response)
      requires size == 0 ==> answer.Opened?
      requires Answers(blocks[|blocks| - 1], path, answer, response, body, cfg)
      requires answer.Opened? ==> path == uri
      requires rheaders != headers
      requires rheaders.fields == if answer.Opened? then map[] else Put(map[], "Content-Type", "text/html")
      modifies this, headers, rheaders
      ensures Grows() && Armed(state, sendq, wantWrite)
      ensures size == 0 ==> Valid()
      ensures size > 0 ==> Core() && Answered() && state == SEND_HEADERS && pending == body && sendq != ""
      ensures size > 0 ==> unchanged(`requestbuf, `wire, `sends, `blocks, `responseBackend, `responseBufferDone,
                                     `filefd, `rfilesize, `rfilesent)
      ensures size > 0 ==> |log| == |old(log)| + 1 && log[|old(log)|].keep == keepalive && LastHasBody(log)
      ensures |log| > |old(log)|
      ensures Replies(log[|old(log)|], old(blocks)[|old(blocks)| - 1], response, body, path, answer)
      decreases |requestbuf|, 2
    {
      hide Find, At, InputTracked, Logged, Balanced, ParseBlock, HadFatal, Answers, Put, LastKept, Valid;
      QueueHead(size, response, rtext, rheaders, body, path, answer);
      if size == 0 { EndRequest(); }
    }

    /** Lines 440-445 of EndRequest. */
    method Close()
      requires Core() && !keepalive && log != [] && (LastKept(log) ==> HadFatal(log, cfg))
      requires pending == "" && (sendq == "" <==> LastHasBody(log))
      modifies this`quitting, this`state, this`ended, this`unsent
      ensures Valid() && quitting && state == FINISHED && ended && unsent == sendq
    {
      hide Find, At, InputTracked, Logged, Balanced, LastHasBody, LastKept, HadFatal;
      ended, unsent := true, sendq;
      Delete();
    }

    /** Lines 447-464 of EndRequest. */
    method Reset()
      modifies this`verb, this`uri, this`uriquery, this`requestBody, this`httpVersion, this`requestBodyLength,
               this`state, this`responseBackend, this`responseBufferDone, this`rfilesize, this`rfilesent,
               this`filefd, headers
      ensures headers.fields == map[] && state == WAIT_REQUEST && httpVersion == UNSPECIFIED
      ensures verb == "" && uri == "" && uriquery == "" && requestBody == "" && requestBodyLength == 0
      ensures !responseBackend && !responseBufferDone && rfilesize == rfilesent == 0 && filefd == Closed
    {
      headers.Clear();
      verb, uri, uriquery, requestBody := "", "", "", "";
      httpVersion, requestBodyLength := UNSPECIFIED, 0;
      state := WAIT_REQUEST;
      responseBackend, responseBufferDone := false, false;
      rfilesize, rfilesent := 0, 0;
      filefd := Closed;
    }

    method EndRequest()
      requires Core() && Answered() && pending == "" && !quitting
      requires (sendq == "" <==> LastHasBody(log)) && (sendq != "" ==> wantWrite)
      modifies this, headers
      ensures Valid() && Grows() && Armed(state, sendq, wantWrite)
      // it closes the connection exactly when keepalive is off, and otherwise goes on to
      // the requests that are buffered
      ensures !old(keepalive) ==> quitting && ended && unsent == sendq && Still()
      ensures old(keepalive) && Find(old(requestbuf), TERMINATOR, 0) == -1 ==> state == WAIT_REQUEST && Still()
      ensures old(keepalive) && Find(old(requestbuf), TERMINATOR, 0) != -1 ==> |blocks| > |old(blocks)|
      ensures old(keepalive) ==> |log| > |old(log)| || state == WAIT_REQUEST || state == RECV_REQBODY
      decreases |requestbuf|, 1
    {
      hide Find, At, InputTracked, Logged, Balanced, ParseBlock, HadFatal, KeepFits, VerdictOf, KeepAfter,
           LastHasBody, LastKept, Receiving, SendingFile, SendingPage, Valid;
      requestsCompleted := requestsCompleted + 1;
      if !keepalive {
        Close();
        return;
      }
      TakeNext();
    }

    /** Lines 447-473 of EndRequest: the requests that are buffered already. */
    method TakeNext()
      requires Core() && !quitting && keepalive && LastKept(log) && pending == "" && (sendq != "" ==> wantWrite)
      requires |log| == |blocks| == requestsCompleted
      modifies this, headers
      ensures Valid() && Grows() && Armed(state, sendq, wantWrite)
      ensures Proceeds(old(requestbuf))
      decreases |requestbuf|, 0, 1
    {
      hide At, InputTracked, Logged, Balanced, ParseBlock, HadFatal, KeepFits, VerdictOf, KeepAfter, LastHasBody,
           LastKept, WantsBody, Settled, Receiving, SendingFile, SendingPage;
      Reset();
      if requestbuf != "" { CheckRequest(0); }
    }

    /** Line 486 of SendStaticData: the socket takes a part of the file. */
    method SendFromFile() returns (re: int)
      requires CursorFits() && filefd.Open? && pending != "" && Balanced(wire, "", pending, log)
      modifies this`wire, this`pending, this`rfilesent, this`sends
      ensures CursorFits() && Balanced(wire, "", pending, log)
      ensures var taken := Accepted(old(pending), socket(old(sends)));
              && wire == old(wire) + taken && pending == old(pending)[|taken|..]
              && rfilesent == old(rfilesent) + |taken|
      ensures sends == old(sends) + 1 && (re < 0 <==> socket(old(sends)).Refused?)
    {
      hide Balanced;
      var cursor;
      re, cursor := ServeFile(filefd, rfilesent, rfilesize, socket(sends));
      sends := sends + 1;
      BalancedFile(wire, filefd.data, rfilesent, cursor, log);
      wire := wire + filefd.data[rfilesent..cursor];
      FilePart(filefd.data, rfilesent, cursor, socket(sends - 1));
      pending := filefd.data[cursor..];
      rfilesent := cursor;
    }

    /** The socket has failed for good. */
    method GiveUp()
      requires Core() && sends > 0 && socket(sends - 1).Refused?
      modifies this`quitting, this`state
      ensures Valid() && quitting && state == FINISHED && Final()
    {
      hide InputTracked, Logged, Balanced, LastKept, LastHasBody, HadFatal;
      Delete();
    }

    /** SocketEngine::WantWrite, for the rest of the file. */
    method AwaitWrite()
      requires Core() && SendingFile() && state == SEND_DATA
      modifies this`wantWrite
      ensures Valid() && wantWrite && (!keepalive ==> Final())
    {
      hide InputTracked, Logged, Balanced, LastKept, LastHasBody, HadFatal;
      wantWrite := true;
    }

    lemma QuittingIsFinal()
      ensures quitting ==> Final()
    {
    }

    method SendStaticData()
      requires Core() && Answered() && CursorFits() && state == SEND_DATA && sendq == ""
      requires filefd.Open? && pending != "" && responseBackend && !responseBufferDone
      requires LastHasBody(log) && !quitting
      modifies this, headers
      ensures Valid() && Grows() && Armed(state, sendq, wantWrite)
      ensures Asked(old(pending)) && (!old(keepalive) ==> Still() && Final())
      // a part of the file leaves the rest pending, and behind all of it the request is over
      ensures var taken := Accepted(old(pending), socket(old(sends)));
              if taken != old(pending) then
                !socket(old(sends)).Refused? ==> state == SEND_DATA && pending == old(pending)[|taken|..]
              else if old(keepalive) then |log| > |old(log)| || state == WAIT_REQUEST || state == RECV_REQBODY
              else quitting && ended
      decreases |requestbuf|, 2
    {
      hide Find, InputTracked, Logged, Balanced, ParseBlock, HadFatal, LastKept, LastHasBody, Idle, Receiving,
           SendingPage, Valid, Final;
      // the backend is never asked without an open file
      if filefd.Closed? { assert false; }
      var re := SendFromFile();
      if re < 0 {
        GiveUp();
      } else if rfilesent == rfilesize {
        EndRequest();
        QuittingIsFinal();
      } else {
        AwaitWrite();
      }
    }

    /** Lines 149-176 of FlushWriteBuf: the socket takes a part of the queue. */
    method SendQueued() returns (n: int, again: bool)
      requires Balanced(wire, sendq, pending, log)
      modifies this`sendq, this`wire, this`sends, this`wantWrite
      ensures Balanced(wire, sendq, pending, log) && sends == old(sends) + 1
      ensures var answer := socket(old(sends));
              var taken := Accepted(old(sendq), answer);
              && wire == old(wire) + taken && sendq == old(sendq)[|taken|..]
              && (n == if answer.Took? then |taken| else -1) && (again <==> answer.Again?)
      ensures (n == -1 ==> again) && sendq != "" ==> wantWrite
    {
      hide Balanced;
      n, again := Send(|sendq|, socket(sends));
      sends := sends + 1;
      if n == -1 {
        if again { wantWrite := true; }
      } else {
        if n != |sendq| { wantWrite := true; }
        BalancedSend(wire, sendq, pending, log, n);
        wire := wire + sendq[..n];
        sendq := sendq[n..];
      }
    }

    lemma NothingQueued()
      requires Valid() && sendq == ""
      ensures Core() && Drained()
    {
      hide Find, At, InputTracked, Logged, Balanced, ParseBlock, HadFatal, VerdictOf, KeepFits, LastKept, LastHasBody;
    }

    method FlushQueue() returns (gone: bool)
      requires Valid() && sendq != ""
      modifies this`sendq, this`wire, this`sends, this`wantWrite, this`quitting, this`state
      ensures Core() && GivesUpForCause() && sends == old(sends) + 1
      ensures var taken := Accepted(old(sendq), socket(old(sends)));
              wire == old(wire) + taken && sendq == old(sendq)[|taken|..]
      ensures gone <==> socket(old(sends)).Refused?
      ensures gone ==> quitting
      ensures if gone || sendq != "" then Valid() else Drained() && (state == SEND_DATA ==> PageSent())
      ensures !gone ==> state == old(state) && quitting == old(quitting) && (sendq != "" ==> wantWrite)
    {
      hide Find, At, InputTracked, Logged, Balanced, ParseBlock, HadFatal, VerdictOf, KeepFits, LastKept, LastHasBody;
      var n, again := SendQueued();
      gone := n == -1 && !again;
      if gone { Delete(); }
    }

    method FlushWriteBuf()
      requires Valid()
      modifies this, headers
      ensures Valid() && Grows()
      ensures old(sendq) != "" ==> Asked(old(sendq)) && Armed(state, sendq, wantWrite)
      ensures var taken := Accepted(old(sendq), socket(old(sends)));
              |taken| < |old(sendq)| ==> sendq == old(sendq)[|taken|..] && pending == old(pending)
      ensures old(state) == WAIT_REQUEST || old(state) == RECV_REQBODY ==> Armed(state, sendq, wantWrite)
      ensures old(Final()) ==> Still() && Final()
      // a page that is not sent completely stays the response under way; behind a page that
      // is, the request is over
      ensures old(SendingPage()) && !(Output(old(log)) <= wire) ==>
                Still() && keepalive == old(keepalive) && (quitting || state == SEND_DATA)
      ensures old(SendingPage()) && Output(old(log)) <= wire && old(keepalive) ==>
                |log| > |old(log)| || state == WAIT_REQUEST || state == RECV_REQBODY
      decreases |requestbuf|, 3
    {
      hide InputTracked, Logged, Balanced, ParseBlock, HadFatal, LastKept, LastHasBody, Output, Valid, Drained;
      var gone := false;
      if sendq != "" { gone := FlushQueue(); } else { NothingQueued(); }
      if pending == "" { BalancedAll(wire, sendq, log); }
      if !gone && sendq == "" { GoOn(); }
    }

    /** Lines 179-193 of FlushWriteBuf: what follows once the queue is empty. */
    method GoOn()
      requires Core() && Drained()
      modifies this, headers
      ensures Valid() && Grows()
      ensures old(state) != SEND_DATA || old(responseBufferDone) ==> Armed(state, sendq, wantWrite)
      ensures old(state) == SEND_HEADERS ==> Asked(old(pending))
      ensures old(Final()) ==> Still() && Final()
      ensures old(keepalive) && old(PageSent()) ==>
                |log| > |old(log)| || state == WAIT_REQUEST || state == RECV_REQBODY
      decreases |requestbuf|, 3, 0
    {
      hide Find, At, InputTracked, Logged, Balanced, ParseBlock, HadFatal, VerdictOf, KeepAfter, KeepFits, LastKept,
           LastHasBody;
      if state == SEND_DATA && responseBufferDone {
        EndRequest();
      } else if state == SEND_HEADERS && responseBackend {
        state := SEND_DATA;
        SendStaticData();
      }
    }

    /** Lines 95-104 of AddBuffer: the body takes what it still needs, and a chunk that
        reaches beyond the body enters the request buffer as a whole. */
    method ReceiveBody(a: string)
      requires Core() && Receiving()
      modifies this`requestBody, this`requestbuf, this`input, this`fed
      ensures InputTracked(input, fed, blocks, requestbuf, cfg) && input == old(input) + a
      ensures |requestBody| == (if |a| <= requestBodyLength - old(|requestBody|) then old(|requestBody|) + |a|
                                else requestBodyLength)
      ensures old(requestBody) <= requestBody <= old(requestBody) + a
      ensures fed == old(fed) + (if |a| <= requestBodyLength - old(|requestBody|) then "" else a)
      ensures requestbuf == old(requestbuf) + (if |a| <= requestBodyLength - old(|requestBody|) then "" else a)
      // what is buffered is what the body does not need, as the comment promises, exactly
      // when the chunk does not reach beyond the body
      ensures var remains := requestBodyLength - old(|requestBody|);
              requestbuf == old(requestbuf) + (if remains < |a| then a[remains..] else "") <==> |a| <= remains
    {
      hide Find, At, InputTracked, Logged, Balanced, ParseBlock, HadFatal, VerdictOf, KeepFits, LastKept,
           LastHasBody;
      var remains := requestBodyLength - |requestBody|;
      NotBodyFree(blocks, cfg);
      MoreInput(input, fed, blocks, requestbuf, cfg, a, if remains < |a| then a else "");
      input := input + a;
      if remains < |a| {
        assert |requestbuf + a[remains..]| < |requestbuf + a|;
        requestBody := requestBody + a[..remains];
        requestbuf := requestbuf + a;
        fed := fed + a;
      } else {
        requestBody := requestBody + a;
        assert fed + "" == fed && requestbuf + "" == requestbuf;
      }
    }

    /** Takes what was read; false means that too much is buffered. */
    method AddBuffer(a: string) returns (ok: bool)
      requires Valid() && !quitting && Armed(state, sendq, wantWrite)
      modifies this, headers
      ensures input == old(input) + a
      ensures old(wire) <= wire && old(blocks) <= blocks && old(log) <= log
      ensures old(state) == RECV_REQBODY ==>
                fed == old(fed) + (if |a| <= old(requestBodyLength) - |old(requestBody)| then "" else a)
      ensures old(state) != RECV_REQBODY ==> fed == old(fed) + a
      ensures old(Final()) ==> log == old(log) && blocks == old(blocks) && Final()
      ensures !ok ==> |requestbuf| > 5120
      ensures ok && old(state) != RECV_REQBODY && a != "" ==> |requestbuf| <= 5120
      ensures GivesUpForCause()
      ensures Valid() && Armed(state, sendq, wantWrite)
      ensures old(state) == WAIT_REQUEST ==> Proceeds(old(requestbuf) + a)
    {
      hide Find, At, InputTracked, Logged, Balanced, ParseBlock, HadFatal, VerdictOf, KeepFits, KeepAfter, LastKept,
           LastHasBody, Answers, WantsBody, Settled, Uri.Canonical;
      if a == "" {
        assert input + a == input && fed + a == fed && requestbuf + a == requestbuf;
        return true;
      }
      if state == RECV_REQBODY {
        ReceiveBody(a);
        if |requestBody| == requestBodyLength {
          ServeData();
          return true;
        }
      } else {
        BufferRequest(a);
      }
      return |requestbuf| <= 5120;
    }

    /** Lines 117-126 of AddBuffer. */
    method BufferRequest(a: string)
      requires Valid() && !quitting && state != RECV_REQBODY && Armed(state, sendq, wantWrite)
      modifies this, headers
      ensures Valid() && Armed(state, sendq, wantWrite) && input == old(input) + a && fed == old(fed) + a
      ensures old(wire) <= wire && old(blocks) <= blocks && old(log) <= log && GivesUpForCause()
      ensures old(state) == WAIT_REQUEST ==> Proceeds(old(requestbuf) + a)
      ensures old(Final()) ==> log == old(log) && blocks == old(blocks) && Final()
    {
      hide Find, At, InputTracked, Logged, Balanced, ParseBlock, HadFatal, VerdictOf, KeepFits, KeepAfter, LastKept,
           LastHasBody, WantsBody, Settled;
      var nspos := |requestbuf|;
      MoreInput(input, fed, blocks, requestbuf, cfg, a, a);
      if state == WAIT_REQUEST { NoTerminatorInFront(requestbuf, a); }
      input, fed := input + a, fed + a;
      requestbuf := requestbuf + a;
      if state == WAIT_REQUEST { CheckRequest(nspos); }
    }

    method ReadData(result: ReadResult)
      requires Valid() && !quitting && Armed(state, sendq, wantWrite)
      modifies this, headers
      ensures Valid() && Armed(state, sendq, wantWrite)
      ensures input == old(input) + (if result.Received? then CutAtNul(result.bytes) else "")
      ensures old(wire) <= wire && old(blocks) <= blocks && old(log) <= log
      ensures result.EndOfStream? || result.Failed? ==> quitting
      ensures quitting ==> ended || dropped || Refusal(socket, old(sends), sends)
      ensures dropped ==>
                old(dropped) || (quitting && (result.EndOfStream? || result.Failed? || |requestbuf| > 5120))
      ensures old(Final()) ==> log == old(log) && blocks == old(blocks) && Final()
      ensures result.Again? ==> unchanged(this)
      ensures result.Received? && CutAtNul(result.bytes) != "" && old(state) != RECV_REQBODY ==>
                |requestbuf| <= 5120 || quitting
    {
      hide Find, At, InputTracked, Logged, Balanced, HadFatal, LastKept, LastHasBody, WantsBody, Settled, Idle,
           Receiving, SendingFile, SendingPage, CutAtNul;
      match result {
        case Received(bytes) =>
          var ok := AddBuffer(CutAtNul(bytes));
          if !ok {
            dropped := true;
            Delete();
          }
        case EndOfStream =>
          dropped := true;
          Delete();
        case Again =>
        case Failed =>
          dropped := true;
          Delete();
      }
    }

    /** Lines 208-213 of HandleEvent. The socket engine has gone back to waiting for reads. */
    method HandleWrite()
      requires Valid()
      modifies this, headers
      ensures Valid() && Grows() && Armed(state, sendq, wantWrite)
      ensures old(Final()) ==> Still() && Final()
      ensures old(Offered()) != "" ==> Asked(old(Offered()))
    {
      hide Find, At, InputTracked, Logged, Balanced, ParseBlock, HadFatal, VerdictOf, KeepFits, LastKept,
           LastHasBody;
      wantWrite := false;
      if state == SEND_DATA && responseBackend {
        SendStaticData();
      } else {
        FlushWriteBuf();
      }
    }

    /** One event of the socket engine, where reads of a connection that is being deleted
        are dropped. */
    method HandleEvent(event: Event)
      requires Valid() && Armed(state, sendq, wantWrite)
      modifies this, headers
      ensures Valid()
      // nothing stalls: whatever the socket left behind, a write event has been asked for
      ensures Armed(state, sendq, wantWrite)
      ensures input == old(input) + (if old(quitting) then "" else Chunk(event))
      ensures old(wire) <= wire && old(blocks) <= blocks && old(log) <= log && (old(quitting) ==> quitting)
      // a writable socket is offered what is to be sent next
      ensures event.WriteReady? ==> Grows() && (old(Offered()) != "" ==> Asked(old(Offered())))
      // the connection is given up if the client hangs up, and only then, where too much is
      // buffered, where a send fails for good, or where EndRequest closes it
      ensures HangsUp(event) ==> quitting
      ensures quitting ==> old(quitting) || ended || dropped || Refusal(socket, old(sends), sends)
      ensures dropped ==> old(dropped) || (quitting && (HangsUp(event) || |requestbuf| > 5120))
      ensures old(quitting) ==> requestbuf == old(requestbuf)
      // behind the last response nothing is taken or answered any more
      ensures old(Final()) ==> log == old(log) && blocks == old(blocks) && Final()
    {
      hide Find, InputTracked, Logged, Balanced, Idle, Receiving, CutAtNul;
      assert input + "" == input;
      match event {
        case ReadReady(result) =>
          if !quitting { ReadData(result); }
        case WriteReady =>
          HandleWrite();
        case ErrorEvent =>
          dropped := true;
          Delete();
      }
    }
  }

  lemma SliceOfPrefix(s: string, n: nat, lo: nat, hi: nat)
    requires lo <= hi <= n <= |s|
    ensures s[lo..hi] == s[..n][lo..hi]
  {
  }

  /** What ParseFields does with the line between hbegin and hend. */
  lemma FieldsStep(acc: HeaderMap, block: string, hbegin: nat, hend: nat)
    requires hbegin <= hend <= |block| && Find(block[hbegin..], CRLF, 0) == hend - hbegin
    ensures hend + 2 <= |block|
    ensures hend == hbegin ==> ParseFields(acc, block[hbegin..]) == Some(acc)
    ensures hend > hbegin ==>
              ParseFields(acc, block[hbegin..]) == match ParseField(block[hbegin..hend])
                case None => None
                case Some(f) => ParseFields(Put(acc, f.name, f.value), block[hend + 2..])
  {
    hide Find, Put, ParseField;
    var text := block[hbegin..];
    assert text[..hend - hbegin] == block[hbegin..hend];
    assert text[hend - hbegin + 2..] == block[hend + 2..];
  }

  /** Searching the whole buffer for the next line end finds the one in the block. */
  lemma BlockLine(buf: string, reqend: nat, hbegin: nat)
    requires Find(buf, TERMINATOR, 0) == reqend
    requires hbegin <= reqend || hbegin == reqend + 2
    ensures var block := buf[..reqend + 4];
            var hend := Find(buf, CRLF, hbegin);
            && hend == hbegin + Find(block[hbegin..], CRLF, 0)
            && (hbegin <= reqend ==> hbegin <= hend <= reqend && hend != reqend - 1)
            && (hbegin == reqend + 2 ==> hend == hbegin)
  {
    hide Find;
    var block := buf[..reqend + 4];
    AtTerminator(buf, reqend);
    var last := if hbegin <= reqend then reqend else reqend + 2;
    var hend := Find(buf, CRLF, hbegin);
    assert hbegin <= hend <= last;
    assert block[hbegin..] == buf[hbegin..reqend + 4];
    AtSlice(buf, hbegin, reqend + 4, CRLF, hend - hbegin);
    forall j | 0 <= j < hend - hbegin ensures !At(block[hbegin..], CRLF, j) {
      AtSlice(buf, hbegin, reqend + 4, CRLF, j);
    }
    FindIs(block[hbegin..], CRLF, 0, hend - hbegin);
    AtCrlf(buf, reqend);
    AtCrlf(buf, reqend - 1);
  }
}
