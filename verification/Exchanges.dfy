/** What one request is answered with, which logs of exchanges a connection may build,
    and what a client can read off the bytes of such a log. */
module Exchanges {
  import opened Text
  import opened Headers
  import opened Requests
  import FS = FileSystem
  import Uri

  datatype Config = Config(keepAliveMax: int, maxPostBody: int, docRoot: string)

  /** The file system's answer: the path check failed, open failed for the path that was
      found, or the bytes of the file there. */
  datatype FileAnswer =
    | NotAsked
    | NoPath(errno: FS.Errno)
    | NoOpen(found: string, errno: FS.Errno)
    | Opened(found: string, data: string)

  // ---------- the decision ----------

  /** What CheckRequest does with a well-formed head. */
  datatype Verdict = Fail(status: nat) | ReadBody(length: nat) | Serve

  /** Conversion to a 32-bit unsigned int. */
  function Unsigned(v: int): nat { v % 0x1_0000_0000 }

  function BodyLength(r: Request): nat {
    if Has(r.headers, "Content-Length") then Unsigned(Atoi(Get(r.headers, "Content-Length"))) else 0
  }

  /** The checks in their order; verb is in upper case. */
  function Decide(announced: bool, length: nat, limit: nat, encoded: bool, verb: string): Verdict {
    if announced && length > limit then Fail(413)
    else if encoded then Fail(500)
    else if length > 0 then
      if verb != "POST" then Fail(500) else ReadBody(length)
    else if verb != "GET" && verb != "POST" then Fail(501)
    else Serve
  }

  function VerdictOf(r: Request, cfg: Config): Verdict {
    Decide(Has(r.headers, "Content-Length"), BodyLength(r), Unsigned(cfg.maxPostBody),
           Has(r.headers, "Transfer-Encoding"), Upper(r.verb))
  }

  predicate WantsBody(block: string, cfg: Config) {
    ParseBlock(block).code == 0 && VerdictOf(ParseBlock(block).request, cfg).ReadBody?
  }

  /** keepalive when the response head is written, if it was on when the block was taken. */
  function KeepAfter(completed: int, o: Outcome, cfg: Config): bool {
    var v := !(o.request.version == HTTP10 && completed == 0);
    var connection := Lower(Get(o.request.headers, "Connection"));
    if o.code != 0 then v
    else if completed + 1 >= cfg.keepAliveMax then false
    else if connection == "close" then false
    else if connection == "keep-alive" then true
    else v
  }

  /** The request itself asks for keepalive, which overrides what came before, and it is
      answered at once: while a body is awaited keepalive may still be switched off. */
  predicate KeepStated(o: Outcome, cfg: Config) {
    && o.code == 0 && Lower(Get(o.request.headers, "Connection")) == "keep-alive"
    && !VerdictOf(o.request, cfg).ReadBody?
  }

  function StatusOf(a: FileAnswer): nat {
    match a
    case NotAsked => 500
    case NoPath(e) => if e.EACCES? then 403 else if e.OTHER? then 500 else 404
    case NoOpen(_, e) => if e.EACCES? then 403 else if e.ENOENT? || e.ENOTDIR? then 404 else 500
    case Opened(_, _) => 200
  }

  predicate Saw(docRoot: string, path: string, found: FS.Found, obs: map<string, FS.StatResult>) {
    path != "" && FS.Lookup(docRoot, path, FS.Observed(obs)) == found
  }

  /** A walk along the path may find this, depending on what stat says of the prefixes. */
  ghost predicate MayFind(docRoot: string, path: string, found: FS.Found) {
    exists obs :: Saw(docRoot, path, found, obs)
  }

  lemma SeenIsFound(docRoot: string, path: string, found: FS.Found, obs: map<string, FS.StatResult>)
    requires Saw(docRoot, path, found, obs)
    ensures MayFind(docRoot, path, found)
  {
  }

  /** The answer comes from a walk along the path. */
  ghost predicate Located(docRoot: string, path: string, answer: FileAnswer) {
    match answer
    case NotAsked => true
    case NoPath(e) => MayFind(docRoot, path, FS.NotFound(e))
    case NoOpen(p, _) => MayFind(docRoot, path, FS.Path(p))
    case Opened(p, _) => MayFind(docRoot, path, FS.Path(p))
  }

  // ---------- responses ----------

  function Reason(status: nat): string {
    if status == 200 then "OK"
    else if status == 400 then "Bad Request"
    else if status == 403 then "Forbidden"
    else if status == 404 then "File Not Found"
    else if status == 413 then "Request Entity Too Large"
    else if status == 501 then "Not Implemented"
    else if status == 505 then "Version Not Supported"
    else "Internal Server Error"
  }

  /** The phrases that the client reads. */
  lemma Reasons()
    ensures Reason(200) == "OK" && Reason(400) == "Bad Request" && Reason(403) == "Forbidden"
    ensures Reason(404) == "File Not Found" && Reason(413) == "Request Entity Too Large"
    ensures Reason(500) == "Internal Server Error" && Reason(501) == "Not Implemented"
    ensures Reason(505) == "Version Not Supported"
  {
  }

  function ErrorPage(text: string): string {
    "<html><head></head><body>" + text + "<br><small>Powered by Hottpd</small></body></html>"
  }

  /** The registered type of the characters behind the last dot. */
  function MimeOf(uri: string): string {
    var p := Rfind(uri, '.', |uri|);
    var ext := if p == -1 then "" else uri[p + 1..];
    if p == -1 then "application/x-octet-stream"
    else if ext == "jpg" then "image/jpeg"
    else if ext == "gif" then "image/gif"
    else if ext == "css" || ext == "php" || ext == "htm" || ext == "html" then "text/html"
    else "application/x-octet-stream"
  }

  datatype Response = Response(version: Version, status: nat, fields: seq<Field>, body: string)

  function StatusLine(version: Version, status: nat): string {
    (if version == HTTP10 then "HTTP/1.0 " else "HTTP/1.1 ") + Decimal(status) + " " + Reason(status)
  }

  function Head(r: Response): string {
    StatusLine(r.version, r.status) + CRLF + FormatFields(r.fields) + CRLF
  }

  function Bytes(r: Response): string { Head(r) + r.body }

  /** A field whose line cannot be torn apart: no colon in the name, no CR anywhere. */
  predicate Clean(f: Field) {
    f.name != "" && ':' !in f.name && '\r' !in f.name && '\r' !in f.value
  }

  ghost predicate AllClean(m: HeaderMap) { forall k :: k in m ==> Clean(m[k]) }

  /** The fields of a response with a body of this size and type. */
  ghost predicate HeadersDescribe(m: HeaderMap, size: nat, keep: bool, ctype: string) {
    && m.Keys == {Lower("Date"), Lower("Server"), Lower("Content-Length"), Lower("Connection")}
               + (if size > 0 then {Lower("Content-Type")} else {})
    && Get(m, "Server") == "hottpd"
    && Get(m, "Content-Length") == Decimal(size)
    && Get(m, "Connection") == (if keep then "Keep-Alive" else "Close")
    && (size > 0 ==> Get(m, "Content-Type") == ctype)
    && AllClean(m)
  }

  ghost predicate WellFramed(r: Response, keep: bool, ctype: string) {
    var m := PutAll(map[], r.fields);
    Enumerates(r.fields, m) && HeadersDescribe(m, |r.body|, keep, ctype)
  }

  // ---------- exchanges ----------

  /** One request block with its response: keepalive when the head was written, the
      path asked for, and the file system's answer. */
  datatype Exchange = Exchange(block: string, keep: bool, path: string, answer: FileAnswer, response: Response)

  /** What the file system is asked for. */
  function AskedPath(r: Request, cfg: Config): string {
    if VerdictOf(r, cfg).ReadBody? then r.uri else Uri.Canonical(r.uri)
  }

  /** The status line and the body are the ones this block calls for. */
  ghost predicate Answers(block: string, path: string, answer: FileAnswer, status: nat, body: string, cfg: Config) {
    var o := ParseBlock(block);
    && status == (if o.code != 0 then o.code else match VerdictOf(o.request, cfg)
                    case Fail(s) => s
                    case _ => StatusOf(answer))
    && (if o.code == 0 && !VerdictOf(o.request, cfg).Fail? then
          answer != NotAsked && path == AskedPath(o.request, cfg) && Located(cfg.docRoot, path, answer)
        else answer == NotAsked)
    && body == (if answer.Opened? then answer.data else ErrorPage(Reason(status)))
  }

  ghost predicate Justified(e: Exchange, completed: nat, cfg: Config) {
    var o := ParseBlock(e.block);
    && IsBlock(e.block)
    && (e.keep ==> KeepAfter(completed, o, cfg))
    && e.response.version == o.request.version
    && Answers(e.block, e.path, e.answer, e.response.status, e.response.body, cfg)
    && WellFramed(e.response, e.keep, if e.answer.Opened? then MimeOf(e.path) else "text/html")
  }

  /** An error response after which SendError switches keepalive off. */
  predicate Fatal(e: Exchange, cfg: Config) {
    var o := ParseBlock(e.block);
    o.code == 0 && VerdictOf(o.request, cfg).Fail?
  }

  ghost predicate HadFatal(log: seq<Exchange>, cfg: Config) {
    exists j :: 0 <= j < |log| && Fatal(log[j], cfg)
  }

  /** Every response is the one its request calls for; all but the last were sent with
      keepalive on; and keepalive was off only for a reason that the request or the limit
      gives, unless a fatal error came before and the request does not ask for keepalive. */
  ghost predicate WellFormedLog(log: seq<Exchange>, cfg: Config) {
    && (forall k :: 0 <= k < |log| ==> Justified(log[k], k, cfg))
    && (forall k :: 0 <= k < |log| - 1 ==> log[k].keep)
    && (forall k :: 0 <= k < |log| && !log[k].keep && KeepAfter(k, ParseBlock(log[k].block), cfg)
          ==> HadFatal(log[..k], cfg) && !KeepStated(ParseBlock(log[k].block), cfg))
  }

  function Output(log: seq<Exchange>): string {
    if log == [] then "" else Bytes(log[0].response) + Output(log[1..])
  }

  /** The three parts of a status line. */
  datatype Status = Status(version: string, code: int, phrase: string)

  /** What a client is to make of the output: one status, one head and one body a response. */
  datatype Message = Message(status: Status, head: string, body: string)

  function StatusOfResponse(r: Response): Status {
    Status(if r.version == HTTP10 then "HTTP/1.0" else "HTTP/1.1", r.status, Reason(r.status))
  }

  function MessageOf(r: Response): Message { Message(StatusOfResponse(r), Head(r), r.body) }

  function Messages(log: seq<Exchange>): (r: seq<Message>)
    ensures |r| == |log| && forall k :: 0 <= k < |log| ==> r[k] == MessageOf(log[k].response)
  {
    if log == [] then [] else [MessageOf(log[0].response)] + Messages(log[1..])
  }

  lemma {:induction false} OutputAppend(log: seq<Exchange>, e: Exchange)
    ensures Output(log + [e]) == Output(log) + Bytes(e.response)
  {
    if log == [] {
      assert log + [e] == [e];
      assert Output([e]) == Bytes(e.response) + Output([e][1..]);
    } else {
      assert (log + [e])[1..] == log[1..] + [e];
      OutputAppend(log[1..], e);
    }
  }

  /** Appending one justified exchange to a well-formed log keeps it well-formed. */
  lemma LogExtends(log: seq<Exchange>, e: Exchange, cfg: Config)
    requires WellFormedLog(log, cfg) && Justified(e, |log|, cfg)
    requires log != [] ==> log[|log| - 1].keep
    requires !e.keep && KeepAfter(|log|, ParseBlock(e.block), cfg) ==>
               HadFatal(log, cfg) && !KeepStated(ParseBlock(e.block), cfg)
    ensures WellFormedLog(log + [e], cfg)
  {
    hide Justified, HadFatal, KeepAfter, KeepStated, ParseBlock;
    var ext := log + [e];
    forall k | 0 <= k < |ext| && !ext[k].keep && KeepAfter(k, ParseBlock(ext[k].block), cfg)
      ensures HadFatal(ext[..k], cfg) && !KeepStated(ParseBlock(ext[k].block), cfg)
    {
      assert ext[..k] == log[..k];
      assert k == |log| ==> log[..k] == log;
    }
  }

  // ---------- what the bytes say ----------

  function HeadFields(head: string): Option<HeaderMap> {
    var line := Find(head, CRLF, 0);
    if line == -1 then None else ParseFields(map[], head[line + 2..])
  }

  /** RFC 2616 section 6.1: the version up to the first blank, the code up to the second, and
      the phrase behind it. */
  function ReadStatus(line: string): Option<Status> {
    var first := Find(line, " ", 0);
    if first == -1 then None
    else
      var second := Find(line, " ", first + 1);
      if second == -1 then None
      else Some(Status(line[..first], Atoi(line[first + 1..second]), line[second + 1..]))
  }

  function HeadStatus(head: string): Option<Status> {
    var line := Find(head, CRLF, 0);
    if line == -1 then None else ReadStatus(head[..line])
  }

  /** The first message, if it is complete: its head reaches to the blank line, and its body
      is as long as Content-Length says. */
  function ReadFirst(s: string): (r: Option<Message>)
    ensures r.Some? ==> 4 <= |r.value.head| && |r.value.head| + |r.value.body| <= |s|
  {
    var end := Find(s, TERMINATOR, 0);
    if end == -1 then None
    else
      var head := s[..end + 4];
      var status, fields := HeadStatus(head), HeadFields(head);
      if status == None || fields == None then None
      else
        var n := Atoi(Get(fields.value, "Content-Length"));
        if n < 0 || end + 4 + n > |s| then None else Some(Message(status.value, head, s[end + 4..end + 4 + n]))
  }

  /** A client: all the messages that are complete. */
  function ClientRead(s: string): seq<Message>
    decreases |s|
  {
    match ReadFirst(s)
    case None => []
    case Some(m) => [m] + ClientRead(s[|m.head| + |m.body|..])
  }

  lemma NoCrNoCrlf(s: string)
    requires '\r' !in s
    ensures Find(s, CRLF, 0) == -1
  {
    forall k | 0 <= k ensures !At(s, CRLF, k) { AtCrlf(s, k); }
  }

  lemma CleanIsPrintable(f: Field)
    requires Clean(f)
    ensures Printable(f) && '\r' !in FieldLine(f)
  {
    assert forall c :: c in FieldLine(f) ==> c in f.name || c in ": " || c in f.value;
    NoCrNoCrlf(FieldLine(f));
  }

  lemma StatusLineHasNoCr(version: Version, status: nat)
    ensures '\r' !in StatusLine(version, status) && StatusLine(version, status) != ""
  {
    assert '\r' !in Decimal(status);
    ReasonHasNoCr(status);
    hide Reason, Decimal;
    assert '\r' !in (if version == HTTP10 then "HTTP/1.0 " else "HTTP/1.1 ");
  }

  lemma ReasonHasNoCr(status: nat)
    ensures '\r' !in Reason(status)
  {
    hide Reason;
    if status <= 403 { LowReason(status); } else { HighReason(status); }
  }

  lemma LowReason(status: nat)
    requires status <= 403
    ensures '\r' !in Reason(status)
  {
    if status == 200 {} else if status == 400 {} else if status == 403 {}
  }

  lemma HighReason(status: nat)
    requires status > 403
    ensures '\r' !in Reason(status)
  {
    if status == 404 {} else if status == 413 {} else if status == 501 {} else if status == 505 {}
  }

  /** The head of a response is one block, and its fields are read back from it. */
  lemma HeadParses(r: Response)
    requires r.fields != [] && forall i :: 0 <= i < |r.fields| ==> Clean(r.fields[i])
    ensures IsBlock(Head(r))
    ensures HeadFields(Head(r)) == Some(PutAll(map[], r.fields))
  {
    hide StatusLine, FormatFields;
    var line := StatusLine(r.version, r.status);
    var rest := FormatFields(r.fields) + CRLF;
    var head := Head(r);
    assert head == line + CRLF + rest;
    StatusLineHasNoCr(r.version, r.status);
    NoCrNoCrlf(line);
    LineEnd(line, rest);
    assert head[|line| + 2..] == rest;
    forall i | 0 <= i < |r.fields| ensures Printable(r.fields[i]) { CleanIsPrintable(r.fields[i]); }
    FormattedFieldsParse(map[], r.fields);
    HeadIsBlock(line, r.fields);
  }

  lemma BlankAt(s: string, k: int)
    ensures At(s, " ", k) <==> 0 <= k < |s| && s[k] == ' '
  {
    if 0 <= k < |s| { assert s[k..k + 1] == [s[k]]; }
  }

  /** Words without blanks are cut at the blanks between them. */
  lemma ReadsThreeParts(version: string, code: string, phrase: string)
    requires ' ' !in version && ' ' !in code
    ensures ReadStatus(version + " " + code + " " + phrase) == Some(Status(version, Atoi(code), phrase))
  {
    hide Find, At, Atoi;
    var line := version + " " + code + " " + phrase;
    var a := |version|;
    var b := a + 1 + |code|;
    assert line[a] == ' ' == line[b] && line[..a] == version && line[a + 1..b] == code && line[b + 1..] == phrase;
    forall k | 0 <= k < b && k != a ensures !At(line, " ", k) {
      BlankAt(line, k);
      assert if k < a then line[k] == version[k] else line[k] == code[k - a - 1];
    }
    BlankAt(line, a);
    BlankAt(line, b);
    FindIs(line, " ", 0, a);
    FindIs(line, " ", a + 1, b);
  }

  /** The status line is read back: the version in its own words, the code and the phrase. */
  lemma HeadStatusIs(r: Response)
    ensures HeadStatus(Head(r)) == Some(StatusOfResponse(r))
  {
    hide StatusLine, FormatFields, ReadStatus, Find, Reason;
    var line := StatusLine(r.version, r.status);
    var rest := FormatFields(r.fields) + CRLF;
    assert Head(r) == line + CRLF + rest;
    StatusLineHasNoCr(r.version, r.status);
    NoCrNoCrlf(line);
    LineEnd(line, rest);
    assert Head(r)[..|line|] == line;
    StatusLineReads(r.version, r.status);
  }

  lemma StatusLineReads(version: Version, status: nat)
    ensures ReadStatus(StatusLine(version, status))
         == Some(Status(if version == HTTP10 then "HTTP/1.0" else "HTTP/1.1", status, Reason(status)))
  {
    hide ReadStatus, Reason, Decimal, Atoi;
    var text, code := if version == HTTP10 then "HTTP/1.0" else "HTTP/1.1", Decimal(status);
    assert ' ' !in text && ' ' !in code;
    ReadsThreeParts(text, code, Reason(status));
    AtoiDecimal(status);
    assert StatusLine(version, status) == text + " " + code + " " + Reason(status);
  }

  /** A well-framed response announces the length of its body. */
  lemma FramedHead(r: Response, keep: bool, ctype: string)
    requires WellFramed(r, keep, ctype)
    ensures IsBlock(Head(r)) && HeadFields(Head(r)) == Some(PutAll(map[], r.fields))
    ensures Atoi(Get(HeadFields(Head(r)).value, "Content-Length")) == |r.body|
    ensures Get(HeadFields(Head(r)).value, "Connection") == if keep then "Keep-Alive" else "Close"
  {
    var m := PutAll(map[], r.fields);
    assert Lower("Date") in m;
    HeadParses(r);
    AtoiDecimal(|r.body|);
  }

  /** However much of the output has arrived, the client reads a prefix of the messages
      that were sent, in order; once everything has arrived it reads all of them. */
  lemma {:induction false} ClientReadsMessages(log: seq<Exchange>, cfg: Config, first: nat, wire: string)
    requires forall k :: 0 <= k < |log| ==> Justified(log[k], first + k, cfg)
    requires wire <= Output(log)
    ensures ClientRead(wire) <= Messages(log)
    ensures wire == Output(log) ==> ClientRead(wire) == Messages(log)
    decreases |log|
  {
    hide Head, HeadFields, HeadStatus, Justified, ClientRead, IsBlock, Atoi, Get, Find, At, StatusOfResponse;
    ReadNothing();
    if log != [] {
      var e := log[0];
      HeadStatusIs(e.response);
      var head, body, behind := Head(e.response), e.response.body, Output(log[1..]);
      assert Output(log) == head + (body + behind);
      assert Messages(log) == [MessageOf(e.response)] + Messages(log[1..]);
      TailJustified(log, cfg, first);
      JustifiedHead(e, first, cfg);
      CutPrefix(wire, head, body + behind);
      if |wire| < |head| {
        PartialHead(head, wire);
      } else {
        var got := wire[|head|..];
        CutPrefix(got, body, behind);
        if |got| < |body| {
          ReadIncomplete(head, got, |body|);
        } else {
          ReadComplete(head, body, got[|body|..], StatusOfResponse(e.response));
          ClientReadsMessages(log[1..], cfg, first + 1, got[|body|..]);
        }
      }
    }
  }

  lemma ReadNothing()
    ensures ClientRead("") == []
  {
  }

  lemma CutPrefix(wire: string, a: string, b: string)
    requires wire <= a + b
    ensures |wire| < |a| ==> wire <= a && wire != a + b
    ensures |wire| >= |a| ==> wire == a + wire[|a|..] && wire[|a|..] <= b
    ensures |wire| >= |a| ==> (wire == a + b <==> wire[|a|..] == b)
  {
  }

  lemma JustifiedHead(e: Exchange, completed: nat, cfg: Config)
    requires Justified(e, completed, cfg)
    ensures var head := Head(e.response);
            && IsBlock(head) && HeadFields(head).Some?
            && Atoi(Get(HeadFields(head).value, "Content-Length")) == |e.response.body|
            && Get(HeadFields(head).value, "Connection") == (if e.keep then "Keep-Alive" else "Close")
  {
    FramedHead(e.response, e.keep, if e.answer.Opened? then MimeOf(e.path) else "text/html");
  }

  lemma TailJustified(log: seq<Exchange>, cfg: Config, first: nat)
    requires log != [] && forall k :: 0 <= k < |log| ==> Justified(log[k], first + k, cfg)
    ensures forall k :: 0 <= k < |log[1..]| ==> Justified(log[1..][k], first + 1 + k, cfg)
  {
    hide Justified;
    forall k | 0 <= k < |log| - 1 ensures Justified(log[1..][k], first + 1 + k, cfg) {
      assert Justified(log[k + 1], first + (k + 1), cfg);
    }
  }

  /** Nothing is read of a message that is not complete. */
  lemma ReadIncomplete(head: string, part: string, size: nat)
    requires IsBlock(head) && HeadFields(head).Some?
    requires Atoi(Get(HeadFields(head).value, "Content-Length")) == size && |part| < size
    ensures ClientRead(head + part) == []
  {
    hide HeadFields, HeadStatus, Atoi, Find, Get, At;
    FirstTerminatorInPrefix(head, |head| - 4, part);
    assert (head + part)[..|head|] == head;
  }

  /** Of a complete message exactly the head and the body are read. */
  lemma ReadComplete(head: string, body: string, rest: string, status: Status)
    requires IsBlock(head) && HeadFields(head).Some? && HeadStatus(head) == Some(status)
    requires Atoi(Get(HeadFields(head).value, "Content-Length")) == |body|
    ensures ClientRead(head + (body + rest)) == [Message(status, head, body)] + ClientRead(rest)
  {
    hide ReadFirst, HeadFields, HeadStatus, Atoi, Get;
    Slices(head, body, rest);
    FirstIsRead(head, body, rest, status);
  }

  lemma FirstIsRead(head: string, body: string, rest: string, status: Status)
    requires IsBlock(head) && HeadFields(head).Some? && HeadStatus(head) == Some(status)
    requires Atoi(Get(HeadFields(head).value, "Content-Length")) == |body|
    ensures ReadFirst(head + (body + rest)) == Some(Message(status, head, body))
  {
    hide HeadFields, HeadStatus, Atoi, Find, Get, At;
    FirstTerminatorInPrefix(head, |head| - 4, body + rest);
    Slices(head, body, rest);
  }

  lemma Slices(head: string, body: string, rest: string)
    ensures var s := head + (body + rest);
            && s[..|head|] == head
            && s[|head|..|head| + |body|] == body
            && s[|head| + |body|..] == rest
  {
  }

  /** A head that has not fully arrived holds no blank line. */
  lemma PartialHead(head: string, wire: string)
    requires IsBlock(head) && |wire| < |head| && wire <= head
    ensures ClientRead(wire) == []
  {
    assert wire == head[0..|wire|];
    forall k | 0 <= k ensures !At(wire, TERMINATOR, k) {
      if At(wire, TERMINATOR, k) { AtSlice(head, 0, |wire|, TERMINATOR, k); }
    }
  }

  /** The Connection field that the client sees says exactly what the request, the version
      and the limit decide; behind a fatal error this still holds where they decide to
      close, and where the request asks for keepalive itself. */
  lemma ConnectionFieldDecided(log: seq<Exchange>, cfg: Config, k: nat)
    requires WellFormedLog(log, cfg) && k < |log|
    ensures HeadFields(Head(log[k].response)).Some?
    ensures var o, field := ParseBlock(log[k].block), Get(HeadFields(Head(log[k].response)).value, "Connection");
            && field == (if log[k].keep then "Keep-Alive" else "Close")
            && (!KeepAfter(k, o, cfg) ==> field == "Close")
            && (KeepAfter(k, o, cfg) && (KeepStated(o, cfg) || !HadFatal(log[..k], cfg)) ==> field == "Keep-Alive")
  {
    hide HadFatal, Answers, KeepAfter, KeepStated, ParseBlock, Head, HeadFields;
    JustifiedHead(log[k], k, cfg);
    assert Justified(log[k], k, cfg);
  }

  /** RFC 2616 section 8.1.2.1: behind a response that announces "Connection: Close"
      there is no other response. */
  lemma CloseIsLast(log: seq<Exchange>, cfg: Config, k: nat)
    requires WellFormedLog(log, cfg) && k < |log|
    requires HeadFields(Head(log[k].response)).Some?
    requires Get(HeadFields(Head(log[k].response)).value, "Connection") == "Close"
    ensures k == |log| - 1
  {
    hide Justified;
    JustifiedHead(log[k], k, cfg);
  }

  // ---------- the keepalive bound ----------

  function FileResponses(log: seq<Exchange>): nat {
    if log == [] then 0
    else FileResponses(log[..|log| - 1]) + (if log[|log| - 1].response.status == 200 then 1 else 0)
  }

  function Max(a: int, b: int): int { if a >= b then a else b }

  /** A file response that is not the last comes early enough to be below the limit. */
  lemma FileResponseIsEarly(log: seq<Exchange>, cfg: Config, k: nat)
    requires WellFormedLog(log, cfg) && k < |log| - 1 && log[k].response.status == 200
    ensures k + 1 < cfg.keepAliveMax
  {
    assert Justified(log[k], k, cfg) && log[k].keep;
    var o := ParseBlock(log[k].block);
    assert o.code == 0 by { ParseCodes(log[k].block); }
  }

  lemma ParseCodes(block: string)
    ensures ParseBlock(block).code in {0, 400, 505}
  {
  }

  lemma {:induction false} EarlyFileResponses(log: seq<Exchange>, cfg: Config, n: nat)
    requires WellFormedLog(log, cfg) && n < |log|
    ensures FileResponses(log[..n]) <= n && FileResponses(log[..n]) <= Max(0, cfg.keepAliveMax - 1)
  {
    hide WellFormedLog, Justified;
    if n > 0 {
      EarlyFileResponses(log, cfg, n - 1);
      assert log[..n][..n - 1] == log[..n - 1];
      if log[n - 1].response.status == 200 { FileResponseIsEarly(log, cfg, n - 1); }
    }
  }

  /** However the client sets its Connection headers, and however many broken requests
      it mixes in, a connection gets at most max(1, KeepAliveMax) files. */
  lemma FileResponsesBounded(log: seq<Exchange>, cfg: Config)
    requires WellFormedLog(log, cfg)
    ensures FileResponses(log) <= Max(1, cfg.keepAliveMax)
  {
    hide WellFormedLog, Justified;
    if log != [] {
      EarlyFileResponses(log, cfg, |log| - 1);
      assert log[..|log|] == log;
    }
  }
}
