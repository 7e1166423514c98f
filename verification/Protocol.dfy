/** What the entries of a well-formed log are in the words of the protocol: every status,
    keepalive and content type with its own condition on the text of the request. */
module Protocol {
  import opened Text
  import opened Headers
  import opened Requests
  import opened Exchanges
  import FS = FileSystem
  import Uri

  // ---------- letters ----------

  const CAPITALS := "ABCDEFGHIJKLMNOPQRSTUVWXYZ"
  const SMALL := "abcdefghijklmnopqrstuvwxyz"

  lemma CapitalAt(i: nat)
    requires i < 26
    ensures CAPITALS[i] as int == 65 + i
  {
  }

  lemma SmallAt(i: nat)
    requires i < 26
    ensures SMALL[i] as int == 97 + i
  {
  }

  /** tolower and toupper exchange the letters of the alphabet and nothing else. */
  lemma LetterCases(i: nat, c: char)
    requires i < 26
    ensures ToLower(CAPITALS[i]) == SMALL[i] && ToUpper(SMALL[i]) == CAPITALS[i]
    ensures !('A' <= c <= 'Z') ==> ToLower(c) == c
    ensures !('a' <= c <= 'z') ==> ToUpper(c) == c
  {
    hide CAPITALS, SMALL;
    CapitalAt(i);
    SmallAt(i);
  }

  // ---------- the request line ----------

  /** The words of a line. */
  function Words(line: string): seq<string>
    decreases |line|
  {
    var w := NextWord(line);
    if w.0 == "" then [] else [w.0] + Words(w.1)
  }

  /** For every line: 400 exactly for fewer than three words, otherwise 505 exactly for another
      version than the two; the first two words are method and URI. */
  lemma RequestLineMeans(line: string)
    ensures var ws, o := Words(line), ParseRequestLine(line);
            && (o.code == 400 <==> |ws| < 3)
            && (|ws| >= 3 ==>
                  && o.request.verb == ws[0] && o.request.uri == ws[1]
                  && (o.code == 505 <==> Upper(ws[2]) != "HTTP/1.0" && Upper(ws[2]) != "HTTP/1.1")
                  && (o.code == 0 <==> Upper(ws[2]) == "HTTP/1.0" || Upper(ws[2]) == "HTTP/1.1")
                  && (o.request.version == HTTP10 <==> Upper(ws[2]) == "HTTP/1.0")
                  && (o.request.version == HTTP11 <==> Upper(ws[2]) == "HTTP/1.1"))
  {
    hide NextWord, Upper;
    var first := NextWord(line);
    var second := NextWord(first.1);
    var third := NextWord(second.1);
    NoWordNoMore(line);
    NoWordNoMore(first.1);
    if first.0 != "" {
      assert Words(line) == [first.0] + Words(first.1);
      if second.0 != "" {
        assert Words(first.1) == [second.0] + Words(second.1);
      }
    }
  }

  /** Behind the last word there is no other. */
  lemma NoWordNoMore(s: string)
    ensures NextWord(s).0 == "" ==> NextWord(NextWord(s).1).0 == "" && NextWord(NextWord(NextWord(s).1).1).0 == ""
  {
    if NextWord(s).0 == "" {
      SkippedStartsAWord(s);
      assert NextWord(s).1 == "";
    }
  }

  lemma {:induction false} SkippedStartsAWord(s: string)
    ensures SkipSpaces(s) == "" || SkipSpaces(s)[0] !in SPACES
  {
    if s != "" && s[0] in SPACES { SkippedStartsAWord(s[1..]); }
  }

  /** A header line is refused exactly if its first colon is missing, first or last. */
  lemma FieldRefusedIff(line: string)
    ensures ParseField(line) == None <==>
              ':' !in line || line[0] == ':' || ':' !in line[..|line| - 1]
  {
    hide Find, At;
    var sep := Find(line, ":", 0);
    forall k | 0 <= k < |line| ensures At(line, ":", k) <==> line[k] == ':' { ColonAt(line, k); }
    if ':' in line {
      var k :| 0 <= k < |line| && line[k] == ':';
      assert At(line, ":", k);
      assert sep != -1 && line[sep] == ':';
      if sep < |line| - 1 { assert line[..|line| - 1][sep] == ':'; }
    }
  }

  lemma ColonAt(s: string, k: nat)
    requires k < |s|
    ensures At(s, ":", k) <==> s[k] == ':'
  {
    assert s[k..k + 1] == [s[k]];
  }

  /** The code of a head: that of its first line, and 400 where a header line is refused. */
  lemma HeadCode(line: string, rest: string)
    requires '\r' !in line
    ensures var ws, o := Words(line), ParseBlock(line + CRLF + rest);
            && (|ws| < 3 ==> o.code == 400)
            && (|ws| >= 3 ==>
                  if Upper(ws[2]) != "HTTP/1.0" && Upper(ws[2]) != "HTTP/1.1" then o.code == 505
                  else o.code == if ParseFields(map[], rest) == None then 400 else 0)
  {
    hide Find, At, Words, Upper, ParseRequestLine, ParseFields;
    var block := line + CRLF + rest;
    NoCrNoCrlf(line);
    LineEnd(line, rest);
    assert block[..|line|] == line && block[|line| + 2..] == rest;
    RequestLineMeans(line);
    NoWords();
  }

  lemma NoWords()
    ensures Words("") == []
  {
  }

  // ---------- what a request is answered with ----------

  /** Names of the header fields that decide about the body of a request. */
  function Announced(r: Request): int {
    if Has(r.headers, "Content-Length") then Atoi(Get(r.headers, "Content-Length")) % 0x1_0000_0000 else 0
  }

  /** Every response without a file answer is an error that the head alone calls for, and each
      has its own condition; the others are what the file system answers for the path. */
  lemma StatusOfHead(log: seq<Exchange>, cfg: Config, k: nat)
    requires WellFormedLog(log, cfg) && k < |log|
    ensures var e, o := log[k], ParseBlock(log[k].block);
            var r, length, status := o.request, Announced(o.request), e.response.status;
            if o.code != 0 then status == o.code && (status == 400 || status == 505) && e.answer == NotAsked
            else if length > cfg.maxPostBody % 0x1_0000_0000 then status == 413 && e.answer == NotAsked
            else if Has(r.headers, "Transfer-Encoding") || (length > 0 && Upper(r.verb) != "POST") then
              status == 500 && e.answer == NotAsked
            else if Upper(r.verb) != "GET" && Upper(r.verb) != "POST" then status == 501 && e.answer == NotAsked
            else e.answer != NotAsked && e.path == if length > 0 then r.uri else Uri.Canonical(r.uri)
  {
    hide ParseBlock, Atoi, Get, Has, Upper, Uri.Canonical, HadFatal, WellFramed;
    ParseCodes(log[k].block);
    assert Justified(log[k], k, cfg);
  }

  /** The page of an error, and the body of a file. */
  lemma BodyOfEntry(log: seq<Exchange>, cfg: Config, k: nat)
    requires WellFormedLog(log, cfg) && k < |log|
    ensures log[k].answer.Opened? ==> log[k].response.body == log[k].answer.data
    ensures !log[k].answer.Opened? ==>
              log[k].response.body == "<html><head></head><body>" + MessageOf(log[k].response).status.phrase
                                      + "<br><small>Powered by Hottpd</small></body></html>"
  {
    hide ParseBlock, VerdictOf, HadFatal, WellFramed, Located, Reason;
    assert Justified(log[k], k, cfg);
  }

  /** Where a path is not found or a file does not open, the errno decides between 403, 404 and
      500; a path that is too long or loops is only missing for the walk. */
  lemma StatusOfAnswer(log: seq<Exchange>, cfg: Config, k: nat)
    requires WellFormedLog(log, cfg) && k < |log|
    ensures var status := log[k].response.status;
            match log[k].answer
            case NotAsked => status != 200 && status != 403 && status != 404
            case NoPath(e) =>
              && (status == 403 <==> e == FS.EACCES)
              && (status == 404 <==> e == FS.ENOENT || e == FS.ELOOP || e == FS.ENAMETOOLONG || e == FS.ENOTDIR)
              && (status == 500 <==> e == FS.OTHER)
            case NoOpen(_, e) =>
              && (status == 403 <==> e == FS.EACCES)
              && (status == 404 <==> e == FS.ENOENT || e == FS.ENOTDIR)
              && (status == 500 <==> e == FS.ELOOP || e == FS.ENAMETOOLONG || e == FS.OTHER)
            case Opened(_, _) => status == 200
  {
    hide ParseBlock, HadFatal, WellFramed, Located, Reason, AskedPath, BodyLength, Has, Upper;
    ParseCodes(log[k].block);
    assert Justified(log[k], k, cfg);
  }

  /** The status that a walk along the path leads to. */
  predicate LeadsTo(found: FS.Found, answer: FileAnswer, status: nat) {
    match found
    case NotFound(EACCES) => status == 403
    case NotFound(OTHER) => status == 500
    case NotFound(_) => status == 404
    case Path(p) =>
      match answer
      case Opened(q, _) => q == p && status == 200
      case NoOpen(q, e) =>
        q == p && status == if e == FS.EACCES then 403 else if e == FS.ENOENT || e == FS.ENOTDIR then 404 else 500
      case _ => false
  }

  lemma AnswerIsLocated(log: seq<Exchange>, cfg: Config, k: nat)
    requires WellFormedLog(log, cfg) && k < |log|
    ensures Located(cfg.docRoot, log[k].path, log[k].answer)
  {
    hide ParseBlock, HadFatal, WellFramed, AskedPath, MayFind, VerdictOf, KeepAfter, KeepStated;
    assert Justified(log[k], k, cfg);
  }

  /** For a request that its head does not refuse, the walk along its path decides what the
      client is sent. */
  lemma StatusOfWalk(log: seq<Exchange>, cfg: Config, k: nat)
    requires WellFormedLog(log, cfg) && k < |log| && log[k].answer != NotAsked
    ensures log[k].path != ""
    ensures exists obs :: var found := FS.Lookup(cfg.docRoot, log[k].path, FS.Observed(obs));
                          LeadsTo(found, log[k].answer, log[k].response.status)
  {
    hide FS.Lookup, FS.Observed, MayFind, WellFormedLog;
    StatusOfAnswer(log, cfg, k);
    AnswerIsLocated(log, cfg, k);
    var found := match log[k].answer
      case NoPath(e) => FS.NotFound(e)
      case NoOpen(p, _) => FS.Path(p)
      case Opened(p, _) => FS.Path(p)
      case NotAsked => FS.NotFound(FS.OTHER);
    var obs := WhatWasSeen(cfg.docRoot, log[k].path, found);
    assert LeadsTo(FS.Lookup(cfg.docRoot, log[k].path, FS.Observed(obs)), log[k].answer, log[k].response.status);
  }

  lemma WhatWasSeen(docRoot: string, path: string, found: FS.Found) returns (obs: map<string, FS.StatResult>)
    requires MayFind(docRoot, path, found)
    ensures path != "" && FS.Lookup(docRoot, path, FS.Observed(obs)) == found
  {
    hide FS.Lookup, FS.Observed;
    obs :| Saw(docRoot, path, found, obs);
  }

  // ---------- keepalive ----------

  /** What the client reads in the Connection field. A request that parses is answered by
      "Close" if it asks for it or reaches the limit, and by "Keep-Alive" if it asks for that;
      any other by "Close" exactly if it is a first one of HTTP/1.0. Only behind a fatal error
      may keepalive be off where the request neither closes nor asks for it at once. */
  lemma ConnectionFieldMeans(log: seq<Exchange>, cfg: Config, k: nat)
    requires WellFormedLog(log, cfg) && k < |log|
    ensures HeadFields(Head(log[k].response)).Some?
    ensures var o := ParseBlock(log[k].block);
            var field := Get(HeadFields(Head(log[k].response)).value, "Connection");
            var asked := Lower(Get(o.request.headers, "Connection"));
            var closes := o.code == 0 && (asked == "close" || k + 1 >= cfg.keepAliveMax);
            var keeps := o.code == 0 && !closes && asked == "keep-alive";
            && (field == "Close" || field == "Keep-Alive")
            && (closes ==> field == "Close")
            && (keeps && (!HadFatal(log[..k], cfg) || log[k].answer == NotAsked || Announced(o.request) == 0) ==>
                  field == "Keep-Alive")
            && (!closes && !keeps && !HadFatal(log[..k], cfg) ==>
                  (field == "Close" <==> o.request.version == HTTP10 && k == 0))
  {
    hide HadFatal, ParseBlock, Head, HeadFields, Lower, Get, Has, Atoi, Upper, Located, AskedPath, Reason, WellFramed;
    JustifiedHead(log[k], k, cfg);
    assert Justified(log[k], k, cfg);
  }

  // ---------- the content type ----------

  /** What is behind the last dot decides about the type. */
  lemma TypeOf(front: string, ext: string)
    requires '.' !in ext
    ensures ext == "jpg" ==> MimeOf(front + "." + ext) == "image/jpeg"
    ensures ext == "gif" ==> MimeOf(front + "." + ext) == "image/gif"
    ensures ext == "css" || ext == "php" || ext == "htm" || ext == "html" ==> MimeOf(front + "." + ext) == "text/html"
    ensures ext !in {"jpg", "gif", "css", "php", "htm", "html"} ==>
              MimeOf(front + "." + ext) == MimeOf(ext) == "application/x-octet-stream"
  {
    hide Rfind;
    var s := front + "." + ext;
    var p := Rfind(s, '.', |s|);
    assert s[|front|] == '.';
    assert forall i :: |front| < i < |s| ==> s[i] == ext[i - |front| - 1];
    assert p == |front| && s[p + 1..] == ext;
    assert Rfind(ext, '.', |ext|) == -1;
  }

  /** The fields that the client reads: the server, the length of the body, and for a body its
      type, which is that of the path that was asked for, or text/html for an error. */
  lemma FieldsOfEntry(log: seq<Exchange>, cfg: Config, k: nat)
    requires WellFormedLog(log, cfg) && k < |log|
    ensures HeadFields(Head(log[k].response)).Some?
    ensures var m, body := HeadFields(Head(log[k].response)).value, log[k].response.body;
            && Has(m, "Date") && Get(m, "Server") == "hottpd" && Get(m, "Content-Length") == Decimal(|body|)
            && Atoi(Get(m, "Content-Length")) == |body|
            && (Has(m, "Content-Type") <==> body != "")
            && (body != "" ==>
                  Get(m, "Content-Type") == if log[k].answer.Opened? then MimeOf(log[k].path) else "text/html")
  {
    hide Answers, HadFatal, ParseBlock, MimeOf, KeepAfter, Decimal, Atoi, Lower, AllClean, Head, HeadFields, Enumerates,
         IsBlock, PutAll;
    assert Justified(log[k], k, cfg);
    var r := log[k].response;
    AtoiDecimal(|r.body|);
    DistinctNames();
    FramedHead(r, log[k].keep, if log[k].answer.Opened? then MimeOf(log[k].path) else "text/html");
  }

  lemma DistinctNames()
    ensures Lower("Content-Type") !in {Lower("Date"), Lower("Server"), Lower("Content-Length"), Lower("Connection")}
  {
    hide Lower;
    assert |Lower("Content-Type")| == 12 && |Lower("Content-Length")| == 14;
  }

  /** Which requests have to wait for a body. */
  lemma WantsBodyIff(block: string, cfg: Config)
    ensures var o := ParseBlock(block);
            WantsBody(block, cfg) <==>
              && o.code == 0 && 0 < Announced(o.request) <= cfg.maxPostBody % 0x1_0000_0000
              && !Has(o.request.headers, "Transfer-Encoding") && Upper(o.request.verb) == "POST"
  {
    hide ParseBlock, Atoi, Get, Has, Upper;
  }

  // ---------- letter by letter ----------

  lemma RequestSample()
    ensures IsBlock("GET /e HTTP/1.1\r\n\r\n")
    ensures ParseBlock("GET /e HTTP/1.1\r\n\r\n") == Outcome(0, Request("GET", "/e", HTTP11, map[]))
    ensures ParseBlock("GET /e HTTP/1.0\r\n\r\n") == Outcome(0, Request("GET", "/e", HTTP10, map[]))
  {
    hide IsBlock, ParseBlock, PrintRequest;
    RequestRoundTrip(Request("GET", "/e", HTTP11, map[]), []);
    RequestRoundTrip(Request("GET", "/e", HTTP10, map[]), []);
    SamplePrinted(HTTP11);
    SamplePrinted(HTTP10);
    assert "GET /e HTTP/1.1" + "\r\n\r\n" == "GET /e HTTP/1.1\r\n\r\n";
    assert "GET /e HTTP/1.0" + "\r\n\r\n" == "GET /e HTTP/1.0\r\n\r\n";
  }

  lemma SamplePrinted(version: Version)
    ensures PrintRequest(Request("GET", "/e", version, map[]), [])
         == (if version == HTTP10 then "GET /e HTTP/1.0" else "GET /e HTTP/1.1") + "\r\n\r\n"
  {
    var line := RequestLine("GET", "/e", version);
    assert line == if version == HTTP10 then "GET /e HTTP/1.0" else "GET /e HTTP/1.1";
    assert line + CRLF + "" + CRLF == line + (CRLF + CRLF) && CRLF + CRLF == "\r\n\r\n";
  }

  lemma StatusLineSample()
    ensures StatusLine(HTTP11, 200) + CRLF == "HTTP/1.1 200 OK\r\n"
    ensures StatusLine(HTTP10, 404) + CRLF == "HTTP/1.0 404 File Not Found\r\n"
  {
    hide Decimal;
    NumbersInWords();
  }

  lemma NumbersInWords()
    ensures Decimal(200) == "200" && Decimal(404) == "404"
  {
  }
}
