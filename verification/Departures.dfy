/** Inputs on which the connection departs from what its code promises, as runs of it. */
module Departures {
  import opened Text
  import opened Headers
  import opened Requests
  import opened Exchanges
  import opened Connections
  import opened Samples
  import DocumentRoot
  import FS = FileSystem
  import Uri

  const CLOSING := FieldBlock("GET", "/e", CLOSE)
  const KEEPING := FieldBlock("GET", "/e", KEEP)
  const POSTING := FieldBlock("POST", "/e", LENGTH_ONE)
  const PUTTING := PlainBlock("PUT", "/e")

  lemma SampleBlocks(cfg: Config)
    ensures IsBlock(CLOSING) && ParseBlock(CLOSING) == Outcome(0, WithField("GET", "/e", CLOSE))
    ensures IsBlock(KEEPING) && ParseBlock(KEEPING) == Outcome(0, WithField("GET", "/e", KEEP))
    ensures IsBlock(POSTING) && ParseBlock(POSTING) == Outcome(0, WithField("POST", "/e", LENGTH_ONE))
    ensures IsBlock(PUTTING) && ParseBlock(PUTTING) == Outcome(0, Plain("PUT", "/e"))
    ensures !WantsBody(CLOSING, cfg) && !WantsBody(KEEPING, cfg) && !WantsBody(PUTTING, cfg)
    ensures Unsigned(cfg.maxPostBody) >= 1 ==> WantsBody(POSTING, cfg)
  {
    hide IsBlock, ParseBlock, FieldBlock, PlainBlock, IsWord, Printable, VerdictOf, Unsigned;
    Words();
    FieldsArePrintable();
    FieldParses("GET", "/e", CLOSE);
    FieldParses("GET", "/e", KEEP);
    FieldParses("POST", "/e", LENGTH_ONE);
    PlainParses("PUT", "/e");
    ConnectionVerdict("/e", CLOSE, cfg);
    ConnectionVerdict("/e", KEEP, cfg);
    PlainVerdicts("/e", cfg);
    if Unsigned(cfg.maxPostBody) >= 1 { LengthVerdict("/e", cfg); }
  }

  /** What one block leads to in a connection whose buffer is empty. */
  lemma WholeBlock(block: string)
    requires IsBlock(block)
    ensures |block| >= 4 && "" + block == block
    ensures Find(block, TERMINATOR, 0) == |block| - 4 && block[..|block|] == block
  {
  }

  /** When nothing but these blocks and a tail without CR was fed, these blocks were taken. */
  lemma OnlyBlocks(c: Connection, blocks: seq<string>, tail: string)
    requires c.Valid() && c.fed == Concat(blocks) + tail && blocks <= c.blocks && '\r' !in tail
    ensures c.blocks == blocks && c.requestbuf == tail
  {
    hide Find, At, Logged, Balanced, UpToBody, Connection.Idle, Connection.Receiving, Connection.SendingFile,
         Connection.SendingPage, LastKept, LastHasBody, HadFatal;
    BlocksAreBlocks(c.input, c.fed, c.blocks, c.requestbuf, c.cfg);
    SameBlocks(c.blocks, c.requestbuf, blocks, tail);
  }

  lemma {:induction false} SameBlocks(all: seq<string>, rest: string, blocks: seq<string>, tail: string)
    requires blocks <= all && Concat(all) + rest == Concat(blocks) + tail && '\r' !in tail
    requires forall i :: 0 <= i < |all| ==> IsBlock(all[i])
    ensures all == blocks && rest == tail
    decreases |all|
  {
    hide Find;
    if blocks == [] {
      assert Concat(blocks) + tail == tail;
      if all != [] {
        assert Concat(all) + rest == all[0] + (Concat(all[1..]) + rest);
        AtTerminator(all[0], |all[0]| - 4);
        AtCrlf(all[0], |all[0]| - 4);
      } else {
        assert Concat(all) + rest == rest;
      }
    } else {
      var b := blocks[0];
      assert Concat(all) + rest == b + (Concat(all[1..]) + rest);
      assert Concat(blocks) + tail == b + (Concat(blocks[1..]) + tail);
      assert (b + (Concat(all[1..]) + rest))[|b|..] == Concat(all[1..]) + rest;
      assert (b + (Concat(blocks[1..]) + tail))[|b|..] == Concat(blocks[1..]) + tail;
      SameBlocks(all[1..], rest, blocks[1..], tail);
      assert all == [b] + all[1..] && blocks == [b] + blocks[1..];
    }
  }

  /** A waiting connection with an empty buffer is fed one block. */
  method Feed(c: Connection, block: string)
    requires c.Valid() && c.state == WAIT_REQUEST && Armed(c.state, c.sendq, c.wantWrite)
    requires c.requestbuf == "" && c.fed == Concat(c.blocks) && IsBlock(block)
    modifies c, c.headers
    ensures c.Valid() && Armed(c.state, c.sendq, c.wantWrite)
    ensures c.blocks == old(c.blocks) + [block] && c.requestbuf == "" && c.fed == Concat(c.blocks)
    ensures c.input == old(c.input) + block && c.dropped == old(c.dropped)
    ensures old(c.log) <= c.log && Logged(c.log, c.blocks, c.cfg)
    ensures if WantsBody(block, c.cfg) then c.state == RECV_REQBODY && c.log == old(c.log)
            else c.Settles(block)
  {
    hide IsBlock, ParseBlock, WantsBody, Settled, Answers, InputTracked, Logged, Balanced, Find, KeepAfter,
         HadFatal, Connection.Idle, Connection.Receiving, Connection.SendingFile, Connection.SendingPage, LastKept,
         LastHasBody;
    ghost var before := c.blocks;
    WholeBlock(block);
    ConcatAppend(before, block);
    var ok := c.AddBuffer(block);
    assert Concat(before + [block]) + "" == Concat(before + [block]);
    OnlyBlocks(c, before + [block], "");
  }

  // ---------- an empty file behind which the connection closes ----------

  /** An empty file is one of the answers to this request. */
  lemma EmptyFileMayAnswer(cfg: Config)
    ensures Answers(CLOSING, "/e", Opened(FS.Base(cfg.docRoot) + "/e", ""), 200, "", cfg)
  {
    hide IsBlock, ParseBlock, VerdictOf, MayFind, FS.Base, Uri.Canonical, CLOSING;
    SampleBlocks(cfg);
    ConnectionVerdict("/e", CLOSE, cfg);
    DocumentRoot.EverythingFound(cfg.docRoot, "/e");
    CanonicalSample();
  }

  lemma CanonicalSample()
    ensures Uri.Canonical("/e") == "/e"
  {
    hide Uri.Decode, Uri.Normalise;
    assert "/e"[1..] == "e";
    Uri.DecodePlain("e");
    Uri.NormaliseLast([], "e");
    assert Uri.Dirs([]) + "e" == "e";
  }

  lemma ClosingIsNotKept(completed: nat, cfg: Config)
    ensures !KeepAfter(completed, ParseBlock(CLOSING), cfg)
  {
    hide Lower, ParseBlock, IsBlock;
    SampleBlocks(cfg);
    ConnectionValues();
  }

  /** Where the last response is an empty file that closes the connection, its head is lost
      with the queue, unless a send has failed before. */
  lemma LastIsLost(c: Connection)
    requires c.Valid() && !c.dropped && !Refusal(c.socket, 0, c.sends) && c.log != []
    requires !c.log[|c.log| - 1].keep && c.log[|c.log| - 1].response.body == ""
    ensures c.ended && c.unsent != ""
  {
    hide InputTracked, Logged, Balanced, Find, HadFatal, VerdictOf, KeepFits;
  }

  method EmptyFileIsLost(cfg: Config, socket: Socket) returns (c: Connection)
    ensures c.Valid() && c.cfg == cfg && c.socket == socket && |c.log| == 1 && c.log[0].block == CLOSING
    ensures c.log[0].answer.Opened? && c.log[0].answer.data == "" && !Refusal(socket, 0, c.sends) ==>
              c.ended && c.unsent != ""
  {
    hide IsBlock, ParseBlock, WantsBody, Answers, InputTracked, Balanced, Find, KeepAfter, Fatal, CLOSING,
         Connection.Idle, Connection.Receiving, Connection.SendingFile, Connection.SendingPage, LastKept,
         LastHasBody;
    SampleBlocks(cfg);
    c := new Connection(cfg, socket);
    Feed(c, CLOSING);
    ClosingIsNotKept(0, cfg);
    assert Justified(c.log[0], 0, cfg);
    if c.log[0].answer.Opened? && c.log[0].answer.data == "" && !Refusal(socket, 0, c.sends) {
      OpenedBody(c.log[0], cfg);
      LastIsLost(c);
    }
  }

  lemma OpenedBody(e: Exchange, cfg: Config)
    requires Answers(e.block, e.path, e.answer, e.response.status, e.response.body, cfg) && e.answer.Opened?
    ensures e.response.body == e.answer.data
  {
    hide ParseBlock, VerdictOf, AskedPath, Located;
  }

  // ---------- a fatal error behind which the connection goes on ----------

  lemma PuttingIsFatal(e: Exchange, cfg: Config)
    requires e.block == PUTTING
    ensures Fatal(e, cfg)
  {
    hide ParseBlock, VerdictOf, IsBlock;
    SampleBlocks(cfg);
    PlainVerdicts("/e", cfg);
  }

  lemma KeepingIsStated(cfg: Config)
    requires cfg.keepAliveMax > 2
    ensures KeepStated(ParseBlock(KEEPING), cfg) && KeepAfter(1, ParseBlock(KEEPING), cfg)
  {
    hide Lower, ParseBlock, IsBlock, VerdictOf;
    SampleBlocks(cfg);
    ConnectionValues();
    ConnectionVerdict("/e", KEEP, cfg);
  }

  lemma PuttingIsKept(cfg: Config)
    requires cfg.keepAliveMax > 2
    ensures KeepAfter(0, ParseBlock(PUTTING), cfg)
  {
    hide ParseBlock, IsBlock;
    SampleBlocks(cfg);
    assert Get(Plain("PUT", "/e").headers, "Connection") == "";
    assert Lower("") == "";
  }

  /** Behind a fatal response the connection waits exactly if it was taken as a whole. */
  lemma StillOpen(c: Connection, answer: SendAnswer)
    requires c.Valid() && c.blocks == [PUTTING] && c.cfg.keepAliveMax > 2
    requires Settled(c.log, 0, PUTTING, 0, answer, c.wire, c.keepalive, c.Final(), c.cfg)
    ensures |c.log| == 1 && Fatal(c.log[0], c.cfg) && c.log[0].keep
    ensures if TakesAll(answer, |Output(c.log[..1])|) then c.state == WAIT_REQUEST
            else c.state != WAIT_REQUEST && c.Final()
  {
    hide IsBlock, ParseBlock, Answers, InputTracked, Find, KeepAfter, Fatal, PUTTING, Connection.Idle,
         Connection.SendingFile, Connection.SendingPage, Output, LastKept, LastHasBody, VerdictOf;
    PuttingIsFatal(c.log[0], c.cfg);
    PuttingIsKept(c.cfg);
    assert !HadFatal([], c.cfg);
    assert c.log[..0] == [] && c.log[..1] == c.log;
  }

  lemma KeptAgain(log: seq<Exchange>, blocks: seq<string>, cfg: Config)
    requires cfg.keepAliveMax > 2 && Logged(log, blocks, cfg) && |log| > 1 && blocks == [PUTTING, KEEPING]
    ensures |log| == 2 && log[1].block == KEEPING && log[1].keep
  {
    hide ParseBlock, HadFatal, KeepAfter, KeepStated, PUTTING, KEEPING, Justified;
    KeepingIsStated(cfg);
  }

  /** Exactly if the socket takes the whole response to a fatal error at once, the connection
      stays open; then the next request that asks for keepalive gets it. */
  method FatalIsNotTheEnd(cfg: Config, socket: Socket) returns (c: Connection, waits: bool)
    requires cfg.keepAliveMax > 2
    ensures c.Valid() && c.cfg == cfg && c.socket == socket && c.log != []
    ensures c.log[0].block == PUTTING && Fatal(c.log[0], cfg) && c.log[0].keep
    ensures waits <==> TakesAll(socket(0), |Output(c.log[..1])|)
    ensures waits ==> |c.log| == 2 && c.log[1].block == KEEPING && c.log[1].keep
    ensures !waits ==> |c.log| == 1 && c.Final()
  {
    hide IsBlock, ParseBlock, WantsBody, Answers, InputTracked, Logged, Balanced, Find, KeepAfter, KeepStated, Fatal,
         HadFatal, Output, PUTTING, KEEPING, Connection.Idle, Connection.Receiving, Connection.SendingFile,
         Connection.SendingPage, LastKept, LastHasBody;
    SampleBlocks(cfg);
    c := new Connection(cfg, socket);
    Feed(c, PUTTING);
    StillOpen(c, socket(0));
    waits := c.state == WAIT_REQUEST;
    if waits {
      ghost var first := c.log;
      Feed(c, KEEPING);
      assert c.log[..1] == first[..1];
      KeptAgain(c.log, c.blocks, cfg);
    }
  }

  // ---------- a body byte that is buffered again ----------

  lemma PostingWants(c: Connection, cfg: Config)
    requires c.Valid() && c.cfg == cfg && c.state == RECV_REQBODY && c.blocks == [POSTING]
    requires Unsigned(cfg.maxPostBody) >= 1
    ensures c.requestBodyLength == 1 && c.requestBody == ""
  {
    hide ParseBlock, IsBlock, VerdictOf, InputTracked, Logged, Balanced, Find, KeepFits, LastKept, HadFatal,
         Unsigned;
    SampleBlocks(cfg);
    LengthVerdict("/e", cfg);
  }

  /** One missing body byte and the start of a pipelined request in one chunk: the byte
      enters the request buffer too, which only "GET /" should. */
  method BodyByteIsBufferedTwice(cfg: Config, socket: Socket) returns (c: Connection)
    requires Unsigned(cfg.maxPostBody) >= 1
    ensures c.Valid() && c.cfg == cfg && c.socket == socket && c.input == POSTING + "xGET /"
    ensures c.blocks == [POSTING] && c.requestbuf == "xGET /"
  {
    hide IsBlock, ParseBlock, WantsBody, Answers, InputTracked, Logged, Balanced, Find, KeepAfter, Fatal, HadFatal,
         POSTING, Unsigned, Connection.Idle, Connection.Receiving, Connection.SendingFile, Connection.SendingPage,
         LastKept, LastHasBody;
    SampleBlocks(cfg);
    c := new Connection(cfg, socket);
    Feed(c, POSTING);
    assert Concat([POSTING]) == POSTING;
    PostingWants(c, cfg);
    var ok := c.AddBuffer("xGET /");
    OnlyBlocks(c, [POSTING], "xGET /");
  }
}
