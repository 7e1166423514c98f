/** What the connection invariant says about whole runs, whatever chunks arrive and
    whatever part of each send the socket takes. */
module Runs {
  import opened Text
  import opened Requests
  import opened Exchanges
  import opened Connections

  /** What these events hand to a connection, each read cut at a NUL. */
  function Heard(events: seq<Event>): string {
    if events == [] then "" else Heard(events[..|events| - 1]) + Chunk(events[|events| - 1])
  }

  /** The bytes that the reads deliver. */
  function Delivered(events: seq<Event>): string {
    if events == [] then ""
    else
      var last := events[|events| - 1];
      Delivered(events[..|events| - 1]) + (if last.ReadReady? && last.result.Received? then last.result.bytes else "")
  }

  predicate NulFree(event: Event) {
    event.ReadReady? && event.result.Received? ==> '\0' !in event.result.bytes
  }

  lemma {:induction false} CutIsShorter(s: string)
    ensures |CutAtNul(s)| <= |s| && (CutAtNul(s) == s <==> '\0' !in s)
    ensures |CutAtNul(s)| == |s| ==> CutAtNul(s) == s
  {
    if s != "" {
      assert s == [s[0]] + s[1..];
      CutIsShorter(s[1..]);
    }
  }

  /** The input is the byte stream that was sent if and only if no read holds a NUL. */
  lemma {:induction false} HeardIsDeliveredIff(events: seq<Event>)
    ensures Heard(events) == Delivered(events) <==> forall i :: 0 <= i < |events| ==> NulFree(events[i])
    ensures |Heard(events)| <= |Delivered(events)|
    ensures |Heard(events)| == |Delivered(events)| ==> Heard(events) == Delivered(events)
    decreases |events|
  {
    hide CutAtNul;
    if events != [] {
      var front, last := events[..|events| - 1], events[|events| - 1];
      assert events == front + [last];
      HeardIsDeliveredIff(front);
      if last.ReadReady? && last.result.Received? { CutIsShorter(last.result.bytes); }
    }
  }

  /** With a NUL in it the same stream reads differently in one chunk and in two. */
  lemma NulMakesChunkingMatter()
    ensures var one, two := [ReadReady(Received("a\0b"))], [ReadReady(Received("a\0")), ReadReady(Received("b"))];
            && Delivered(one) == Delivered(two) == "a\0b"
            && Heard(one) == "a" && Heard(two) == "ab"
  {
    var one, two := [ReadReady(Received("a\0b"))], [ReadReady(Received("a\0")), ReadReady(Received("b"))];
    assert one[..0] == [] && two[..1][..0] == [] && two[..1] == [ReadReady(Received("a\0"))];
    assert "a\0b"[1..] == "\0b" && "a\0"[1..] == "\0" && "b"[1..] == "";
    assert Heard(two[..1]) == "a" && Delivered(two[..1]) == "a\0";
  }

  lemma OneMore(events: seq<Event>, i: nat)
    requires i < |events|
    ensures Heard(events[..i + 1]) == Heard(events[..i]) + Chunk(events[i])
  {
    assert events[..i + 1][..i] == events[..i];
  }

  /** A new connection fed with any sequence of events. It hears the first of them, and all
      unless it is given up. */
  method Run(cfg: Config, socket: Socket, events: seq<Event>) returns (c: Connection, ghost heard: nat)
    ensures c.Valid() && c.cfg == cfg && c.socket == socket
    // every event is heard until the connection is given up, and that has its reasons
    ensures heard <= |events| && c.input == Heard(events[..heard]) && (heard < |events| ==> c.quitting)
    ensures c.quitting ==> c.ended || c.dropped || Refusal(socket, 0, c.sends)
    ensures c.dropped ==> (exists i :: 0 <= i < |events| && HangsUp(events[i])) || |c.requestbuf| > 5120
    ensures (exists i :: 0 <= i < |events| && HangsUp(events[i])) ==> c.quitting
    // the requests are those of the input, and each is answered by what it calls for
    ensures UpToBody(c.blocks, cfg) <= SplitBlocks(c.input)
    ensures c.state == WAIT_REQUEST && BodyFree(SplitBlocks(c.input), cfg) ==>
              c.blocks == SplitBlocks(c.input) && |c.log| == |c.blocks|
    ensures Logged(c.log, c.blocks, cfg)
    // the responses are sent whole and in order
    ensures c.wire + c.sendq + c.pending == Output(c.log)
    ensures c.sendq + c.pending != "" && !c.quitting ==> c.wantWrite
    ensures Armed(c.state, c.sendq, c.wantWrite) && fresh(c) && fresh(c.headers)
    ensures ClientRead(c.wire) <= Messages(c.log)
    ensures FileResponses(c.log) <= Max(1, cfg.keepAliveMax)
  {
    hide InputTracked, Logged, Balanced, Output, Messages, ClientRead, Find, UpToBody, SplitBlocks, FileResponses,
         Heard, Chunk, HangsUp, BodyFree, LastKept, LastHasBody, HadFatal, Connection.Idle, Connection.Receiving,
         Connection.SendingFile, Connection.SendingPage;
    c := new Connection(cfg, socket);
    heard := 0;
    HeardNothing(events);
    for i := 0 to |events|
      invariant fresh(c) && fresh(c.headers) && c.cfg == cfg && c.socket == socket
      invariant c.Valid() && Armed(c.state, c.sendq, c.wantWrite)
      invariant heard <= i && c.input == Heard(events[..heard]) && (c.quitting || heard == i)
      invariant c.quitting ==> c.ended || c.dropped || Refusal(socket, 0, c.sends)
      invariant c.dropped ==> c.quitting
      invariant c.dropped ==> (exists k :: 0 <= k < |events| && HangsUp(events[k])) || |c.requestbuf| > 5120
      invariant forall k :: 0 <= k < i && HangsUp(events[k]) ==> c.quitting
    {
      OneMore(events, i);
      if !c.quitting { heard := i + 1; }
      c.HandleEvent(events[i]);
    }
    RunFacts(c);
  }

  lemma HeardNothing(events: seq<Event>)
    ensures Heard(events[..0]) == ""
  {
  }

  lemma RunFacts(c: Connection)
    requires c.Valid()
    ensures UpToBody(c.blocks, c.cfg) <= SplitBlocks(c.input)
    ensures c.state == WAIT_REQUEST && BodyFree(SplitBlocks(c.input), c.cfg) ==>
              c.blocks == SplitBlocks(c.input) && |c.log| == |c.blocks|
    ensures Logged(c.log, c.blocks, c.cfg)
    ensures c.wire + c.sendq + c.pending == Output(c.log)
    ensures Armed(c.state, c.sendq, c.wantWrite) && c.sendq + c.pending != "" && !c.quitting ==> c.wantWrite
    ensures ClientRead(c.wire) <= Messages(c.log)
    ensures FileResponses(c.log) <= Max(1, c.cfg.keepAliveMax)
  {
    hide InputTracked, Logged, Balanced, Output, Messages, ClientRead, Find, UpToBody, SplitBlocks, FileResponses,
         BodyFree, LastKept, LastHasBody, HadFatal, Connection.Idle, Connection.Receiving, Connection.SendingFile,
         Connection.SendingPage;
    ConservedOutput(c);
    TakenInOrder(c);
    ClientSeesResponses(c);
    FileLimit(c);
    if BodyFree(SplitBlocks(c.input), c.cfg) { BlocksOfStream(c); }
  }

  /** The bytes the socket took are a prefix of the responses in request order; what is
      missing is the queue and the unsent part of the file, and the file is only being
      sent while the queue is empty. */
  lemma ConservedOutput(c: Connection)
    requires c.Valid()
    ensures c.wire + c.sendq + c.pending == Output(c.log) && c.wire <= Output(c.log)
    ensures |c.log| <= |c.blocks| && forall k :: 0 <= k < |c.log| ==> c.log[k].block == c.blocks[k]
    ensures c.state == SEND_DATA && c.responseBackend ==>
              c.sendq == "" && c.filefd.Open? && c.pending == c.filefd.data[c.rfilesent..]
    ensures c.state == WAIT_REQUEST ==> c.pending == "" && |c.log| == |c.blocks|
    ensures c.state == RECV_REQBODY ==> c.pending == "" && |c.log| + 1 == |c.blocks|
    ensures c.quitting <==> c.state == FINISHED
    ensures c.state == SEND_HEADERS || c.state == SEND_DATA ==> c.sendq + c.pending != "" && |c.log| == |c.blocks|
  {
    hide Output, InputTracked, WellFormedLog, Find, HadFatal, LastKept, KeepFits, VerdictOf;
    var wire, rest := c.wire, c.sendq + c.pending;
    assert wire + rest == c.wire + c.sendq + c.pending;
    assert wire <= wire + rest;
  }

  /** A client that frames by Content-Length reads a prefix of the messages in order, and
      all of them once the queue and the file are drained. */
  lemma ClientSeesResponses(c: Connection)
    requires c.Valid()
    ensures ClientRead(c.wire) <= Messages(c.log)
    ensures c.sendq == "" && c.pending == "" ==> ClientRead(c.wire) == Messages(c.log)
  {
    hide Output, InputTracked, Find, Connection.Idle, Connection.Receiving, Connection.SendingFile,
         Connection.SendingPage, HadFatal, Justified, KeepAfter, ParseBlock;
    ConservedOutput(c);
    ClientReadsMessages(c.log, c.cfg, 0, c.wire);
    if c.sendq == "" && c.pending == "" { assert c.wire + "" + "" == c.wire; }
  }

  lemma TakenInOrder(c: Connection)
    requires c.Valid()
    ensures UpToBody(c.blocks, c.cfg) <= SplitBlocks(c.input)
  {
    hide UpToBody, SplitBlocks, Logged, Balanced, Connection.Idle, Connection.Receiving, Connection.SendingFile,
         Connection.SendingPage;
  }

  /** Where no send failed and the client did not hang up, a connection is closed by
      EndRequest only, behind a response that announces "Connection: Close" or a fatal
      error. By then the client has been sent everything if and only if the last response
      has a body: the head of an empty file is still queued, and may be lost. */
  lemma OrderlyClose(c: Connection)
    requires c.Valid() && c.quitting && !c.dropped && !Refusal(c.socket, 0, c.sends)
    ensures c.log != [] && (!c.log[|c.log| - 1].keep || HadFatal(c.log, c.cfg))
    ensures c.unsent == "" <==> c.log[|c.log| - 1].response.body != ""
    ensures c.unsent == "" ==> c.wire == Output(c.log) && ClientRead(c.wire) == Messages(c.log)
  {
    hide Output, InputTracked, WellFormedLog, Find, ClientRead, Messages, HadFatal;
    ClientSeesResponses(c);
    if c.unsent == "" { assert c.wire + "" + "" == c.wire; }
  }

  lemma FileLimit(c: Connection)
    requires c.Valid()
    ensures FileResponses(c.log) <= Max(1, c.cfg.keepAliveMax)
  {
    hide WellFormedLog, Connection.Idle, Connection.Receiving, Connection.SendingFile, Connection.SendingPage,
         InputTracked;
    FileResponsesBounded(c.log, c.cfg);
  }

  lemma {:induction false} UpToBodyIsFree(blocks: seq<string>, cfg: Config)
    ensures UpToBody(blocks, cfg) <= blocks
    ensures BodyFree(UpToBody(blocks, cfg), cfg) ==> UpToBody(blocks, cfg) == blocks
  {
    hide WantsBody;
    if blocks != [] {
      UpToBodyIsFree(blocks[1..], cfg);
      var u := UpToBody(blocks, cfg);
      if BodyFree(u, cfg) {
        assert !WantsBody(u[0], cfg);
        assert u[1..] == UpToBody(blocks[1..], cfg);
        assert forall i :: 0 <= i < |u[1..]| ==> u[1..][i] == u[i + 1];
      }
    }
  }

  /** On a stream of requests without bodies the blocks taken are a prefix of the cutting
      of the stream, and the whole of it whenever the connection waits for a request. */
  lemma BlocksOfStream(c: Connection)
    requires c.Valid() && BodyFree(SplitBlocks(c.input), c.cfg)
    ensures c.blocks <= SplitBlocks(c.input)
    ensures c.state == WAIT_REQUEST ==> c.blocks == SplitBlocks(c.input)
  {
    hide WantsBody, SplitBlocks, UpToBody, Find, Logged, Balanced, Connection.Receiving, Connection.SendingFile,
         Connection.SendingPage, HadFatal;
    var u, all := UpToBody(c.blocks, c.cfg), SplitBlocks(c.input);
    UpToBodyIsFree(c.blocks, c.cfg);
    assert BodyFree(u, c.cfg) by {
      forall i | 0 <= i < |u| ensures !WantsBody(u[i], c.cfg) { assert u[i] == all[i]; }
    }
    if c.state == WAIT_REQUEST { AllTaken(c.input, c.fed, c.blocks, c.requestbuf, c.cfg); }
  }

  /** Chunking and the interleaving with writes do not matter: two connections that got
      the same bytes have taken the same requests, up to how far they have come. */
  lemma ChunkingIsIrrelevant(c: Connection, d: Connection)
    requires c.Valid() && d.Valid() && c.cfg == d.cfg && c.input == d.input
    ensures UpToBody(c.blocks, c.cfg) <= UpToBody(d.blocks, d.cfg)
         || UpToBody(d.blocks, d.cfg) <= UpToBody(c.blocks, c.cfg)
    ensures BodyFree(SplitBlocks(c.input), c.cfg) && c.state == WAIT_REQUEST && d.state == WAIT_REQUEST ==>
              c.blocks == d.blocks
  {
    hide WantsBody, SplitBlocks, UpToBody, Find, Logged, Balanced, Connection.Idle, Connection.Receiving,
         Connection.SendingFile, Connection.SendingPage;
    if BodyFree(SplitBlocks(c.input), c.cfg) {
      BlocksOfStream(c);
      BlocksOfStream(d);
    }
    PrefixesOfOne(UpToBody(c.blocks, c.cfg), UpToBody(d.blocks, d.cfg), SplitBlocks(c.input));
  }

  lemma PrefixesOfOne(a: seq<string>, b: seq<string>, all: seq<string>)
    requires a <= all && b <= all
    ensures a <= b || b <= a
  {
    if |a| <= |b| { assert a == all[..|a|] == b[..|a|]; } else { assert b == all[..|b|] == a[..|b|]; }
  }

  // ---------- delivery ----------

  predicate Moves(answer: SendAnswer) { answer.Took? && answer.room > 0 }

  ghost predicate MovesAgain(socket: Socket, k: nat) {
    exists j: nat :: k <= j && Moves(socket(j))
  }

  /** However long one waits, the socket takes a byte again. */
  ghost predicate Fair(socket: Socket) {
    forall k: nat :: MovesAgain(socket, k)
  }

  predicate Sending(c: Connection)
    reads c
  {
    !c.quitting && (c.sendq != "" || c.state == SEND_HEADERS || c.state == SEND_DATA)
  }

  /** Blocks that leave the buffer make it shorter. */
  lemma {:induction false} BufferShrinks(blocks: seq<string>, rest: string, more: seq<string>, left: string)
    requires blocks <= more && Concat(blocks) + rest == Concat(more) + left
    requires forall i :: 0 <= i < |more| ==> IsBlock(more[i])
    ensures blocks == more ==> rest == left
    ensures blocks != more ==> |left| < |rest|
    decreases |more|
  {
    hide Find;
    if more != [] {
      var b := more[0];
      assert Concat(more) + left == b + (Concat(more[1..]) + left);
      if blocks == [] {
        assert |b| >= 4;
      } else {
        assert Concat(blocks) + rest == b + (Concat(blocks[1..]) + rest);
        assert (b + (Concat(more[1..]) + left))[|b|..] == Concat(more[1..]) + left;
        assert (b + (Concat(blocks[1..]) + rest))[|b|..] == Concat(blocks[1..]) + rest;
        BufferShrinks(blocks[1..], rest, more[1..], left);
        assert blocks == [b] + blocks[1..] && more == [b] + more[1..];
      }
    } else {
      assert "" + rest == rest && "" + left == left;
    }
  }

  /** A write event that is offered something takes a further request from the buffer, answers
      the one that was taken, sends a byte, or has asked a socket that takes none. */
  twostate lemma WriteMoves(c: Connection)
    requires old(c.Valid()) && c.Valid() && c.Grows() && old(c.Offered()) != "" && c.Asked(old(c.Offered()))
    ensures |c.log| <= |c.blocks| && |c.wire| <= |Output(c.log)|
    ensures |c.requestbuf| < old(|c.requestbuf|)
         || (|c.requestbuf| == old(|c.requestbuf|) && c.blocks == old(c.blocks)
             && (|c.log| > old(|c.log|)
                 || (c.log == old(c.log)
                     && (|c.wire| > old(|c.wire|)
                         || (c.wire == old(c.wire) && c.sends == old(c.sends) + 1
                             && !Moves(c.socket(old(c.sends))))))))
  {
    hide Output, Find, IsBlock, UpToBody, SplitBlocks, WellFormedLog, HadFatal, LastKept, LastHasBody,
         Connection.Idle, Connection.Receiving, Connection.SendingFile, Connection.SendingPage, Connection.Offered;
    BufferShrinks(old(c.blocks), old(c.requestbuf), c.blocks, c.requestbuf);
    assert Output(c.log) == c.wire + c.sendq + c.pending;
  }

  lemma SomethingOffered(c: Connection)
    requires c.Valid() && Armed(c.state, c.sendq, c.wantWrite)
    ensures Sending(c) ==> c.Offered() != "" && c.wantWrite
    ensures !Sending(c) && !c.quitting ==>
              (c.state == WAIT_REQUEST || c.state == RECV_REQBODY) && c.sendq == "" && c.pending == ""
  {
    hide InputTracked, Logged, Balanced, Find, HadFatal, LastKept, LastHasBody, KeepFits, VerdictOf;
  }

  lemma AwaitedBody(c: Connection)
    requires c.Valid() && c.state == RECV_REQBODY
    ensures c.blocks != [] && WantsBody(c.blocks[|c.blocks| - 1], c.cfg)
  {
    hide WantsBody, ParseBlock, VerdictOf, Find, InputTracked, Logged, Balanced, Connection.Idle,
         Connection.SendingFile, Connection.SendingPage, HadFatal, KeepFits, LastKept, LastHasBody;
    WantsBodyIs(c.blocks[|c.blocks| - 1], c.cfg);
  }

  /** No body is awaited where no request announces one. */
  lemma NoBodyAwaited(c: Connection)
    requires c.Valid() && BodyFree(SplitBlocks(c.input), c.cfg)
    ensures c.state != RECV_REQBODY
  {
    hide WantsBody, SplitBlocks, Connection.Valid;
    BlocksOfStream(c);
    if c.state == RECV_REQBODY { AwaitedBody(c); }
    if c.blocks != [] { assert c.blocks[|c.blocks| - 1] == SplitBlocks(c.input)[|c.blocks| - 1]; }
  }

  /** Over a fair socket the write events that are asked for bring all responses to the client,
      and where the requests have no bodies every complete request has one, unless the
      connection is closed or a send fails for good. */
  method Deliver(c: Connection)
    requires c.Valid() && !c.quitting && Armed(c.state, c.sendq, c.wantWrite) && Fair(c.socket)
    modifies c, c.headers
    ensures c.Valid() && Armed(c.state, c.sendq, c.wantWrite)
    ensures c.input == old(c.input) && old(c.blocks) <= c.blocks && old(c.log) <= c.log && old(c.wire) <= c.wire
    ensures !c.quitting ==>
              && (c.state == WAIT_REQUEST || c.state == RECV_REQBODY)
              && c.wire == Output(c.log) && ClientRead(c.wire) == Messages(c.log)
    ensures !c.quitting && BodyFree(SplitBlocks(c.input), c.cfg) ==>
              c.blocks == SplitBlocks(c.input) && |c.log| == |c.blocks|
    ensures c.quitting ==> c.ended || Refusal(c.socket, old(c.sends), c.sends)
  {
    hide Output, Messages, ClientRead, BodyFree, SplitBlocks, Moves, Fair, Connection.Valid, Connection.Offered,
         Connection.Asked;
    ghost var goal: nat := NextMove(c.socket, c.sends);
    while Sending(c)
      invariant c.Valid() && Armed(c.state, c.sendq, c.wantWrite)
      invariant c.input == old(c.input) && old(c.blocks) <= c.blocks && old(c.log) <= c.log && old(c.wire) <= c.wire
      invariant c.quitting ==> c.ended || Refusal(c.socket, old(c.sends), c.sends)
      invariant old(c.sends) <= c.sends <= goal && Moves(c.socket(goal))
      decreases |c.requestbuf|, |c.blocks| - |c.log|, |Output(c.log)| - |c.wire|, goal - c.sends
    {
      SomethingOffered(c);
      assert c.wantWrite;
      label event:
      c.HandleEvent(WriteReady);
      WriteMoves@event(c);
      if c.sends > goal { goal := NextMove(c.socket, c.sends); }
    }
    SomethingOffered(c);
    if !c.quitting { AllDelivered(c); }
  }

  /** A run of any events and the write events behind it: what the client reads are the
      messages that answer exactly the requests of the stream, in their order. */
  method RunAndDeliver(cfg: Config, socket: Socket, events: seq<Event>) returns (c: Connection)
    requires Fair(socket)
    ensures c.Valid() && c.cfg == cfg && c.socket == socket
    ensures !c.quitting ==>
              && c.input == Heard(events) && Logged(c.log, c.blocks, cfg)
              && c.wire == Output(c.log) && ClientRead(c.wire) == Messages(c.log)
    ensures !c.quitting && BodyFree(SplitBlocks(Heard(events)), cfg) ==>
              c.blocks == SplitBlocks(Heard(events)) && |c.log| == |c.blocks|
    ensures c.quitting ==> c.ended || c.dropped || Refusal(socket, 0, c.sends)
  {
    hide Output, Messages, ClientRead, BodyFree, SplitBlocks, Fair, Heard, Logged, Connection.Idle,
         Connection.Receiving, Connection.SendingFile, Connection.SendingPage, InputTracked, Balanced;
    ghost var heard;
    c, heard := Run(cfg, socket, events);
    assert events[..|events|] == events;
    if !c.quitting { Deliver(c); }
  }

  lemma AllDelivered(c: Connection)
    requires c.Valid() && !c.quitting && !Sending(c) && c.pending == ""
    ensures c.wire == Output(c.log) && ClientRead(c.wire) == Messages(c.log)
    ensures BodyFree(SplitBlocks(c.input), c.cfg) ==> c.blocks == SplitBlocks(c.input) && |c.log| == |c.blocks|
  {
    hide Output, Messages, ClientRead, BodyFree, SplitBlocks, Connection.Valid;
    ClientSeesResponses(c);
    ConservedOutput(c);
    assert c.wire + "" + "" == c.wire;
    if BodyFree(SplitBlocks(c.input), c.cfg) {
      NoBodyAwaited(c);
      BlocksOfStream(c);
    }
  }

  lemma NextMove(socket: Socket, k: nat) returns (j: nat)
    requires Fair(socket)
    ensures k <= j && Moves(socket(j))
  {
    assert MovesAgain(socket, k);
    j :| k <= j && Moves(socket(j));
  }
}
