/** Requests with at most one header field, for statements about single inputs. */
module Samples {
  import opened Text
  import opened Headers
  import opened Requests
  import opened Exchanges

  function Plain(verb: string, uri: string): Request { Request(verb, uri, HTTP11, map[]) }

  function WithField(verb: string, uri: string, f: Field): Request {
    Request(verb, uri, HTTP11, map[Lower(f.name) := f])
  }

  function PlainBlock(verb: string, uri: string): string { PrintRequest(Plain(verb, uri), []) }

  function FieldBlock(verb: string, uri: string, f: Field): string {
    PrintRequest(WithField(verb, uri, f), [f])
  }

  const LENGTH_ONE := Field("Content-Length", "1")
  const CLOSE := Field("Connection", "close")
  const KEEP := Field("Connection", "keep-alive")

  lemma PlainParses(verb: string, uri: string)
    requires IsWord(verb) && IsWord(uri)
    ensures IsBlock(PlainBlock(verb, uri)) && ParseBlock(PlainBlock(verb, uri)) == Outcome(0, Plain(verb, uri))
  {
    hide PrintRequest, ParseBlock, IsBlock, IsWord;
    RequestRoundTrip(Plain(verb, uri), []);
  }

  lemma FieldParses(verb: string, uri: string, f: Field)
    requires IsWord(verb) && IsWord(uri) && Printable(f)
    ensures IsBlock(FieldBlock(verb, uri, f))
    ensures ParseBlock(FieldBlock(verb, uri, f)) == Outcome(0, WithField(verb, uri, f))
  {
    hide PrintRequest, ParseBlock, IsBlock, IsWord, Printable, Lower;
    var r := WithField(verb, uri, f);
    assert PutAll(map[], [f]) == r.headers by {
      assert [f][1..] == [];
      assert PutAll(Put(map[], f.name, f.value), []) == Put(map[], f.name, f.value);
    }
    RequestRoundTrip(r, [f]);
  }

  lemma FieldsArePrintable()
    ensures Printable(LENGTH_ONE) && Printable(CLOSE) && Printable(KEEP)
  {
    hide Printable, FieldLine, Find, At;
    CleanIsPrintable(LENGTH_ONE);
    CleanIsPrintable(CLOSE);
    CleanIsPrintable(KEEP);
  }

  lemma Words()
    ensures IsWord("GET") && IsWord("POST") && IsWord("PUT")
    ensures IsWord("/") && IsWord("/e") && IsWord("/../x") && IsWord("-private/f")
    ensures Upper("GET") == "GET" && Upper("POST") == "POST" && Upper("PUT") == "PUT"
  {
  }

  /** Names of different lengths are different names. */
  lemma OtherName(f: Field, verb: string, uri: string, name: string)
    requires |name| != |f.name|
    ensures !Has(WithField(verb, uri, f).headers, name) && Get(WithField(verb, uri, f).headers, name) == ""
  {
  }

  lemma PlainVerdicts(uri: string, cfg: Config)
    ensures VerdictOf(Plain("GET", uri), cfg) == Serve && VerdictOf(Plain("PUT", uri), cfg) == Fail(501)
  {
    Words();
  }

  lemma LengthVerdict(uri: string, cfg: Config)
    requires Unsigned(cfg.maxPostBody) >= 1
    ensures VerdictOf(WithField("POST", uri, LENGTH_ONE), cfg) == ReadBody(1)
  {
    hide Lower, Atoi;
    Words();
    OtherName(LENGTH_ONE, "POST", uri, "Transfer-Encoding");
    AtoiDecimal(1);
    assert Decimal(1) == "1";
  }

  lemma ConnectionVerdict(uri: string, f: Field, cfg: Config)
    requires f == CLOSE || f == KEEP
    ensures VerdictOf(WithField("GET", uri, f), cfg) == Serve
  {
    hide Lower;
    Words();
    OtherName(f, "GET", uri, "Transfer-Encoding");
    OtherName(f, "GET", uri, "Content-Length");
  }

  lemma ConnectionValues()
    ensures Lower("close") == "close" && Lower("keep-alive") == "keep-alive"
  {
  }
}
