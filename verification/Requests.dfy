/** Request heads: how the byte stream is cut into blocks at the first blank line,
    and what the request line and the header lines of one block mean. */
module Requests {
  import opened Text
  import opened Headers

  datatype Version = UNSPECIFIED | HTTP10 | HTTP11

  datatype Request = Request(verb: string, uri: string, version: Version, headers: HeaderMap)

  /** code is 0 for a well-formed head, otherwise the error status the parser reports. */
  datatype Outcome = Outcome(code: int, request: Request)

  const NO_REQUEST := Request("", "", UNSPECIFIED, map[])

  // ---------- cutting the stream ----------

  /** A block runs up to and including its first blank line. */
  predicate IsBlock(b: string) {
    |b| >= 4 && Find(b, TERMINATOR, 0) == |b| - 4
  }

  /** The complete blocks at the front of a stream. */
  function SplitBlocks(s: string): (r: seq<string>)
    decreases |s|
  {
    var end := Find(s, TERMINATOR, 0);
    if end == -1 then [] else [s[..end + 4]] + SplitBlocks(s[end + 4..])
  }

  lemma FirstTerminatorInPrefix(s: string, end: nat, rest: string)
    requires Find(s, TERMINATOR, 0) == end
    ensures Find(s + rest, TERMINATOR, 0) == end
    ensures IsBlock(s[..end + 4])
  {
    var whole := s + rest;
    var block := s[0..end + 4];
    assert s == whole[0..|s|] && s[..end + 4] == block;
    forall k | 0 <= k <= end ensures At(whole, TERMINATOR, k) <==> At(s, TERMINATOR, k) {
      AtSlice(whole, 0, |s|, TERMINATOR, k);
    }
    FindIs(whole, TERMINATOR, 0, end);
    forall k | 0 <= k <= end ensures At(block, TERMINATOR, k) <==> At(s, TERMINATOR, k) {
      AtSlice(s, 0, end + 4, TERMINATOR, k);
    }
    FindIs(block, TERMINATOR, 0, end);
  }

  /** Cutting off one block leaves the cutting of the rest unchanged. */
  lemma SplitPeel(b: string, rest: string)
    requires IsBlock(b)
    ensures SplitBlocks(b + rest) == [b] + SplitBlocks(rest)
  {
    FirstTerminatorInPrefix(b, |b| - 4, rest);
    assert (b + rest)[..|b|] == b && (b + rest)[|b|..] == rest;
  }

  /** A stream that is blocks followed by an unfinished part splits into those blocks. */
  lemma {:induction false} SplitUnique(blocks: seq<string>, rest: string)
    requires forall i :: 0 <= i < |blocks| ==> IsBlock(blocks[i])
    ensures SplitBlocks(Concat(blocks) + rest) == blocks + SplitBlocks(rest)
  {
    hide SplitBlocks, IsBlock, Find;
    if blocks == [] {
      assert Concat(blocks) + rest == rest;
    } else {
      calc {
        SplitBlocks(Concat(blocks) + rest);
        { assert Concat(blocks) + rest == blocks[0] + (Concat(blocks[1..]) + rest); }
        SplitBlocks(blocks[0] + (Concat(blocks[1..]) + rest));
        { SplitPeel(blocks[0], Concat(blocks[1..]) + rest); }
        [blocks[0]] + SplitBlocks(Concat(blocks[1..]) + rest);
        { SplitUnique(blocks[1..], rest); }
        [blocks[0]] + (blocks[1..] + SplitBlocks(rest));
        { assert blocks == [blocks[0]] + blocks[1..]; }
        blocks + SplitBlocks(rest);
      }
    }
  }

  /** The blocks of a stream are blocks, and what they leave over holds no blank line. */
  lemma {:induction false} SplitSound(s: string) returns (rest: string)
    ensures forall i :: 0 <= i < |SplitBlocks(s)| ==> IsBlock(SplitBlocks(s)[i])
    ensures s == Concat(SplitBlocks(s)) + rest && Find(rest, TERMINATOR, 0) == -1
    decreases |s|
  {
    hide IsBlock, Find;
    var end := Find(s, TERMINATOR, 0);
    if end == -1 {
      rest := s;
      assert Concat([]) + s == s;
    } else {
      var first, behind := s[..end + 4], s[end + 4..];
      FirstTerminatorInPrefix(s, end, "");
      rest := SplitSound(behind);
      var tail := SplitBlocks(behind);
      assert SplitBlocks(s) == [first] + tail && ([first] + tail)[1..] == tail;
      calc {
        s;
        first + behind;
        first + (Concat(tail) + rest);
        first + Concat(tail) + rest;
        Concat([first] + tail) + rest;
      }
    }
  }

  /** Bytes that arrive later never change the blocks that were already complete. */
  lemma {:induction false} SplitMonotone(s: string, more: string)
    ensures SplitBlocks(s) <= SplitBlocks(s + more)
    decreases |s|
  {
    var end := Find(s, TERMINATOR, 0);
    if end != -1 {
      FirstTerminatorInPrefix(s, end, more);
      assert (s + more)[..end + 4] == s[..end + 4] && (s + more)[end + 4..] == s[end + 4..] + more;
      SplitMonotone(s[end + 4..], more);
    }
  }

  // ---------- the request line ----------

  /** istream >> std::string: skip white space, then take everything up to the next. */
  function WordEnd(s: string): (n: nat)
    ensures n <= |s|
    ensures forall i :: 0 <= i < n ==> s[i] !in SPACES
    ensures n < |s| ==> s[n] in SPACES
  {
    if s == "" || s[0] in SPACES then 0 else 1 + WordEnd(s[1..])
  }

  function NextWord(s: string): (string, string) {
    var t := SkipSpaces(s);
    (t[..WordEnd(t)], t[WordEnd(t)..])
  }

  /** What the three words of a request line mean. */
  function RequestOf(verb: string, uri: string, ver: string): Outcome {
    var r := NO_REQUEST.(verb := verb, uri := uri);
    if verb == "" || uri == "" || ver == "" then Outcome(400, r)
    else if Upper(ver) == "HTTP/1.1" then Outcome(0, r.(version := HTTP11))
    else if Upper(ver) == "HTTP/1.0" then Outcome(0, r.(version := HTTP10))
    else Outcome(505, r)
  }

  function ParseRequestLine(line: string): Outcome {
    var first := NextWord(line);
    var second := NextWord(first.1);
    RequestOf(first.0, second.0, NextWord(second.1).0)
  }

  // ---------- the header lines ----------

  /** One header line: None when the colon is missing, first or last. The value starts
      two characters after the name, whatever the character behind the colon is. */
  function ParseField(line: string): Option<Field> {
    var sep := Find(line, ":", 0);
    if sep == -1 || sep == 0 || sep == |line| - 1 then None
    else Some(Field(line[..sep], line[sep + 2..]))
  }

  /** The linear white space of one line, which RFC 2616, section 4.2, excludes from both
      ends of a field value. */
  predicate IsBlank(c: char) { c == ' ' || c == '\t' }

  function SkipBlanks(s: string): (r: string)
    ensures if s != "" && IsBlank(s[0]) then |r| < |s| else r == s
  {
    if s != "" && IsBlank(s[0]) then SkipBlanks(s[1..]) else s
  }

  function DropBlanks(s: string): (r: string)
    ensures if s != "" && IsBlank(s[|s| - 1]) then |r| < |s| else r == s
    ensures r == "" || !IsBlank(r[|r| - 1])
  {
    if s != "" && IsBlank(s[|s| - 1]) then DropBlanks(s[..|s| - 1]) else s
  }

  function Trim(s: string): string { DropBlanks(SkipBlanks(s)) }

  /** The value is the one that section 4.2 defines exactly when one blank, and no more,
      stands behind the colon, and none at the end of a value that is not empty. */
  lemma FieldValueIff(line: string)
    requires ParseField(line).Some?
    ensures var sep := Find(line, ":", 0);
            ParseField(line).value.value == Trim(line[sep + 1..])
            <==> && IsBlank(line[sep + 1])
                 && (sep + 2 < |line| ==> !IsBlank(line[sep + 2]) && !IsBlank(line[|line| - 1]))
  {
    hide Find, Trim, At, IsBlank, ParseField;
    var sep := Find(line, ":", 0);
    FieldIs(line);
    TrimIff(line, sep + 1);
  }

  lemma FieldIs(line: string)
    requires ParseField(line).Some?
    ensures var sep := Find(line, ":", 0);
            0 < sep && sep + 1 < |line| && ParseField(line).value == Field(line[..sep], line[sep + 2..])
  {
    hide Find;
  }

  lemma TrimIff(line: string, k: nat)
    requires k < |line|
    ensures line[k + 1..] == Trim(line[k..])
       <==> IsBlank(line[k]) && (k + 1 < |line| ==> !IsBlank(line[k + 1]) && !IsBlank(line[|line| - 1]))
  {
    hide SkipBlanks, DropBlanks, IsBlank;
    var text, value := line[k..], line[k + 1..];
    assert text[1..] == value;
    if IsBlank(line[k]) {
      SkipOne(text);
    } else if value != "" {
      assert value[|value| - 1] == text[|text| - 1];
    }
  }

  lemma SkipOne(s: string)
    requires s != "" && IsBlank(s[0])
    ensures SkipBlanks(s) == SkipBlanks(s[1..])
  {
  }

  /** Without a blank the first character of the value is lost. */
  lemma FieldValueLosesACharacter()
    ensures ParseField("n:ab") == Some(Field("n", "b"))
    ensures Trim("ab") == "ab"
  {
    hide Find;
    var line := "n:ab";
    assert line[0..1] == "n" && line[1..2] == ":";
    assert !At(line, ":", 0) && At(line, ":", 1);
    FindIs(line, ":", 0, 1);
    assert line[..1] == "n" && line[3..] == "b";
  }

  /** A blank at the end of the line stays in the value. */
  lemma FieldValueKeepsABlank()
    ensures ParseField("n: a ") == Some(Field("n", "a "))
    ensures Trim(" a ") == "a"
  {
    hide Find;
    var line := "n: a ";
    assert line[0..1] == "n" && line[1..2] == ":";
    assert !At(line, ":", 0) && At(line, ":", 1);
    FindIs(line, ":", 0, 1);
    assert line[..1] == "n" && line[3..] == "a ";
    SkipOne(" a ");
    assert " a "[1..] == "a " && "a "[..1] == "a";
    assert DropBlanks("a ") == DropBlanks("a") == "a";
  }

  /** Reads header lines up to the blank one. */
  function ParseFields(acc: HeaderMap, text: string): Option<HeaderMap>
    decreases |text|
  {
    var end := Find(text, CRLF, 0);
    if end == -1 || end == 0 then Some(acc)
    else match ParseField(text[..end])
      case None => None
      case Some(f) => ParseFields(Put(acc, f.name, f.value), text[end + 2..])
  }

  /** The meaning of one block. A block that opens with a blank line has no request line. */
  function ParseBlock(block: string): Outcome {
    var end := Find(block, CRLF, 0);
    if end == -1 || end == 0 then Outcome(400, NO_REQUEST)
    else
      var first := ParseRequestLine(block[..end]);
      if first.code != 0 then first
      else match ParseFields(map[], block[end + 2..])
        case None => first.(code := 400)
        case Some(m) => Outcome(0, first.request.(headers := m))
  }

  lemma UriIsNotEmpty(block: string)
    requires ParseBlock(block).code == 0
    ensures ParseBlock(block).request.uri != ""
  {
    hide Find, NextWord, ParseFields;
  }

  // ---------- printing and parsing ----------

  predicate IsWord(s: string) {
    s != "" && forall i :: 0 <= i < |s| ==> s[i] !in SPACES
  }

  /** A field that can travel on one header line. */
  predicate Printable(f: Field) {
    && f.name != ""
    && ':' !in f.name
    && Find(FieldLine(f), CRLF, 0) == -1
  }

  function VersionText(version: Version): string {
    if version == HTTP10 then "HTTP/1.0" else "HTTP/1.1"
  }

  function RequestLine(verb: string, uri: string, version: Version): string {
    verb + " " + uri + " " + VersionText(version)
  }

  /** The first CRLF behind a CRLF-free line is the one that ends it. */
  lemma LineEnd(line: string, rest: string)
    requires Find(line, CRLF, 0) == -1
    ensures Find(line + CRLF + rest, CRLF, 0) == |line|
  {
    var s := line + CRLF + rest;
    AtCrlf(s, |line|);
    forall k | 0 <= k < |line| ensures !At(s, CRLF, k) {
      AtCrlf(s, k);
      AtCrlf(line, k);
    }
    FindIs(s, CRLF, 0, |line|);
  }

  // ---------- lines without CRLF, each ended by CRLF, and a blank line ----------

  /** A blank line in "line CRLF rest" starts at the end of the line or is in rest. */
  lemma PeelLine(line: string, rest: string, k: nat)
    requires Find(line, CRLF, 0) == -1
    requires At(line + CRLF + rest, TERMINATOR, k)
    ensures k == |line| ==> At(rest, CRLF, 0)
    ensures k != |line| ==> k >= |line| + 2 && At(rest, TERMINATOR, k - |line| - 2)
  {
    hide Find, At;
    var s := line + CRLF + rest;
    AtTerminator(s, k);
    AtCrlf(s, k);
    AtCrlf(s, k + 2);
    AtCrlf(line, k);
    AtCrlf(rest, 0);
    if k > |line| + 1 {
      assert rest == s[|line| + 2..|s|];
      AtSlice(s, |line| + 2, |s|, TERMINATOR, k - |line| - 2);
    }
  }

  lemma StartsWithLine(line: string, rest: string)
    requires line != "" && Find(line, CRLF, 0) == -1
    ensures !At(line + CRLF + rest, CRLF, 0)
  {
    hide Find, At;
    AtCrlf(line, 0);
    AtCrlf(line + CRLF + rest, 0);
  }

  /** Formatted fields hold no blank line but the closing one. */
  lemma {:induction false} TerminatorIsLast(fs: seq<Field>, k: nat)
    requires forall i :: 0 <= i < |fs| ==> Printable(fs[i])
    requires At(FormatFields(fs) + CRLF, TERMINATOR, k)
    ensures k == |FormatFields(fs)| - 2
    decreases |fs|
  {
    if fs != [] {
      var line, rest := FieldLine(fs[0]), FormatFields(fs[1..]) + CRLF;
      assert FormatFields(fs) + CRLF == line + CRLF + rest;
      assert |FormatFields(fs)| == |line| + 2 + |FormatFields(fs[1..])|;
      if |fs| > 1 { FormatStarts(fs[1..]); }
      hide FormatFields, FieldLine, At;
      PeelLine(line, rest, k);
      if k == |line| {
        assert |fs| == 1;
        assert |FormatFields(fs[1..])| == 0;
      } else {
        TerminatorIsLast(fs[1..], k - |line| - 2);
      }
    }
  }

  lemma FormatStarts(fs: seq<Field>)
    requires fs != [] && Printable(fs[0])
    ensures !At(FormatFields(fs) + CRLF, CRLF, 0)
  {
    hide At;
    assert FormatFields(fs) + CRLF == FieldLine(fs[0]) + CRLF + (FormatFields(fs[1..]) + CRLF);
    StartsWithLine(FieldLine(fs[0]), FormatFields(fs[1..]) + CRLF);
  }

  /** A line, formatted fields and a blank line are one block. */
  lemma HeadIsBlock(line: string, fs: seq<Field>)
    requires line != "" && Find(line, CRLF, 0) == -1
    requires forall i :: 0 <= i < |fs| ==> Printable(fs[i])
    ensures IsBlock(line + CRLF + (FormatFields(fs) + CRLF))
  {
    hide FormatFields, Printable, At, Find, IsBlock;
    var fields := FormatFields(fs);
    var head := line + CRLF + (fields + CRLF);
    FieldsEndInCrlf(fs);
    EndsInTerminator(line, fields);
    forall k | 0 <= k < |head| - 4 ensures !At(head, TERMINATOR, k) {
      if At(head, TERMINATOR, k) { OnlyTerminator(fs, line, k); }
    }
    EndsBlock(head);
  }

  lemma EndsBlock(head: string)
    requires |head| >= 4 && At(head, TERMINATOR, |head| - 4)
    requires forall k :: 0 <= k < |head| - 4 ==> !At(head, TERMINATOR, k)
    ensures IsBlock(head)
  {
    hide At, Find;
    FindIs(head, TERMINATOR, 0, |head| - 4);
  }

  lemma OnlyTerminator(fs: seq<Field>, line: string, k: nat)
    requires forall i :: 0 <= i < |fs| ==> Printable(fs[i])
    requires Find(line, CRLF, 0) == -1 && At(line + CRLF + (FormatFields(fs) + CRLF), TERMINATOR, k)
    ensures k == |line| + |FormatFields(fs)|
  {
    hide At, Find, Printable, FormatFields;
    FieldsEndInCrlf(fs);
    if fs != [] { FormatStarts(fs); }
    PeelLine(line, FormatFields(fs) + CRLF, k);
    if k != |line| { TerminatorIsLast(fs, k - |line| - 2); }
  }

  /** Behind a line and its CRLF, text that is empty or ends in CRLF makes a blank line with one more. */
  lemma EndsInTerminator(line: string, text: string)
    requires text == "" || (|text| >= 2 && At(text, CRLF, |text| - 2))
    ensures At(line + CRLF + (text + CRLF), TERMINATOR, |line| + |text|)
  {
    var s := line + CRLF + (text + CRLF);
    if text != "" { AtCrlf(text, |text| - 2); }
    AtCrlf(s, |line| + |text|);
    AtCrlf(s, |line| + |text| + 2);
    AtTerminator(s, |line| + |text|);
  }

  lemma FieldsEndInCrlf(fs: seq<Field>)
    ensures fs == [] ==> FormatFields(fs) == ""
    ensures fs != [] ==> |FormatFields(fs)| >= 2 && At(FormatFields(fs), CRLF, |FormatFields(fs)| - 2)
  {
    if fs != [] {
      var front, last := fs[..|fs| - 1], fs[|fs| - 1];
      assert fs == front + [last];
      FormatAppend(front, last);
    }
  }

  lemma FieldLineParses(f: Field)
    requires Printable(f)
    ensures ParseField(FieldLine(f)) == Some(f)
  {
    var line := FieldLine(f);
    assert line[|f.name|..|f.name| + 1] == ":";
    forall k | 0 <= k < |f.name| ensures !At(line, ":", k) {
      assert line[k..k + 1] == [f.name[k]];
    }
    FindIs(line, ":", 0, |f.name|);
    assert line[..|f.name|] == f.name && line[|f.name| + 2..] == f.value;
  }

  /** A reader that follows section 4.2 finds the same name, and the value without the blanks
      around it. */
  lemma FieldLineReads(f: Field)
    requires Printable(f) && (f.value == "" || (!IsBlank(f.value[0]) && !IsBlank(f.value[|f.value| - 1])))
    ensures var line := FieldLine(f); var sep := Find(line, ":", 0);
            sep == |f.name| && line[..sep] == f.name && Trim(line[sep + 1..]) == f.value
  {
    hide Find, Trim;
    var line, sep := FieldLine(f), |f.name|;
    assert line[sep] == ':' && line[sep + 1..] == " " + f.value && line[..sep] == f.name;
    forall k | 0 <= k < sep ensures !At(line, ":", k) { assert line[k..k + 1] == [f.name[k]]; }
    assert line[sep..sep + 1] == ":";
    FindIs(line, ":", 0, sep);
    TrimOne(f.value);
  }

  lemma TrimOne(value: string)
    requires value == "" || (!IsBlank(value[0]) && !IsBlank(value[|value| - 1]))
    ensures Trim(" " + value) == value
  {
    assert (" " + value)[1..] == value;
    SkipOne(" " + value);
  }

  /** Reading a formatted list of fields inserts them all, in order. */
  lemma {:induction false} FormattedFieldsParse(acc: HeaderMap, fs: seq<Field>)
    requires forall i :: 0 <= i < |fs| ==> Printable(fs[i])
    ensures ParseFields(acc, FormatFields(fs) + CRLF) == Some(PutAll(acc, fs))
    decreases |fs|
  {
    if fs == [] {
      assert FormatFields(fs) + CRLF == "" + CRLF + "";
      LineEnd("", "");
    } else {
      var line, rest := FieldLine(fs[0]), FormatFields(fs[1..]) + CRLF;
      var text := FormatFields(fs) + CRLF;
      assert text == line + CRLF + rest;
      LineEnd(line, rest);
      assert text[..|line|] == line && text[|line| + 2..] == rest;
      FieldLineParses(fs[0]);
      FormattedFieldsParse(Put(acc, fs[0].name, fs[0].value), fs[1..]);
    }
  }

  lemma WordEndIs(s: string, n: nat)
    requires n <= |s| && (n < |s| ==> s[n] in SPACES)
    requires forall i :: 0 <= i < n ==> s[i] !in SPACES
    ensures WordEnd(s) == n
  {
  }

  lemma WordThenSpace(w: string, rest: string)
    requires IsWord(w) && (rest == "" || rest[0] in SPACES)
    ensures NextWord(w + rest) == (w, rest)
    ensures NextWord(" " + w + rest) == (w, rest)
  {
    var s := w + rest;
    assert s[0] == w[0] && SkipSpaces(s) == s;
    assert (" " + w + rest)[1..] == s && SkipSpaces(" " + w + rest) == SkipSpaces(s);
    assert forall i :: 0 <= i < |w| ==> s[i] == w[i];
    WordEndIs(s, |w|);
    assert s[..|w|] == w && s[|w|..] == rest;
  }

  lemma RequestOfPrinted(verb: string, uri: string, version: Version)
    requires IsWord(verb) && IsWord(uri) && version != UNSPECIFIED
    ensures IsWord(VersionText(version))
    ensures RequestOf(verb, uri, VersionText(version)) == Outcome(0, Request(verb, uri, version, map[]))
  {
    assert Upper(VersionText(version)) == VersionText(version);
  }

  lemma RequestLineParses(verb: string, uri: string, version: Version)
    requires IsWord(verb) && IsWord(uri) && version != UNSPECIFIED
    ensures ParseRequestLine(RequestLine(verb, uri, version))
         == Outcome(0, Request(verb, uri, version, map[]))
  {
    var ver := VersionText(version);
    RequestOfPrinted(verb, uri, version);
    ThreeWords(verb, uri, ver);
  }

  lemma ThreeWords(verb: string, uri: string, ver: string)
    requires IsWord(verb) && IsWord(uri) && IsWord(ver)
    ensures ParseRequestLine(verb + " " + uri + " " + ver) == RequestOf(verb, uri, ver)
  {
    var rest2 := " " + ver;
    var rest := " " + uri + rest2;
    assert NextWord(rest2).0 == ver by {
      WordThenSpace(ver, "");
      assert rest2 == " " + ver + "";
    }
    assert NextWord(rest) == (uri, rest2) by { WordThenSpace(uri, rest2); }
    assert NextWord(verb + rest) == (verb, rest) by { WordThenSpace(verb, rest); }
    assert verb + " " + uri + " " + ver == verb + rest;
  }

  function PrintRequest(r: Request, fs: seq<Field>): string {
    RequestLine(r.verb, r.uri, r.version) + CRLF + FormatFields(fs) + CRLF
  }

  /** fs is a list of the headers of r, and all of r can be written on lines. */
  ghost predicate CanPrint(r: Request, fs: seq<Field>) {
    && IsWord(r.verb) && IsWord(r.uri) && r.version != UNSPECIFIED
    && Enumerates(fs, r.headers) && forall i :: 0 <= i < |fs| ==> Printable(fs[i])
  }

  /** Parsing undoes printing: a request line followed by formatted headers and a blank
      line is one block, and is read back as the same request with the same header map. */
  lemma RequestRoundTrip(r: Request, fs: seq<Field>)
    requires CanPrint(r, fs)
    ensures IsBlock(PrintRequest(r, fs))
    ensures ParseBlock(PrintRequest(r, fs)) == Outcome(0, r)
  {
    hide ParseRequestLine, ParseFields, FormatFields, Find, At, IsBlock, Printable, IsWord;
    var line := RequestLine(r.verb, r.uri, r.version);
    var rest := FormatFields(fs) + CRLF;
    var block := PrintRequest(r, fs);
    assert block == line + CRLF + rest;
    RequestLineHasNoCrlf(r.verb, r.uri, r.version);
    HeadIsBlock(line, fs);
    LineEnd(line, rest);
    assert block[..|line|] == line && block[|line| + 2..] == rest;
    RequestLineParses(r.verb, r.uri, r.version);
    FormattedFieldsParse(map[], fs);
  }

  function PrintRequests(rs: seq<Request>, fss: seq<seq<Field>>): (blocks: seq<string>)
    requires |rs| == |fss|
    ensures |blocks| == |rs| && forall i :: 0 <= i < |rs| ==> blocks[i] == PrintRequest(rs[i], fss[i])
  {
    seq(|rs|, i requires 0 <= i < |rs| => PrintRequest(rs[i], fss[i]))
  }

  /** Printed requests that follow one another are cut apart again, each is read back, and
      what stands behind them is cut as if it stood alone. */
  lemma {:induction false} PipelineRoundTrip(rs: seq<Request>, fss: seq<seq<Field>>, rest: string)
    requires |rs| == |fss| && forall i :: 0 <= i < |rs| ==> CanPrint(rs[i], fss[i])
    ensures SplitBlocks(Concat(PrintRequests(rs, fss)) + rest) == PrintRequests(rs, fss) + SplitBlocks(rest)
    ensures forall i :: 0 <= i < |rs| ==> ParseBlock(PrintRequests(rs, fss)[i]) == Outcome(0, rs[i])
    decreases |rs|
  {
    hide PrintRequest, CanPrint, ParseBlock, IsBlock, SplitBlocks;
    var blocks := PrintRequests(rs, fss);
    if rs == [] {
      assert Concat(blocks) + rest == rest;
    } else {
      RequestRoundTrip(rs[0], fss[0]);
      assert blocks[1..] == PrintRequests(rs[1..], fss[1..]);
      PipelineRoundTrip(rs[1..], fss[1..], rest);
      var behind := Concat(blocks[1..]) + rest;
      assert Concat(blocks) + rest == blocks[0] + behind;
      SplitPeel(blocks[0], behind);
      forall i | 0 <= i < |rs| ensures ParseBlock(blocks[i]) == Outcome(0, rs[i]) {
        if i > 0 { assert blocks[i] == blocks[1..][i - 1] && rs[i] == rs[1..][i - 1]; }
      }
    }
  }

  lemma RequestLineHasNoCrlf(verb: string, uri: string, version: Version)
    requires IsWord(verb) && IsWord(uri)
    ensures Find(RequestLine(verb, uri, version), CRLF, 0) == -1 && RequestLine(verb, uri, version) != ""
  {
    hide Find, At;
    var line := RequestLine(verb, uri, version);
    forall k | 0 <= k ensures !At(line, CRLF, k) {
      AtCrlf(line, k);
      if k < |line| { RequestLineHasNoCr(verb, uri, version, k); }
    }
    NotFound(line, CRLF, 0);
  }

  lemma RequestLineHasNoCr(verb: string, uri: string, version: Version, k: nat)
    requires IsWord(verb) && IsWord(uri) && k < |RequestLine(verb, uri, version)|
    ensures RequestLine(verb, uri, version)[k] != '\r'
  {
    var line := RequestLine(verb, uri, version);
    if k < |verb| { assert line[k] == verb[k]; }
    else if |verb| < k <= |verb| + |uri| { assert line[k] == uri[k - |verb| - 1]; }
  }
}
