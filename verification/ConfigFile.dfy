/** LoadConf: the character automaton that reads a configuration file, its printer, and
    the proof that together they describe exactly the configurations that can be written. */
module ConfigFile {
  import opened Text

  datatype Item = Item(key: string, value: string)
  datatype Section = Section(name: string, items: seq<Item>)

  datatype Fault =
    | CannotOpen | UnexpectedQuote | PriorWords | ItemOutsideSection | StrayEquals | NestedSection
    | NamelessSection | StrayBrace | UnexpectedEnd | UnexpectedWord | ItemWithoutValue
    | OpenComment | OpenQuote | Garbage | OpenSection

  /** Either way the sections completed so far have been inserted into the target. Line 0
      stands for a fault that is found at the end of the file. */
  datatype Outcome = Loaded(target: seq<Section>) | Failed(fault: Fault, line: nat, target: seq<Section>)

  // ---------- the automaton ----------

  datatype State = State(wordbuffer: string, section: string, itemname: string,
                         inWord: bool, inQuote: bool, inComment: bool,
                         sectiondata: seq<Item>, target: seq<Section>, line: nat)

  function Init(target: seq<Section>): State {
    State("", "", "", false, false, false, [], target, 1)
  }

  /** One step: go on behind n characters, drop the rest of the line, or give up. */
  datatype Step = Take(st: State, n: nat) | DropLine | Reject(fault: Fault)

  function CharStep(st: State, ch: char, next: char): (r: Step)
    ensures r.Take? ==> r.n == 1 || (r.n == 2 && next != '\n')
  {
    if st.inQuote then
      if ch == '"' then Take(st.(inQuote := false, inWord := false), 1)
      else Take(st.(wordbuffer := st.wordbuffer + [ch]), 1)
    else if st.inComment then
      if ch == '*' && next == '/' then Take(st.(inComment := false), 2) else Take(st, 1)
    else if ch == '#' || (ch == '/' && next == '/') then DropLine
    else if ch == '/' && next == '*' then Take(st.(inComment := true), 2)
    else if ch == '"' then
      if st.section == "" || st.itemname == "" then Reject(UnexpectedQuote)
      else if st.inWord || st.wordbuffer != "" then Reject(PriorWords)
      else Take(st.(inQuote := true, inWord := true), 1)
    else if ch == '=' then
      if st.section == "" then Reject(ItemOutsideSection)
      else if st.itemname != "" then Reject(StrayEquals)
      else Take(st.(inWord := false, itemname := st.wordbuffer, wordbuffer := ""), 1)
    else if ch == '{' then
      if st.section != "" then Reject(NestedSection)
      else if st.wordbuffer == "" then Reject(NamelessSection)
      else Take(st.(inWord := false, section := st.wordbuffer, wordbuffer := ""), 1)
    else if ch == '}' then
      if st.section == "" then Reject(StrayBrace)
      else if st.wordbuffer != "" || st.itemname != "" then Reject(UnexpectedEnd)
      else Take(st.(target := st.target + [Section(st.section, st.sectiondata)], section := "", sectiondata := []), 1)
    else if ch == ';' || ch == '\r' then Take(st, 1)
    else if ch == ' ' || ch == '\t' then Take(st.(inWord := false), 1)
    else if !st.inWord && st.wordbuffer != "" then Reject(UnexpectedWord)
    else Take(st.(wordbuffer := st.wordbuffer + [ch], inWord := true), 1)
  }

  function LineStep(st: State): (r: Step)
    ensures !r.DropLine?
  {
    if st.inQuote then Take(st.(wordbuffer := st.wordbuffer + "\n", line := st.line + 1), 1)
    else if st.itemname == "" then Take(st.(inWord := false, line := st.line + 1), 1)
    else if st.wordbuffer == "" then Reject(ItemWithoutValue)
    else Take(st.(inWord := false, sectiondata := st.sectiondata + [Item(st.itemname, st.wordbuffer)],
                  wordbuffer := "", itemname := "", line := st.line + 1), 1)
  }

  function Finish(st: State): Outcome {
    if st.inComment then Failed(OpenComment, 0, st.target)
    else if st.inQuote then Failed(OpenQuote, 0, st.target)
    else if st.itemname != "" || st.wordbuffer != "" then Failed(Garbage, 0, st.target)
    else if st.section != "" then Failed(OpenSection, 0, st.target)
    else Loaded(st.target)
  }

  /** Index of the first newline, or the length. */
  function LineEnd(s: string): (n: nat)
    ensures n <= |s| && '\n' !in s[..n]
    ensures n < |s| ==> s[n] == '\n'
  {
    if s == "" || s[0] == '\n' then 0 else 1 + LineEnd(s[1..])
  }

  function StepOf(st: State, text: string): (r: Step)
    requires text != ""
    ensures r.Take? ==> 1 <= r.n <= |text|
    ensures r.DropLine? ==> text[0] != '\n'
  {
    if text[0] == '\n' then LineStep(st)
    else CharStep(st, text[0], if |text| > 1 then text[1] else '\n')
  }

  function Run(st: State, text: string): Outcome
    decreases |text|, if text != "" && text[0] == '\n' then 0 else 1
  {
    if text == "" then Finish(st)
    else match StepOf(st, text)
      case Take(st', n) => Run(st', text[n..])
      case DropLine => Run(st, text[LineEnd(text)..])
      case Reject(fault) => Failed(fault, st.line, st.target)
  }

  /** The lines that getline delivers are those of the content with a final newline. */
  function Normal(content: string): string {
    if content == "" || content[|content| - 1] == '\n' then content else content + "\n"
  }

  function Parse(target: seq<Section>, content: string): Outcome {
    Run(Init(target), Normal(content))
  }

  // ---------- the loops of LoadConf ----------

  lemma RunChar(st: State, text: string, c: nat)
    requires c < |text|
    ensures var s := StepOf(st, text[c..]);
            Run(st, text[c..]) == match s
              case Take(st', n) => Run(st', text[c + n..])
              case DropLine => Run(st, text[c + LineEnd(text[c..])..])
              case Reject(fault) => Failed(fault, st.line, st.target)
  {
    hide CharStep, LineStep;
    var s := StepOf(st, text[c..]);
    if s.Take? { assert text[c..][s.n..] == text[c + s.n..]; }
    assert text[c..][LineEnd(text[c..])..] == text[c + LineEnd(text[c..])..];
  }

  lemma LineEndIs(text: string, c: nat, e: nat)
    requires c <= e < |text| && text[e] == '\n'
    requires forall i :: c <= i < e ==> text[i] != '\n'
    ensures LineEnd(text[c..]) == e - c
  {
    var s := text[c..];
    assert forall i :: 0 <= i < |s| ==> s[i] == text[c + i];
    var n := LineEnd(s);
    assert forall i :: 0 <= i < n ==> s[..n][i] == s[i];
  }

  /** What the loop sees of a line is what the automaton sees of the text. */
  lemma StepInLine(text: string, pos: nat, line: string, c: nat, st: State)
    requires pos + |line| < |text| && line == text[pos..pos + |line|] && c < |line|
    requires text[pos + |line|] == '\n' && '\n' !in line
    ensures StepOf(st, text[pos + c..]) == CharStep(st, line[c], if c + 1 < |line| then line[c + 1] else '\n')
    ensures LineEnd(text[pos + c..]) == |line| - c
  {
    hide CharStep, LineStep;
    assert text[pos + c..][0] == line[c];
    assert text[pos + c..][1] == (if c + 1 < |line| then line[c + 1] else '\n');
    assert forall i :: pos <= i < pos + |line| ==> text[i] == line[i - pos];
    LineEndIs(text, pos + c, pos + |line|);
  }

  /** The inner loop: the characters of one line, up to a comment that drops the rest. */
  method ReadLine(st0: State, line: string, ghost text: string, ghost pos: nat)
    returns (st: State, fault: Option<Fault>)
    requires pos + |line| < |text| && line == text[pos..pos + |line|]
    requires text[pos + |line|] == '\n' && '\n' !in line
    ensures fault == None ==> Run(st0, text[pos..]) == Run(st, text[pos + |line|..])
    ensures fault.Some? ==> Run(st0, text[pos..]) == Failed(fault.value, st.line, st.target)
    ensures st.line == st0.line
  {
    hide Run, LineStep, LineEnd, StepOf;
    st, fault := st0, None;
    var c := 0;
    while c < |line|
      invariant c <= |line| && st.line == st0.line
      invariant Run(st0, text[pos..]) == Run(st, text[pos + c..])
    {
      var ch := line[c];
      var next := if c + 1 < |line| then line[c + 1] else '\n';
      RunChar(st, text, pos + c);
      StepInLine(text, pos, line, c, st);
      if st.inQuote {
        if ch == '"' {
          st := st.(inQuote := false, inWord := false);
        } else {
          st := st.(wordbuffer := st.wordbuffer + [ch]);
        }
      } else if st.inComment {
        if ch == '*' && next == '/' {
          st := st.(inComment := false);
          c := c + 1;
        }
      } else if ch == '#' || (ch == '/' && next == '/') {
        return;
      } else if ch == '/' && next == '*' {
        st := st.(inComment := true);
        c := c + 1;
      } else if ch == '"' {
        if st.section == "" || st.itemname == "" { return st, Some(UnexpectedQuote); }
        if st.inWord || st.wordbuffer != "" { return st, Some(PriorWords); }
        st := st.(inQuote := true, inWord := true);
      } else if ch == '=' {
        if st.section == "" { return st, Some(ItemOutsideSection); }
        if st.itemname != "" { return st, Some(StrayEquals); }
        st := st.(inWord := false, itemname := st.wordbuffer, wordbuffer := "");
      } else if ch == '{' {
        if st.section != "" { return st, Some(NestedSection); }
        if st.wordbuffer == "" { return st, Some(NamelessSection); }
        st := st.(inWord := false, section := st.wordbuffer, wordbuffer := "");
      } else if ch == '}' {
        if st.section == "" { return st, Some(StrayBrace); }
        if st.wordbuffer != "" || st.itemname != "" { return st, Some(UnexpectedEnd); }
        st := st.(target := st.target + [Section(st.section, st.sectiondata)], section := "", sectiondata := []);
      } else if ch == ';' || ch == '\r' {
      } else if ch == ' ' || ch == '\t' {
        st := st.(inWord := false);
      } else {
        if !st.inWord && st.wordbuffer != "" { return st, Some(UnexpectedWord); }
        st := st.(wordbuffer := st.wordbuffer + [ch], inWord := true);
      }
      c := c + 1;
    }
  }

  lemma NormalIs(text: string)
    requires text != ""
    ensures var norm := Normal(text);
            text <= norm && norm == if text[|text| - 1] == '\n' then text else text + "\n"
  {
  }

  /** getline finds the next line of the normalised text. */
  lemma LineInNormal(text: string, pos: nat)
    requires pos < |text|
    ensures var line := text[pos..pos + LineEnd(text[pos..])];
            var norm := Normal(text);
            && pos + |line| < |norm| && line == norm[pos..pos + |line|]
            && norm[pos + |line|] == '\n' && '\n' !in line
            && (pos + |line| + 1 >= |text| ==> pos + |line| + 1 == |norm|)
  {
    hide LineEnd, Normal;
    var rest := text[pos..];
    var n := LineEnd(rest);
    var norm := Normal(text);
    NormalIs(text);
    assert text[pos..pos + n] == rest[..n];
    assert norm[pos..pos + n] == rest[..n];
    if n < |rest| {
      assert norm[pos + n] == rest[n];
    } else {
      assert rest[..n] == rest && rest[n - 1] == text[|text| - 1];
    }
  }

  lemma RunNothing(st: State)
    ensures Run(st, "") == Finish(st)
  {
  }

  lemma ParseIs(target: seq<Section>, text: string)
    ensures Parse(target, text) == Run(Init(target), Normal(text)[0..]) && (text == "" ==> Normal(text) == "")
  {
    hide Run;
    assert Normal(text)[0..] == Normal(text);
  }

  /** content is None when the file cannot be opened. */
  method LoadConf(target: seq<Section>, content: Option<string>) returns (r: Outcome)
    ensures r == if content == None then Failed(CannotOpen, 0, target) else Parse(target, content.value)
  {
    hide Run, CharStep, LineEnd, StepOf, Normal, Parse;
    if content == None { return Failed(CannotOpen, 0, target); }
    var text := content.value;
    ghost var norm := Normal(text);
    var st := Init(target).(line := 0);
    var pos := 0;
    ParseIs(target, text);
    while pos < |text|
      invariant 0 <= pos <= |norm| && (pos >= |text| ==> pos == |norm|)
      invariant Run(st.(line := st.line + 1), norm[pos..]) == Parse(target, text)
      decreases |text| - pos
    {
      LineInNormal(text, pos);
      var line := text[pos..pos + LineEnd(text[pos..])];
      pos := pos + |line|;
      st := st.(line := st.line + 1);
      var fault;
      st, fault := ReadLine(st, line, norm, pos - |line|);
      if fault.Some? { return Failed(fault.value, st.line, st.target); }

      RunNewline(st, norm, pos);
      if st.inQuote {
        st := st.(wordbuffer := st.wordbuffer + "\n");
      } else {
        st := st.(inWord := false);
        if st.itemname != "" {
          if st.wordbuffer == "" { return Failed(ItemWithoutValue, st.line, st.target); }
          st := st.(sectiondata := st.sectiondata + [Item(st.itemname, st.wordbuffer)],
                    wordbuffer := "", itemname := "");
        }
      }
      pos := pos + 1;
    }
    RunNothing(st.(line := st.line + 1));
    EmptyTail(norm);
    if st.inComment { return Failed(OpenComment, 0, st.target); }
    if st.inQuote { return Failed(OpenQuote, 0, st.target); }
    if st.itemname != "" || st.wordbuffer != "" { return Failed(Garbage, 0, st.target); }
    if st.section != "" { return Failed(OpenSection, 0, st.target); }
    return Loaded(st.target);
  }

  lemma EmptyTail(s: string)
    ensures s[|s|..] == ""
  {
  }

  lemma RunNewline(st: State, text: string, e: nat)
    requires e < |text| && text[e] == '\n'
    ensures Run(st, text[e..]) == match LineStep(st)
              case Take(st', _) => Run(st', text[e + 1..])
              case DropLine => Run(st, text[e..])
              case Reject(fault) => Failed(fault, st.line, st.target)
  {
    RunChar(st, text, e);
  }

  // ---------- the printer ----------

  /** A character that can be part of a word; '/' is one, unless a comment begins with it. */
  predicate IsWordChar(c: char) {
    c !in {'#', '"', '=', '{', '}', ';', '\r', ' ', '\t', '\n'}
  }

  predicate ValidName(s: string) { s != "" && forall i :: 0 <= i < |s| ==> IsWordChar(s[i]) }

  predicate ValidValue(s: string) { s != "" && '"' !in s }

  predicate ValidItems(items: seq<Item>) {
    forall i :: 0 <= i < |items| ==> ValidName(items[i].key) && ValidValue(items[i].value)
  }

  predicate ValidSections(ss: seq<Section>) {
    forall i :: 0 <= i < |ss| ==> ValidName(ss[i].name) && ValidItems(ss[i].items)
  }

  /** A word. A slash that would open a comment, and one that ends the word, has a semicolon
      behind it, which the automaton skips without ending the word. */
  function Word(s: string): string {
    if s == "" then "" else Front(s) + Word(s[1..])
  }

  function Front(s: string): (r: string)
    requires s != ""
    ensures r != "" && r[0] == s[0]
  {
    if s[0] == '/' && (|s| == 1 || s[1] == '/' || s[1] == '*') then "/;" else [s[0]]
  }

  /** What may stand around words: a blank, or a comment between slashes and stars. */
  datatype Piece = Blank(c: char) | Inside(text: string)

  /** A comment up to the end of its line. */
  datatype Note = Nothing | Hash(text: string) | Slashes(text: string)

  datatype Line = Line(gap: seq<Piece>, note: Note)

  /** Whole lines without words, and what stands in front of the next word on its line. */
  datatype Space = Space(lines: seq<Line>, gap: seq<Piece>)

  predicate ValidPiece(p: Piece) {
    match p
    case Blank(c) => c in {' ', '\t', ';', '\r'}
    case Inside(text) => Find(text, "*/", 0) == -1
  }

  /** Behind an equals sign a comment may not reach into the next line. */
  predicate OnOneLine(p: Piece) { p.Inside? ==> '\n' !in p.text }

  predicate ValidGap(g: seq<Piece>) { forall i :: 0 <= i < |g| ==> ValidPiece(g[i]) }

  predicate ShortGap(g: seq<Piece>) { forall i :: 0 <= i < |g| ==> ValidPiece(g[i]) && OnOneLine(g[i]) }

  predicate ValidNote(n: Note) { n.Nothing? || '\n' !in n.text }

  predicate ValidLine(l: Line) { ValidGap(l.gap) && ValidNote(l.note) }

  predicate ValidSpace(s: Space) { ValidGap(s.gap) && forall i :: 0 <= i < |s.lines| ==> ValidLine(s.lines[i]) }

  function PrintPiece(p: Piece): string {
    match p
    case Blank(c) => [c]
    case Inside(text) => "/*" + (text + "*/")
  }

  function PrintGap(g: seq<Piece>): string {
    if g == [] then "" else PrintPiece(g[0]) + PrintGap(g[1..])
  }

  function PrintNote(n: Note): string {
    match n
    case Nothing => ""
    case Hash(text) => "#" + text
    case Slashes(text) => "//" + text
  }

  function PrintLines(ls: seq<Line>): string {
    if ls == [] then "" else PrintGap(ls[0].gap) + (PrintNote(ls[0].note) + ("\n" + PrintLines(ls[1..])))
  }

  function PrintSpace(s: Space): string { PrintLines(s.lines) + PrintGap(s.gap) }

  /** An item: its key, an equals sign and its value, in quotes or as a word, on lines of their
      own up to the equals sign, which a comment may end. */
  datatype LaidItem = LaidItem(above: Space, item: Item, apart: Space, behind: seq<Piece>, quoted: bool,
                               trail: seq<Piece>, note: Note)

  datatype LaidSection = LaidSection(above: Space, name: string, apart: Space, items: seq<LaidItem>, closing: Space)

  function PrintValue(i: LaidItem): string {
    if i.quoted then "\"" + (i.item.value + "\"") else Word(i.item.value)
  }

  function PrintItem(i: LaidItem): string {
    PrintSpace(i.above) + (Word(i.item.key) + (PrintSpace(i.apart) + ("=" + (PrintGap(i.behind)
    + (PrintValue(i) + (PrintGap(i.trail) + (PrintNote(i.note) + "\n")))))))
  }

  function PrintItems(items: seq<LaidItem>): string {
    if items == [] then "" else PrintItem(items[0]) + PrintItems(items[1..])
  }

  function PrintSection(s: LaidSection): string {
    PrintSpace(s.above) + (Word(s.name) + (PrintSpace(s.apart) + ("{" + (PrintItems(s.items)
    + (PrintSpace(s.closing) + "}")))))
  }

  function PrintSections(ss: seq<LaidSection>): string {
    if ss == [] then "" else PrintSection(ss[0]) + PrintSections(ss[1..])
  }

  function Items(items: seq<LaidItem>): seq<Item> {
    if items == [] then [] else [items[0].item] + Items(items[1..])
  }

  function Sections(ss: seq<LaidSection>): seq<Section> {
    if ss == [] then [] else [Section(ss[0].name, Items(ss[0].items))] + Sections(ss[1..])
  }

  predicate ValidLaidItem(i: LaidItem) {
    && ValidName(i.item.key) && (if i.quoted then ValidValue(i.item.value) else ValidName(i.item.value))
    && ValidSpace(i.above) && ValidSpace(i.apart) && ShortGap(i.behind) && ShortGap(i.trail) && ValidNote(i.note)
  }

  predicate ValidLaid(s: LaidSection) {
    && ValidName(s.name) && ValidSpace(s.above) && ValidSpace(s.apart) && ValidSpace(s.closing)
    && forall j :: 0 <= j < |s.items| ==> ValidLaidItem(s.items[j])
  }

  // ---------- parsing what was printed ----------

  lemma RunTake(st: State, head: string, rest: string, st': State)
    requires head != "" && StepOf(st, head + rest) == Take(st', |head|)
    ensures Run(st, head + rest) == Run(st', rest)
  {
    assert (head + rest)[|head|..] == rest;
  }

  lemma Associates<T>(a: seq<T>, b: seq<T>, c: seq<T>)
    ensures a + b + c == a + (b + c)
  {
  }

  /** What a fault counts. */
  function Newlines(s: string): nat {
    if s == "" then 0 else (if s[0] == '\n' then 1 else 0) + Newlines(s[1..])
  }

  lemma {:induction false} NewlinesConcat(a: string, b: string)
    ensures Newlines(a + b) == Newlines(a) + Newlines(b)
  {
    if a == "" {
      assert a + b == b;
    } else {
      assert (a + b)[1..] == a[1..] + b;
      NewlinesConcat(a[1..], b);
    }
  }

  lemma {:induction false} NoNewlines(s: string)
    ensures '\n' !in s <==> Newlines(s) == 0
  {
    if s != "" {
      NoNewlines(s[1..]);
      assert s == [s[0]] + s[1..];
    }
  }

  lemma {:induction false} WordHasNoNewline(w: string)
    requires '\n' !in w
    ensures Newlines(Word(w)) == 0
  {
    hide Newlines;
    NoNewlines(Word(w));
    if w != "" {
      WordHasNoNewline(w[1..]);
      NoNewlines(Word(w[1..]));
      NoNewlines(Front(w));
      NewlinesConcat(Front(w), Word(w[1..]));
      assert w == [w[0]] + w[1..];
    }
  }

  lemma NameHasNoNewline(w: string)
    requires ValidName(w)
    ensures Newlines(Word(w)) == 0
  {
    hide Newlines, Word;
    assert forall i :: 0 <= i < |w| ==> w[i] != '\n';
    WordHasNoNewline(w);
  }

  /** Neither in quotes nor in a comment. */
  predicate Calm(st: State) { !st.inQuote && !st.inComment }

  lemma WordStep(w: string, rest: string)
    requires w != ""
    ensures Word(w) + rest == Front(w) + (Word(w[1..]) + rest)
    ensures |w| > 1 ==> Word(w[1..]) + rest != "" && (Word(w[1..]) + rest)[0] == w[1]
  {
    hide Word, Front;
    WordIs(w);
    Associates(Front(w), Word(w[1..]), rest);
    if |w| > 1 { WordIs(w[1..]); }
  }

  lemma MoveChar(buffer: string, w: string)
    requires w != ""
    ensures buffer + [w[0]] + w[1..] == buffer + w
  {
    assert w == [w[0]] + w[1..];
  }

  lemma WordIs(w: string)
    requires w != ""
    ensures Word(w) == Front(w) + Word(w[1..]) && Word(w) != "" && Word(w)[0] == w[0]
  {
  }

  /** Reading a printed word appends it to the word buffer. */
  lemma {:induction false} RunWord(st: State, w: string, rest: string)
    requires Calm(st) && (st.inWord || st.wordbuffer == "")
    requires forall i :: 0 <= i < |w| ==> IsWordChar(w[i])
    ensures Run(st, Word(w) + rest) == Run(st.(wordbuffer := st.wordbuffer + w, inWord := st.inWord || w != ""), rest)
    decreases |w|
  {
    hide Run, IsWordChar, Word;
    if w == "" {
      NoWord(rest, st.wordbuffer);
    } else {
      WordStep(w, rest);
      MoveChar(st.wordbuffer, w);
      var st1 := st.(wordbuffer := st.wordbuffer + [w[0]], inWord := true);
      RunWordChar(st, w, Word(w[1..]) + rest);
      RunWord(st1, w[1..], rest);
    }
  }

  lemma NoWord(rest: string, buffer: string)
    ensures Word("") + rest == rest && buffer + "" == buffer
  {
  }

  lemma RunWordChar(st: State, w: string, tail: string)
    requires w != "" && Calm(st) && (st.inWord || st.wordbuffer == "") && IsWordChar(w[0])
    requires |w| > 1 ==> tail != "" && tail[0] == w[1]
    ensures Run(st, Front(w) + tail) == Run(st.(wordbuffer := st.wordbuffer + [w[0]], inWord := true), tail)
  {
    hide Run;
    var c := w[0];
    var st1 := st.(wordbuffer := st.wordbuffer + [c], inWord := true);
    if Front(w) == "/;" {
      var behind := ";" + tail;
      assert "/;" + tail == "/" + behind && ("/" + behind)[1] == ';';
      RunTake(st, "/", behind, st1);
      RunTake(st1, ";", tail, st1);
    } else {
      assert Front(w) == [c] && (c == '/' ==> ([c] + tail)[1] == w[1]);
      RunTake(st, [c], tail, st1);
    }
  }

  /** Reading the inside of quotes appends it; newlines in it count as lines. */
  lemma {:induction false} RunQuoted(st: State, v: string, rest: string) returns (l: nat)
    requires st.inQuote && '"' !in v
    ensures Run(st, v + ("\"" + rest))
         == Run(st.(wordbuffer := st.wordbuffer + v, inQuote := false, inWord := false, line := l), rest)
    ensures l == st.line + Newlines(v)
    decreases |v|
  {
    if v == "" {
      l := st.line;
      assert v + ("\"" + rest) == "\"" + rest && st.wordbuffer + v == st.wordbuffer;
      RunTake(st, "\"", rest, st.(inQuote := false, inWord := false));
    } else {
      var tail := v[1..] + ("\"" + rest);
      var st1 := st.(wordbuffer := st.wordbuffer + [v[0]], line := if v[0] == '\n' then st.line + 1 else st.line);
      assert v + ("\"" + rest) == [v[0]] + tail;
      RunTake(st, [v[0]], tail, st1);
      l := RunQuoted(st1, v[1..], rest);
      assert st1.wordbuffer + v[1..] == st.wordbuffer + v;
    }
  }

  /** A newline ends a word, and nothing else while no item is pending. */
  lemma RunEol(st: State, rest: string)
    requires Calm(st) && st.itemname == ""
    ensures Run(st, "\n" + rest) == Run(st.(inWord := false, line := st.line + 1), rest)
  {
    hide Run, LineEnd, CharStep;
    RunTake(st, "\n", rest, st.(inWord := false, line := st.line + 1));
  }

  /** A comment up to the end of the line is dropped, whatever is pending in front of it. */
  lemma RunNote(st: State, n: Note, rest: string)
    requires Calm(st) && ValidNote(n)
    ensures Run(st, PrintNote(n) + ("\n" + rest)) == Run(st, "\n" + rest)
  {
    hide Run, LineEnd;
    var text := PrintNote(n);
    if n.Nothing? {
      assert text + ("\n" + rest) == "\n" + rest;
    } else {
      RunDropped(st, text, rest);
    }
  }

  lemma RunDropped(st: State, text: string, rest: string)
    requires Calm(st) && '\n' !in text
    requires text != "" && (text[0] == '#' || (|text| > 1 && text[0] == '/' && text[1] == '/'))
    ensures Run(st, text + ("\n" + rest)) == Run(st, "\n" + rest)
  {
    var s := text + ("\n" + rest);
    LineEndIs(s, 0, |text|);
    assert s[0..] == s && s[|text|..] == "\n" + rest;
    assert StepOf(st, s) == DropLine;
  }

  /** What is inside a comment is passed over; a newline in it ends the word in front. */
  /** One more character inside a comment that does not end there. */
  lemma InsideStep(st: State, text: string, rest: string)
    requires !st.inQuote && st.inComment && (st.itemname == "" || '\n' !in text)
    requires text != "" && !At(text, "*/", 0)
    ensures Run(st, text + ("*/" + rest))
         == Run(if text[0] == '\n' then st.(inWord := false, line := st.line + 1) else st, text[1..] + ("*/" + rest))
  {
    hide Run;
    var tail := text[1..] + ("*/" + rest);
    var st1 := if text[0] == '\n' then st.(inWord := false, line := st.line + 1) else st;
    assert text + ("*/" + rest) == [text[0]] + tail;
    assert |text| > 1 ==> tail[0] == text[1] && text[0..2] == [text[0], text[1]];
    RunTake(st, [text[0]], tail, st1);
  }

  lemma NoneBehind(text: string)
    requires text != "" && forall k :: 0 <= k ==> !At(text, "*/", k)
    ensures forall k :: 0 <= k ==> !At(text[1..], "*/", k)
  {
    forall k | 0 <= k ensures !At(text[1..], "*/", k) {
      if k + 2 <= |text| - 1 { assert text[1..][k..k + 2] == text[k + 1..k + 3]; }
      assert !At(text, "*/", k + 1);
    }
  }

  lemma {:induction false} RunInside(st: State, text: string, rest: string) returns (w: bool, l: nat)
    requires !st.inQuote && st.inComment && (st.itemname == "" || '\n' !in text)
    requires forall k :: 0 <= k ==> !At(text, "*/", k)
    ensures Run(st, text + ("*/" + rest)) == Run(st.(inComment := false, inWord := w, line := l), rest)
    ensures (w ==> st.inWord) && l == st.line + Newlines(text)
    decreases |text|
  {
    if text == "" {
      w, l := st.inWord, st.line;
      assert text + ("*/" + rest) == "*/" + rest;
      RunTake(st, "*/", rest, st.(inComment := false));
    } else {
      hide Run, At;
      assert !At(text, "*/", 0);
      InsideStep(st, text, rest);
      NoneBehind(text);
      var st1 := if text[0] == '\n' then st.(inWord := false, line := st.line + 1) else st;
      w, l := RunInside(st1, text[1..], rest);
    }
  }

  lemma InsideNewlines(text: string)
    ensures Newlines("/*" + (text + "*/")) == Newlines(text)
  {
    hide Newlines;
    NewlinesConcat("/*", text + "*/");
    NewlinesConcat(text, "*/");
    NoNewlines("/*");
    NoNewlines("*/");
  }

  /** A blank or a comment leaves the words in front of it as they are. */
  lemma RunPiece(st: State, p: Piece, rest: string) returns (w: bool, l: nat)
    requires Calm(st) && ValidPiece(p) && (st.itemname == "" || OnOneLine(p))
    ensures Run(st, PrintPiece(p) + rest) == Run(st.(inWord := w, line := l), rest) && (w ==> st.inWord)
    ensures l == st.line + Newlines(PrintPiece(p))
  {
    hide Run, LineEnd, Find, At;
    match p {
      case Blank(c) =>
        w, l := if c == ' ' || c == '\t' then false else st.inWord, st.line;
        RunTake(st, [c], rest, st.(inWord := w));
      case Inside(text) =>
        var behind := text + ("*/" + rest);
        assert PrintPiece(p) + rest == "/*" + behind && ("/*" + behind)[1] == '*';
        RunTake(st, "/*", behind, st.(inComment := true));
        w, l := RunInside(st.(inComment := true), text, rest);
        InsideNewlines(text);
    }
  }

  lemma {:induction false} RunGap(st: State, g: seq<Piece>, rest: string) returns (w: bool, l: nat)
    requires Calm(st) && ValidGap(g) && (st.itemname == "" || ShortGap(g))
    ensures Run(st, PrintGap(g) + rest) == Run(st.(inWord := w, line := l), rest) && (w ==> st.inWord)
    ensures l == st.line + Newlines(PrintGap(g))
    decreases |g|
  {
    hide Run, PrintPiece, ValidPiece, OnOneLine;
    if g == [] {
      w, l := st.inWord, st.line;
      assert PrintGap(g) + rest == rest;
    } else {
      assert PrintGap(g) + rest == PrintPiece(g[0]) + (PrintGap(g[1..]) + rest);
      NewlinesConcat(PrintPiece(g[0]), PrintGap(g[1..]));
      w, l := RunPiece(st, g[0], PrintGap(g[1..]) + rest);
      w, l := RunGap(st.(inWord := w, line := l), g[1..], rest);
    }
  }

  lemma LineNewlines(ls: seq<Line>)
    requires ls != [] && ValidNote(ls[0].note)
    ensures Newlines(PrintLines(ls)) == Newlines(PrintGap(ls[0].gap)) + 1 + Newlines(PrintLines(ls[1..]))
  {
    hide PrintGap;
    var note, tail := PrintNote(ls[0].note), PrintLines(ls[1..]);
    NewlinesConcat(PrintGap(ls[0].gap), note + ("\n" + tail));
    NewlinesConcat(note, "\n" + tail);
    NoNewlines(note);
    assert ("\n" + tail)[1..] == tail;
  }

  lemma {:induction false} RunLines(st: State, ls: seq<Line>, rest: string) returns (w: bool, l: nat)
    requires Calm(st) && st.itemname == "" && forall i :: 0 <= i < |ls| ==> ValidLine(ls[i])
    ensures Run(st, PrintLines(ls) + rest) == Run(st.(inWord := w, line := l), rest) && (w ==> st.inWord)
    ensures l == st.line + Newlines(PrintLines(ls))
    decreases |ls|
  {
    hide Run, PrintGap, PrintNote, ValidGap, ValidNote;
    if ls == [] {
      w, l := st.inWord, st.line;
      assert PrintLines(ls) + rest == rest;
    } else {
      LineNewlines(ls);
      var t3 := PrintLines(ls[1..]) + rest;
      var t2 := PrintNote(ls[0].note) + ("\n" + t3);
      assert PrintLines(ls) + rest == PrintGap(ls[0].gap) + t2;
      w, l := RunGap(st, ls[0].gap, t2);
      var st1 := st.(inWord := w, line := l);
      RunNote(st1, ls[0].note, t3);
      RunEol(st1, t3);
      w, l := RunLines(st1.(inWord := false, line := l + 1), ls[1..], rest);
    }
  }

  lemma RunSpace(st: State, s: Space, rest: string) returns (w: bool, l: nat)
    requires Calm(st) && st.itemname == "" && ValidSpace(s)
    ensures Run(st, PrintSpace(s) + rest) == Run(st.(inWord := w, line := l), rest) && (w ==> st.inWord)
    ensures l == st.line + Newlines(PrintSpace(s))
  {
    hide Run, PrintLines, PrintGap, ValidGap, ValidLine;
    assert PrintSpace(s) + rest == PrintLines(s.lines) + (PrintGap(s.gap) + rest);
    w, l := RunLines(st, s.lines, PrintGap(s.gap) + rest);
    w, l := RunGap(st.(inWord := w, line := l), s.gap, rest);
    NewlinesConcat(PrintLines(s.lines), PrintGap(s.gap));
  }

  /** Nothing is pending. */
  predicate Between(st: State) { Calm(st) && st.wordbuffer == "" && st.itemname == "" && !st.inWord }

  predicate InSection(st: State) { Between(st) && st.section != "" }

  /** The key of an item, and the equals sign. */
  lemma RunKey(st: State, i: LaidItem, rest: string) returns (l: nat)
    requires InSection(st) && ValidLaidItem(i)
    ensures Run(st, PrintSpace(i.above) + (Word(i.item.key) + (PrintSpace(i.apart) + ("=" + rest))))
         == Run(st.(itemname := i.item.key, line := l), rest)
    ensures l == st.line + Newlines(PrintSpace(i.above)) + Newlines(PrintSpace(i.apart))
  {
    hide Run, IsWordChar, Word, PrintSpace, ValidSpace, ShortGap, ValidNote, Newlines;
    var key := i.item.key;
    var t2 := "=" + rest;
    var t1 := PrintSpace(i.apart) + t2;
    var w;
    w, l := RunSpace(st, i.above, Word(key) + t1);
    var s0 := st.(line := l);
    RunWord(s0, key, t1);
    assert "" + key == key;
    var s1 := s0.(wordbuffer := key, inWord := true);
    w, l := RunSpace(s1, i.apart, t2);
    RunTake(s1.(inWord := w, line := l), "=", rest, st.(itemname := key, line := l));
  }

  lemma QuotedNewlines(v: string)
    ensures Newlines("\"" + (v + "\"")) == Newlines(v)
  {
    hide Newlines;
    NewlinesConcat("\"", v + "\"");
    NewlinesConcat(v, "\"");
    NoNewlines("\"");
  }

  /** The value of an item, in quotes or as a word. */
  lemma RunValue(st: State, i: LaidItem, rest: string) returns (w: bool, l: nat)
    requires Calm(st) && st.section != "" && st.itemname != "" && st.wordbuffer == "" && !st.inWord && ValidLaidItem(i)
    ensures Run(st, PrintValue(i) + rest) == Run(st.(wordbuffer := i.item.value, inWord := w, line := l), rest)
    ensures l == st.line + Newlines(PrintValue(i))
  {
    hide Run, IsWordChar, Word, ValidSpace, ShortGap, ValidNote, Newlines;
    var value := i.item.value;
    assert "" + value == value;
    if i.quoted {
      assert PrintValue(i) + rest == "\"" + (value + ("\"" + rest));
      RunTake(st, "\"", value + ("\"" + rest), st.(inQuote := true, inWord := true));
      l := RunQuoted(st.(inQuote := true, inWord := true), value, rest);
      w := false;
      QuotedNewlines(value);
    } else {
      RunWord(st, value, rest);
      NameHasNoNewline(value);
      w, l := true, st.line;
    }
  }

  lemma RunItem(st: State, i: LaidItem, rest: string) returns (l: nat)
    requires InSection(st) && ValidLaidItem(i)
    ensures Run(st, PrintItem(i) + rest) == Run(st.(sectiondata := st.sectiondata + [i.item], line := l), rest)
    ensures l == st.line + Newlines(PrintItem(i))
  {
    hide Run, IsWordChar, Word, PrintItem, PrintSpace, PrintGap, PrintNote, PrintValue, ValidSpace, ValidPiece,
         OnOneLine, ValidNote, Newlines;
    var key, value := i.item.key, i.item.value;
    var t4 := PrintNote(i.note) + ("\n" + rest);
    var t3 := PrintGap(i.trail) + t4;
    var t2 := PrintValue(i) + t3;
    var t1 := PrintGap(i.behind) + t2;
    ItemText(i, rest);
    l := RunKey(st, i, t1);
    var s1 := st.(itemname := key, line := l);
    var w;
    w, l := RunGap(s1, i.behind, t2);
    var s2 := s1.(line := l);
    w, l := RunValue(s2, i, t3);
    var s3 := s2.(wordbuffer := value, inWord := w, line := l);
    w, l := RunGap(s3, i.trail, t4);
    var s4 := s3.(inWord := w, line := l);
    RunNote(s4, i.note, rest);
    EndOfItem(s4, rest);
    l := l + 1;
    ItemNewlines(i);
  }

  lemma ItemNewlines(i: LaidItem)
    requires ValidLaidItem(i)
    ensures Newlines(PrintItem(i)) == Newlines(PrintSpace(i.above)) + Newlines(PrintSpace(i.apart))
              + Newlines(PrintGap(i.behind)) + Newlines(PrintValue(i)) + Newlines(PrintGap(i.trail)) + 1
  {
    hide Newlines, PrintSpace, PrintGap, PrintValue, PrintNote, Word, ValidName, ValidValue, ValidSpace, ShortGap;
    var t4 := PrintNote(i.note) + "\n";
    var t3 := PrintGap(i.trail) + t4;
    var t2 := PrintValue(i) + t3;
    var t1 := PrintGap(i.behind) + t2;
    NewlinesConcat(PrintSpace(i.above), Word(i.item.key) + (PrintSpace(i.apart) + ("=" + t1)));
    NewlinesConcat(Word(i.item.key), PrintSpace(i.apart) + ("=" + t1));
    NewlinesConcat(PrintSpace(i.apart), "=" + t1);
    NewlinesConcat("=", t1);
    NewlinesConcat(PrintGap(i.behind), t2);
    NewlinesConcat(PrintValue(i), t3);
    NewlinesConcat(PrintGap(i.trail), t4);
    NameHasNoNewline(i.item.key);
    NoNewlines("=");
    NoteNewlines(i.note);
  }

  lemma NoteNewlines(n: Note)
    requires ValidNote(n)
    ensures Newlines(PrintNote(n) + "\n") == 1
  {
    NewlinesConcat(PrintNote(n), "\n");
    NoNewlines(PrintNote(n));
    assert "\n"[1..] == "";
  }

  /** The end of the line stores the item that was read. */
  lemma EndOfItem(st: State, rest: string)
    requires Calm(st) && st.itemname != "" && st.wordbuffer != ""
    ensures Run(st, "\n" + rest)
         == Run(st.(sectiondata := st.sectiondata + [Item(st.itemname, st.wordbuffer)], inWord := false,
                    wordbuffer := "", itemname := "", line := st.line + 1), rest)
  {
    hide Run;
    RunTake(st, "\n", rest, st.(sectiondata := st.sectiondata + [Item(st.itemname, st.wordbuffer)], inWord := false,
                                wordbuffer := "", itemname := "", line := st.line + 1));
  }

  lemma ItemText(i: LaidItem, rest: string)
    ensures PrintItem(i) + rest ==
              PrintSpace(i.above) + (Word(i.item.key) + (PrintSpace(i.apart) + ("=" + (PrintGap(i.behind)
              + (PrintValue(i) + (PrintGap(i.trail) + (PrintNote(i.note) + ("\n" + rest))))))))
  {
    hide PrintSpace, PrintGap, PrintValue, PrintNote, Word;
    Nested(PrintSpace(i.above), Word(i.item.key), PrintSpace(i.apart), "=", PrintGap(i.behind)
           + (PrintValue(i) + (PrintGap(i.trail) + (PrintNote(i.note) + "\n"))), rest);
    Nested(PrintGap(i.behind), PrintValue(i), PrintGap(i.trail), PrintNote(i.note), "\n", rest);
  }

  lemma Nested(a: string, b: string, c: string, d: string, e: string, f: string)
    ensures a + (b + (c + (d + e))) + f == a + (b + (c + (d + (e + f))))
  {
    Associates(a, b + (c + (d + e)), f);
    Associates(b, c + (d + e), f);
    Associates(c, d + e, f);
    Associates(d, e, f);
  }

  lemma ItemsStep(items: seq<LaidItem>, rest: string, data: seq<Item>)
    ensures if items == [] then PrintItems(items) + rest == rest && data + Items(items) == data
            else
              && PrintItems(items) + rest == PrintItem(items[0]) + (PrintItems(items[1..]) + rest)
              && data + Items(items) == data + [items[0].item] + Items(items[1..])
  {
    hide PrintItem;
  }

  lemma ItemsNewlines(items: seq<LaidItem>)
    ensures Newlines(PrintItems(items)) ==
              if items == [] then 0 else Newlines(PrintItem(items[0])) + Newlines(PrintItems(items[1..]))
  {
    hide PrintItem;
    if items != [] { NewlinesConcat(PrintItem(items[0]), PrintItems(items[1..])); }
  }

  lemma {:induction false} RunItems(st: State, items: seq<LaidItem>, rest: string) returns (l: nat)
    requires InSection(st) && forall j :: 0 <= j < |items| ==> ValidLaidItem(items[j])
    ensures Run(st, PrintItems(items) + rest) == Run(st.(sectiondata := st.sectiondata + Items(items), line := l), rest)
    ensures l == st.line + Newlines(PrintItems(items))
    decreases |items|
  {
    hide Run, PrintItem, PrintItems, Items, ValidLaidItem, Newlines;
    ItemsStep(items, rest, st.sectiondata);
    ItemsNewlines(items);
    if items == [] {
      l := st.line;
    } else {
      var l1 := RunItem(st, items[0], PrintItems(items[1..]) + rest);
      var st1 := st.(sectiondata := st.sectiondata + [items[0].item], line := l1);
      l := RunItems(st1, items[1..], rest);
    }
  }

  /** Outside of any section. */
  predicate AtTop(st: State) { Between(st) && st.section == "" && st.sectiondata == [] }

  /** The name of a section, its opening brace and its items. */
  lemma RunOpening(st: State, s: LaidSection, rest: string) returns (l: nat)
    requires AtTop(st) && ValidLaid(s)
    ensures Run(st, PrintSpace(s.above) + (Word(s.name) + (PrintSpace(s.apart) + ("{" + (PrintItems(s.items) + rest)))))
         == Run(st.(section := s.name, sectiondata := Items(s.items), line := l), rest)
    ensures l == st.line + Newlines(PrintSpace(s.above)) + Newlines(PrintSpace(s.apart)) + Newlines(PrintItems(s.items))
  {
    hide Run, IsWordChar, Word, PrintSpace, PrintItems, Items, ValidSpace, ValidLaidItem, Newlines;
    var t2 := PrintItems(s.items) + rest;
    var t1 := PrintSpace(s.apart) + ("{" + t2);
    var w;
    w, l := RunSpace(st, s.above, Word(s.name) + t1);
    var s0 := st.(line := l);
    RunWord(s0, s.name, t1);
    assert "" + s.name == s.name;
    var s1 := s0.(wordbuffer := s.name, inWord := true);
    w, l := RunSpace(s1, s.apart, "{" + t2);
    var s2 := st.(section := s.name, line := l);
    RunTake(s1.(inWord := w, line := l), "{", t2, s2);
    l := RunItems(s2, s.items, rest);
    assert [] + Items(s.items) == Items(s.items);
  }

  lemma RunSection(st: State, s: LaidSection, rest: string) returns (l: nat)
    requires AtTop(st) && ValidLaid(s)
    ensures Run(st, PrintSection(s) + rest)
         == Run(st.(target := st.target + [Section(s.name, Items(s.items))], line := l), rest)
    ensures l == st.line + Newlines(PrintSection(s))
  {
    hide Run, ValidName, Word, PrintSection, PrintSpace, PrintItems, Items, ValidSpace, ValidLaidItem, Newlines;
    var t1 := PrintSpace(s.closing) + ("}" + rest);
    SectionText(s, rest);
    l := RunOpening(st, s, t1);
    var s1 := st.(section := s.name, sectiondata := Items(s.items), line := l);
    var w;
    w, l := RunSpace(s1, s.closing, "}" + rest);
    SectionIsNamed(s);
    RunTake(s1.(line := l), "}", rest, st.(target := st.target + [Section(s.name, Items(s.items))], line := l));
    OpeningNewlines(s, "}");
    NoNewlines("}");
  }

  /** A section up to where its closing brace may stand. */
  function Opening(s: LaidSection, rest: string): string {
    PrintSpace(s.above) + (Word(s.name) + (PrintSpace(s.apart) + ("{" + (PrintItems(s.items)
    + (PrintSpace(s.closing) + rest)))))
  }

  lemma OpeningNewlines(s: LaidSection, rest: string)
    requires ValidLaid(s)
    ensures PrintSection(s) == Opening(s, "}")
    ensures Newlines(Opening(s, rest)) == Newlines(PrintSpace(s.above)) + Newlines(PrintSpace(s.apart))
              + Newlines(PrintItems(s.items)) + Newlines(PrintSpace(s.closing)) + Newlines(rest)
  {
    hide Newlines, PrintSpace, PrintItems, Word, ValidName, ValidSpace, ValidLaidItem;
    var t2 := PrintSpace(s.closing) + rest;
    var t1 := PrintItems(s.items) + t2;
    NewlinesConcat(PrintSpace(s.above), Word(s.name) + (PrintSpace(s.apart) + ("{" + t1)));
    NewlinesConcat(Word(s.name), PrintSpace(s.apart) + ("{" + t1));
    NewlinesConcat(PrintSpace(s.apart), "{" + t1);
    NewlinesConcat("{", t1);
    NewlinesConcat(PrintItems(s.items), t2);
    NewlinesConcat(PrintSpace(s.closing), rest);
    NameHasNoNewline(s.name);
    NoNewlines("{");
  }

  lemma SectionIsNamed(s: LaidSection)
    requires ValidLaid(s)
    ensures s.name != ""
  {
  }

  lemma SectionText(s: LaidSection, rest: string)
    ensures PrintSection(s) + rest ==
              PrintSpace(s.above) + (Word(s.name) + (PrintSpace(s.apart) + ("{" + (PrintItems(s.items)
              + (PrintSpace(s.closing) + ("}" + rest))))))
  {
    hide PrintSpace, PrintItems, Word;
    Nested(PrintSpace(s.above), Word(s.name), PrintSpace(s.apart), "{", PrintItems(s.items)
           + (PrintSpace(s.closing) + "}"), rest);
    Associates(PrintItems(s.items), PrintSpace(s.closing) + "}", rest);
    Associates(PrintSpace(s.closing), "}", rest);
  }

  lemma SectionsStep(ss: seq<LaidSection>, rest: string, target: seq<Section>)
    ensures if ss == [] then PrintSections(ss) + rest == rest && target + Sections(ss) == target
            else
              && PrintSections(ss) + rest == PrintSection(ss[0]) + (PrintSections(ss[1..]) + rest)
              && target + Sections(ss) == target + [Section(ss[0].name, Items(ss[0].items))] + Sections(ss[1..])
  {
    hide PrintSection, Items;
  }

  lemma SectionsNewlines(ss: seq<LaidSection>)
    ensures Newlines(PrintSections(ss)) ==
              if ss == [] then 0 else Newlines(PrintSection(ss[0])) + Newlines(PrintSections(ss[1..]))
  {
    hide PrintSection;
    if ss != [] { NewlinesConcat(PrintSection(ss[0]), PrintSections(ss[1..])); }
  }

  lemma {:induction false} RunSections(st: State, ss: seq<LaidSection>, rest: string) returns (l: nat)
    requires AtTop(st) && forall i :: 0 <= i < |ss| ==> ValidLaid(ss[i])
    ensures Run(st, PrintSections(ss) + rest) == Run(st.(target := st.target + Sections(ss), line := l), rest)
    ensures l == st.line + Newlines(PrintSections(ss))
    decreases |ss|
  {
    hide Run, PrintSection, PrintSections, Sections, ValidLaid, Items, Newlines;
    SectionsStep(ss, rest, st.target);
    SectionsNewlines(ss);
    if ss == [] {
      l := st.line;
    } else {
      var l1 := RunSection(st, ss[0], PrintSections(ss[1..]) + rest);
      var st1 := st.(target := st.target + [Section(ss[0].name, Items(ss[0].items))], line := l1);
      l := RunSections(st1, ss[1..], rest);
    }
  }

  /** Parsing undoes printing, in every layout: with blanks and comments of all kinds around the
      words and signs, braces and signs on lines of their own, values in quotes or as words,
      comments behind them, and with or without a newline at the end of the file. */
  lemma LoadUndoesPrint(target: seq<Section>, ss: seq<LaidSection>, closing: Space, note: Note)
    requires ValidSpace(closing) && ValidNote(note) && forall i :: 0 <= i < |ss| ==> ValidLaid(ss[i])
    ensures Parse(target, PrintSections(ss) + (PrintSpace(closing) + PrintNote(note))) == Loaded(target + Sections(ss))
  {
    hide Run, ValidSpace, ValidLaid, PrintSections, PrintSpace, PrintNote, Sections, Normal;
    var text := PrintSections(ss) + (PrintSpace(closing) + PrintNote(note));
    var tail := LastLine(PrintSections(ss) + PrintSpace(closing), PrintNote(note), note);
    Associates(PrintSections(ss), PrintSpace(closing), PrintNote(note));
    Associates(PrintSections(ss), PrintSpace(closing) + PrintNote(note), tail);
    Associates(PrintSpace(closing), PrintNote(note), tail);
    var l := RunSections(Init(target), ss, PrintSpace(closing) + (PrintNote(note) + tail));
    var st := Init(target).(target := target + Sections(ss), line := l);
    var w;
    w, l := RunSpace(st, closing, PrintNote(note) + tail);
    st := st.(line := l);
    if tail == "" {
      assert PrintNote(note) + tail == "";
      RunNothing(st);
    } else {
      assert "\n" + "" == "\n";
      RunNote(st, note, "");
      RunEol(st, "");
      RunNothing(st.(line := l + 1));
    }
  }

  /** What the last line needs to be a whole one. */
  lemma LastLine(front: string, last: string, note: Note) returns (tail: string)
    requires last == PrintNote(note) && ValidNote(note)
    ensures Normal(front + last) == front + last + tail
    ensures tail == "\n" || (tail == "" && last == "")
  {
    var text := front + last;
    if last != "" {
      assert text[|text| - 1] == last[|last| - 1];
      assert last[|last| - 1] != '\n';
      tail := "\n";
    } else {
      assert text == front;
      tail := if text == "" || text[|text| - 1] == '\n' then "" else "\n";
      assert text + "" == text;
    }
  }

  /** A word without slashes is printed as it is. */
  lemma {:induction false} PlainWord(w: string)
    requires '/' !in w
    ensures Word(w) == w
  {
    if w != "" {
      PlainWord(w[1..]);
      assert w == [w[0]] + w[1..];
    }
  }

  const NONE := Space([], [])
  const NEXT_LINE := Space([Line([], Nothing)], [])
  const INDENTED := Space([Line([], Nothing)], [Blank('\t')])
  const ONE_BLANK := [Blank(' ')]
  const PORT := LaidItem(INDENTED, Item("port", "80"), Space([], ONE_BLANK), ONE_BLANK, false, [], Nothing)
  const EXAMPLE := LaidSection(NONE, "b", NEXT_LINE, [PORT], NONE)

  lemma SpacesPrinted()
    ensures PrintSpace(NONE) == "" && PrintSpace(NEXT_LINE) == "\n" && PrintSpace(INDENTED) == "\n\t"
    ensures PrintSpace(Space([], ONE_BLANK)) == PrintGap(ONE_BLANK) == " " && PrintGap([]) == PrintNote(Nothing) == ""
  {
    assert [Line([], Nothing)][1..] == [] && [Blank('\t')][1..] == [] && ONE_BLANK[1..] == [];
    assert PrintLines([Line([], Nothing)]) == "\n" && PrintGap([Blank('\t')]) == "\t";
  }

  lemma PortPrinted()
    ensures PrintItem(PORT) == "\n\tport = 80\n"
  {
    hide Word, PrintSpace, PrintGap, PrintNote;
    SpacesPrinted();
    PlainWord("port");
    PlainWord("80");
    assert "80" + ("" + ("" + "\n")) == "80\n";
    assert "=" + (" " + "80\n") == "= 80\n";
  }

  lemma PortsPrinted()
    ensures PrintItems([PORT]) == "\n\tport = 80\n" && Items([PORT]) == [Item("port", "80")]
  {
    hide PrintItem;
    PortPrinted();
    assert [PORT][1..] == [];
  }

  lemma SectionPrinted()
    ensures PrintSection(EXAMPLE) == "b\n{\n\tport = 80\n}"
  {
    hide Word, PrintSpace, PrintItems;
    SpacesPrinted();
    PortsPrinted();
    PlainWord("b");
    assert "\n\tport = 80\n" + ("" + "}") == "\n\tport = 80\n}";
    assert "{" + "\n\tport = 80\n}" == "{\n\tport = 80\n}";
  }

  lemma ExamplePrinted()
    ensures PrintSections([EXAMPLE]) == "b\n{\n\tport = 80\n}"
    ensures Sections([EXAMPLE]) == [Section("b", [Item("port", "80")])]
  {
    hide PrintSection, Items, PrintItems;
    SectionPrinted();
    PortsPrinted();
    assert [EXAMPLE][1..] == [];
  }

  /** The layout of the example configuration. */
  lemma LoadsLikeTheExample()
    ensures Parse([], "b\n{\n\tport = 80\n}\n") == Loaded([Section("b", [Item("port", "80")])])
  {
    hide Parse, PrintSections, PrintSpace, PrintNote, Sections, Word;
    SpacesPrinted();
    ExamplePrinted();
    ExampleIsValid();
    LoadUndoesPrint([], [EXAMPLE], NEXT_LINE, Nothing);
    assert "b\n{\n\tport = 80\n}" + ("\n" + "") == "b\n{\n\tport = 80\n}\n";
    assert [] + Sections([EXAMPLE]) == Sections([EXAMPLE]);
  }

  lemma ExampleIsValid()
    ensures ValidLaid(EXAMPLE) && ValidSpace(NEXT_LINE)
  {
  }

  // ---------- what is refused ----------

  /** s with the newline that getline does without at the end of a file. */
  function Whole(s: string): (r: string)
    requires s != ""
    ensures r != "" && r[0] == s[0]
  {
    if s[|s| - 1] == '\n' then s else s + "\n"
  }

  lemma Completed(front: string, tail: string)
    requires tail != ""
    ensures Normal(front + tail) == front + Whole(tail)
  {
    var text := front + tail;
    assert text[|text| - 1] == tail[|tail| - 1];
    Associates(front, tail, "\n");
  }

  lemma WholeBehind(front: string, tail: string)
    requires tail != ""
    ensures front + tail != "" && Whole(front + tail) == front + Whole(tail)
  {
    Associates(front, tail, "\n");
  }

  /** Behind valid sections the file is read on at the top. */
  lemma ReadsOn(target: seq<Section>, ss: seq<LaidSection>, tail: string) returns (l: nat)
    requires (forall i :: 0 <= i < |ss| ==> ValidLaid(ss[i])) && tail != ""
    ensures Parse(target, PrintSections(ss) + tail)
         == Run(Init(target).(target := target + Sections(ss), line := l), Whole(tail))
    ensures l == 1 + Newlines(PrintSections(ss))
  {
    hide Newlines, Run, ValidLaid, PrintSections, Sections, Normal, Whole;
    Completed(PrintSections(ss), tail);
    l := RunSections(Init(target), ss, Whole(tail));
  }

  lemma OpeningWhole(s: LaidSection, rest: string)
    requires rest != ""
    ensures Opening(s, rest) != "" && Whole(Opening(s, rest)) == Opening(s, Whole(rest))
  {
    hide PrintSpace, PrintItems, Word, Whole;
    WholeBehind(PrintSpace(s.closing), rest);
    WholeBehind(PrintItems(s.items), PrintSpace(s.closing) + rest);
    WholeBehind("{", PrintItems(s.items) + (PrintSpace(s.closing) + rest));
    var t := "{" + (PrintItems(s.items) + (PrintSpace(s.closing) + rest));
    WholeBehind(PrintSpace(s.apart), t);
    WholeBehind(Word(s.name), PrintSpace(s.apart) + t);
    WholeBehind(PrintSpace(s.above), Word(s.name) + (PrintSpace(s.apart) + t));
  }

  /** In an open section the file is read on there. */
  lemma ReadsOnInside(target: seq<Section>, ss: seq<LaidSection>, s: LaidSection, tail: string) returns (st: State)
    requires (forall i :: 0 <= i < |ss| ==> ValidLaid(ss[i])) && ValidLaid(s) && tail != ""
    ensures Parse(target, PrintSections(ss) + Opening(s, tail)) == Run(st, Whole(tail))
    ensures InSection(st) && st.target == target + Sections(ss)
    ensures st.line == 1 + Newlines(PrintSections(ss)) + Newlines(Opening(s, ""))
  {
    hide Newlines, Run, ValidSpace, ValidLaidItem, ValidName, PrintSections, PrintSpace, PrintItems, Word,
         Sections, Parse, Whole, Items;
    SectionIsNamed(s);
    OpeningWhole(s, tail);
    var l := ReadsOn(target, ss, Opening(s, tail));
    var st0 := Init(target).(target := target + Sections(ss), line := l);
    OpeningNewlines(s, "");
    NoNewlines("");
    l := RunOpening(st0, s, PrintSpace(s.closing) + Whole(tail));
    st := st0.(section := s.name, sectiondata := Items(s.items), line := l);
    var w;
    w, l := RunSpace(st, s.closing, Whole(tail));
    st := st.(line := l);
  }

  /** Outside of a section a sign has no meaning. */
  lemma FaultsAtTop(target: seq<Section>, ss: seq<LaidSection>, c: char, rest: string) returns (l: nat)
    requires (forall i :: 0 <= i < |ss| ==> ValidLaid(ss[i])) && c in {'}', '=', '"', '{'}
    ensures var fault := if c == '}' then StrayBrace else if c == '=' then ItemOutsideSection
                         else if c == '"' then UnexpectedQuote else NamelessSection;
            Parse(target, PrintSections(ss) + ([c] + rest)) == Failed(fault, l, target + Sections(ss))
    ensures l == 1 + Newlines(PrintSections(ss))
  {
    hide Newlines, ValidLaid, PrintSections, Sections, Parse;
    l := ReadsOn(target, ss, [c] + rest);
  }

  /** Inside a section no other one opens, and a value needs a key. */
  lemma FaultsInSection(target: seq<Section>, ss: seq<LaidSection>, s: LaidSection, c: char, rest: string)
      returns (l: nat)
    requires (forall i :: 0 <= i < |ss| ==> ValidLaid(ss[i])) && ValidLaid(s) && (c == '{' || c == '"')
    ensures Parse(target, PrintSections(ss) + Opening(s, [c] + rest))
         == Failed(if c == '{' then NestedSection else UnexpectedQuote, l, target + Sections(ss))
    ensures l == 1 + Newlines(PrintSections(ss)) + Newlines(Opening(s, ""))
  {
    hide Newlines, ValidLaid, PrintSections, Opening, Sections, Parse;
    var st := ReadsOnInside(target, ss, s, [c] + rest);
    l := st.line;
  }

  /** A key without an equals sign: the section may not end, no section may open, and neither a
      quote nor another word may follow. */
  lemma FaultsBehindKey(target: seq<Section>, ss: seq<LaidSection>, s: LaidSection, key: string, c: char, rest: string)
      returns (l: nat)
    requires (forall i :: 0 <= i < |ss| ==> ValidLaid(ss[i])) && ValidLaid(s) && ValidName(key)
    requires c in {'}', '{', '"'}
    ensures var fault := if c == '}' then UnexpectedEnd else if c == '{' then NestedSection else UnexpectedQuote;
            Parse(target, PrintSections(ss) + Opening(s, Word(key) + ([c] + rest)))
              == Failed(fault, l, target + Sections(ss))
    ensures l == 1 + Newlines(PrintSections(ss)) + Newlines(Opening(s, ""))
  {
    hide Newlines, ValidLaid, PrintSections, Opening, Sections, Parse, Word, Run, Whole;
    var st := ReadsOnInside(target, ss, s, Word(key) + ([c] + rest));
    WholeBehind(Word(key), [c] + rest);
    RunWord(st, key, Whole([c] + rest));
    l := st.line;
    var st1 := st.(wordbuffer := st.wordbuffer + key, inWord := true);
    RunFault(st1, [c] + rest);
  }

  /** Two words in a row. */
  lemma SecondWordIsAFault(target: seq<Section>, ss: seq<LaidSection>, s: LaidSection, key: string, c: char,
                           rest: string) returns (l: nat)
    requires (forall i :: 0 <= i < |ss| ==> ValidLaid(ss[i])) && ValidLaid(s) && ValidName(key)
    requires IsWordChar(c) && c != '/'
    ensures Parse(target, PrintSections(ss) + Opening(s, Word(key) + (" " + ([c] + rest))))
         == Failed(UnexpectedWord, l, target + Sections(ss))
    ensures l == 1 + Newlines(PrintSections(ss)) + Newlines(Opening(s, ""))
  {
    hide Newlines, ValidLaid, PrintSections, Opening, Sections, Parse, Word, Run, Whole;
    var tail := [c] + rest;
    var st := ReadsOnInside(target, ss, s, Word(key) + (" " + tail));
    WholeBehind(" ", tail);
    WholeBehind(Word(key), " " + tail);
    RunWord(st, key, " " + Whole(tail));
    l := st.line;
    var st1 := st.(wordbuffer := st.wordbuffer + key, inWord := true);
    RunTake(st1, " ", Whole(tail), st1.(inWord := false));
    RunFault(st1.(inWord := false), tail);
  }

  /** A key and an equals sign without a value: the line may not end, nor the section, no
      section may open, and there is one equals sign only. */
  lemma FaultsBehindEquals(target: seq<Section>, ss: seq<LaidSection>, s: LaidSection, key: string, c: char,
                           rest: string) returns (l: nat)
    requires (forall i :: 0 <= i < |ss| ==> ValidLaid(ss[i])) && ValidLaid(s) && ValidName(key)
    requires c in {'\n', '}', '{', '='}
    ensures var fault := if c == '\n' then ItemWithoutValue else if c == '}' then UnexpectedEnd
                         else if c == '{' then NestedSection else StrayEquals;
            Parse(target, PrintSections(ss) + Opening(s, Word(key) + ("=" + ([c] + rest))))
              == Failed(fault, l, target + Sections(ss))
    ensures l == 1 + Newlines(PrintSections(ss)) + Newlines(Opening(s, ""))
  {
    hide Newlines, ValidLaid, PrintSections, Opening, Sections, Parse, Word, Run, Whole;
    var tail := [c] + rest;
    var st := ReadsOnInside(target, ss, s, Word(key) + ("=" + tail));
    WholeBehind("=", tail);
    WholeBehind(Word(key), "=" + tail);
    l := st.line;
    var st1 := KeyIsRead(st, key, Whole(tail));
    RunFault(st1, tail);
  }

  lemma KeyIsRead(st: State, key: string, rest: string) returns (st1: State)
    requires InSection(st) && ValidName(key)
    ensures st1 == st.(itemname := key) && Run(st, Word(key) + ("=" + rest)) == Run(st1, rest)
  {
    hide Run, Word, IsWordChar;
    RunWord(st, key, "=" + rest);
    assert "" + key == key;
    st1 := st.(itemname := key);
    RunTake(st.(wordbuffer := key, inWord := true), "=", rest, st1);
  }

  /** Behind a value the line has to end: no quote may follow it, and no sign. */
  lemma FaultsBehindValue(target: seq<Section>, ss: seq<LaidSection>, s: LaidSection, item: Item, c: char, rest: string)
      returns (l: nat)
    requires (forall i :: 0 <= i < |ss| ==> ValidLaid(ss[i])) && ValidLaid(s)
    requires ValidName(item.key) && ValidName(item.value) && c in {'"', '}', '{', '='}
    ensures var fault := if c == '"' then PriorWords else if c == '}' then UnexpectedEnd
                         else if c == '{' then NestedSection else StrayEquals;
            Parse(target, PrintSections(ss) + Opening(s, Word(item.key) + ("=" + (Word(item.value) + ([c] + rest)))))
              == Failed(fault, l, target + Sections(ss))
    ensures l == 1 + Newlines(PrintSections(ss)) + Newlines(Opening(s, ""))
  {
    hide Newlines, ValidLaid, PrintSections, Opening, Sections, Parse, Word, Run, Whole;
    var tail := [c] + rest;
    var behind := Word(item.value) + tail;
    WholeBehind(Word(item.value), tail);
    WholeBehind("=", behind);
    WholeBehind(Word(item.key), "=" + behind);
    var st := ReadsOnInside(target, ss, s, Word(item.key) + ("=" + behind));
    l := st.line;
    var st1 := KeyIsRead(st, item.key, Word(item.value) + Whole(tail));
    RunWord(st1, item.value, Whole(tail));
    RunFault(st1.(wordbuffer := st1.wordbuffer + item.value, inWord := true), tail);
  }

  /** A step that gives up. */
  lemma RunFault(st: State, tail: string)
    requires tail != "" && StepOf(st, Whole(tail)).Reject?
    ensures Run(st, Whole(tail)) == Failed(StepOf(st, Whole(tail)).fault, st.line, st.target)
  {
    hide CharStep, LineStep;
  }

  /** At the end of the file no section may be open. */
  lemma OpenSectionAtEnd(target: seq<Section>, ss: seq<LaidSection>, s: LaidSection)
    requires (forall i :: 0 <= i < |ss| ==> ValidLaid(ss[i])) && ValidLaid(s)
    ensures Parse(target, PrintSections(ss) + Opening(s, "\n")) == Failed(OpenSection, 0, target + Sections(ss))
  {
    hide ValidLaid, PrintSections, Opening, Sections, Parse, Run, LineStep, Newlines, Whole;
    var st := ReadsOnInside(target, ss, s, "\n");
    NewlineIsWhole();
    RunEol(st, "");
    RunNothing(st.(line := st.line + 1));
  }

  lemma NewlineIsWhole()
    ensures "\n" + "" == Whole("\n") == "\n"
  {
  }

  /** Nor may a word be left. */
  lemma WordAtEnd(target: seq<Section>, ss: seq<LaidSection>, word: string)
    requires (forall i :: 0 <= i < |ss| ==> ValidLaid(ss[i])) && ValidName(word)
    ensures Parse(target, PrintSections(ss) + (Word(word) + "\n")) == Failed(Garbage, 0, target + Sections(ss))
  {
    hide ValidLaid, PrintSections, Sections, Parse, Word, Run, LineStep, Newlines, Whole, IsWordChar;
    var l := ReadsOn(target, ss, Word(word) + "\n");
    WholeBehind(Word(word), "\n");
    NewlineIsWhole();
    var st := Init(target).(target := target + Sections(ss), line := l);
    RunWord(st, word, "\n");
    assert "" + word == word;
    RunEol(st.(wordbuffer := word, inWord := true), "");
    RunNothing(st.(wordbuffer := word, line := l + 1));
  }

  /** Nor may a comment be open. */
  lemma OpenCommentAtEnd(target: seq<Section>, ss: seq<LaidSection>, text: string)
    requires forall i :: 0 <= i < |ss| ==> ValidLaid(ss[i])
    requires text != "" && text[|text| - 1] == '\n' && Find(text, "*/", 0) == -1
    ensures Parse(target, PrintSections(ss) + ("/*" + text)) == Failed(OpenComment, 0, target + Sections(ss))
  {
    hide ValidLaid, PrintSections, Sections, Parse, Run, LineStep, Find, At, Newlines;
    assert Whole(text) == text;
    var l := ReadsOn(target, ss, "/*" + text);
    WholeBehind("/*", text);
    var st := Init(target).(target := target + Sections(ss), line := l);
    assert ("/*" + text)[1] == '*';
    RunTake(st, "/*", text, st.(inComment := true));
    RunUnclosed(st.(inComment := true), text);
  }

  /** Nor a quote. */
  lemma OpenQuoteAtEnd(target: seq<Section>, ss: seq<LaidSection>, s: LaidSection, key: string, text: string)
    requires (forall i :: 0 <= i < |ss| ==> ValidLaid(ss[i])) && ValidLaid(s) && ValidName(key)
    requires text != "" && text[|text| - 1] == '\n' && '"' !in text
    ensures Parse(target, PrintSections(ss) + Opening(s, Word(key) + ("=" + ("\"" + text))))
         == Failed(OpenQuote, 0, target + Sections(ss))
  {
    hide ValidLaid, PrintSections, Opening, Sections, Parse, Word, Run, LineStep, Newlines, ValidName;
    assert Whole(text) == text;
    var st := ReadsOnInside(target, ss, s, Word(key) + ("=" + ("\"" + text)));
    WholeBehind("\"", text);
    WholeBehind("=", "\"" + text);
    WholeBehind(Word(key), "=" + ("\"" + text));
    NameIsNotEmpty(key);
    var st1 := KeyIsRead(st, key, "\"" + text);
    RunTake(st1, "\"", text, st1.(inQuote := true, inWord := true));
    RunUnquoted(st1.(inQuote := true, inWord := true), text);
  }

  lemma NameIsNotEmpty(s: string)
    requires ValidName(s)
    ensures s != ""
  {
  }

  lemma {:induction false} RunUnclosed(st: State, text: string)
    requires !st.inQuote && st.inComment && st.itemname == "" && forall k :: 0 <= k ==> !At(text, "*/", k)
    ensures Run(st, text) == Failed(OpenComment, 0, st.target)
    decreases |text|
  {
    if text != "" {
      var tail := text[1..];
      assert text == [text[0]] + tail && (|text| > 1 ==> text[0..2] == [text[0], text[1]]);
      assert !At(text, "*/", 0);
      var st1 := if text[0] == '\n' then st.(inWord := false, line := st.line + 1) else st;
      RunTake(st, [text[0]], tail, st1);
      NoneBehind(text);
      RunUnclosed(st1, tail);
    }
  }

  lemma {:induction false} RunUnquoted(st: State, text: string)
    requires st.inQuote && !st.inComment && '"' !in text
    ensures Run(st, text) == Failed(OpenQuote, 0, st.target)
    decreases |text|
  {
    if text != "" {
      assert text == [text[0]] + text[1..];
      var st1 := st.(wordbuffer := st.wordbuffer + [text[0]],
                     line := if text[0] == '\n' then st.line + 1 else st.line);
      RunTake(st, [text[0]], text[1..], st1);
      RunUnquoted(st1, text[1..]);
    }
  }

  // ---------- what can be loaded ----------

  /** The plain layout of a configuration, without comments. */
  function Plain(ss: seq<Section>): seq<LaidSection> {
    if ss == [] then [] else [LaidSection(NONE, ss[0].name, NONE, PlainItems(ss[0].items), NONE)] + Plain(ss[1..])
  }

  function PlainItems(items: seq<Item>): seq<LaidItem> {
    if items == [] then [] else [LaidItem(NONE, items[0], NONE, [], true, [], Nothing)] + PlainItems(items[1..])
  }

  function Print(ss: seq<Section>): string { PrintSections(Plain(ss)) }

  lemma {:induction false} PlainItemsAre(items: seq<Item>)
    requires ValidItems(items)
    ensures Items(PlainItems(items)) == items
    ensures forall j :: 0 <= j < |PlainItems(items)| ==> ValidLaidItem(PlainItems(items)[j])
  {
    hide ValidName, ValidValue;
    if items != [] {
      PlainItemsAre(items[1..]);
      assert PlainItems(items)[1..] == PlainItems(items[1..]);
      assert items == [items[0]] + items[1..];
      assert ValidLaidItem(PlainItems(items)[0]);
    }
  }

  lemma PlainSectionIs(s: Section)
    requires ValidName(s.name) && ValidItems(s.items)
    ensures ValidLaid(LaidSection(NONE, s.name, NONE, PlainItems(s.items), NONE))
  {
    hide ValidName, ValidLaidItem, ValidItems;
    PlainItemsAre(s.items);
  }

  lemma {:induction false} PlainIs(ss: seq<Section>)
    requires ValidSections(ss)
    ensures Sections(Plain(ss)) == ss && forall i :: 0 <= i < |Plain(ss)| ==> ValidLaid(Plain(ss)[i])
  {
    hide ValidName, ValidLaid, ValidItems;
    if ss != [] {
      PlainIs(ss[1..]);
      PlainItemsAre(ss[0].items);
      PlainSectionIs(ss[0]);
      assert Plain(ss)[1..] == Plain(ss[1..]);
      assert ss == [ss[0]] + ss[1..];
    }
  }

  predicate WordSoFar(s: string) { forall i :: 0 <= i < |s| ==> IsWordChar(s[i]) }

  /** What every state of the automaton keeps: names are words, values have no quotes, and
      items are only collected inside a section. */
  predicate StateOk(st: State) {
    && (if st.itemname == "" then WordSoFar(st.wordbuffer) else '"' !in st.wordbuffer)
    && WordSoFar(st.itemname) && (st.itemname != "" ==> st.section != "")
    && WordSoFar(st.section) && (st.section == "" ==> st.sectiondata == [])
    && (st.inQuote ==> st.itemname != "")
    && ValidItems(st.sectiondata) && ValidSections(st.target)
  }

  lemma StepKeepsOk(st: State, text: string)
    requires StateOk(st) && text != ""
    ensures StepOf(st, text).Take? ==> StateOk(StepOf(st, text).st)
  {
    hide CharStep, LineStep, StateOk;
    if text[0] == '\n' {
      LineKeepsOk(st);
    } else {
      CharKeepsOk(st, text[0], if |text| > 1 then text[1] else '\n');
    }
  }

  lemma LineKeepsOk(st: State)
    requires StateOk(st)
    ensures LineStep(st).Take? ==> StateOk(LineStep(st).st)
  {
    hide ValidSections;
    assert WordSoFar("");
  }

  lemma CharKeepsOk(st: State, ch: char, next: char)
    requires StateOk(st) && ch != '\n'
    ensures CharStep(st, ch, next).Take? ==> StateOk(CharStep(st, ch, next).st)
  {
    hide ValidSections, ValidItems;
    NothingCollected();
    if ch == '}' && st.section != "" { CloseKeepsOk(st); }
  }

  lemma NothingCollected()
    ensures WordSoFar("") && ValidItems([])
  {
  }

  lemma CloseKeepsOk(st: State)
    requires StateOk(st) && st.section != ""
    ensures ValidSections(st.target + [Section(st.section, st.sectiondata)])
  {
  }

  /** A successful run leaves valid sections, and no collected item behind. */
  lemma {:induction false} RunKeepsOk(st: State, text: string)
    requires StateOk(st) && Run(st, text).Loaded?
    ensures ValidSections(Run(st, text).target)
    decreases |text|, if text != "" && text[0] == '\n' then 0 else 1
  {
    hide StateOk, CharStep, LineStep, ValidSections;
    if text == "" {
      FinishIsOk(st);
    } else {
      StepKeepsOk(st, text);
      match StepOf(st, text) {
        case Take(st', n) => RunKeepsOk(st', text[n..]);
        case DropLine => RunKeepsOk(st, text[LineEnd(text)..]);
        case Reject(_) =>
      }
    }
  }

  lemma FinishIsOk(st: State)
    requires StateOk(st) && Finish(st).Loaded?
    ensures ValidSections(Finish(st).target) && st.sectiondata == []
  {
  }

  /** On success every section name, key and value that was added is a non-empty word, or a
      non-empty value without quotes. */
  lemma LoadedIsValid(target: seq<Section>, content: string)
    requires ValidSections(target) && Parse(target, content).Loaded?
    ensures ValidSections(Parse(target, content).target)
  {
    assert StateOk(Init(target));
    RunKeepsOk(Init(target), Normal(content));
  }

  lemma LoadPrinted(ss: seq<Section>)
    requires ValidSections(ss)
    ensures Parse([], Print(ss)) == Loaded(ss)
  {
    PlainIs(ss);
    LoadUndoesPrint([], Plain(ss), NONE, Nothing);
    assert PrintSections(Plain(ss)) + (PrintSpace(NONE) + PrintNote(Nothing)) == Print(ss);
    assert [] + Sections(Plain(ss)) == ss;
  }

  /** A configuration can be loaded from some file if and only if it is valid. */
  lemma LoadableIffValid(ss: seq<Section>)
    ensures (exists content :: Parse([], content) == Loaded(ss)) <==> ValidSections(ss)
  {
    hide Parse, ValidSections, Print;
    if content :| Parse([], content) == Loaded(ss) {
      EmptyIsValid();
      LoadedIsValid([], content);
    }
    if ValidSections(ss) { LoadPrinted(ss); }
  }

  lemma EmptyIsValid()
    ensures ValidSections([])
  {
  }

  /** Printing what was loaded and loading it again gives the same configuration. */
  lemma ReloadIsStable(content: string)
    requires Parse([], content).Loaded?
    ensures Parse([], Print(Parse([], content).target)) == Parse([], content)
  {
    hide Parse, ValidSections, Print;
    EmptyIsValid();
    LoadedIsValid([], content);
    LoadPrinted(Parse([], content).target);
  }
}
