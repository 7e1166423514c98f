/** The URI canonicaliser: percent-decoding and removal of dot segments in one pass,
    against a specification that decodes, splits on '/' and folds a stack of segments. */
module Uri {
  import opened Text

  // ---------- percent escapes ----------

  /** The lookup table of unhexchar, indexed by c - 48. It holds -1 between '9' and 'A'
      and between 'F' and 'a', and unhexchar does not look for those entries. */
  function HexLookup(c: char): (r: int)
    requires '0' <= c <= 'f'
    ensures -1 <= r <= 15
  {
    if '0' <= c <= '9' then (c as int) - 48
    else if 'A' <= c <= 'F' then (c as int) - 55
    else if 'a' <= c <= 'f' then (c as int) - 87
    else -1
  }

  /** The value stored in a signed char. */
  function SignedChar(v: int): (r: int)
    ensures -128 <= r < 128
    ensures -128 <= v < 128 ==> r == v
    ensures 128 <= v < 256 ==> r == v - 256
  {
    (v + 128) % 256 - 128
  }

  function Unhexchar(a: char, b: char): (r: Option<int>)
    ensures r.Some? ==> -128 <= r.value < 128
  {
    if !('0' <= a <= 'f') || !('0' <= b <= 'f') then None
    else Some(SignedChar(HexLookup(a) * 16 + HexLookup(b)))
  }

  const LOWER_DIGITS := "0123456789abcdef"
  const UPPER_DIGITS := "0123456789ABCDEF"

  predicate IsHexDigit(c: char) { c in LOWER_DIGITS || c in UPPER_DIGITS }

  /** One of the two hexadecimal digits of this value. */
  function HexChar(n: nat, upper: bool): char
    requires n < 16
  {
    if upper then UPPER_DIGITS[n] else LOWER_DIGITS[n]
  }

  lemma LookupReads(n: nat, upper: bool)
    requires n < 16
    ensures '0' <= HexChar(n, upper) <= 'f' && HexLookup(HexChar(n, upper)) == n
  {
  }

  /** A pair of hexadecimal digits, each in either case, gives its number as a signed char. */
  lemma UnhexcharReads(i: nat, j: nat, up: bool, up': bool)
    requires i < 16 && j < 16
    ensures var v := 16 * i + j;
            Unhexchar(HexChar(i, up), HexChar(j, up')) == Some(if v < 128 then v else v - 256)
  {
    hide HexChar;
    LookupReads(i, up);
    LookupReads(j, up');
  }

  /** Between the digits and the letters of either case. */
  predicate InGap(c: char) { '9' < c < 'A' || 'F' < c < 'a' }

  lemma HexDigitIs(c: char)
    ensures IsHexDigit(c) <==> '0' <= c <= 'f' && !InGap(c)
  {
    if '0' <= c <= '9' {
      assert LOWER_DIGITS[c as int - 48] == c;
    } else if 'A' <= c <= 'F' {
      assert UPPER_DIGITS[c as int - 55] == c;
    } else if 'a' <= c <= 'f' {
      assert LOWER_DIGITS[c as int - 87] == c;
    }
  }

  /** The documentation promises failure for invalid characters. It is kept for a pair
      exactly when no character of an accepted pair lies in one of the table's gaps. */
  lemma UnhexcharRejectsIff(a: char, b: char)
    ensures (Unhexchar(a, b).Some? <==> IsHexDigit(a) && IsHexDigit(b))
       <==> !('0' <= a <= 'f' && '0' <= b <= 'f' && (InGap(a) || InGap(b)))
  {
    hide IsHexDigit, HexLookup;
    HexDigitIs(a);
    HexDigitIs(b);
  }

  /** There, a character counts as -1. */
  lemma GapsCountMinusOne(a: char, b: char, n: nat, upper: bool)
    requires InGap(a) && InGap(b) && n < 16
    ensures Unhexchar(a, b) == Some(-17)
    ensures Unhexchar(a, HexChar(n, upper)) == Some(n - 16)
    ensures Unhexchar(HexChar(n, upper), b) == Some(if n <= 8 then 16 * n - 1 else 16 * n - 257)
  {
    hide HexChar;
    LookupReads(n, upper);
  }

  /** A pair that is not hexadecimal and yet decodes, here to a path separator. */
  lemma UnhexcharAcceptsAGap()
    ensures !IsHexDigit(':') && Unhexchar('3', ':') == Some('/' as int)
  {
  }

  // ---------- specification: decode, split, fold ----------

  /** Decoded path of a URI behind its first slash, and its query if it has one.
      An unprintable or non-ASCII escape is dropped, an escape that is cut short ends
      the URI, and so do '?', '#' and a NUL. */
  function Decode(s: string): (string, Option<string>) {
    if s == "" || s[0] == '\0' then ("", None)
    else if s[0] == '%' then
      if |s| < 3 then ("", None)
      else
        var (path, query) := Decode(s[3..]);
        match Unhexchar(s[1], s[2])
        case None => (path, query)
        case Some(v) => if v < 32 || v == 127 then (path, query) else ([v as char] + path, query)
    else if s[0] == '?' then ("", Some(s[1..]))
    else if s[0] == '#' then ("", None)
    else
      var (path, query) := Decode(s[1..]);
      ([s[0]] + path, query)
  }

  /** Index of the first slash, or the length. */
  function SlashAt(s: string): (n: nat)
    ensures n <= |s|
    ensures forall i :: 0 <= i < n ==> s[i] != '/'
    ensures n < |s| ==> s[n] == '/'
  {
    if s == "" || s[0] == '/' then 0 else 1 + SlashAt(s[1..])
  }

  function Split(s: string): (r: seq<string>)
    ensures |r| > 0
    decreases |s|
  {
    var n := SlashAt(s);
    if n == |s| then [s] else [s[..n]] + Split(s[n + 1..])
  }

  predicate IsDots(seg: string) { seg == "" || seg == "." || seg == ".." }

  function Enter(stack: seq<string>, seg: string): seq<string> {
    if seg == "" || seg == "." then stack
    else if seg == ".." then (if stack == [] then [] else stack[..|stack| - 1])
    else stack + [seg]
  }

  function Resolve(stack: seq<string>, segs: seq<string>): seq<string>
    decreases |segs|
  {
    if segs == [] then stack else Resolve(Enter(stack, segs[0]), segs[1..])
  }

  /** Every name followed by a slash. */
  function Dirs(names: seq<string>): string {
    if names == [] then "" else names[0] + "/" + Dirs(names[1..])
  }

  /** The names joined by slashes, with one more behind them for a directory. */
  function Render(names: seq<string>, directory: bool): string {
    if names == [] then ""
    else if directory then Dirs(names)
    else Dirs(names[..|names| - 1]) + names[|names| - 1]
  }

  function Normalise(stack: seq<string>, path: string): string {
    var segs := Split(path);
    Render(Resolve(stack, segs), IsDots(segs[|segs| - 1]))
  }

  /** What HandleURI makes of a URI; one that does not start with a slash is left alone. */
  function Canonical(uri: string): string {
    if uri == "" || uri[0] != '/' then uri
    else "/" + Normalise([], Decode(uri[1..]).0)
  }

  function QueryOf(uri: string): Option<string> {
    if uri == "" || uri[0] != '/' then None else Decode(uri[1..]).1
  }

  // ---------- lemmas on the specification ----------

  /** A name that may stand in a canonical path. */
  predicate IsName(seg: string) { !IsDots(seg) && '/' !in seg }

  predicate AllNames(names: seq<string>) { forall i :: 0 <= i < |names| ==> IsName(names[i]) }

  lemma SplitAt(part: string, rest: string)
    requires '/' !in part
    ensures Split(part) == [part]
    ensures Split(part + "/" + rest) == [part] + Split(rest)
  {
    var s := part + "/" + rest;
    assert forall i :: 0 <= i < |part| ==> s[i] == part[i];
    assert s[|part|] == '/';
    assert SlashAt(s) == |part| && s[..|part|] == part && s[|part| + 1..] == rest;
  }

  lemma {:induction false} SplitHasNoSlash(s: string)
    ensures forall i :: 0 <= i < |Split(s)| ==> '/' !in Split(s)[i]
    decreases |s|
  {
    var n := SlashAt(s);
    if n < |s| { SplitHasNoSlash(s[n + 1..]); }
  }

  lemma {:induction false} ResolveKeepsNames(stack: seq<string>, segs: seq<string>)
    requires AllNames(stack) && forall i :: 0 <= i < |segs| ==> '/' !in segs[i]
    ensures AllNames(Resolve(stack, segs))
    decreases |segs|
  {
    if segs != [] { ResolveKeepsNames(Enter(stack, segs[0]), segs[1..]); }
  }

  lemma {:induction false} DirsAppend(names: seq<string>, last: string)
    ensures Dirs(names + [last]) == Dirs(names) + last + "/"
  {
    if names == [] {
      assert names + [last] == [last];
      assert Dirs([last]) == last + "/" + Dirs([]);
    } else {
      assert (names + [last])[1..] == names[1..] + [last];
      DirsAppend(names[1..], last);
      assert Dirs(names + [last]) == names[0] + "/" + Dirs(names[1..] + [last]);
    }
  }

  lemma {:induction false} DirsEndInSlash(names: seq<string>)
    requires names != []
    ensures Dirs(names) != "" && Dirs(names)[|Dirs(names)| - 1] == '/'
  {
    if |names| > 1 { DirsEndInSlash(names[1..]); }
  }

  /** A rendered list of names splits back into it, with an empty segment behind a directory. */
  lemma {:induction false} SplitDirs(names: seq<string>, last: string)
    requires AllNames(names) && '/' !in last
    ensures Split(Dirs(names) + last) == names + [last]
  {
    hide Split, SlashAt, IsDots;
    if names == [] {
      assert Dirs(names) + last == last;
      SplitAt(last, "");
    } else {
      var rest := Dirs(names[1..]) + last;
      assert Dirs(names) + last == names[0] + "/" + rest;
      SplitAt(names[0], rest);
      SplitDirs(names[1..], last);
      assert names + [last] == [names[0]] + (names[1..] + [last]);
    }
  }

  lemma {:induction false} ResolveNames(stack: seq<string>, names: seq<string>, last: string)
    requires AllNames(names) && (IsName(last) || last == "")
    ensures Resolve(stack, names + [last]) == stack + names + (if last == "" then [] else [last])
    decreases |names|
  {
    var segs := names + [last];
    if names == [] {
      assert Resolve(stack, segs) == Resolve(Enter(stack, last), segs[1..]) == Enter(stack, last);
    } else {
      assert segs[1..] == names[1..] + [last];
      ResolveNames(stack + [names[0]], names[1..], last);
      assert stack + [names[0]] + names[1..] == stack + names;
    }
  }

  /** The segments of a canonical path, behind its leading slash. */
  function NamesOf(uri: string): seq<string>
    requires uri != "" && uri[0] == '/'
  {
    Resolve([], Split(Decode(uri[1..]).0))
  }

  lemma RenderSplits(stack: seq<string>, directory: bool) returns (names: seq<string>, last: string)
    requires AllNames(stack)
    ensures AllNames(names) && (IsName(last) || last == "")
    ensures stack == names + (if last == "" then [] else [last])
    ensures last == "" <==> directory || stack == []
    ensures Render(stack, directory) == Dirs(names) + last
    ensures Split(Render(stack, directory)) == names + [last]
  {
    if directory || stack == [] {
      names, last := stack, "";
    } else {
      names, last := stack[..|stack| - 1], stack[|stack| - 1];
    }
    SplitDirs(names, last);
    assert Dirs(names) + "" == Dirs(names);
  }

  lemma CanonicalSplits(uri: string) returns (names: seq<string>, last: string)
    requires uri != "" && uri[0] == '/'
    ensures AllNames(names) && (IsName(last) || last == "")
    ensures NamesOf(uri) == names + (if last == "" then [] else [last])
    ensures Canonical(uri) == "/" + (Dirs(names) + last)
    ensures Split(Dirs(names) + last) == names + [last]
  {
    var segs := Split(Decode(uri[1..]).0);
    SplitHasNoSlash(Decode(uri[1..]).0);
    ResolveKeepsNames([], segs);
    names, last := RenderSplits(Resolve([], segs), IsDots(segs[|segs| - 1]));
  }

  lemma FirstOfDirs(names: seq<string>, last: string)
    requires AllNames(names) && (IsName(last) || last == "")
    ensures Dirs(names) + last == "" || (Dirs(names) + last)[0] != '/'
  {
    if names != [] { assert Dirs(names)[0] == names[0][0]; }
  }

  /** The result starts with exactly one slash and, cut at its slashes, holds no empty,
      "." or ".." segment; only the last may be empty, behind a directory. */
  lemma CanonicalIsClean(uri: string)
    requires uri != "" && uri[0] == '/'
    ensures var out := Canonical(uri);
            var segs := Split(out[1..]);
            && out[0] == '/' && (|out| > 1 ==> out[1] != '/')
            && AllNames(segs[..|segs| - 1])
            && (IsName(segs[|segs| - 1]) || segs[|segs| - 1] == "")
  {
    hide Canonical, Split, NamesOf, Dirs;
    var names, last := CanonicalSplits(uri);
    var tail := Dirs(names) + last;
    assert Canonical(uri)[1..] == tail;
    assert (names + [last])[..|names|] == names;
    FirstOfDirs(names, last);
  }

  // ---------- idempotence ----------

  predicate IsSpecial(c: char) { c == '%' || c == '?' || c == '#' }

  predicate HasSpecial(s: string) { exists i :: 0 <= i < |s| && IsSpecial(s[i]) }

  lemma {:induction false} DecodePlain(s: string)
    requires !HasSpecial(s) && '\0' !in s
    ensures Decode(s) == (s, None)
  {
    if s != "" {
      assert !IsSpecial(s[0]);
      assert forall i :: 0 <= i < |s[1..]| ==> s[1..][i] == s[i + 1] && !IsSpecial(s[i + 1]);
      DecodePlain(s[1..]);
      assert [s[0]] + s[1..] == s;
    }
  }

  /** Decoding never lengthens, and shortens whatever holds a special character. */
  lemma {:induction false} DecodeShortens(s: string)
    ensures |Decode(s).0| <= |s|
    ensures HasSpecial(s) ==> |Decode(s).0| < |s|
    ensures '\0' !in Decode(s).0
    decreases |s|
  {
    if s != "" && s[0] != '\0' {
      if s[0] == '%' {
        if |s| >= 3 { DecodeShortens(s[3..]); }
      } else if !IsSpecial(s[0]) {
        DecodeShortens(s[1..]);
        if i :| 0 <= i < |s| && IsSpecial(s[i]) {
          assert IsSpecial(s[1..][i - 1]);
        }
      }
    }
  }

  function TotalLength(segs: seq<string>): nat {
    if segs == [] then 0 else |segs[0]| + 1 + TotalLength(segs[1..])
  }

  lemma {:induction false} SplitLength(s: string)
    ensures TotalLength(Split(s)) == |s| + 1
    decreases |s|
  {
    var n := SlashAt(s);
    if n < |s| {
      SplitLength(s[n + 1..]);
      assert Split(s)[1..] == Split(s[n + 1..]);
    }
  }

  lemma DirsPopShorter(stack: seq<string>)
    requires stack != []
    ensures |Dirs(stack[..|stack| - 1])| <= |Dirs(stack)|
  {
    DirsAppend(stack[..|stack| - 1], stack[|stack| - 1]);
    assert stack == stack[..|stack| - 1] + [stack[|stack| - 1]];
  }

  lemma {:induction false} ResolveLength(stack: seq<string>, segs: seq<string>)
    ensures |Dirs(Resolve(stack, segs))| <= |Dirs(stack)| + TotalLength(segs)
    decreases |segs|
  {
    if segs != [] {
      if stack != [] { DirsPopShorter(stack); }
      DirsAppend(stack, segs[0]);
      ResolveLength(Enter(stack, segs[0]), segs[1..]);
    }
  }

  /** One more pass changes a canonical path exactly when decoding left a '%', '?' or '#' in it. */
  lemma CanonicalIdempotentIff(uri: string)
    requires uri != "" && uri[0] == '/'
    ensures Canonical(Canonical(uri)) == Canonical(uri) <==> !HasSpecial(Canonical(uri))
  {
    var out := Canonical(uri);
    var tail := out[1..];
    assert HasSpecial(out) <==> HasSpecial(tail) by {
      if i :| 0 <= i < |out| && IsSpecial(out[i]) { assert tail[i - 1] == out[i]; }
      if i :| 0 <= i < |tail| && IsSpecial(tail[i]) { assert out[i + 1] == tail[i]; }
    }
    if HasSpecial(tail) {
      CanonicalNoLonger(out);
      DecodeShortens(tail);
    } else {
      CanonicalHasNoNul(uri);
      DecodePlain(tail);
      var names, last := CanonicalSplits(uri);
      assert tail == Dirs(names) + last;
      NormaliseFixed(names, last);
    }
  }

  lemma DecodePercent()
    ensures Decode("%25") == ("%", None) && Decode("%") == ("", None)
  {
    assert "%25"[3..] == "" && Unhexchar('2', '5') == Some(37);
    assert "%" + "" == "%";
  }

  /** "%25" decodes to a percent sign, which a second pass takes for the start of an escape. */
  lemma SecondPassDiffers()
    ensures Canonical("/%25") == "/%" && Canonical("/%") == "/"
  {
    hide Normalise, Decode;
    DecodePercent();
    assert "/%25"[1..] == "%25" && "/%"[1..] == "%";
    NormaliseLast([], "%");
    NormaliseLast([], "");
    assert Dirs([]) + "%" == "%";
  }

  lemma NormaliseFixed(names: seq<string>, last: string)
    requires AllNames(names) && (IsName(last) || last == "")
    ensures Normalise([], Dirs(names) + last) == Dirs(names) + last
  {
    var path := Dirs(names) + last;
    SplitDirs(names, last);
    ResolveNames([], names, last);
    var stack := names + (if last == "" then [] else [last]);
    assert Resolve([], Split(path)) == stack;
    assert (names + [last])[|names|] == last;
    assert Render(stack, IsDots(last)) == path by {
      if last == "" { assert stack == names && Dirs(names) + last == Dirs(names); }
      else { assert stack[..|stack| - 1] == names; }
    }
  }

  lemma CanonicalNoLonger(uri: string)
    requires uri != "" && uri[0] == '/'
    ensures |Canonical(uri)| <= 1 + |Decode(uri[1..]).0|
  {
    var path := Decode(uri[1..]).0;
    var segs := Split(path);
    var stack := Resolve([], segs);
    SplitLength(path);
    ResolveLength([], segs);
    if stack != [] {
      DirsAppend(stack[..|stack| - 1], stack[|stack| - 1]);
      assert stack == stack[..|stack| - 1] + [stack[|stack| - 1]];
      if IsDots(segs[|segs| - 1]) { DirectoryLength(segs); }
    }
  }

  /** A list that ends in a dot segment leaves room for the slash behind the last name. */
  lemma DirectoryLength(segs: seq<string>)
    requires segs != [] && IsDots(segs[|segs| - 1])
    ensures |Dirs(Resolve([], segs))| <= TotalLength(segs) - 1
  {
    var front, last := segs[..|segs| - 1], segs[|segs| - 1];
    assert segs == front + [last];
    ResolveAppend([], front, last);
    ResolveLength([], front);
    TotalLengthAppend(front, last);
    var stack := Resolve([], front);
    if stack != [] { DirsPopShorter(stack); }
  }

  lemma {:induction false} ResolveAppend(stack: seq<string>, segs: seq<string>, last: string)
    ensures Resolve(stack, segs + [last]) == Enter(Resolve(stack, segs), last)
    decreases |segs|
  {
    if segs == [] {
      assert segs + [last] == [last];
      assert Resolve(stack, [last]) == Resolve(Enter(stack, last), [last][1..]);
    } else {
      assert (segs + [last])[1..] == segs[1..] + [last];
      ResolveAppend(Enter(stack, segs[0]), segs[1..], last);
    }
  }

  lemma {:induction false} TotalLengthAppend(segs: seq<string>, last: string)
    ensures TotalLength(segs + [last]) == TotalLength(segs) + |last| + 1
  {
    if segs == [] {
      assert segs + [last] == [last];
      assert TotalLength([last]) == |last| + 1 + TotalLength([last][1..]);
    } else {
      assert (segs + [last])[1..] == segs[1..] + [last];
      TotalLengthAppend(segs[1..], last);
    }
  }

  lemma CanonicalHasNoNul(uri: string)
    requires uri != "" && uri[0] == '/'
    ensures '\0' !in Canonical(uri)
  {
    var path := Decode(uri[1..]).0;
    DecodeShortens(uri[1..]);
    SplitHasNoNul(path);
    ResolveHasNoNul([], Split(path));
    var names, last := CanonicalSplits(uri);
    var stack := NamesOf(uri);
    assert stack[..|names|] == names && (last != "" ==> stack[|names|] == last);
    DirsHasNoNul(names);
  }

  lemma {:induction false} SplitHasNoNul(s: string)
    requires '\0' !in s
    ensures forall i :: 0 <= i < |Split(s)| ==> '\0' !in Split(s)[i]
    decreases |s|
  {
    var n := SlashAt(s);
    if n < |s| { SplitHasNoNul(s[n + 1..]); }
  }

  lemma {:induction false} ResolveHasNoNul(stack: seq<string>, segs: seq<string>)
    requires forall i :: 0 <= i < |stack| ==> '\0' !in stack[i]
    requires forall i :: 0 <= i < |segs| ==> '\0' !in segs[i]
    ensures forall i :: 0 <= i < |Resolve(stack, segs)| ==> '\0' !in Resolve(stack, segs)[i]
    decreases |segs|
  {
    if segs != [] { ResolveHasNoNul(Enter(stack, segs[0]), segs[1..]); }
  }

  lemma {:induction false} DirsHasNoNul(names: seq<string>)
    requires forall i :: 0 <= i < |names| ==> '\0' !in names[i]
    ensures '\0' !in Dirs(names)
  {
    if names != [] { DirsHasNoNul(names[1..]); }
  }

  // ---------- escaping ----------

  predicate IsByte(c: char) { (c as int) < 256 }

  /** Percent-encodes every byte outside bare; upper chooses the case of each digit. */
  function Escape(s: string, bare: set<char>, upper: nat -> bool): string
    requires forall i :: 0 <= i < |s| ==> IsByte(s[i])
  {
    if s == "" then ""
    else
      assert IsByte(s[0]);
      (if s[0] in bare then [s[0]] else Escaped(s[0], upper(2 * |s|), upper(2 * |s| + 1))) + Escape(s[1..], bare, upper)
  }

  function Escaped(c: char, up: bool, up': bool): string
    requires IsByte(c)
  {
    ['%', HexChar(c as int / 16, up), HexChar(c as int % 16, up')]
  }

  predicate IsPrintable(c: char) { ' ' <= c <= '~' }

  /** What decoding gives back: an encoded byte only if it is printable ASCII. */
  function Survivors(s: string, bare: set<char>): (r: string)
    ensures |r| <= |s|
  {
    if s == "" then ""
    else (if s[0] in bare || IsPrintable(s[0]) then [s[0]] else "") + Survivors(s[1..], bare)
  }

  /** Characters that stand for themselves in a path. */
  ghost predicate IsBare(bare: set<char>) { '\0' !in bare && forall c :: c in bare ==> !IsSpecial(c) }

  lemma EscapeStep(s: string, bare: set<char>, upper: nat -> bool, tail: string)
    requires forall i :: 0 <= i < |s| ==> IsByte(s[i])
    ensures if s == "" then Escape(s, bare, upper) + tail == tail && Survivors(s, bare) == ""
            else
              && IsByte(s[0])
              && Escape(s, bare, upper) + tail ==
                   (if s[0] in bare then [s[0]] else Escaped(s[0], upper(2 * |s|), upper(2 * |s| + 1)))
                   + (Escape(s[1..], bare, upper) + tail)
              && Survivors(s, bare) ==
                   (if s[0] in bare || IsPrintable(s[0]) then [s[0]] else "") + Survivors(s[1..], bare)
  {
    hide Escaped;
    if s != "" {
      assert IsByte(s[0]);
      Associates(if s[0] in bare then [s[0]] else Escaped(s[0], upper(2 * |s|), upper(2 * |s| + 1)),
                 Escape(s[1..], bare, upper), tail);
    }
  }

  lemma Associates(a: string, b: string, c: string)
    ensures a + b + c == a + (b + c)
  {
  }

  /** For every byte string, escaped in any spelling, in front of any text: decoding drops the
      encoded bytes that are not printable ASCII, gives back everything else, and goes on. */
  lemma {:induction false} DecodeBehind(s: string, bare: set<char>, upper: nat -> bool, tail: string)
    requires IsBare(bare) && forall i :: 0 <= i < |s| ==> IsByte(s[i])
    ensures Decode(Escape(s, bare, upper) + tail) == (Survivors(s, bare) + Decode(tail).0, Decode(tail).1)
    decreases |s|
  {
    hide Decode, Escape, Escaped, Survivors;
    EscapeStep(s, bare, upper, tail);
    if s == "" {
      assert "" + Decode(tail).0 == Decode(tail).0;
    } else {
      var c, behind := s[0], Escape(s[1..], bare, upper) + tail;
      DecodeBehind(s[1..], bare, upper, tail);
      PutBehind(c, Survivors(s[1..], bare), Decode(tail).0);
      if c in bare {
        DecodePlainChar(c, behind);
      } else {
        DecodeEscapedByte(c, upper(2 * |s|), upper(2 * |s| + 1), behind);
      }
    }
  }

  lemma PutBehind(c: char, a: string, b: string)
    ensures [c] + a + b == [c] + (a + b) && "" + a + b == "" + (a + b)
  {
  }

  lemma DecodePlainChar(c: char, rest: string)
    requires !IsSpecial(c) && c != '\0'
    ensures Decode([c] + rest) == ([c] + Decode(rest).0, Decode(rest).1)
  {
    assert ([c] + rest)[1..] == rest;
  }

  lemma DecodeEscaped(a: char, b: char, v: nat, rest: string)
    requires v < 256 && Unhexchar(a, b) == Some(if v < 128 then v else v - 256)
    ensures Decode(['%', a, b] + rest)
         == ((if IsPrintable(v as char) then [v as char] else "") + Decode(rest).0, Decode(rest).1)
  {
    hide Unhexchar;
    assert (['%', a, b] + rest)[3..] == rest && "" + Decode(rest).0 == Decode(rest).0;
  }

  lemma DecodeEscapedByte(c: char, up: bool, up': bool, rest: string)
    requires IsByte(c)
    ensures Decode(Escaped(c, up, up') + rest)
         == ((if IsPrintable(c) then [c] else "") + Decode(rest).0, Decode(rest).1)
  {
    hide HexChar, Unhexchar, Decode;
    var v := c as int;
    UnhexcharReads(v / 16, v % 16, up, up');
    DecodeEscaped(HexChar(v / 16, up), HexChar(v % 16, up'), v, rest);
  }

  lemma DecodeEscape(s: string, bare: set<char>, upper: nat -> bool)
    requires IsBare(bare) && forall i :: 0 <= i < |s| ==> IsByte(s[i])
    ensures Decode(Escape(s, bare, upper)) == (Survivors(s, bare), None)
  {
    hide Escape, Survivors;
    DecodeBehind(s, bare, upper, "");
    assert Escape(s, bare, upper) + "" == Escape(s, bare, upper) && Survivors(s, bare) + "" == Survivors(s, bare);
  }

  /** A question mark starts the query; a hash, a NUL and an escape that is cut short end the URI. */
  lemma DecodeEnds(rest: string, c: char)
    ensures Decode("?" + rest) == ("", Some(rest))
    ensures Decode("#" + rest) == Decode("\0" + rest) == Decode("%") == Decode("%" + [c]) == ("", None)
  {
    assert ("?" + rest)[1..] == rest;
  }

  /** An escape that unhexchar refuses is passed over. */
  lemma DecodeSkips(a: char, b: char, rest: string)
    requires a < '0' || 'f' < a || b < '0' || 'f' < b
    ensures Decode(['%', a, b] + rest) == Decode(rest)
  {
    assert (['%', a, b] + rest)[3..] == rest;
  }

  /** What a URI addresses and asks, whatever of its path is escaped in whatever spelling. */
  lemma PathAndQuery(s: string, bare: set<char>, upper: nat -> bool, rest: string)
    requires IsBare(bare) && forall i :: 0 <= i < |s| ==> IsByte(s[i])
    ensures var uri, path := "/" + Escape(s, bare, upper), "/" + Normalise([], Survivors(s, bare));
            && Canonical(uri) == path && QueryOf(uri) == None
            && Canonical(uri + ("?" + rest)) == path && QueryOf(uri + ("?" + rest)) == Some(rest)
            && Canonical(uri + ("#" + rest)) == path && QueryOf(uri + ("#" + rest)) == None
  {
    hide Escape, Decode, Survivors, Normalise;
    var e := Escape(s, bare, upper);
    DecodeEscape(s, bare, upper);
    DecodeBehind(s, bare, upper, "?" + rest);
    DecodeBehind(s, bare, upper, "#" + rest);
    DecodeEnds(rest, 'x');
    BehindSlash(e, "", Survivors(s, bare));
    BehindSlash(e, "?" + rest, Survivors(s, bare));
    BehindSlash(e, "#" + rest, Survivors(s, bare));
  }

  lemma BehindSlash(e: string, tail: string, s: string)
    ensures ("/" + e)[1..] == e && ("/" + e + tail)[1..] == e + tail && s + "" == s
  {
  }

  lemma {:induction false} SurvivorsIff(s: string, bare: set<char>)
    ensures Survivors(s, bare) == s <==> forall i :: 0 <= i < |s| ==> s[i] in bare || IsPrintable(s[i])
  {
    if s != "" {
      SurvivorsIff(s[1..], bare);
      assert s == [s[0]] + s[1..];
      if s[0] in bare || IsPrintable(s[0]) {
        assert Survivors(s, bare)[1..] == Survivors(s[1..], bare);
        assert forall i :: 0 <= i < |s| - 1 ==> s[1..][i] == s[i + 1];
      }
    }
  }

  /** Decoding undoes escaping, as RFC 3986, section 2.1, has it, if and only if every byte
      that is encoded is printable ASCII. */
  lemma DecodeUndoesEscapeIff(s: string, bare: set<char>, upper: nat -> bool)
    requires IsBare(bare) && forall i :: 0 <= i < |s| ==> IsByte(s[i])
    ensures Decode(Escape(s, bare, upper)) == (s, None)
       <==> forall i :: 0 <= i < |s| ==> s[i] in bare || IsPrintable(s[i])
  {
    DecodeEscape(s, bare, upper);
    SurvivorsIff(s, bare);
  }

  /** The two bytes of an e with an acute accent in UTF-8 vanish. */
  lemma EncodedBytesVanish()
    ensures Decode("%C3%A9") == ("", None)
  {
    var s := "%C3%A9";
    assert s[3..] == "%A9" && "%A9"[3..] == "";
    assert Unhexchar('C', '3') == Some(-61) && Unhexchar('A', '9') == Some(-87);
  }

  lemma {:induction false} SameSurvivorsIff(s: string, bare: set<char>)
    ensures Survivors(s, bare) == Survivors(s, {}) <==> forall i :: 0 <= i < |s| && s[i] in bare ==> IsPrintable(s[i])
    ensures |Survivors(s, {})| <= |Survivors(s, bare)|
    ensures |Survivors(s, {})| == |Survivors(s, bare)| ==> Survivors(s, bare) == Survivors(s, {})
  {
    if s != "" {
      SameSurvivorsIff(s[1..], bare);
      assert s == [s[0]] + s[1..];
      assert forall i :: 0 <= i < |s| - 1 ==> s[1..][i] == s[i + 1];
    }
  }

  /** For every byte string: what a path addresses depends on its escapes only in that an
      encoded byte outside printable ASCII is lost. Escaping more or fewer of the printable
      characters, dots and slashes included, addresses the same path. */
  lemma EscapingIsIrrelevant(s: string, bare: set<char>, upper: nat -> bool, other: nat -> bool)
    requires IsBare(bare) && forall i :: 0 <= i < |s| ==> IsByte(s[i])
    ensures Canonical("/" + Escape(s, bare, upper)) == "/" + Normalise([], Survivors(s, bare))
    ensures (forall i :: 0 <= i < |s| && s[i] in bare ==> IsPrintable(s[i])) ==>
              Canonical("/" + Escape(s, bare, upper)) == Canonical("/" + Escape(s, {}, other))
  {
    hide Escape, Decode, Survivors, Normalise;
    DecodeEscape(s, bare, upper);
    DecodeEscape(s, {}, other);
    SameSurvivorsIff(s, bare);
    assert ("/" + Escape(s, bare, upper))[1..] == Escape(s, bare, upper);
    assert ("/" + Escape(s, {}, other))[1..] == Escape(s, {}, other);
  }

  // ---------- the one-pass method ----------

  const SIZE_MAX: nat := 0xFFFF_FFFF_FFFF_FFFF

  /** length() - 2 in size_t arithmetic. */
  function LengthMinus2(s: string): nat {
    if |s| < 2 then SIZE_MAX + |s| - 1 else |s| - 2
  }

  /** The last slash before the closing one is where the enclosing directory ends. */
  lemma ParentDirectory(stack: seq<string>)
    requires AllNames(stack)
    ensures var s := Dirs(stack);
            var loc := Rfind(s, '/', LengthMinus2(s));
            (if loc == -1 then "" else s[..loc + 1]) == Dirs(Enter(stack, ".."))
  {
    if stack != [] {
      var front, seg := stack[..|stack| - 1], stack[|stack| - 1];
      assert stack == front + [seg];
      DirsAppend(front, seg);
      var s := Dirs(stack);
      assert forall i :: 0 <= i < |seg| ==> s[|Dirs(front)| + i] == seg[i];
      if front != [] { DirsEndInSlash(front); }
      var loc := Rfind(s, '/', LengthMinus2(s));
      if front != [] { assert s[|Dirs(front)| - 1] == '/'; }
      assert loc == |Dirs(front)| - 1;
      assert s[..|Dirs(front)|] == Dirs(front);
    }
  }

  lemma NormaliseStep(stack: seq<string>, part: string, rest: string)
    requires '/' !in part
    ensures Normalise(stack, part + "/" + rest) == Normalise(Enter(stack, part), rest)
  {
    SplitAt(part, rest);
    var segs := Split(part + "/" + rest);
    assert segs[1..] == Split(rest);
  }

  lemma NormaliseLast(stack: seq<string>, part: string)
    requires '/' !in part && AllNames(stack)
    ensures Normalise(stack, part) == Dirs(Enter(stack, part)) || !IsDots(part)
    ensures !IsDots(part) ==> Normalise(stack, part) == Dirs(stack) + part
  {
    SplitAt(part, "");
    assert Resolve(stack, [part]) == Resolve(Enter(stack, part), [part][1..]);
    if !IsDots(part) { assert (stack + [part])[..|stack|] == stack; }
  }

  /** "%2F" and "%2f" are both a slash. */
  lemma EscapedSlash()
    ensures Canonical("/a%2Fb") == Canonical("/a%2fb") == "/a/b"
  {
    hide Normalise, Decode, Unhexchar, Dirs;
    DecodedSlash("a%2Fb", 'F', true);
    DecodedSlash("a%2fb", 'f', false);
    assert "/a%2Fb"[1..] == "a%2Fb" && "/a%2fb"[1..] == "a%2fb";
    SlashNormalised();
    assert "/" + "a/b" == "/a/b";
  }

  lemma SlashNormalised()
    ensures Normalise([], "a/b") == "a/b"
  {
    hide Normalise;
    assert "a/b" == "a" + "/" + "b" && [] + ["a"] == ["a"] && ["a"][1..] == [];
    NormaliseStep([], "a", "b");
    NormaliseLast(["a"], "b");
    assert "a/" + "b" == "a/b";
  }

  lemma DecodedSlash(text: string, c: char, upper: bool)
    requires c == HexChar(15, upper) && text == ['a', '%', '2', c, 'b']
    ensures Decode(text) == ("a/b", None)
  {
    hide Unhexchar, Decode;
    assert HexChar(2, upper) == '2';
    UnhexcharReads(2, 15, upper, upper);
    DecodePlain("b");
    DecodeEscaped('2', c, 47, "b");
    DecodePlainChar('a', ['%', '2', c] + "b");
    assert text == ['a'] + (['%', '2', c] + "b") && ['a'] + (['/'] + "b") == "a/b";
  }

  /** What decoding sees at position i, in terms of the positions behind it. */
  lemma DecodeAt(uri: string, i: nat)
    requires i <= |uri|
    ensures i == |uri| || uri[i] == '\0' || uri[i] == '#' ==> Decode(uri[i..]) == ("", None)
    ensures i < |uri| && uri[i] == '?' ==> Decode(uri[i..]) == ("", Some(uri[i + 1..]))
    ensures i < |uri| && uri[i] == '%' && i + 3 > |uri| ==> Decode(uri[i..]) == ("", None)
    ensures i < |uri| && uri[i] == '%' && i + 3 <= |uri| ==>
              var v, after := Unhexchar(uri[i + 1], uri[i + 2]), Decode(uri[i + 3..]);
              Decode(uri[i..]) == if v == None || v.value < 32 || v.value == 127 then after
                                  else ([v.value as char] + after.0, after.1)
    ensures i < |uri| && !IsSpecial(uri[i]) && uri[i] != '\0' ==>
              var after := Decode(uri[i + 1..]);
              Decode(uri[i..]) == ([uri[i]] + after.0, after.1)
  {
    var s := uri[i..];
    if i < |uri| { assert s[1..] == uri[i + 1..]; }
    if i + 3 <= |uri| { assert s[3..] == uri[i + 3..]; }
  }

  /** Lines 257-274: what a finished path part does to the path built so far. */
  method ClosePart(sanepath: string, pathpart: string, c: char, ghost stack: seq<string>) returns (r: string)
    requires AllNames(stack) && sanepath == Dirs(stack) && '/' !in pathpart
    ensures r == if c == '\0' then Normalise(stack, pathpart) else Dirs(Enter(stack, pathpart))
  {
    NormaliseLast(stack, pathpart);
    if pathpart == "" || pathpart == "." {
      r := sanepath;
    } else if pathpart == ".." {
      ParentDirectory(stack);
      var sloc := Rfind(sanepath, '/', LengthMinus2(sanepath));
      r := if sloc != -1 then sanepath[..sloc + 1] else "";
    } else {
      DirsAppend(stack, pathpart);
      r := sanepath + pathpart;
      if c != '\0' { r := r + "/"; }
    }
  }

  lemma NormaliseHasNoRoot(path: string)
    ensures Normalise([], path) == "" || Normalise([], path)[0] != '/'
  {
    SplitHasNoSlash(path);
    ResolveKeepsNames([], Split(path));
    var names, last := RenderSplits(Resolve([], Split(path)), IsDots(Split(path)[|Split(path)| - 1]));
    if names != [] { assert (Dirs(names) + last)[0] == names[0][0]; }
  }

  lemma NothingEntered()
    ensures AllNames([]) && Dirs([]) == ""
  {
  }

  lemma EnterKeepsNames(stack: seq<string>, part: string)
    requires AllNames(stack) && '/' !in part
    ensures AllNames(Enter(stack, part))
  {
  }

  /** Connection::HandleURI on the two strings it rewrites. */
  method HandleURI(uri: string, uriquery: string) returns (cleaned: string, query: string)
    ensures cleaned == Canonical(uri)
    ensures query == if QueryOf(uri).Some? then QueryOf(uri).value else uriquery
  {
    hide Normalise, Decode, Unhexchar, Render, Dirs, AllNames, Enter;
    cleaned, query := uri, uriquery;
    if uri == "" || uri[0] != '/' { return; }

    var sanepath, pathpart := "", "";
    var i := 1;
    ghost var stack: seq<string> := [];
    ghost var ahead, wanted := Decode(uri[1..]).0, Decode(uri[1..]).1;
    ghost var target := Normalise([], ahead);
    ghost var asked := if QueryOf(uri).Some? then QueryOf(uri).value else uriquery;
    assert "" + ahead == ahead;
    NothingEntered();
    while true
      invariant 1 <= i <= |uri|
      invariant AllNames(stack) && sanepath == Dirs(stack) && '/' !in pathpart
      invariant (ahead, wanted) == Decode(uri[i..])
      invariant Normalise(stack, pathpart + ahead) == target
      invariant (if wanted.Some? then wanted.value else query) == asked
      decreases |uri| - i
    {
      ghost var here := ahead;
      DecodeAt(uri, i);
      DecodeAt(uri, |uri|);
      var c := if i == |uri| then '\0' else uri[i];
      if c == '%' {
        if i + 1 == |uri| || i + 2 == |uri| {
          i := |uri|;
          continue;
        }
        var v := Unhexchar(uri[i + 1], uri[i + 2]);
        i := i + 3;
        ahead := Decode(uri[i..]).0;
        if v == None || v.value < 32 || v.value == 127 { continue; }
        c := v.value as char;
        if c != '/' {
          assert pathpart + here == pathpart + [c] + ahead;
          pathpart := pathpart + [c];
          continue;
        }
      } else if c == '?' {
        query := uri[i + 1..];
        i, wanted := |uri|, None;
        continue;
      } else if c == '#' {
        i := |uri|;
        continue;
      } else if c != '\0' {
        i := i + 1;
        ahead := Decode(uri[i..]).0;
        if c != '/' {
          assert pathpart + here == pathpart + [c] + ahead;
          pathpart := pathpart + [c];
          continue;
        }
      }

      sanepath := ClosePart(sanepath, pathpart, c, stack);
      if c == '\0' {
        assert pathpart + here == pathpart;
        break;
      }
      assert pathpart + here == pathpart + "/" + ahead;
      NormaliseStep(stack, pathpart, ahead);
      EnterKeepsNames(stack, pathpart);
      stack := Enter(stack, pathpart);
      pathpart := "";
      assert pathpart + ahead == ahead;
    }
    NormaliseHasNoRoot(Decode(uri[1..]).0);
    cleaned := (if sanepath == "" || sanepath[0] != '/' then "/" else "") + sanepath;
  }
}
