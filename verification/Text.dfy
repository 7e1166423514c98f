/** The std::string and C library routines the server leans on: substring search,
    case folding, decimal conversion and concatenation of a list of strings. */
module Text {

  const CRLF: string := "\r\n"
  const TERMINATOR: string := "\r\n\r\n"
  const SPACES: set<char> := {' ', '\t', '\n', '\U{0B}', '\U{0C}', '\r'}

  datatype Option<+T> = None | Some(value: T)

  // ---------- searching ----------

  predicate At(s: string, pat: string, k: int) {
    0 <= k && k + |pat| <= |s| && s[k..k + |pat|] == pat
  }

  /** std::string::find; -1 stands for npos. */
  function Find(s: string, pat: string, from: nat): (r: int)
    ensures -1 <= r
    ensures r != -1 ==> from <= r <= |s| - |pat| && At(s, pat, r) && forall k :: from <= k < r ==> !At(s, pat, k)
    ensures r == -1 ==> forall k :: from <= k ==> !At(s, pat, k)
    decreases |s| - from
  {
    if from + |pat| > |s| then -1
    else if At(s, pat, from) then from
    else Find(s, pat, from + 1)
  }

  /** The first occurrence is the only position that Find can return. */
  lemma FindIs(s: string, pat: string, from: nat, k: nat)
    requires from <= k && At(s, pat, k)
    requires forall j :: from <= j < k ==> !At(s, pat, j)
    ensures Find(s, pat, from) == k
  {
  }

  lemma NotFound(s: string, pat: string, from: nat)
    requires forall k :: from <= k ==> !At(s, pat, k)
    ensures Find(s, pat, from) == -1
  {
    hide At;
  }

  /** std::string::rfind of one character; -1 stands for npos. */
  function Rfind(s: string, c: char, pos: nat): (r: int)
    ensures -1 <= r <= pos && r < |s|
    ensures r != -1 ==> s[r] == c
    ensures forall i :: r < i <= pos && i < |s| ==> s[i] != c
    decreases pos
  {
    if pos < |s| && s[pos] == c then pos
    else if pos == 0 then -1
    else if pos > |s| then Rfind(s, c, |s|)
    else Rfind(s, c, pos - 1)
  }

  lemma AtSlice(s: string, lo: nat, hi: nat, pat: string, k: int)
    requires lo <= hi <= |s| && 0 <= k && k + |pat| <= hi - lo
    ensures At(s[lo..hi], pat, k) <==> At(s, pat, lo + k)
  {
    var a, b := s[lo..hi][k..k + |pat|], s[lo + k..lo + k + |pat|];
    assert |a| == |b| && forall i :: 0 <= i < |a| ==> a[i] == s[lo + k + i] == b[i];
    assert a == b;
  }

  lemma AtCrlf(s: string, k: int)
    ensures At(s, CRLF, k) <==> 0 <= k && k + 2 <= |s| && s[k] == '\r' && s[k + 1] == '\n'
  {
    if 0 <= k && k + 2 <= |s| { assert s[k..k + 2] == [s[k], s[k + 1]]; }
  }

  lemma AtTerminator(s: string, k: int)
    ensures At(s, TERMINATOR, k) <==> At(s, CRLF, k) && At(s, CRLF, k + 2)
  {
    if 0 <= k && k + 4 <= |s| {
      assert s[k..k + 4] == s[k..k + 2] + s[k + 2..k + 4];
      assert TERMINATOR == CRLF + CRLF;
      if At(s, TERMINATOR, k) {
        assert s[k..k + 2] == s[k..k + 4][..2] && s[k + 2..k + 4] == s[k..k + 4][2..];
      }
    }
  }

  // ---------- case folding ----------

  function ToLower(c: char): (r: char)
    ensures 'A' <= c <= 'Z' ==> 'a' <= r <= 'z' && (r as int) == (c as int) + 32
    ensures !('A' <= c <= 'Z') ==> r == c
  {
    if 'A' <= c <= 'Z' then ((c as int) + 32) as char else c
  }

  function ToUpper(c: char): char {
    if 'a' <= c <= 'z' then ((c as int) - 32) as char else c
  }

  function Lower(s: string): (r: string)
    ensures |r| == |s| && forall i :: 0 <= i < |s| ==> r[i] == ToLower(s[i])
  {
    seq(|s|, i requires 0 <= i < |s| => ToLower(s[i]))
  }

  function Upper(s: string): (r: string)
    ensures |r| == |s| && forall i :: 0 <= i < |s| ==> r[i] == ToUpper(s[i])
  {
    seq(|s|, i requires 0 <= i < |s| => ToUpper(s[i]))
  }

  // ---------- decimal numbers ----------

  predicate IsDigit(c: char) { '0' <= c <= '9' }

  function DigitOf(n: nat): (c: char)
    requires n < 10
    ensures IsDigit(c) && (c as int) - ('0' as int) == n
  {
    (('0' as int) + n) as char
  }

  /** ConvToStr of a non-negative integer. */
  function Decimal(n: nat): (r: string)
    ensures |r| > 0 && forall i :: 0 <= i < |r| ==> IsDigit(r[i])
  {
    if n < 10 then [DigitOf(n)] else Decimal(n / 10) + [DigitOf(n % 10)]
  }

  /** The number read by atoi from the leading digits, on top of what was read already. */
  function Digits(s: string, acc: int): int {
    if s == "" || !IsDigit(s[0]) then acc
    else Digits(s[1..], acc * 10 + (s[0] as int) - ('0' as int))
  }

  function SkipSpaces(s: string): (r: string)
    ensures |r| <= |s|
  {
    if s != "" && s[0] in SPACES then SkipSpaces(s[1..]) else s
  }

  function Signed(t: string): int {
    if t != "" && t[0] == '-' then -Digits(t[1..], 0)
    else if t != "" && t[0] == '+' then Digits(t[1..], 0)
    else Digits(t, 0)
  }

  /** atoi over the mathematical integers. */
  function Atoi(s: string): int { Signed(SkipSpaces(s)) }

  lemma {:induction false} DigitsAppend(s: string, c: char, acc: int)
    requires IsDigit(c) && forall i :: 0 <= i < |s| ==> IsDigit(s[i])
    ensures Digits(s + [c], acc) == Digits(s, acc) * 10 + (c as int) - ('0' as int)
  {
    if s == "" {
      assert ([c])[1..] == "";
    } else {
      assert (s + [c])[1..] == s[1..] + [c];
      DigitsAppend(s[1..], c, acc * 10 + (s[0] as int) - ('0' as int));
    }
  }

  lemma {:induction false} DigitsDecimal(n: nat)
    ensures Digits(Decimal(n), 0) == n
  {
    if n < 10 {
      assert Decimal(n)[1..] == "";
    } else {
      DigitsDecimal(n / 10);
      DigitsAppend(Decimal(n / 10), DigitOf(n % 10), 0);
    }
  }

  /** atoi undoes ConvToStr. */
  lemma AtoiDecimal(n: nat)
    ensures Atoi(Decimal(n)) == n
  {
    DigitsDecimal(n);
    assert IsDigit(Decimal(n)[0]);
  }

  // ---------- concatenation ----------

  function Concat(parts: seq<string>): (r: string) {
    if parts == [] then "" else parts[0] + Concat(parts[1..])
  }

  lemma {:induction false} ConcatAppend(parts: seq<string>, last: string)
    ensures Concat(parts + [last]) == Concat(parts) + last
  {
    if parts == [] {
      assert parts + [last] == [last];
      assert Concat([last]) == last + Concat([]);
    } else {
      assert (parts + [last])[1..] == parts[1..] + [last];
      ConcatAppend(parts[1..], last);
    }
  }
}
