/** sepstream and stringjoiner: cutting a string at a separator, and the inverse. */
module Tokens {

  function Join(parts: seq<string>, sep: string): string {
    if parts == [] then ""
    else if |parts| == 1 then parts[0]
    else parts[0] + sep + Join(parts[1..], sep)
  }

  /** stringjoiner: the elements from begin to end, both included; end alone when begin lies behind it. */
  method Joiner(sep: string, sequence: seq<string>, begin: nat, end: nat) returns (joined: string)
    requires end < |sequence|
    ensures joined == Join(if begin <= end then sequence[begin..end + 1] else [sequence[end]], sep)
  {
    joined := "";
    var v := begin;
    while v < end
      invariant begin <= v && (begin <= end ==> v <= end)
      invariant begin <= end ==> joined + Join(sequence[v..end + 1], sep) == Join(sequence[begin..end + 1], sep)
      invariant begin > end ==> v == begin && joined == ""
    {
      var rest := sequence[v..end + 1];
      assert rest[1..] == sequence[v + 1..end + 1];
      joined := joined + sequence[v] + sep;
      v := v + 1;
    }
    assert begin <= end ==> sequence[v..end + 1] == [sequence[end]];
    joined := joined + sequence[end];
  }

  /** Tokens that survive a round trip: none is empty or holds the separator. */
  predicate CleanTokens(ts: seq<string>, sep: char) {
    forall i :: 0 <= i < |ts| ==> ts[i] != "" && sep !in ts[i]
  }

  /** The first separator at or behind position n, or the last position. */
  function Stop(tokens: string, sep: char, n: nat): (d: nat)
    requires n < |tokens|
    ensures n <= d < |tokens| && (tokens[d] == sep || d + 1 == |tokens|)
    ensures forall i :: n <= i < d ==> tokens[i] != sep
    decreases |tokens| - n
  {
    if tokens[n] == sep || n + 1 == |tokens| then n else Stop(tokens, sep, n + 1)
  }

  /** s without the separators that it ends in. */
  function Stripped(s: string, sep: char): (r: string)
    ensures r <= s && (r == "" || r[|r| - 1] != sep) && forall i :: |r| <= i < |s| ==> s[i] == sep
  {
    if s != "" && s[|s| - 1] == sep then Stripped(s[..|s| - 1], sep) else s
  }

  class SepStream {
    const tokens: string
    const sep: char
    var lastStartingPosition: nat
    var n: nat

    ghost predicate Valid()
      reads this
    {
      n <= |tokens| && (lastStartingPosition <= n || (lastStartingPosition == |tokens| && n + 1 == |tokens|))
    }

    constructor (source: string, seperator: char)
      ensures Valid() && tokens == source && sep == seperator
      ensures lastStartingPosition == 0 && n == 0
    {
      tokens, sep, lastStartingPosition, n := source, seperator, 0, 0;
    }

    /** What decreases with every token. */
    ghost function Left(): int
      reads this
    {
      2 * |tokens| - lastStartingPosition - n
    }

    /** Exactly these tokens are still to come. */
    ghost predicate Ahead(ts: seq<string>)
      reads this
    {
      && Valid() && CleanTokens(ts, sep)
      && if ts == [] then lastStartingPosition == |tokens| && n + 1 >= |tokens|
         else lastStartingPosition == n && tokens[n..] == Join(ts, [sep])
    }

    /** ts is what the caller knows to be ahead, if it knows. */
    method GetToken(ghost ts: seq<string>) returns (more: bool, token: string)
      requires Valid()
      modifies this
      ensures Valid()
      ensures 0 <= Left() <= old(Left()) && (more ==> Left() < old(Left()))
      ensures !more ==> token == ""
      ensures old(Ahead(ts)) && ts != [] ==> more && token == ts[0] && Ahead(ts[1..])
      ensures old(Ahead(ts)) && ts == [] ==> !more && token == "" && Ahead([])
      // on any text: what stands between the start and the next separator, or the end, without
      // the separators it ends in; an empty token hides the first character behind it
      ensures old(n) == |tokens| ==> !more && unchanged(this)
      ensures old(n) < |tokens| ==>
                var d := Stop(tokens, sep, old(n));
                && token == Stripped(tokens[old(lastStartingPosition)..if d + 1 == |tokens| then d + 1 else d], sep)
                && lastStartingPosition == d + 1 && (more <==> n != |tokens|)
                && n == (if d + 1 == |tokens| then d else d + 1) + (if token == "" then 1 else 0)
    {
      hide Join, CleanTokens, Stop, Stripped;
      if Ahead(ts) { StopOfJoin(tokens, n, ts, sep); }
      if n == |tokens| { return false, ""; }
      var lsp := lastStartingPosition;
      Seek();
      lastStartingPosition := n + 1;
      if n + 1 == |tokens| {
        token := tokens[lsp..n + 1];
      } else {
        token := tokens[lsp..n];
        n := n + 1;
      }
      token := StripSeparators(token, sep);
      if token == "" { n := n + 1; }
      more := n != |tokens|;
    }

    /** The scan of GetToken. */
    method Seek()
      requires n < |tokens|
      modifies this`n
      ensures n == Stop(tokens, sep, old(n))
    {
      while tokens[n] != sep && n + 1 != |tokens|
        invariant n < |tokens| && Stop(tokens, sep, n) == Stop(tokens, sep, old(n))
        decreases |tokens| - n
      {
        n := n + 1;
      }
    }
  }

  /** token.find_last_of(sep) == token.length() - 1, as long as it holds. */
  method StripSeparators(s: string, sep: char) returns (r: string)
    ensures r == Stripped(s, sep) && r <= s && (r == "" || r[|r| - 1] != sep)
    ensures s == "" || s[|s| - 1] != sep ==> r == s
  {
    r := s;
    while r != "" && r[|r| - 1] == sep
      invariant r <= s && Stripped(r, sep) == Stripped(s, sep)
      invariant s == "" || s[|s| - 1] != sep ==> r == s
      decreases |r|
    {
      r := r[..|r| - 1];
    }
  }

  /** What the characters behind position n look like when a list of tokens is ahead. */
  lemma JoinShape(tokens: string, n: nat, ts: seq<string>, sep: char)
    requires n <= |tokens| && CleanTokens(ts, sep)
    requires ts != [] ==> tokens[n..] == Join(ts, [sep])
    ensures ts != [] ==>
              && |ts[0]| > 0 && n + |ts[0]| <= |tokens| && tokens[n..n + |ts[0]|] == ts[0]
              && (forall i :: n <= i < n + |ts[0]| ==> tokens[i] != sep)
              && CleanTokens(ts[1..], sep)
              && (|ts| == 1 <==> n + |ts[0]| == |tokens|)
              && (|ts| > 1 ==> n + |ts[0]| + 1 < |tokens| && tokens[n + |ts[0]|] == sep
                               && tokens[n + |ts[0]| + 1..] == Join(ts[1..], [sep]))
  {
    if ts != [] {
      var t := ts[0];
      var s := tokens[n..];
      assert t != "" && sep !in t;
      assert s[..|t|] == t;
      assert tokens[n..n + |t|] == s[..|t|];
      forall i | n <= i < n + |t| ensures tokens[i] != sep { assert tokens[i] == t[i - n]; }
      if |ts| > 1 {
        assert ts[1] != "" && Join(ts[1..], [sep]) != "" by { assert ts[1..][0] == ts[1]; }
        assert s == t + [sep] + Join(ts[1..], [sep]);
        assert s[|t| + 1..] == Join(ts[1..], [sep]);
        assert tokens[n + |t| + 1..] == s[|t| + 1..];
      }
    }
  }

  /** Where the first of these tokens ends. */
  lemma StopOfJoin(tokens: string, n: nat, ts: seq<string>, sep: char)
    requires n <= |tokens| && CleanTokens(ts, sep)
    requires if ts == [] then n + 1 >= |tokens| else tokens[n..] == Join(ts, [sep])
    ensures ts != [] ==> n < |tokens|
    ensures n < |tokens| && |ts| <= 1 ==> Stop(tokens, sep, n) + 1 == |tokens|
    ensures |ts| == 1 ==> tokens[n..] == ts[0] && ts[0] != "" && ts[0][|ts[0]| - 1] != sep
    ensures ts != [] ==> CleanTokens(ts[1..], sep)
    ensures |ts| > 1 ==>
              && Stop(tokens, sep, n) == n + |ts[0]| && n + |ts[0]| + 1 < |tokens|
              && tokens[n..n + |ts[0]|] == ts[0] && ts[0] != "" && ts[0][|ts[0]| - 1] != sep
              && tokens[n + |ts[0]| + 1..] == Join(ts[1..], [sep])
  {
    hide Join, CleanTokens;
    JoinShape(tokens, n, ts, sep);
    if ts != [] { assert tokens[n + |ts[0]| - 1] == ts[0][|ts[0]| - 1]; }
  }

  lemma StartsAhead(stream: SepStream, ts: seq<string>)
    requires stream.n == stream.lastStartingPosition == 0
    requires ts != [] && CleanTokens(ts, stream.sep) && stream.tokens == Join(ts, [stream.sep])
    ensures stream.Ahead(ts)
  {
    hide Join, CleanTokens;
    assert stream.tokens[0..] == stream.tokens;
  }

  /** Draining the stream over joined tokens returns these tokens. */
  method Drain(ts: seq<string>, sep: char) returns (out: seq<string>)
    requires ts != [] && CleanTokens(ts, sep)
    ensures out == ts
  {
    hide Join, CleanTokens, SepStream.Ahead, SepStream.Valid;
    var joined := Joiner([sep], ts, 0, |ts| - 1);
    assert ts[0..|ts| - 1 + 1] == ts;
    var stream := new SepStream(joined, sep);
    StartsAhead(stream, ts);
    out := [];
    ghost var left := ts;
    var more, token := stream.GetToken(left);
    while more
      invariant stream.Valid() && fresh(stream)
      invariant more ==> left != [] && token == left[0] && stream.Ahead(left[1..]) && out + left == ts
      invariant !more ==> out == ts
      decreases |left|, more
    {
      out := out + [token];
      left := left[1..];
      assert out + left == ts;
      more, token := stream.GetToken(left);
    }
  }

  /** Behind an empty token a last token of one character is lost. */
  method EmptyTokenCosts() returns (first: string, second: string, more: bool)
    ensures first == "a" && second == "" && !more
  {
    hide SepStream.Ahead, Join;
    var text := "a,,b";
    var stream := new SepStream(text, ',');
    assert Stop(text, ',', 1) == 1 && text[0..1] == "a";
    more, first := stream.GetToken([]);
    assert text[2..2] == "";
    more, second := stream.GetToken([]);
  }
}
