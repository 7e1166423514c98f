/** Glob matching: the loop with one backtrack point decides the language of a mask. */
module Wildcard {
  import opened Text

  /** The contents of a C string. */
  type CString = s: string | '\0' !in s witness ""

  function Fold(caseSensitive: bool, c: char): char {
    if caseSensitive then c else ToLower(c)
  }

  /** One mask character that is not a star against one character. */
  predicate Fits(caseSensitive: bool, wild: char, c: char) {
    Fold(caseSensitive, wild) == Fold(caseSensitive, c) || wild == '?'
  }

  /** The language of a mask: '*' stands for any run, '?' for one character. */
  ghost predicate Matches(caseSensitive: bool, str: string, mask: string)
    decreases |mask|
  {
    if mask == "" then str == ""
    else if mask[0] == '*' then
      exists k :: 0 <= k <= |str| && Matches(caseSensitive, str[k..], mask[1..])
    else
      str != "" && Fits(caseSensitive, mask[0], str[0]) && Matches(caseSensitive, str[1..], mask[1..])
  }

  /** The character a C pointer sees. */
  function At0(s: CString, i: nat): (c: char)
    requires i <= |s|
    ensures c == '\0' <==> i == |s|
    ensures i < |s| ==> c == s[i]
  {
    if i < |s| then s[i] else '\0'
  }

  /** What a star in front of mask matches: some suffix of str at or behind from. */
  ghost predicate MatchesFrom(cs: bool, str: string, from: nat, mask: string)
    requires from <= |str|
  {
    exists k :: from <= k <= |str| && Matches(cs, str[k..], mask)
  }

  /** Two texts that agree character by character up to a common length. */
  ghost predicate FitsAll(cs: bool, mask: string, str: string) {
    |mask| == |str| && forall i :: 0 <= i < |mask| ==> mask[i] != '*' && Fits(cs, mask[i], str[i])
  }

  lemma {:induction false} SkipLiteral(cs: bool, str: string, lit: string, rest: string)
    requires forall i :: 0 <= i < |lit| ==> lit[i] != '*'
    ensures Matches(cs, str, lit + rest) <==>
              |lit| <= |str| && FitsAll(cs, lit, str[..|lit|]) && Matches(cs, str[|lit|..], rest)
    decreases |lit|
  {
    if lit == "" {
      assert lit + rest == rest && str[0..] == str;
    } else {
      assert (lit + rest)[1..] == lit[1..] + rest;
      if str != "" {
        SkipLiteral(cs, str[1..], lit[1..], rest);
        if |lit| <= |str| {
          assert str[1..][..|lit| - 1] == str[..|lit|][1..];
          assert str[1..][|lit| - 1..] == str[|lit|..];
          assert FitsAll(cs, lit, str[..|lit|]) <==>
                   Fits(cs, lit[0], str[0]) && FitsAll(cs, lit[1..], str[1..][..|lit| - 1]) by {
            var s := str[..|lit|];
            assert s == [str[0]] + s[1..] && lit == [lit[0]] + lit[1..];
          }
        }
      }
    }
  }

  /** A star absorbs whatever stands in front of what it matches. */
  lemma StarAbsorbs(cs: bool, str: string, i: nat, j: nat, rest: string)
    requires i <= j <= |str|
    requires rest != "" && rest[0] == '*' && Matches(cs, str[j..], rest)
    ensures Matches(cs, str[i..], rest)
  {
    var k :| 0 <= k <= |str| - j && Matches(cs, str[j..][k..], rest[1..]);
    assert str[j..][k..] == str[i..][j - i + k..];
  }

  lemma StarIsMatchesFrom(cs: bool, str: string, i: nat, rest: string)
    requires i <= |str| && rest != "" && rest[0] == '*'
    ensures Matches(cs, str[i..], rest) <==> MatchesFrom(cs, str, i, rest[1..])
  {
    if k :| 0 <= k <= |str| - i && Matches(cs, str[i..][k..], rest[1..]) {
      assert str[i..][k..] == str[i + k..];
    }
    if k :| i <= k <= |str| && Matches(cs, str[k..], rest[1..]) {
      assert str[k..] == str[i..][k - i..];
    }
  }

  /** Only the last star needs a backtrack point: once the text since the previous star has
      matched up to position i, where the next star stands, no earlier choice can do better. */
  lemma LastStarSuffices(cs: bool, str: string, from: nat, lit: string, rest: string)
    requires forall i :: 0 <= i < |lit| ==> lit[i] != '*'
    requires from + |lit| <= |str| && FitsAll(cs, lit, str[from..from + |lit|])
    requires rest != "" && rest[0] == '*'
    ensures MatchesFrom(cs, str, from, lit + rest) <==> Matches(cs, str[from + |lit|..], rest)
  {
    hide Matches, FitsAll;
    if Matches(cs, str[from + |lit|..], rest) {
      SkipLiteral(cs, str[from..], lit, rest);
      assert str[from..][..|lit|] == str[from..from + |lit|];
      assert str[from..][|lit|..] == str[from + |lit|..];
      assert MatchesFrom(cs, str, from, lit + rest);
    }
    if k :| from <= k <= |str| && Matches(cs, str[k..], lit + rest) {
      SkipLiteral(cs, str[k..], lit, rest);
      assert str[k..][|lit|..] == str[k + |lit|..];
      StarAbsorbs(cs, str, from + |lit|, k + |lit|, rest);
    }
  }

  /** A mismatch at the current start moves the start by one. */
  lemma MismatchAdvances(cs: bool, str: string, from: nat, lit: string, rest: string)
    requires forall i :: 0 <= i < |lit| ==> lit[i] != '*'
    requires from + |lit| < |str|
    requires rest == "" || (rest[0] != '*' && !Fits(cs, rest[0], str[from + |lit|]))
    ensures MatchesFrom(cs, str, from, lit + rest) <==> MatchesFrom(cs, str, from + 1, lit + rest)
  {
    SkipLiteral(cs, str[from..], lit, rest);
    assert str[from..][|lit|..] == str[from + |lit|..];
    assert !Matches(cs, str[from..], lit + rest);
  }

  /** At the end of the text only the current start can still succeed. */
  lemma EndOfText(cs: bool, str: string, from: nat, lit: string, rest: string)
    requires forall i :: 0 <= i < |lit| ==> lit[i] != '*'
    requires from + |lit| == |str| && FitsAll(cs, lit, str[from..])
    ensures MatchesFrom(cs, str, from, lit + rest) <==> Matches(cs, "", rest)
  {
    SkipLiteral(cs, str[from..], lit, rest);
    assert str[from..][..|lit|] == str[from..] && str[from..][|lit|..] == "";
    forall k | from < k <= |str| ensures !Matches(cs, str[k..], lit + rest) || lit == "" {
      SkipLiteral(cs, str[k..], lit, rest);
    }
    if lit == "" && MatchesFrom(cs, str, from, lit + rest) {
      assert from == |str|;
    }
  }

  lemma {:induction false} OnlyStars(cs: bool, mask: string)
    ensures Matches(cs, "", mask) <==> forall i :: 0 <= i < |mask| ==> mask[i] == '*'
    decreases |mask|
  {
    if mask != "" {
      OnlyStars(cs, mask[1..]);
      if mask[0] == '*' {
        assert Matches(cs, "", mask) <==> Matches(cs, "", mask[1..]) by {
          assert ""[0..] == "";
          if k :| 0 <= k <= 0 && Matches(cs, ""[k..], mask[1..]) { assert ""[k..] == ""; }
        }
        assert forall i :: 0 < i < |mask| ==> mask[i] == mask[1..][i - 1];
      }
    }
  }

  lemma FitsAllExtends(cs: bool, mask: string, str: string, m: nat, w: nat, i: nat)
    requires m <= w < |mask| && w - m <= i < |str|
    requires FitsAll(cs, mask[m..w], str[i - (w - m)..i]) && mask[w] != '*' && Fits(cs, mask[w], str[i])
    ensures FitsAll(cs, mask[m..w + 1], str[i - (w - m)..i + 1])
  {
    assert mask[m..w + 1] == mask[m..w] + [mask[w]];
    assert str[i - (w - m)..i + 1] == str[i - (w - m)..i] + [str[i]];
  }

  /** The state of the second loop. Before the first star the rest of the text has to match
      the rest of the mask. Behind a star, mp is the mask position behind it, cp - 1 the
      start that is being tried, and the text between cp - 1 and s fits the mask between mp and w. */
  ghost predicate Attempt(cs: bool, str: string, mask: string, answer: bool, s: nat, w: nat, mp: nat, cp: nat) {
    && s <= |str| && w <= |mask|
    && if mp == 0 then
         && cp == 0 && (s == |str| || (w < |mask| && mask[w] == '*'))
         && (answer <==> Matches(cs, str[s..], mask[w..]))
       else
         && mp <= w && mp < |mask| && 0 < cp && w - mp == s - (cp - 1)
         && FitsAll(cs, mask[mp..w], str[cp - 1..s])
         && (answer <==> MatchesFrom(cs, str, cp - 1, mask[mp..]))
  }

  lemma CutMask(mask: string, mp: nat, w: nat)
    requires mp <= w <= |mask|
    ensures mask[mp..] == mask[mp..w] + mask[w..]
  {
  }

  lemma StarStep(cs: bool, str: string, mask: string, answer: bool, s: nat, w: nat, mp: nat, cp: nat)
    requires Attempt(cs, str, mask, answer, s, w, mp, cp) && w < |mask| && mask[w] == '*'
    ensures answer <==> MatchesFrom(cs, str, s, mask[w + 1..])
  {
    hide Matches, Fits, FitsAll, MatchesFrom;
    var rest := mask[w..];
    assert rest[1..] == mask[w + 1..];
    StarIsMatchesFrom(cs, str, s, rest);
    if mp != 0 {
      CutMask(mask, mp, w);
      AttemptHasNoStar(cs, str, mask, answer, s, w, mp, cp);
      LastStarSuffices(cs, str, cp - 1, mask[mp..w], rest);
    }
  }

  lemma AttemptHasNoStar(cs: bool, str: string, mask: string, answer: bool, s: nat, w: nat, mp: nat, cp: nat)
    requires Attempt(cs, str, mask, answer, s, w, mp, cp) && mp != 0
    ensures forall i :: 0 <= i < |mask[mp..w]| ==> mask[mp..w][i] != '*'
  {
    hide Matches, Fits, MatchesFrom;
  }

  lemma StarStarts(cs: bool, str: string, mask: string, answer: bool, s: nat, w: nat)
    requires s < |str| && 0 < w < |mask| && (answer <==> MatchesFrom(cs, str, s, mask[w..]))
    ensures Attempt(cs, str, mask, answer, s, w, w, s + 1)
  {
    hide Matches, MatchesFrom;
    assert mask[w..w] == "" && str[s..s] == "";
  }

  lemma FitStep(cs: bool, str: string, mask: string, answer: bool, s: nat, w: nat, mp: nat, cp: nat)
    requires Attempt(cs, str, mask, answer, s, w, mp, cp) && s < |str|
    requires w < |mask| && mask[w] != '*' && Fits(cs, mask[w], str[s])
    ensures Attempt(cs, str, mask, answer, s + 1, w + 1, mp, cp)
  {
    hide Matches, MatchesFrom, Fits, FitsAll;
    FitsAllExtends(cs, mask, str, mp, w, s);
  }

  lemma MismatchStep(cs: bool, str: string, mask: string, answer: bool, s: nat, w: nat, mp: nat, cp: nat)
    requires Attempt(cs, str, mask, answer, s, w, mp, cp) && s < |str|
    requires w == |mask| || (mask[w] != '*' && !Fits(cs, mask[w], str[s]))
    ensures mp != 0 && cp <= |str| && Attempt(cs, str, mask, answer, cp, mp, mp, cp + 1)
  {
    hide Matches, MatchesFrom, Fits;
    AttemptHasNoStar(cs, str, mask, answer, s, w, mp, cp);
    CutMask(mask, mp, w);
    MismatchAdvances(cs, str, cp - 1, mask[mp..w], mask[w..]);
    assert mask[mp..mp] == "" && str[cp..cp] == "";
  }

  lemma EndStep(cs: bool, str: string, mask: string, answer: bool, w: nat, mp: nat, cp: nat)
    requires Attempt(cs, str, mask, answer, |str|, w, mp, cp)
    ensures answer <==> forall i :: 0 <= i < |mask[w..]| ==> mask[w..][i] == '*'
  {
    hide Matches, MatchesFrom, Fits, FitsAll;
    assert str[|str|..] == "";
    if mp != 0 {
      assert str[cp - 1..|str|] == str[cp - 1..];
      AttemptHasNoStar(cs, str, mask, answer, |str|, w, mp, cp);
      CutMask(mask, mp, w);
      EndOfText(cs, str, cp - 1, mask[mp..w], mask[w..]);
    }
    OnlyStars(cs, mask[w..]);
  }

  lemma LastStarMatchesAll(cs: bool, str: string, i: nat)
    requires i <= |str|
    ensures MatchesFrom(cs, str, i, "")
  {
    assert Matches(cs, str[|str|..], "");
  }

  /** csmatch and match: caseSensitive tells them apart. */
  method Match(caseSensitive: bool, str: CString, mask: CString) returns (r: bool)
    ensures r <==> Matches(caseSensitive, str, mask)
  {
    hide Matches, MatchesFrom, Fits, FitsAll, Attempt;
    ghost var answer := Matches(caseSensitive, str, mask);
    var s, wild := MatchLiteralFront(caseSensitive, str, mask);
    if s < |str| && (wild == |mask| || mask[wild] != '*') { return false; }

    var mp, cp := 0, 0;
    while At0(str, s) != '\0'
      invariant 0 <= s <= |str| && 0 <= wild <= |mask| && 0 <= mp <= |mask| && 0 <= cp <= |str| + 1
      invariant Attempt(caseSensitive, str, mask, answer, s, wild, mp, cp)
      decreases |mask| - mp, |str| + 1 - cp, |str| - s
    {
      AttemptBounds(caseSensitive, str, mask, answer, s, wild, mp, cp);
      if At0(mask, wild) == '*' {
        StarStep(caseSensitive, str, mask, answer, s, wild, mp, cp);
        wild := wild + 1;
        if At0(mask, wild) == '\0' {
          assert mask[wild..] == "";
          LastStarMatchesAll(caseSensitive, str, s);
          return true;
        }
        StarStarts(caseSensitive, str, mask, answer, s, wild);
        mp := wild;
        cp := s + 1;
      } else if wild < |mask| && Fits(caseSensitive, mask[wild], str[s]) {
        FitStep(caseSensitive, str, mask, answer, s, wild, mp, cp);
        wild := wild + 1;
        s := s + 1;
      } else {
        MismatchStep(caseSensitive, str, mask, answer, s, wild, mp, cp);
        wild := mp;
        s := cp;
        cp := cp + 1;
      }
    }
    EndStep(caseSensitive, str, mask, answer, wild, mp, cp);
    ghost var tail := wild;
    while At0(mask, wild) == '*'
      invariant tail <= wild <= |mask|
      invariant forall i :: tail <= i < wild ==> mask[i] == '*'
      decreases |mask| - wild
    {
      wild := wild + 1;
    }
    r := At0(mask, wild) == '\0';
    if !r { assert mask[tail..][wild - tail] == mask[wild]; }
  }

  lemma AttemptBounds(cs: bool, str: string, mask: string, answer: bool, s: nat, w: nat, mp: nat, cp: nat)
    requires Attempt(cs, str, mask, answer, s, w, mp, cp)
    ensures mp <= w && cp <= s + 1 && (mp == 0 ==> s == |str| || (w < |mask| && mask[w] == '*'))
  {
    hide Matches, MatchesFrom, FitsAll;
  }

  /** The first loop: up to the first star the text has to fit character by character. */
  method MatchLiteralFront(cs: bool, str: CString, mask: CString) returns (s: nat, wild: nat)
    ensures s <= |str| && wild <= |mask|
    ensures s == |str| || (wild < |mask| && mask[wild] == '*') ==>
              Attempt(cs, str, mask, Matches(cs, str, mask), s, wild, 0, 0)
    ensures s < |str| && (wild == |mask| || mask[wild] != '*') ==> !Matches(cs, str, mask)
  {
    hide Matches, MatchesFrom, Fits;
    s, wild := 0, 0;
    while At0(str, s) != '\0' && At0(mask, wild) != '*'
      invariant wild == s <= |str| && wild <= |mask|
      invariant FitsAll(cs, mask[..wild], str[..s])
      decreases |str| - s
    {
      if wild == |mask| || !Fits(cs, mask[wild], str[s]) {
        FirstMismatch(cs, str, mask, wild);
        return;
      }
      FitsAllExtends(cs, mask, str, 0, wild, s);
      wild := wild + 1;
      s := s + 1;
    }
    SkipLiteral(cs, str, mask[..wild], mask[wild..]);
    assert mask[..wild] + mask[wild..] == mask;
  }

  lemma FirstMismatch(cs: bool, str: string, mask: string, n: nat)
    requires n < |str| && n <= |mask| && FitsAll(cs, mask[..n], str[..n])
    requires n == |mask| || (mask[n] != '*' && !Fits(cs, mask[n], str[n]))
    ensures !Matches(cs, str, mask)
  {
    SkipLiteral(cs, str, mask[..n], mask[n..]);
    assert mask[..n] + mask[n..] == mask;
  }

  /** match is csmatch on lower-case strings. */
  lemma {:induction false} CaselessIsLower(str: string, mask: string)
    ensures Matches(false, str, mask) <==> Matches(true, Lower(str), Lower(mask))
    decreases |mask|
  {
    if mask != "" {
      assert Lower(mask)[1..] == Lower(mask[1..]);
      assert ToLower(mask[0]) == '*' <==> mask[0] == '*';
      if mask[0] == '*' {
        forall k | 0 <= k <= |str|
          ensures Matches(false, str[k..], mask[1..]) <==> Matches(true, Lower(str)[k..], Lower(mask)[1..])
        {
          assert Lower(str)[k..] == Lower(str[k..]);
          CaselessIsLower(str[k..], mask[1..]);
        }
      } else if str != "" {
        assert Lower(str)[1..] == Lower(str[1..]);
        CaselessIsLower(str[1..], mask[1..]);
      }
    }
  }
}
