/** Duration: a string of numbers with units, evaluated from right to left in one pass. */
module Duration {
  import opened Text

  /** The table duration_multi. */
  function Multiplier(c: char): nat {
    if c == 'D' || c == 'd' then 86400
    else if c == 'H' || c == 'h' then 3600
    else if c == 'M' || c == 'm' then 60
    else if c == 'W' || c == 'w' then 604800
    else if c == 'Y' || c == 'y' then 31536000
    else 1
  }

  function Digit(c: char): int { (c as int) - ('0' as int) }

  /** The meaning, from left to right: a number counts in the unit behind it, and a number
      at the end in seconds. acc is the number read so far. */
  function Seconds(s: string, acc: int): int {
    if s == "" then acc
    else if IsDigit(s[0]) then Seconds(s[1..], acc * 10 + Digit(s[0]))
    else acc * Multiplier(s[0]) + Seconds(s[1..], 0)
  }

  /** What the loop knows about a suffix: with the number acc in front of it, it means this. */
  ghost predicate Summary(s: string, times: int, subtotal: int, multiplier: int, total: int) {
    forall acc: int :: Seconds(s, acc) == (acc * times + subtotal) * multiplier + total
  }

  lemma SummaryDigit(s: string, c: char, times: int, subtotal: int, multiplier: int, total: int)
    requires Summary(s, times, subtotal, multiplier, total) && IsDigit(c)
    ensures Summary([c] + s, times * 10, subtotal + Digit(c) * times, multiplier, total)
  {
    var s' := [c] + s;
    assert s'[1..] == s;
    forall acc: int
      ensures Seconds(s', acc) == (acc * (times * 10) + (subtotal + Digit(c) * times)) * multiplier + total
    {
      var acc' := acc * 10 + Digit(c);
      assert Seconds(s, acc') == (acc' * times + subtotal) * multiplier + total;
      assert acc' * times == acc * (times * 10) + Digit(c) * times;
    }
  }

  lemma SummaryUnit(s: string, c: char, times: int, subtotal: int, multiplier: int, total: int)
    requires Summary(s, times, subtotal, multiplier, total) && !IsDigit(c)
    ensures Summary([c] + s, 1, 0, Multiplier(c), total + subtotal * multiplier)
  {
    var s' := [c] + s;
    assert s'[1..] == s;
    forall acc: int ensures Seconds(s', acc) == (acc * 1 + 0) * Multiplier(c) + (total + subtotal * multiplier) {
      assert Seconds(s, 0) == (0 * times + subtotal) * multiplier + total;
    }
  }

  /** InspIRCd::Duration; the multiplier is kept as the unit character, 0 for none. */
  method Duration(str: string) returns (seconds: int)
    ensures seconds == Seconds(str, 0)
  {
    hide Seconds, Multiplier;
    var multiplier, total, times, subtotal := '\0', 0, 1, 0;
    NoUnit();
    var i := |str|;
    assert str[i..] == "";
    while i > 0
      invariant 0 <= i <= |str|
      invariant Summary(str[i..], times, subtotal, Multiplier(multiplier), total)
    {
      i := i - 1;
      assert str[i..] == [str[i]] + str[i + 1..];
      if IsDigit(str[i]) {
        SummaryDigit(str[i + 1..], str[i], times, subtotal, Multiplier(multiplier), total);
        subtotal := subtotal + Digit(str[i]) * times;
        times := times * 10;
      } else {
        SummaryUnit(str[i + 1..], str[i], times, subtotal, Multiplier(multiplier), total);
        if subtotal != 0 { total := total + subtotal * Multiplier(multiplier); }
        subtotal := 0;
        multiplier := str[i];
        times := 1;
      }
    }
    assert str[0..] == str && 0 * times == 0;
    assert Seconds(str, 0) == (0 * times + subtotal) * Multiplier(multiplier) + total;
    if multiplier != '\0' {
      total := total + subtotal * Multiplier(multiplier);
      subtotal := 0;
    }
    seconds := total + subtotal;
  }

  lemma NoUnit()
    ensures Multiplier('\0') == 1 && Summary("", 1, 0, 1, 0)
  {
  }

  /** Durations add up behind a unit letter. */
  lemma {:induction false} SecondsAdd(a: string, b: string, acc: int)
    requires a == "" ==> acc == 0
    requires a != "" ==> !IsDigit(a[|a| - 1])
    ensures Seconds(a + b, acc) == Seconds(a, acc) + Seconds(b, 0)
    decreases |a|
  {
    if a == "" {
      assert a + b == b;
    } else {
      assert (a + b)[1..] == a[1..] + b;
      if IsDigit(a[0]) {
        SecondsAdd(a[1..], b, acc * 10 + Digit(a[0]));
      } else {
        SecondsAdd(a[1..], b, 0);
      }
    }
  }

  lemma {:induction false} SecondsOfNumber(n: nat, rest: string)
    ensures Seconds(Decimal(n) + rest, 0) == Seconds(rest, n)
    decreases n
  {
    if n < 10 {
      assert (Decimal(n) + rest)[1..] == rest;
    } else {
      var tail := [DigitOf(n % 10)] + rest;
      assert Decimal(n) + rest == Decimal(n / 10) + tail;
      SecondsOfNumber(n / 10, tail);
      assert tail[1..] == rest;
    }
  }

  /** n years of 365 days, weeks, days, hours or minutes count as many seconds as they have, in
      front of whatever follows and with the letter in either case. Any other character counts
      like a second, and so does a bare number at the end. */
  lemma SecondsOfUnit(n: nat, unit: char, rest: string)
    requires !IsDigit(unit)
    ensures Seconds(Decimal(n) + [unit] + rest, 0) == Seconds(rest, 0) +
              if unit == 'y' || unit == 'Y' then n * (365 * 24 * 60 * 60)
              else if unit == 'w' || unit == 'W' then n * (7 * 24 * 60 * 60)
              else if unit == 'd' || unit == 'D' then n * (24 * 60 * 60)
              else if unit == 'h' || unit == 'H' then n * (60 * 60)
              else if unit == 'm' || unit == 'M' then n * 60
              else n
    ensures Seconds(Decimal(n), 0) == n
  {
    assert Decimal(n) + [unit] + rest == Decimal(n) + ([unit] + rest);
    SecondsOfNumber(n, [unit] + rest);
    assert ([unit] + rest)[1..] == rest;
    SecondsOfNumber(n, "");
    assert Decimal(n) + "" == Decimal(n);
  }
}
